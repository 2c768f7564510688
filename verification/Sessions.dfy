/** The table of hooked kernel sessions (`ipc.c`): a sorted array with binary search. */
module Sessions {

  const MAX_SESSION := 345

  /** A session is known by its address; 0 is no session. */
  datatype Info = Info(session: nat, name: string)

  const EMPTY := Info(0, "")

  ghost predicate Sorted(t: seq<Info>) {
    forall i, j :: 0 <= i < j < |t| ==> t[i].session < t[j].session
  }

  /** The sessions a table holds. */
  ghost function Members(t: seq<Info>): set<nat> {
    set i | 0 <= i < |t| :: t[i].session
  }

  /** How many entries lie below `s`: where `s` is, or where it would go. */
  function Slot(t: seq<Info>, s: nat): (n: nat)
    ensures n <= |t|
  {
    if t == [] then 0 else if t[0].session < s then 1 + Slot(t[1..], s) else 0
  }

  /** In a sorted table the slot separates the smaller entries from the others. */
  lemma {:induction false} SlotSplits(t: seq<Info>, s: nat)
    requires Sorted(t)
    ensures forall i :: 0 <= i < Slot(t, s) ==> t[i].session < s
    ensures forall i :: Slot(t, s) <= i < |t| ==> s <= t[i].session
    decreases |t|
  {
    if t != [] && t[0].session < s {
      SlotSplits(t[1..], s);
      assert forall i :: 0 < i < |t| ==> t[i] == t[1..][i - 1];
    }
  }

  /** Any index that separates is the slot. */
  lemma SlotUnique(t: seq<Info>, s: nat, n: nat)
    requires Sorted(t) && n <= |t|
    requires forall i :: 0 <= i < n ==> t[i].session < s
    requires forall i :: n <= i < |t| ==> s <= t[i].session
    ensures Slot(t, s) == n
  {
    SlotSplits(t, s);
    if Slot(t, s) < |t| { assert s <= t[Slot(t, s)].session; }
    if n < |t| { assert s <= t[n].session; }
  }

  predicate Registered(t: seq<Info>, s: nat) {
    Slot(t, s) < |t| && t[Slot(t, s)].session == s
  }

  lemma RegisteredIff(t: seq<Info>, s: nat)
    requires Sorted(t)
    ensures Registered(t, s) <==> s in Members(t)
  {
    SlotSplits(t, s);
    if s in Members(t) {
      var i :| 0 <= i < |t| && t[i].session == s;
      if Slot(t, s) < |t| { assert s <= t[Slot(t, s)].session; }
    }
  }

  /** What the name field of twelve characters keeps. */
  function Field(name: string): (r: string)
    ensures r <= name && |r| <= 12 && (|name| <= 12 ==> r == name) && (|name| > 12 ==> |r| == 12)
  {
    if |name| > 12 then name[..12] else name
  }

  /** `SessionInfo_Add`, as a function of the table. */
  function Added(t: seq<Info>, s: nat, name: string): seq<Info> {
    if |t| == MAX_SESSION || Registered(t, s) then t
    else t[..Slot(t, s)] + [Info(s, Field(name))] + t[Slot(t, s)..]
  }

  /** `SessionInfo_Remove`: takes out the entry at the slot, whosever it is. */
  function Removed(t: seq<Info>, s: nat): seq<Info> {
    if |t| == MAX_SESSION || Slot(t, s) == |t| then t
    else t[..Slot(t, s)] + t[Slot(t, s) + 1..]
  }

  lemma InsertedSorted(t: seq<Info>, n: nat, x: Info)
    requires Sorted(t) && n <= |t|
    requires forall i :: 0 <= i < n ==> t[i].session < x.session
    requires forall i :: n <= i < |t| ==> x.session < t[i].session
    ensures Sorted(t[..n] + [x] + t[n..])
  {
    var r := t[..n] + [x] + t[n..];
    assert forall i :: 0 <= i < n ==> r[i] == t[i];
    assert forall i :: n < i < |r| ==> r[i] == t[i - 1];
  }

  lemma InsertedMembers(t: seq<Info>, n: nat, x: Info)
    requires n <= |t|
    ensures Members(t[..n] + [x] + t[n..]) == Members(t) + {x.session}
  {
    var r := t[..n] + [x] + t[n..];
    forall y | y in Members(t)
      ensures y in Members(r)
    {
      var i :| 0 <= i < |t| && t[i].session == y;
      assert r[if i < n then i else i + 1] == t[i];
    }
    assert r[n] == x;
    forall y | y in Members(r)
      ensures y in Members(t) + {x.session}
    {
      var i :| 0 <= i < |r| && r[i].session == y;
      assert r[i] == if i < n then t[i] else if i == n then x else t[i - 1];
    }
  }

  /** Putting an entry between the smaller and the greater ones. */
  lemma Inserted(t: seq<Info>, n: nat, x: Info)
    requires Sorted(t) && n <= |t|
    requires forall i :: 0 <= i < n ==> t[i].session < x.session
    requires forall i :: n <= i < |t| ==> x.session < t[i].session
    ensures var r := t[..n] + [x] + t[n..];
      Sorted(r) && Members(r) == Members(t) + {x.session} && Slot(r, x.session) == n
  {
    hide Sorted, Members, Slot;
    InsertedSorted(t, n, x);
    InsertedMembers(t, n, x);
    SlotUnique(t[..n] + [x] + t[n..], x.session, n);
  }

  /** Adding keeps the order and adds exactly the session, unless it is there or the table is full. */
  lemma AddedMembers(t: seq<Info>, s: nat, name: string)
    requires Sorted(t) && |t| <= MAX_SESSION
    ensures Sorted(Added(t, s, name)) && |Added(t, s, name)| <= MAX_SESSION
    ensures Members(Added(t, s, name)) == if |t| == MAX_SESSION then Members(t) else Members(t) + {s}
    ensures |t| < MAX_SESSION ==> Registered(Added(t, s, name), s)
    ensures |t| < MAX_SESSION && !Registered(t, s) ==> Slot(Added(t, s, name), s) == Slot(t, s)
  {
    SlotSplits(t, s);
    RegisteredIff(t, s);
    if |t| < MAX_SESSION && !Registered(t, s) {
      Inserted(t, Slot(t, s), Info(s, Field(name)));
    }
  }

  lemma CutSorted(t: seq<Info>, n: nat)
    requires Sorted(t) && n < |t|
    ensures Sorted(t[..n] + t[n + 1..])
  {
    var r := t[..n] + t[n + 1..];
    assert forall i :: 0 <= i < n ==> r[i] == t[i];
    assert forall i :: n <= i < |r| ==> r[i] == t[i + 1];
  }

  lemma CutMembers(t: seq<Info>, n: nat)
    requires Sorted(t) && n < |t|
    ensures Members(t[..n] + t[n + 1..]) == Members(t) - {t[n].session}
  {
    var r := t[..n] + t[n + 1..];
    forall y | y in Members(t) && y != t[n].session
      ensures y in Members(r)
    {
      var i :| 0 <= i < |t| && t[i].session == y;
      assert r[if i < n then i else i - 1] == t[i];
    }
    forall y | y in Members(r)
      ensures y in Members(t) - {t[n].session}
    {
      var i :| 0 <= i < |r| && r[i].session == y;
      assert r[i] == t[if i < n then i else i + 1];
    }
  }

  /** Removing keeps the order. A registered session of a table that is not full is taken out, and
      nothing else. */
  lemma RemovedMembers(t: seq<Info>, s: nat)
    requires Sorted(t) && |t| <= MAX_SESSION
    ensures Sorted(Removed(t, s)) && |Removed(t, s)| <= |t|
    ensures |t| < MAX_SESSION && Slot(t, s) < |t| ==> Members(Removed(t, s)) == Members(t) - {t[Slot(t, s)].session}
  {
    hide Sorted, Members, Slot;
    if |t| < MAX_SESSION && Slot(t, s) < |t| {
      CutSorted(t, Slot(t, s));
      CutMembers(t, Slot(t, s));
    }
  }

  /** A removal takes out its own session and nothing else exactly when the session is registered or
      above all others, and the table is not full or does not hold it. */
  lemma RemoveIsExactIff(t: seq<Info>, s: nat)
    requires Sorted(t) && |t| <= MAX_SESSION
    ensures Members(Removed(t, s)) == Members(t) - {s} <==>
      if |t| == MAX_SESSION then !Registered(t, s) else Registered(t, s) || Slot(t, s) == |t|
  {
    RegisteredIff(t, s);
    RemovedMembers(t, s);
    if |t| < MAX_SESSION && Slot(t, s) < |t| {
      var x := t[Slot(t, s)].session;
      assert x in Members(t) && x !in Members(Removed(t, s));
    }
  }

  /** Removing undoes adding. */
  lemma RemoveUndoesAdd(t: seq<Info>, s: nat, name: string)
    requires Sorted(t) && |t| + 1 < MAX_SESSION && !Registered(t, s)
    ensures Removed(Added(t, s, name), s) == t
  {
    hide Slot, Sorted, Members;
    AddedMembers(t, s, name);
    var n, t' := Slot(t, s), Added(t, s, name);
    assert t'[..n] == t[..n] && t'[n + 1..] == t[n..];
  }

  /** `SessionInfo_Lookup`: the index found. `hooked` tells which sessions carry the custom vtable; the
      address of the entry at the slot is not compared with `s`. */
  ghost function LookedUp(t: seq<Info>, s: nat, hooked: set<nat>): (r: int)
    ensures -1 <= r < |t|
  {
    if Slot(t, s) == |t| then -1
    else if t[Slot(t, s)].session in hooked then Slot(t, s)
    else -1
  }

  /** A lookup never answers with another session's entry exactly when the session is registered, or no
      hooked one follows it. */
  lemma LookupIsExactIff(t: seq<Info>, s: nat, hooked: set<nat>)
    requires Sorted(t)
    ensures var r := LookedUp(t, s, hooked);
      (r >= 0 ==> t[r].session == s) <==> Registered(t, s) || Slot(t, s) == |t| || t[Slot(t, s)].session !in hooked
    ensures s in Members(t) && s in hooked ==> LookedUp(t, s, hooked) >= 0 && t[LookedUp(t, s, hooked)].session == s
  {
    RegisteredIff(t, s);
  }

  datatype Call = Add(session: nat, name: string) | Remove(session: nat)

  function Applied(t: seq<Info>, c: Call): seq<Info> {
    match c
    case Add(s, name) => Added(t, s, name)
    case Remove(s) => Removed(t, s)
  }

  function After(t: seq<Info>, calls: seq<Call>): seq<Info>
    decreases |calls|
  {
    if calls == [] then t else After(Applied(t, calls[0]), calls[1..])
  }

  /** Over every run the table stays sorted and within its bounds; once full it never changes again. */
  lemma {:induction false} RunsKeepTable(t: seq<Info>, calls: seq<Call>)
    requires Sorted(t) && |t| <= MAX_SESSION
    ensures Sorted(After(t, calls)) && |After(t, calls)| <= MAX_SESSION
    ensures |t| == MAX_SESSION ==> After(t, calls) == t
    decreases |calls|
  {
    if calls != [] {
      match calls[0] {
        case Add(s, name) => AddedMembers(t, s, name);
        case Remove(s) => RemovedMembers(t, s);
      }
      RunsKeepTable(Applied(t, calls[0]), calls[1..]);
    }
  }

  /** The entries of a table as a set. */
  ghost function Entries(t: seq<Info>): set<Info> {
    set x | x in t
  }

  /** What a call means for a set of named sessions. */
  ghost function Meant(e: set<Info>, c: Call): set<Info> {
    match c
    case Add(s, name) => if exists x :: x in e && x.session == s then e else e + {Info(s, Field(name))}
    case Remove(s) => set x | x in e && x.session != s
  }

  ghost function MeantBy(e: set<Info>, calls: seq<Call>): set<Info>
    decreases |calls|
  {
    if calls == [] then e else MeantBy(Meant(e, calls[0]), calls[1..])
  }

  /** The table never fills up, and only registered sessions are removed. */
  predicate Orderly(t: seq<Info>, calls: seq<Call>)
    decreases |calls|
  {
    calls == [] ||
    (|t| < MAX_SESSION && (calls[0].Remove? ==> Registered(t, calls[0].session)) &&
     Orderly(Applied(t, calls[0]), calls[1..]))
  }

  lemma AddIsMeant(t: seq<Info>, s: nat, name: string)
    requires Sorted(t) && |t| < MAX_SESSION
    ensures Entries(Added(t, s, name)) == Meant(Entries(t), Add(s, name))
  {
    hide Slot, Sorted;
    var n := Slot(t, s);
    RegisteredIff(t, s);
    if Registered(t, s) {
      assert t[n] in Entries(t);
    } else {
      forall x | x in Entries(t) ensures x.session != s { assert x.session in Members(t); }
      assert t[..n] + t[n..] == t;
    }
  }

  lemma RemoveIsMeant(t: seq<Info>, s: nat)
    requires Sorted(t) && |t| < MAX_SESSION && Registered(t, s)
    ensures Entries(Removed(t, s)) == Meant(Entries(t), Remove(s))
  {
    hide Slot, Members;
    var n := Slot(t, s);
    assert t[..n] + [t[n]] + t[n + 1..] == t;
  }

  /** In an orderly run the table is the sorted list of the sessions the calls stand for, each with its name. */
  lemma {:induction false} OrderlyRunIsExact(t: seq<Info>, calls: seq<Call>)
    requires Sorted(t) && |t| <= MAX_SESSION && Orderly(t, calls)
    ensures Sorted(After(t, calls)) && Entries(After(t, calls)) == MeantBy(Entries(t), calls)
    decreases |calls|
  {
    if calls != [] {
      match calls[0] {
        case Add(s, name) => AddIsMeant(t, s, name); AddedMembers(t, s, name);
        case Remove(s) => RemoveIsMeant(t, s); RemovedMembers(t, s);
      }
      OrderlyRunIsExact(Applied(t, calls[0]), calls[1..]);
    }
  }

  /** The table in memory. */
  class SessionTable {
    const infos: array<Info>
    var nb: nat

    /** The slots in use are sorted, the others are cleared. */
    ghost predicate Valid()
      reads this, infos
    {
      && infos.Length == MAX_SESSION && nb <= MAX_SESSION
      && Sorted(infos[..nb])
      && forall i :: nb <= i < MAX_SESSION ==> infos[i] == EMPTY
    }

    ghost function Table(): seq<Info>
      requires Valid()
      reads this, infos
    {
      infos[..nb]
    }

    constructor ()
      ensures Valid() && Table() == [] && fresh(infos)
    {
      infos := new Info[MAX_SESSION](_ => EMPTY);
      nb := 0;
    }

    /** `SessionInfo_FindClosestSlot`: binary search for the slot. */
    method FindClosestSlot(s: nat) returns (id: nat)
      requires Valid()
      ensures id == Slot(Table(), s)
    {
      ghost var t := infos[..nb];
      if nb == 0 || s <= infos[0].session {
        SlotUnique(t, s, 0);
        return 0;
      } else if s > infos[nb - 1].session {
        SlotUnique(t, s, nb);
        return nb;
      }
      var a, b := 0, nb - 1;
      while true
        invariant 0 <= a < b < nb
        invariant t[a].session < s <= t[b].session
        decreases b - a
      {
        var m := (a + b) / 2;
        if infos[m].session < s {
          a := m;
        } else if infos[m].session > s {
          b := m;
        } else {
          SlotUnique(t, s, m);
          return m;
        }
        if !(b - a > 1) { break; }
      }
      SlotUnique(t, s, b);
      return b;
    }

    /** `SessionInfo_Lookup`; -1 for NULL. */
    method Lookup(s: nat, hooked: set<nat>) returns (r: int)
      requires Valid()
      ensures r == LookedUp(Table(), s, hooked)
    {
      var id := FindClosestSlot(s);
      if id == nb { return -1; }
      r := if infos[id].session in hooked then id else -1;
    }

    /** Moves the entries from `id` on up by one. */
    method ShiftUp(id: nat)
      requires infos.Length == MAX_SESSION && id <= nb < MAX_SESSION
      modifies infos
      ensures infos[..] == MovedUp(old(infos[..]), id, nb)
    {
      hide MovedUp;
      ghost var a := infos[..];
      var i := nb;
      UpStarts(a, nb);
      while i > id && i != 0
        invariant id <= i <= nb
        invariant infos[..] == MovedUp(a, i, nb)
      {
        UpStep(a, i, nb);
        infos[i] := infos[i - 1];
        i := i - 1;
      }
    }

    /** Moves the entries behind `id` down by one. */
    method ShiftDown(id: nat)
      requires infos.Length == MAX_SESSION && id < nb <= MAX_SESSION
      modifies infos
      ensures infos[..] == MovedDown(old(infos[..]), id, nb - 1)
    {
      hide MovedDown;
      ghost var a := infos[..];
      var i := id;
      DownStarts(a, id);
      while i < nb - 1
        invariant id <= i <= nb - 1
        invariant infos[..] == MovedDown(a, id, i)
      {
        DownStep(a, id, i);
        infos[i] := infos[i + 1];
        i := i + 1;
      }
    }

    /** `SessionInfo_Add`. */
    method Add(s: nat, name: string)
      requires Valid()
      modifies this, infos
      ensures Valid() && Table() == Added(old(Table()), s, name)
    {
      hide Slot, Sorted, Members, Field;
      ghost var t, was := Table(), infos[..];
      AddedMembers(t, s, name);
      if nb == MAX_SESSION { return; }
      var id := FindClosestSlot(s);
      if id != nb && infos[id].session == s { return; }
      ShiftUp(id);
      infos[id] := Info(s, Field(name));
      InsertedInPlace(was, infos[..], id, nb, Info(s, Field(name)));
      nb := nb + 1;
    }

    /** `SessionInfo_Remove`. */
    method Remove(s: nat)
      requires Valid()
      modifies this, infos
      ensures Valid() && Table() == Removed(old(Table()), s)
    {
      hide Slot, Sorted, Members;
      ghost var t, was := Table(), infos[..];
      RemovedMembers(t, s);
      if nb == MAX_SESSION { return; }
      var id := FindClosestSlot(s);
      if id == nb { return; }
      ShiftDown(id);
      nb := nb - 1;
      infos[nb] := EMPTY;
      CutInPlace(was, infos[..], id, nb + 1);
    }
  }

  /** `a` with the entries `id..n` moved up by one, over the entry `n`. */
  function MovedUp(a: seq<Info>, id: nat, n: nat): (r: seq<Info>)
    requires id <= n < |a|
    ensures |r| == |a|
  {
    a[..id] + [a[id]] + a[id..n] + a[n + 1..]
  }

  /** `a` with the entries behind `id` up to `k` moved down by one. */
  function MovedDown(a: seq<Info>, id: nat, k: nat): (r: seq<Info>)
    requires id <= k < |a|
    ensures |r| == |a|
  {
    a[..id] + a[id + 1..k + 1] + a[k..]
  }

  lemma UpStarts(a: seq<Info>, n: nat)
    requires n < |a|
    ensures MovedUp(a, n, n) == a
  {
  }

  lemma UpStep(a: seq<Info>, i: nat, n: nat)
    requires 0 < i <= n < |a|
    ensures var m := MovedUp(a, i, n); MovedUp(a, i - 1, n) == m[i := m[i - 1]]
  {
    assert a[i - 1..n] == [a[i - 1]] + a[i..n] && a[..i] == a[..i - 1] + [a[i - 1]];
  }

  lemma DownStarts(a: seq<Info>, id: nat)
    requires id < |a|
    ensures MovedDown(a, id, id) == a
  {
  }

  lemma DownStep(a: seq<Info>, id: nat, k: nat)
    requires id <= k < |a| - 1
    ensures var m := MovedDown(a, id, k); MovedDown(a, id, k + 1) == m[k := m[k + 1]]
  {
    assert a[id + 1..k + 2] == a[id + 1..k + 1] + [a[k + 1]] && a[k..] == [a[k]] + a[k + 1..];
  }

  lemma InsertedInPlace(a: seq<Info>, b: seq<Info>, id: nat, n: nat, x: Info)
    requires id <= n < |a| && b == MovedUp(a, id, n)[id := x]
    ensures b[..n + 1] == a[..n][..id] + [x] + a[..n][id..]
    ensures b[n + 1..] == a[n + 1..]
    ensures forall j :: n < j < |a| ==> b[j] == a[j]
  {
  }

  lemma CutInPlace(a: seq<Info>, b: seq<Info>, id: nat, n: nat)
    requires id < n <= |a| && b == MovedDown(a, id, n - 1)[n - 1 := EMPTY]
    ensures b[..n - 1] == a[..n][..id] + a[..n][id + 1..]
    ensures forall j :: n <= j < |a| ==> b[j] == a[j]
  {
  }
}
