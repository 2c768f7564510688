/** What `create_chain` and `remove_chain` do to the FAT and the free-space bookkeeping,
    as functions of the state before the call, and what every run of them keeps. */
module AllocSpec {
  import opened Bytes
  import opened Chains

  /** The FAT with `free_clst` and `last_clst`. */
  datatype Alloc = Alloc(t: seq<u32>, free: u32, last: u32)

  datatype Outcome = Outcome(result: u32, state: Alloc)
  datatype Removal = Removal(ok: bool, state: Alloc)

  /** The count is exact, or marked unknown by a value no volume of this size can have. */
  ghost predicate Accurate(s: Alloc)
    requires |s.t| >= 2
  {
    s.free == FreeClusters(s.t) || s.free > |s.t| - 2
  }

  /** If the count was right before, it is right after. */
  ghost predicate KeepsCount(s: Alloc, s': Alloc)
    requires |s.t| >= 2 && |s'.t| >= 2
  {
    Accurate(s) ==> Accurate(s')
  }

  ghost predicate NoOnes(t: seq<u32>) {
    forall c :: 2 <= c < |t| ==> t[c] != 1
  }

  /** How many clusters the search still visits, starting at `ncl` and ending at `scl`. */
  function Distance(n: nat, ncl: nat, scl: nat): nat
    requires ncl < n
  {
    if ncl <= scl then scl - ncl else n - ncl + scl
  }

  /** The search loop of `create_chain` from cluster `ncl` on: a free cluster, 1 on a reserved
      entry, 0 when it came round to `scl`. */
  function Scan(t: seq<u32>, ncl: nat, scl: nat): u32
    requires 2 <= ncl < |t| <= 0x1000_0000 && 1 <= scl < |t|
    decreases Distance(|t|, ncl, scl)
  {
    if t[ncl] == 0 then ncl
    else if t[ncl] == 1 then 1
    else if ncl == scl then 0
    else if ncl + 1 < |t| then Scan(t, ncl + 1, scl)
    else if scl < 2 then 0
    else Scan(t, 2, scl)
  }

  function Search(t: seq<u32>, scl: nat): u32
    requires 3 <= |t| <= 0x1000_0000 && 1 <= scl < |t|
  {
    Scan(t, if scl + 1 < |t| then scl + 1 else 2, scl)
  }

  /** Clusters a wrapping search passes from `a` on before it reaches `b`. */
  predicate Between(a: nat, c: nat, b: nat) {
    if a <= b then a <= c < b else a <= c || c < b
  }

  /** The search stops at the nearest free cluster, and comes back empty only after it saw
      every cluster up to `scl`. */
  lemma {:induction false} ScanFinds(t: seq<u32>, ncl: nat, scl: nat)
    requires 2 <= ncl < |t| <= 0x1000_0000 && 1 <= scl < |t|
    ensures var r := Scan(t, ncl, scl);
      && r < |t|
      && (r >= 2 ==> t[r] == 0 && forall c :: 2 <= c < |t| && Between(ncl, c, r) ==> t[c] > 1)
      && (r == 1 ==> !NoOnes(t))
      && (r == 0 ==> forall c :: 2 <= c < |t| && (Between(ncl, c, scl) || c == scl) ==> t[c] > 1)
    decreases Distance(|t|, ncl, scl)
  {
    if t[ncl] > 1 && ncl != scl {
      if ncl + 1 < |t| {
        ScanFinds(t, ncl + 1, scl);
      } else if scl >= 2 {
        ScanFinds(t, 2, scl);
      }
    }
  }

  lemma SearchFinds(t: seq<u32>, scl: nat)
    requires 3 <= |t| <= 0x1000_0000 && 1 <= scl < |t|
    ensures var r := Search(t, scl);
      && r < |t|
      && (r >= 2 ==> t[r] == 0 && forall c :: 2 <= c < |t| && Between(scl + 1, c, r) && c != scl ==> t[c] > 1)
      && (r == 1 ==> !NoOnes(t))
      && (r == 0 ==> forall c :: 2 <= c < |t| ==> t[c] > 1)
  {
    ScanFinds(t, if scl + 1 < |t| then scl + 1 else 2, scl);
  }

  /** Where `create_chain` takes the new cluster from: right behind the chain end if that is free,
      otherwise the nearest free one after the last allocation. */
  function Pick(s: Alloc, clst: nat): u32
    requires 3 <= |s.t| <= 0x1000_0000 && clst < |s.t| && clst != 1
  {
    var n := |s.t|;
    if clst == 0 then Search(s.t, if s.last == 0 || s.last >= n then 1 else s.last)
    else
      var next := if clst + 1 < n then clst + 1 else 2;
      if s.t[next] == 0 then next
      else if s.t[next] == 1 then 1
      else Search(s.t, if 2 <= s.last < n then s.last else clst)
  }

  /** The FAT after `ncl` became an end and, unless the chain is new, the successor of `clst`. */
  function Linked(t: seq<u32>, eoc: u32, clst: nat, ncl: nat): (r: seq<u32>)
    requires clst < |t| && ncl < |t| <= 0x1000_0000
    ensures |r| == |t|
  {
    if clst == 0 then t[ncl := eoc] else t[ncl := eoc][clst := ncl]
  }

  /** The part of `create_chain` that looks for a cluster and links it. */
  function Allocate(s: Alloc, eoc: u32, clst: u32): Outcome
    requires 3 <= |s.t| <= 0x1000_0000 && (clst == 0 || 2 <= clst < |s.t|) && s.free > 0
  {
    var n := |s.t|;
    var ncl := Pick(s, clst);
    if ncl < 2 || ncl >= n then Outcome(ncl, s)
    else Outcome(ncl, Alloc(Linked(s.t, eoc, clst, ncl), if s.free <= n - 2 then s.free - 1 else s.free, ncl))
  }

  /** `create_chain`: 0 when no cluster is free, 1 on an inconsistent FAT, else the cluster that follows. */
  function CreateChain(s: Alloc, eoc: u32, clst: u32): Outcome
    requires 3 <= |s.t| <= 0x1000_0000
  {
    var n := |s.t|;
    if clst != 0 && (clst < 2 || clst >= n || s.t[clst] < 2) then Outcome(1, s)
    else if clst != 0 && s.t[clst] < n then Outcome(s.t[clst], s)
    else if s.free == 0 then Outcome(0, s)
    else Allocate(s, eoc, clst)
  }

  lemma PickFinds(s: Alloc, clst: nat)
    requires 3 <= |s.t| <= 0x1000_0000 && clst < |s.t| && clst != 1
    ensures var r := Pick(s, clst);
      && r < |s.t|
      && (r >= 2 ==> s.t[r] == 0)
      && (r == 1 ==> !NoOnes(s.t))
      && (r == 0 ==> forall c :: 2 <= c < |s.t| ==> s.t[c] > 1)
  {
    var n := |s.t|;
    if clst == 0 {
      SearchFinds(s.t, if s.last == 0 || s.last >= n then 1 else s.last);
    } else {
      SearchFinds(s.t, if 2 <= s.last < n then s.last else clst);
    }
  }

  /** Which cluster is taken. A chain end whose next cluster is free gets that one. Otherwise it is the first free
      one, in wrapping order, behind the last allocation, or, when that is unknown, behind the chain end, for a
      new chain from cluster 2 on. */
  lemma PickIsNearest(s: Alloc, clst: nat)
    requires 3 <= |s.t| <= 0x1000_0000 && clst < |s.t| && clst != 1 && Pick(s, clst) >= 2
    ensures var n, r := |s.t|, Pick(s, clst);
      var next := if clst + 1 < n then clst + 1 else 2;
      var from: nat := if 2 <= s.last < n then s.last as nat else if clst == 0 then 1 else clst;
      && r < n && s.t[r] == 0
      && (clst != 0 && s.t[next] == 0 ==> r == next)
      && (clst == 0 || s.t[next] != 0 ==>
            forall c :: 2 <= c < n && Between(from + 1, c, r) && c != from ==> s.t[c] != 0)
  {
    var n := |s.t|;
    SearchFinds(s.t, if clst == 0 then (if s.last == 0 || s.last >= n then 1 else s.last)
                     else if 2 <= s.last < n then s.last else clst);
  }

  /** A call that has to allocate: a new chain, or the end of one. */
  ghost predicate Allocates(s: Alloc, clst: nat) {
    clst == 0 || (2 <= clst < |s.t| && s.t[clst] >= |s.t|)
  }

  /** "No free cluster" is reported exactly when the stored count says so or the FAT has none. */
  lemma CreateIsExhaustive(s: Alloc, eoc: u32, clst: u32)
    requires 3 <= |s.t| <= 0x1000_0000 && NoOnes(s.t) && Allocates(s, clst)
    ensures CreateChain(s, eoc, clst).result == 0 <==> s.free == 0 || FreeClusters(s.t) == 0
    ensures Accurate(s) ==> (CreateChain(s, eoc, clst).result == 0 <==> forall c :: 2 <= c < |s.t| ==> s.t[c] != 0)
  {
    hide Pick;
    ZerosNone(s.t, 2, |s.t|);
    if s.free != 0 {
      PickFinds(s, clst);
    }
  }

  /** What allocation does: exactly one free cluster is taken, and the count stays accurate. */
  lemma CreateAllocates(s: Alloc, eoc: u32, clst: u32)
    requires 3 <= |s.t| <= 0x1000_0000 && NoOnes(s.t) && Allocates(s, clst) && eoc >= |s.t|
    ensures var o := CreateChain(s, eoc, clst);
      && o.result != 1
      && (o.result == 0 ==> o.state == s)
      && (o.result != 0 ==>
            && 2 <= o.result < |s.t| && s.t[o.result] == 0
            && o.state.t == Linked(s.t, eoc, clst, o.result)
            && FreeClusters(o.state.t) == FreeClusters(s.t) - 1
            && o.state.last == o.result)
      && (Accurate(s) ==> Accurate(o.state))
  {
    hide Pick;
    if s.free != 0 {
      PickFinds(s, clst);
      var r := Pick(s, clst);
      if r >= 2 {
        ZerosUpdate(s.t, 2, |s.t|, r, eoc);
        if clst != 0 {
          ZerosUpdate(s.t[r := eoc], 2, |s.t|, clst, r);
        }
      }
    }
  }

  /** Whatever a call meets, an accurate count stays accurate. */
  lemma CreateKeepsCount(s: Alloc, eoc: u32, clst: u32)
    requires 3 <= |s.t| <= 0x1000_0000 && eoc >= |s.t|
    ensures KeepsCount(s, CreateChain(s, eoc, clst).state)
  {
    hide Pick;
    if (clst == 0 || (2 <= clst < |s.t| && s.t[clst] >= |s.t|)) && s.free != 0 {
      PickFinds(s, clst);
      var r := Pick(s, clst);
      if r >= 2 {
        ZerosUpdate(s.t, 2, |s.t|, r, eoc);
        if clst != 0 { ZerosUpdate(s.t[r := eoc], 2, |s.t|, clst, r); }
      }
    }
  }

  /** Following or stretching the chain `p` from its `i`-th cluster, or starting one when `p` is empty. */
  lemma CreateOnChain(s: Alloc, eoc: u32, p: seq<nat>, i: nat, clst: u32)
    requires 3 <= |s.t| <= 0x1000_0000 && eoc >= |s.t|
    requires if p == [] then clst == 0 else IsChain(s.t, p) && i < |p| && clst == p[i]
    ensures var o := CreateChain(s, eoc, clst);
      if i + 1 < |p| then p[i + 1] < |s.t| && o == Outcome(p[i + 1], s)
      else
        && (o.result < 2 ==> o.state == s)
        && (o.result == 0 ==> s.free == 0 || FreeClusters(s.t) == 0)
        && (o.result == 1 ==> !NoOnes(s.t))
        && (o.result >= 2 ==>
              && o.result < |s.t| && s.t[o.result] == 0 && o.result !in p
              && IsChain(o.state.t, p + [o.result as nat])
              && |o.state.t| == |s.t|
              && forall c :: 0 <= c < |s.t| && c !in p && c != o.result ==> o.state.t[c] == s.t[c])
  {
    hide Pick;
    if p != [] {
      assert Links(s.t, p, i);
    }
    if i + 1 < |p| {
      assert Links(s.t, p, i + 1);
    } else if s.free != 0 {
      PickFinds(s, clst);
      ZerosNone(s.t, 2, |s.t|);
      var r := Pick(s, clst);
      if r >= 2 {
        if p == [] {
          NewChain(s.t, r, eoc);
        } else {
          StretchChain(s.t, p, r, eoc);
          assert clst in p;
        }
      }
    }
  }

  function Used(t: seq<u32>): (u: nat) {
    |t| - Zeros(t, 0, |t|)
  }

  function CountFreed(free: u32, n: nat): u32
    requires n <= 0x1000_0000
  {
    if free < n - 2 then free + 1 else free
  }

  /** The loop of `remove_chain` from cluster `c` on. It ends on every FAT, because each round
      takes one entry out of use. */
  function FreeFrom(s: Alloc, c: nat): (r: Removal)
    requires 2 <= c < |s.t| <= 0x1000_0000
    ensures |r.state.t| == |s.t| && r.state.last == s.last
    decreases Used(s.t)
  {
    var nxt := s.t[c];
    if nxt == 0 then Removal(true, s)
    else if nxt == 1 then Removal(false, s)
    else
      ZerosUpdate(s.t, 0, |s.t|, c, 0);
      var s' := s.(t := s.t[c := 0], free := CountFreed(s.free, |s.t|));
      if nxt < |s.t| then FreeFrom(s', nxt) else Removal(true, s')
  }

  /** The FAT after cluster `pclst`, unless 0, was made the end of its chain. */
  function Ended(t: seq<u32>, eoc: u32, pclst: nat): (r: seq<u32>)
    requires pclst < |t|
    ensures |r| == |t|
  {
    if pclst == 0 then t else t[pclst := eoc]
  }

  /** `remove_chain`. */
  function RemoveChain(s: Alloc, eoc: u32, clst: u32, pclst: u32): (r: Removal)
    requires 3 <= |s.t| <= 0x1000_0000
    ensures |r.state.t| == |s.t| && r.state.last == s.last
  {
    var n := |s.t|;
    if clst < 2 || clst >= n then Removal(false, s)
    else if pclst == 0 then FreeFrom(s, clst)
    else if pclst < 2 || pclst >= n then Removal(false, s)
    else FreeFrom(s.(t := s.t[pclst := eoc]), clst)
  }

  /** The clusters the loop of `remove_chain` visits. */
  function Walked(t: seq<u32>, c: nat): (v: set<nat>)
    requires 2 <= c < |t|
    ensures c in v
    decreases Used(t)
  {
    if 2 <= t[c] < |t| then
      ZerosUpdate(t, 0, |t|, c, 0);
      {c} + Walked(t[c := 0], t[c])
    else {c}
  }

  /** On any FAT the loop only ever clears entries it visits, and keeps an accurate count accurate. */
  lemma {:induction false} FreeFromKeeps(s: Alloc, c: nat)
    requires 2 <= c < |s.t| <= 0x1000_0000
    ensures forall d :: 0 <= d < |s.t| && FreeFrom(s, c).state.t[d] != s.t[d] ==>
      d in Walked(s.t, c) && FreeFrom(s, c).state.t[d] == 0
    ensures Accurate(s) ==> Accurate(FreeFrom(s, c).state)
    decreases Used(s.t)
  {
    if s.t[c] > 1 {
      ZerosUpdate(s.t, 0, |s.t|, c, 0);
      ZerosUpdate(s.t, 2, |s.t|, c, 0);
      var s' := s.(t := s.t[c := 0], free := CountFreed(s.free, |s.t|));
      if s.t[c] < |s.t| {
        FreeFromKeeps(s', s.t[c]);
      }
    }
  }

  /** On a chain the loop frees the whole chain and reports success. */
  lemma {:induction false} FreeFromChain(s: Alloc, p: seq<nat>)
    requires IsChain(s.t, p) && |s.t| <= 0x1000_0000
    ensures 2 <= p[0] < |s.t|
    ensures FreeFrom(s, p[0]).ok
    ensures FreeFrom(s, p[0]).state.t == Cleared(s.t, p)
    decreases |p|
  {
    assert Links(s.t, p, 0);
    ZerosUpdate(s.t, 0, |s.t|, p[0], 0);
    var s' := s.(t := s.t[p[0] := 0], free := CountFreed(s.free, |s.t|));
    assert p == [p[0]] + p[1..];
    if |p| == 1 {
      assert Cleared(s.t, p) == s'.t;
    } else {
      assert Links(s.t, p, 1);
      TailChain(s.t, p);
      FreeFromChain(s', p[1..]);
      assert Cleared(s.t, p) == Cleared(s'.t, p[1..]);
    }
  }

  lemma TailChain(t: seq<u32>, p: seq<nat>)
    requires IsChain(t, p) && |p| > 1 && p[0] < |t|
    ensures IsChain(t[p[0] := 0], p[1..])
  {
    ChainIsAcyclic(t, p);
    var t', q := t[p[0] := 0], p[1..];
    forall i | 0 <= i < |q|
      ensures Links(t', q, i)
    {
      assert Links(t, p, i + 1);
    }
  }

  /** Removing a chain from its `k`-th cluster on frees exactly that suffix, ends the rest behind
      cluster `k - 1`, and keeps the count accurate. */
  lemma RemoveFreesSuffix(s: Alloc, p: seq<nat>, k: nat, eoc: u32)
    requires IsChain(s.t, p) && k < |p| && 3 <= |s.t| <= 0x1000_0000 && eoc >= |s.t|
    requires forall i :: 0 <= i < |p| ==> 2 <= p[i] < |s.t|
    ensures var r := RemoveChain(s, eoc, p[k], if k == 0 then 0 else p[k - 1]);
      && r.ok
      && r.state.t == (if k == 0 then Cleared(s.t, p) else Cleared(s.t[p[k - 1] := eoc], p[k..]))
      && (Accurate(s) ==> Accurate(r.state))
  {
    if k == 0 {
      FreeFromChain(s, p);
      FreeFromKeeps(s, p[0]);
    } else {
      CutTail(s.t, p, k, eoc);
      assert p[k - 1] in p;
      OnChain(s.t, p, p[k - 1]);
      var s1 := s.(t := s.t[p[k - 1] := eoc]);
      ZerosUpdate(s.t, 2, |s.t|, p[k - 1], eoc);
      FreeFromChain(s1, p[k..]);
      FreeFromKeeps(s1, p[k]);
    }
  }

  /** A FAT together with the chains it stands for. */
  datatype Store = Store(s: Alloc, chains: set<seq<nat>>)

  ghost predicate Sound(x: Store) {
    && 3 <= |x.s.t| <= 0x1000_0000
    && Forest(x.s.t, x.chains)
    && Accurate(x.s)
  }

  /** The calls the driver makes: start a chain, stretch one at its end, cut one behind `k` clusters. */
  datatype Call = Start | Stretch(p: seq<nat>) | Cut(p: seq<nat>, k: nat)

  ghost predicate Next(x: Store, call: Call, y: Store, eoc: u32)
    requires Sound(x)
  {
    match call
    case Start =>
      var o := CreateChain(x.s, eoc, 0);
      && y.s == o.state
      && y.chains == if o.result == 0 then x.chains else x.chains + {[o.result as nat]}
    case Stretch(p) =>
      && p in x.chains && |p| > 0 && p[|p| - 1] < 0x1000_0000
      && var o := CreateChain(x.s, eoc, p[|p| - 1]);
      && y.s == o.state
      && y.chains == if o.result == 0 then x.chains else x.chains - {p} + {p + [o.result as nat]}
    case Cut(p, k) =>
      && p in x.chains && k < |p| && (forall i :: 0 <= i < |p| ==> p[i] < 0x1000_0000)
      && y.s == RemoveChain(x.s, eoc, p[k], if k == 0 then 0 else p[k - 1]).state
      && y.chains == if k == 0 then x.chains - {p} else x.chains - {p} + {p[..k]}
  }

  /** Each call keeps the FAT a set of disjoint chains with an accurate free count. */
  lemma CallKeepsSound(x: Store, call: Call, y: Store, eoc: u32)
    requires Sound(x) && eoc >= |x.s.t| && Next(x, call, y, eoc)
    ensures Sound(y) && |y.s.t| == |x.s.t|
  {
    hide IsChain, CreateChain, RemoveChain, Accurate;
    forall c | 2 <= c < |x.s.t| ensures x.s.t[c] != 1 { ForestHasNoOnes(x.s.t, x.chains, c); }
    match call
    case Start =>
      CreateAllocates(x.s, eoc, 0);
      var r := CreateChain(x.s, eoc, 0).result;
      if r != 0 { NewChainForest(x.s.t, x.chains, r, eoc); }
    case Stretch(p) =>
      StretchKeepsSound(x, p, y, eoc);
    case Cut(p, k) =>
      CutKeepsSound(x, p, k, y, eoc);
  }

  lemma StretchKeepsSound(x: Store, p: seq<nat>, y: Store, eoc: u32)
    requires Sound(x) && eoc >= |x.s.t| && NoOnes(x.s.t) && Next(x, Stretch(p), y, eoc)
    ensures Sound(y) && |y.s.t| == |x.s.t|
  {
    hide CreateChain, RemoveChain, Accurate;
    var last := p[|p| - 1];
    assert IsChain(x.s.t, p) && Links(x.s.t, p, |p| - 1);
    CreateAllocates(x.s, eoc, last);
    var r := CreateChain(x.s, eoc, last).result;
    if r != 0 { StretchForest(x.s.t, x.chains, p, r, eoc); }
  }

  lemma CutKeepsSound(x: Store, p: seq<nat>, k: nat, y: Store, eoc: u32)
    requires Sound(x) && eoc >= |x.s.t| && Next(x, Cut(p, k), y, eoc)
    ensures Sound(y) && |y.s.t| == |x.s.t|
  {
    hide CreateChain, RemoveChain, Accurate;
    assert IsChain(x.s.t, p);
    forall i | 0 <= i < |p| ensures 2 <= p[i] < |x.s.t| { assert Links(x.s.t, p, i); }
    RemoveFreesSuffix(x.s, p, k, eoc);
    if k == 0 {
      ClearChainForest(x.s.t, x.chains, p);
    } else {
      CutChainForest(x.s.t, x.chains, p, k, eoc);
    }
  }

  ghost predicate NextAt(run: seq<Store>, calls: seq<Call>, i: nat, eoc: u32)
    requires |run| == |calls| + 1 && i < |calls|
  {
    Sound(run[i]) ==> Next(run[i], calls[i], run[i + 1], eoc)
  }

  /** Every state of every run is a forest with an accurate free count. */
  lemma {:induction false} RunsKeepSound(run: seq<Store>, calls: seq<Call>, eoc: u32)
    requires |run| == |calls| + 1 && Sound(run[0]) && eoc >= |run[0].s.t|
    requires forall i :: 0 <= i < |calls| ==> NextAt(run, calls, i, eoc)
    ensures forall i :: 0 <= i < |run| ==> Sound(run[i]) && |run[i].s.t| == |run[0].s.t|
  {
    hide Sound, Next;
    var k := 0;
    while k < |calls|
      invariant k <= |calls|
      invariant forall i :: 0 <= i <= k ==> Sound(run[i]) && |run[i].s.t| == |run[0].s.t|
    {
      assert NextAt(run, calls, k, eoc);
      CallKeepsSound(run[k], calls[k], run[k + 1], eoc);
      k := k + 1;
    }
  }
}
