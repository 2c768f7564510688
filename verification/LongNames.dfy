/** Long file names in directory entries: `put_lfn`, `pick_lfn`, and the loops of `dir_register` and
    `dir_read` around them (section "FAT Long Directory Entries" of the FAT specification). */
module LongNames {
  import opened Bytes

  const ENTRY := 32
  const PER_ENTRY := 13
  const MAX_LFN := 255
  const LLEF := 0x40
  const FILLER: u16 := 0xFFFF
  const AM_LFN: byte := 0x0F

  /** `LfnOfs`: 1, 3, 5, 7, 9, 14, 16, 18, 20, 22, 24, 28, 30. */
  function LfnOfs(s: nat): (o: nat)
    requires s < PER_ENTRY
    ensures o + 1 < ENTRY && (o + 1 < 11 || o > 13) && (o + 1 < 26 || o > 27) && o > 0
  {
    if s < 5 then 1 + 2 * s else if s < 11 then 14 + 2 * (s - 5) else 28 + 2 * (s - 11)
  }

  lemma OffsetsApart(s: nat, t: nat)
    requires s < t < PER_ENTRY
    ensures LfnOfs(s) + 1 < LfnOfs(t)
  {
  }

  /** Character `s` of an entry. */
  function Unit(e: seq<byte>, s: nat): u16
    requires |e| == ENTRY && s < PER_ENTRY
  {
    LdWord(e, LfnOfs(s))
  }

  function Units(e: seq<byte>): (u: seq<u16>)
    requires |e| == ENTRY
    ensures |u| == PER_ENTRY
    ensures forall s :: 0 <= s < PER_ENTRY ==> u[s] == Unit(e, s)
  {
    seq(PER_ENTRY, s requires 0 <= s < PER_ENTRY => Unit(e, s))
  }

  /** Names the directory can hold: 1 to 255 units, none of them the terminator or the filler. */
  ghost predicate Legal(name: seq<u16>) {
    1 <= |name| <= MAX_LFN && forall i :: 0 <= i < |name| ==> name[i] != 0 && name[i] != FILLER
  }

  /** Position `i` of a name as stored: the name, its terminator, then filler. */
  function UnitOf(name: seq<u16>, i: nat): u16 {
    if i < |name| then name[i] else if i == |name| then 0 else FILLER
  }

  /** `e` is the `ord`-th part of the name, flagged as the last one if the name ends there. */
  ghost predicate IsPart(e: seq<byte>, name: seq<u16>, ord: nat, sum: byte) {
    && |e| == ENTRY && 1 <= ord <= 20
    && e[0] as int == ord + (if ord * PER_ENTRY >= |name| then LLEF else 0)
    && e[11] == AM_LFN && e[12] == 0 && e[13] == sum && LdWord(e, 26) == 0
    && forall s :: 0 <= s < PER_ENTRY ==> Unit(e, s) == UnitOf(name, (ord - 1) * PER_ENTRY + s)
  }

  /** `st_word` into an entry. */
  method StoreWord(dir: array<byte>, o: nat, v: u16)
    requires dir.Length == ENTRY && o + 1 < ENTRY
    modifies dir
    ensures LdWord(dir[..], o) == v
    ensures forall i :: 0 <= i < ENTRY && i != o && i != o + 1 ==> dir[i] == old(dir[i])
  {
    dir[o] := v % 0x100;
    dir[o + 1] := v / 0x100;
  }

  lemma UnitSame(e: seq<byte>, e': seq<byte>, s: nat)
    requires |e| == |e'| == ENTRY && s < PER_ENTRY
    requires e[LfnOfs(s)] == e'[LfnOfs(s)] && e[LfnOfs(s) + 1] == e'[LfnOfs(s) + 1]
    ensures Unit(e, s) == Unit(e', s)
  {
  }

  /** `put_lfn`. `lfn` is the name with its terminator. */
  method Put(lfn: seq<u16>, dir: array<byte>, ord: byte, sum: byte, ghost name: seq<u16>)
    requires Legal(name) && lfn == name + [0] && dir.Length == ENTRY
    requires 1 <= ord <= 20 && (ord as int - 1) * PER_ENTRY < |name|
    modifies dir
    ensures IsPart(dir[..], name, ord, sum)
  {
    dir[13] := sum;
    dir[11] := AM_LFN;
    dir[12] := 0;
    StoreWord(dir, 26, 0);
    var i := (ord as int - 1) * PER_ENTRY;
    ghost var base := i;
    var s, wc: u16 := 0, 0;
    while s < PER_ENTRY
      invariant 0 <= s <= PER_ENTRY && base <= i <= |name| + 1
      invariant dir[13] == sum && dir[11] == AM_LFN && dir[12] == 0 && LdWord(dir[..], 26) == 0
      invariant wc == FILLER <==> base + s > |name|
      invariant wc != FILLER ==> i == base + s
      invariant forall t :: 0 <= t < s ==> Unit(dir[..], t) == UnitOf(name, base + t)
    {
      if wc != FILLER {
        wc := lfn[i];
        i := i + 1;
      }
      ghost var e := dir[..];
      StoreWord(dir, LfnOfs(s), wc);
      forall t | 0 <= t < s
        ensures Unit(dir[..], t) == UnitOf(name, base + t)
      {
        OffsetsApart(t, s);
        UnitSame(e, dir[..], t);
      }
      if wc == 0 { wc := FILLER; }
      s := s + 1;
    }
    var o := ord as int;
    if wc == FILLER || lfn[i] == 0 { o := o + LLEF; }
    ghost var e := dir[..];
    dir[0] := o;
    forall t | 0 <= t < PER_ENTRY
      ensures Unit(dir[..], t) == UnitOf(name, base + t)
    {
      UnitSame(e, dir[..], t);
    }
  }

  /** Index of the terminator in `u`, or its length. */
  function EndOf(u: seq<u16>): (z: nat)
    ensures z <= |u| && (forall s :: 0 <= s < z ==> u[s] != 0) && (z < |u| ==> u[z] == 0)
  {
    if u == [] || u[0] == 0 then 0 else 1 + EndOf(u[1..])
  }

  predicate IsLast(e: seq<byte>)
    requires |e| == ENTRY
  {
    e[0] / LLEF % 2 == 1
  }

  /** The order number without the flag. */
  function OrdOf(e: seq<byte>): (o: byte)
    requires |e| == ENTRY
  {
    if IsLast(e) then e[0] - LLEF else e[0]
  }

  /** Where the part belongs in the name buffer, computed in 32 bits. */
  function BaseOf(e: seq<byte>): u32
    requires |e| == ENTRY
  {
    Wrap32(Wrap32(OrdOf(e) as int - 1) * PER_ENTRY)
  }

  /** What the part contributes, with the terminator the last part of a full length gets. */
  function Picked(e: seq<byte>): (p: seq<u16>)
    requires |e| == ENTRY
    ensures |p| <= PER_ENTRY + 1
  {
    var u := Units(e);
    if EndOf(u) < PER_ENTRY then u[..EndOf(u) + 1]
    else if IsLast(e) then u + [0] else u
  }

  /** A part the reader accepts: no cluster, filler behind the terminator, and room in the buffer. */
  ghost predicate Pickable(e: seq<byte>)
    requires |e| == ENTRY
  {
    && LdWord(e, 26) == 0
    && (forall s :: EndOf(Units(e)) < s < PER_ENTRY ==> Unit(e, s) == FILLER)
    && BaseOf(e) + |Picked(e)| <= MAX_LFN + 1
  }

  /** A buffer with `p` stored from index `at` on. */
  function Stored(buf: seq<u16>, at: nat, p: seq<u16>): (r: seq<u16>)
    requires at + |p| <= |buf|
    ensures |r| == |buf|
  {
    buf[..at] + p + buf[at + |p|..]
  }

  lemma StoreNext(buf: seq<u16>, at: nat, p: seq<u16>, x: u16)
    requires at + |p| < |buf|
    ensures Stored(buf, at, p)[at + |p| := x] == Stored(buf, at, p + [x])
  {
  }

  lemma StoreNothing(buf: seq<u16>, at: nat)
    requires at <= |buf|
    ensures Stored(buf, at, []) == buf
  {
  }

  /** `pick_lfn`. */
  method Pick(lfnbuf: array<u16>, dir: seq<byte>) returns (ok: bool)
    requires lfnbuf.Length == MAX_LFN + 1 && |dir| == ENTRY
    modifies lfnbuf
    ensures ok <==> Pickable(dir)
    ensures ok ==> lfnbuf[..] == Stored(old(lfnbuf[..]), BaseOf(dir), Picked(dir))
  {
    hide LdWord, Unit, Units, OrdOf, Wrap32, IsLast, Stored;
    if LdWord(dir, 26) != 0 { return false; }
    ghost var was, u, z, base := lfnbuf[..], Units(dir), EndOf(Units(dir)), BaseOf(dir);
    var i: nat := Wrap32(Wrap32(OrdOf(dir) as int - 1) * PER_ENTRY);
    if base <= MAX_LFN + 1 { StoreNothing(was, base); }
    var wc: u16, s := 1, 0;
    while s < PER_ENTRY
      invariant 0 <= s <= PER_ENTRY
      invariant i == base + Copied(s, z) && Copied(s, z) <= PER_ENTRY
      invariant s > 0 ==> i <= MAX_LFN + 1
      invariant wc != 0 <==> s <= z
      invariant forall t :: z < t < s ==> Unit(dir, t) == FILLER
      invariant i <= MAX_LFN + 1 ==> lfnbuf[..] == Stored(was, base, u[..Copied(s, z)])
    {
      var uc := Unit(dir, s);
      assert uc == u[s];
      if wc != 0 {
        if i >= MAX_LFN + 1 { return false; }
        StoreNext(was, base, u[..s], uc);
        assert u[..s] + [uc] == u[..s + 1];
        wc := uc;
        lfnbuf[i] := uc;
        i := i + 1;
      } else {
        if uc != FILLER { return false; }
      }
      s := s + 1;
    }
    if IsLast(dir) && wc != 0 {
      if i >= MAX_LFN + 1 { return false; }
      StoreNext(was, base, u, 0);
      assert u[..PER_ENTRY] == u;
      lfnbuf[i] := 0;
    }
    assert u[..PER_ENTRY] == u;
    return true;
  }

  /** Units copied after `s` rounds when the terminator is at `z`. */
  function Copied(s: nat, z: nat): nat {
    if s <= z then s else z + 1
  }

  /** Entries a name needs. */
  function PartCount(name: seq<u16>): nat {
    (|name| + 12) / PER_ENTRY
  }

  lemma {:induction false} EndIs(u: seq<u16>, z: nat)
    requires z <= |u| && (forall s :: 0 <= s < z ==> u[s] != 0) && (z < |u| ==> u[z] == 0)
    ensures EndOf(u) == z
    decreases |u|
  {
    if z > 0 { EndIs(u[1..], z - 1); }
  }

  lemma PartHeader(e: seq<byte>, name: seq<u16>, ord: nat, sum: byte)
    requires Legal(name) && IsPart(e, name, ord, sum) && (ord - 1) * PER_ENTRY < |name|
    ensures OrdOf(e) == ord && BaseOf(e) == (ord - 1) * PER_ENTRY
    ensures IsLast(e) <==> ord == PartCount(name)
    ensures IsLast(e) <==> ord * PER_ENTRY >= |name|
  {
  }

  lemma PartUnits(e: seq<byte>, name: seq<u16>, ord: nat, sum: byte)
    requires Legal(name) && IsPart(e, name, ord, sum) && (ord - 1) * PER_ENTRY < |name|
    ensures var base, u := (ord - 1) * PER_ENTRY, Units(e);
      forall s :: 0 <= s < PER_ENTRY ==> u[s] == UnitOf(name, base + s) && Unit(e, s) == UnitOf(name, base + s)
  {
  }

  /** What is picked from a stored part is that part of the name, and the terminator after the last. */
  lemma PartPicks(e: seq<byte>, name: seq<u16>, ord: nat, sum: byte)
    requires Legal(name) && IsPart(e, name, ord, sum) && (ord - 1) * PER_ENTRY < |name|
    ensures Pickable(e) && OrdOf(e) == ord && BaseOf(e) == (ord - 1) * PER_ENTRY
    ensures IsLast(e) <==> ord == PartCount(name)
    ensures ord * PER_ENTRY < |name| ==> !IsLast(e) && Picked(e) == name[(ord - 1) * PER_ENTRY..ord * PER_ENTRY]
    ensures ord * PER_ENTRY >= |name| ==> IsLast(e) && Picked(e) == name[(ord - 1) * PER_ENTRY..] + [0]
  {
    hide Units, Unit, OrdOf, BaseOf, IsLast, LdWord;
    PartHeader(e, name, ord, sum);
    PartUnits(e, name, ord, sum);
    var base, u := (ord - 1) * PER_ENTRY, Units(e);
    var z := if |name| < base + PER_ENTRY then |name| - base else PER_ENTRY;
    EndIs(u, z);
    if z < PER_ENTRY {
      assert u[..z + 1] == name[base..] + [0];
    } else {
      assert u == name[base..base + PER_ENTRY];
    }
  }

  /** The loop of `dir_register` that stores the parts, the last one first. */
  method Register(lfn: seq<u16>, sum: byte, ghost name: seq<u16>) returns (entries: seq<seq<byte>>)
    requires Legal(name) && lfn == name + [0]
    ensures |entries| == PartCount(name)
    ensures forall k :: 0 <= k < |entries| ==> IsPart(entries[k], name, PartCount(name) - k, sum)
    ensures forall k :: 0 <= k < |entries| ==> |entries[k]| == ENTRY && (IsLast(entries[k]) <==> k == 0)
  {
    hide IsPart;
    var dir := new byte[ENTRY](_ => 0);
    var n := (|lfn| - 1 + 12) / PER_ENTRY;
    ghost var count := n;
    entries := [];
    while n > 0
      invariant 0 <= n <= count == PartCount(name) && |entries| == count - n
      invariant fresh(dir) && dir.Length == ENTRY
      invariant forall k :: 0 <= k < |entries| ==> IsPart(entries[k], name, count - k, sum)
      invariant forall k :: 0 <= k < |entries| ==> |entries[k]| == ENTRY && (IsLast(entries[k]) <==> k == 0)
    {
      Put(lfn, dir, n, sum, name);
      PartPicks(dir[..], name, n, sum);
      entries := entries + [dir[..]];
      n := n - 1;
    }
  }

  /** `sum_sfn`. */
  function SumSfn(e: seq<byte>, n: nat): byte
    requires n <= |e|
  {
    if n == 0 then 0
    else
      var sum := SumSfn(e, n - 1);
      (sum as int / 2 + sum as int * 0x80 % 0x100 + e[n - 1] as int) % 0x100
  }

  /** A byte turned by one bit to the right: its lowest bit becomes the highest. */
  function Turned(b: byte): byte {
    if b % 2 == 1 then 0x80 + b / 2 else b / 2
  }

  /** The checksum of the FAT specification: `sum` turned and added to, byte by byte from the first one on. */
  function Checksum(name: seq<byte>, sum: byte): byte {
    if name == [] then sum else Checksum(name[1..], (Turned(sum) as int + name[0] as int) % 0x100)
  }

  lemma {:induction false} ChecksumLast(name: seq<byte>, b: byte, sum: byte)
    ensures Checksum(name + [b], sum) == (Turned(Checksum(name, sum)) as int + b as int) % 0x100
    decreases |name|
  {
    if name == [] {
      assert [b][1..] == [];
      assert name + [b] == [b];
    } else {
      assert (name + [b])[1..] == name[1..] + [b];
      ChecksumLast(name[1..], b, (Turned(sum) as int + name[0] as int) % 0x100);
    }
  }

  lemma TurnedIs(b: byte)
    ensures b as int / 2 + b as int * 0x80 % 0x100 == Turned(b)
  {
    var k := b as int / 2;
    if b % 2 == 1 {
      assert b as int * 0x80 == 0x100 * k + 0x80;
    } else {
      assert b as int * 0x80 == 0x100 * k;
    }
  }

  lemma SumStep(e: seq<byte>, n: nat)
    requires 0 < n <= |e|
    ensures SumSfn(e, n) == (Turned(SumSfn(e, n - 1)) as int + e[n - 1] as int) % 0x100
  {
    hide Turned;
    TurnedIs(SumSfn(e, n - 1));
  }

  /** The driver computes that checksum. */
  lemma {:induction false} SumIsChecksum(e: seq<byte>, n: nat)
    requires n <= |e|
    ensures SumSfn(e, n) == Checksum(e[..n], 0)
    decreases n
  {
    if n > 0 {
      SumStep(e, n);
      SumIsChecksum(e, n - 1);
      assert e[..n] == e[..n - 1] + [e[n - 1]];
      ChecksumLast(e[..n - 1], e[n - 1], 0);
    }
  }

  /** The name bytes of an entry, in the order of the characters. */
  function NameBytes(e: seq<byte>): (b: seq<byte>)
    requires |e| == ENTRY
    ensures |b| == 2 * PER_ENTRY
  {
    e[1..11] + e[14..26] + e[28..32]
  }

  lemma UnitIsInBytes(e: seq<byte>, s: nat)
    requires |e| == ENTRY && s < PER_ENTRY
    ensures Unit(e, s) as int == NameBytes(e)[2 * s] as int + 0x100 * NameBytes(e)[2 * s + 1] as int
  {
  }

  /** The bytes of part `ord` of a name: number and flag, attributes, checksum, no cluster, and 13 characters of
      the name, behind its end the terminator and then FF FF. */
  lemma PartBytes(e: seq<byte>, name: seq<u16>, ord: nat, sum: byte)
    requires IsPart(e, name, ord, sum)
    ensures e[0] as int == (if 13 * ord < |name| then ord else ord + 0x40) && e[11] == 0x0F && e[12] == 0
    ensures e[13] == sum && e[26] == 0 && e[27] == 0
    ensures forall s :: 0 <= s < 13 ==>
      var i, c := 13 * (ord - 1) + s, NameBytes(e)[2 * s] as int + 0x100 * NameBytes(e)[2 * s + 1] as int;
      c == if i < |name| then name[i] as int else if i == |name| then 0 else 0xFFFF
  {
    hide Unit;
    forall s | 0 <= s < 13
      ensures Unit(e, s) as int == NameBytes(e)[2 * s] as int + 0x100 * NameBytes(e)[2 * s + 1] as int
    {
      UnitIsInBytes(e, s);
    }
  }

  predicate IsDeleted(e: seq<byte>)
    requires |e| == ENTRY
  {
    e[0] == 0xE5 || e[0] == 0x2E || (e[11] % 0x40 == 0x08 || e[11] % 0x40 == 0x28)
  }

  /** An entry that ends a search for the next file. */
  predicate IsFile(e: seq<byte>)
    requires |e| == ENTRY
  {
    e[0] != 0 && !IsDeleted(e) && e[11] % 0x40 != AM_LFN
  }

  /** By name and attributes (section "FAT Directory Structure" of the FAT specification): no file is the end mark,
      a deleted entry, a dot entry, a volume label, archived or not, or a part of a long name. */
  lemma FileByBytes(e: seq<byte>)
    requires |e| == ENTRY
    ensures IsFile(e) <==>
      && e[0] !in {0x00, 0xE5, 0x2E} && e[11] % 0x40 != 0x0F
      && !(e[11] / 8 % 2 == 1 && e[11] % 8 == 0 && e[11] / 16 % 2 == 0)
  {
  }

  /** From entry `m` on the directory holds the parts of `name` and the short entry they belong to. In front
      there is no file and no end mark, but there may be deleted entries and parts of other names. */
  ghost predicate Holds(entries: seq<seq<byte>>, m: nat, name: seq<u16>) {
    && Legal(name) && (forall k :: 0 <= k < |entries| ==> |entries[k]| == ENTRY)
    && m + PartCount(name) < |entries| && IsFile(entries[m + PartCount(name)])
    && (forall k :: 0 <= k < m ==> !IsFile(entries[k]) && entries[k][0] != 0)
    && forall k :: m <= k < m + PartCount(name) ==>
         IsPart(entries[k], name, m + PartCount(name) - k, SumSfn(entries[m + PartCount(name)], 11))
  }

  /** `dir_read`: the index of the next file, -1 at the end of the directory, and whether a long name
      for it was captured. */
  method Read(entries: seq<seq<byte>>, lfnbuf: array<u16>, ghost m: nat, ghost name: seq<u16>)
    returns (at: int, hasLfn: bool)
    requires lfnbuf.Length == MAX_LFN + 1 && forall k :: 0 <= k < |entries| ==> |entries[k]| == ENTRY
    modifies lfnbuf
    ensures -1 <= at < |entries| && (at >= 0 ==> IsFile(entries[at]))
    ensures at < 0 ==> forall k :: 0 <= k < |entries| && IsFile(entries[k]) ==>
      exists j :: 0 <= j < k && entries[j][0] == 0
    ensures hasLfn <==>
      at >= 0 && exists n :: Trails(entries, at, n, 0) && SumBefore(entries, at, SumSfn(entries[at], 11))
    ensures Holds(entries, m, name) ==> at == m + PartCount(name) && hasLfn && lfnbuf[..|name| + 1] == name + [0]
  {
    hide IsPart, SumSfn, Pickable, Picked, BaseOf, OrdOf, Units, PartCount, Follows, IsLfn;
    var ord: byte, sum: byte := 0xFF, 0xFF;
    var k := 0;
    ghost var row := 0;
    NothingTrails(entries);
    ghost var n, held := m + PartCount(name), Holds(entries, m, name);
    PartCountPositive(name);
    while k < |entries|
      invariant 0 <= k <= |entries|
      invariant forall j :: 0 <= j < k ==> !IsFile(entries[j]) && entries[j][0] != 0
      invariant Follows(entries, k, row, ord, sum)
      invariant held ==> k <= n
      invariant held && k > m ==> Captured(lfnbuf[..], name, n - k, ord, sum, SumSfn(entries[n], 11))
    {
      var e := entries[k];
      var b := e[0];
      if held { PartIsLfn(entries, m, name, k); }
      if b == 0 { return -1, false; }
      var attr := e[11] % 0x40;
      ghost var ord0, sum0 := ord, sum;
      EntryIsLfn(e);
      if IsDeleted(e) {
        ord := 0xFF;
        NoTrail(entries, k, k + 1);
        row := 0;
      } else if attr == AM_LFN {
        ghost var left, want: byte := 0, 0;
        if held && m <= k {
          left, want := n - k, SumSfn(entries[n], 11);
          PartTaken(e, name, left, want);
        }
        ord, sum := TakePart(lfnbuf, e, ord, sum, name, left, want);
        FollowsPart(entries, k, row, ord0, sum0, ord, sum);
        row := if IsLast(e) then 1 else row + 1;
      } else {
        RowDecides(entries, k, row, ord, sum, SumSfn(e, 11));
        return k, ord == 0 && sum == SumSfn(e, 11);
      }
      k := k + 1;
    }
    return -1, false;
  }

  lemma NothingTrails(entries: seq<seq<byte>>)
    ensures Follows(entries, 0, 0, 0xFF, 0xFF)
  {
  }

  lemma EntryIsLfn(e: seq<byte>)
    requires |e| == ENTRY
    ensures IsLfn(e) <==> e[0] != 0 && !IsDeleted(e) && e[11] % 0x40 == AM_LFN
  {
  }

  /** A complete row with the right checksum stands before entry `k` exactly when the reader's state says so. */
  lemma RowDecides(entries: seq<seq<byte>>, k: nat, row: nat, ord: byte, sum: byte, want: byte)
    requires k < |entries| && Follows(entries, k, row, ord, sum)
    requires forall i :: 0 <= i < |entries| ==> |entries[i]| == ENTRY
    ensures ord == 0 && sum == want <==> exists n :: Trails(entries, k, n, 0) && SumBefore(entries, k, want)
  {
    hide TrailsAt;
    forall n | Trails(entries, k, n, 0)
      ensures ord == 0
    {
      if ord != 0xFF { TrailIsUnique(entries, k, row, ord, n, 0); }
    }
  }

  lemma PartCountPositive(name: seq<u16>)
    ensures Legal(name) ==> PartCount(name) > 0
  {
  }

  /** The buffer holds the name from part `left` on, and the reader waits for that part. */
  ghost predicate Captured(buf: seq<u16>, name: seq<u16>, left: int, ord: byte, sum: byte, want: byte) {
    && ord == left && sum == want && 0 <= left * PER_ENTRY < |name| < |buf|
    && buf[left * PER_ENTRY..|name| + 1] == name[left * PER_ENTRY..] + [0]
  }

  /** Storing one more part extends what is captured. */
  lemma CaptureStep(buf: seq<u16>, buf': seq<u16>, name: seq<u16>, left: int, e: seq<byte>, want: byte)
    requires Legal(name) && 1 <= left <= PartCount(name) && IsPart(e, name, left, want) && |buf| == MAX_LFN + 1
    requires |e| == ENTRY && Pickable(e)
    requires buf' == Stored(buf, BaseOf(e), Picked(e))
    requires IsLast(e) ||
      (left * PER_ENTRY < |name| && buf[left * PER_ENTRY..|name| + 1] == name[left * PER_ENTRY..] + [0])
    ensures buf'[(left - 1) * PER_ENTRY..|name| + 1] == name[(left - 1) * PER_ENTRY..] + [0]
  {
    hide IsPart, Picked, BaseOf, IsLast, OrdOf, Pickable;
    PartPicks(e, name, left, want);
    var base, next := (left - 1) * PER_ENTRY, left * PER_ENTRY;
    var p, rest := Picked(e), buf[base + |Picked(e)|..];
    if next < |name| {
      Middle(buf[..base], p, rest, |name| + 1 - next);
      assert rest[..|name| + 1 - next] == buf[next..|name| + 1];
      assert name[base..] == name[base..next] + name[next..];
    } else {
      Middle(buf[..base], p, rest, 0);
    }
  }

  lemma Middle(a: seq<u16>, p: seq<u16>, b: seq<u16>, k: nat)
    requires k <= |b|
    ensures (a + p + b)[|a|..|a| + |p| + k] == p + b[..k]
  {
  }

  /** A long-name entry in `dir_read`: starts a sequence if flagged, and is taken if it is the one expected. */
  method TakePart(lfnbuf: array<u16>, e: seq<byte>, ord: byte, sum: byte, ghost name: seq<u16>, ghost left: int,
                  ghost want: byte)
    returns (ord': byte, sum': byte)
    requires lfnbuf.Length == MAX_LFN + 1 && |e| == ENTRY
    modifies lfnbuf
    ensures (Legal(name) && 1 <= left <= PartCount(name) && IsPart(e, name, left, want)
             && (IsLast(e) || Captured(old(lfnbuf[..]), name, left, ord, sum, want))) ==>
      Captured(lfnbuf[..], name, left - 1, ord', sum', want)
    ensures ord' != 0xFF <==> Pickable(e) && (IsLast(e) || (ord == OrdOf(e) && sum == e[13]))
    ensures ord' != 0xFF ==> ord' as int == OrdOf(e) as int - 1 && sum' == e[13]
  {
    hide IsPart, SumSfn, Pickable, Picked, BaseOf, OrdOf, Units;
    ghost var was := lfnbuf[..];
    var b := e[0];
    ord', sum' := ord, sum;
    if IsLast(e) {
      sum' := e[13];
      b := b - LLEF;
      ord' := b;
    }
    ghost var expected := Legal(name) && 1 <= left <= PartCount(name) && IsPart(e, name, left, want)
                            && (IsLast(e) || Captured(was, name, left, ord, sum, want));
    if expected { PartTaken(e, name, left, want); }
    PickableOrder(e);
    HeaderOrder(e);
    if b == ord' && sum' == e[13] {
      var ok := Pick(lfnbuf, e);
      ord' := if ok then (ord' as int + 0xFF) % 0x100 else 0xFF;
      if expected { CaptureStep(was, lfnbuf[..], name, left, e, want); }
    } else {
      ord' := 0xFF;
    }
  }

  /** Parts the reader accepts are numbered from 1 to 20. */
  lemma PickableOrder(e: seq<byte>)
    requires |e| == ENTRY
    ensures Pickable(e) ==> 1 <= OrdOf(e) <= 20
  {
    hide Units, LdWord, IsLast;
  }

  lemma HeaderOrder(e: seq<byte>)
    requires |e| == ENTRY
    ensures OrdOf(e) as int == e[0] as int - (if IsLast(e) then LLEF else 0) && (!IsLast(e) ==> OrdOf(e) != 0xFF)
  {
  }

  /** The `n` entries before `k` are parts in falling order down to `o + 1`, with one checksum; only the first of
      them is flagged. */
  ghost predicate Trails(entries: seq<seq<byte>>, k: nat, n: nat, o: nat) {
    && 1 <= n <= k <= |entries|
    && forall i :: k - n <= i < k ==> TrailsAt(entries, k, n, o, i)
  }

  ghost predicate TrailsAt(entries: seq<seq<byte>>, k: nat, n: nat, o: nat, i: nat)
    requires i < k <= |entries|
  {
    && |entries[i]| == |entries[k - 1]| == ENTRY && IsLfn(entries[i]) && Pickable(entries[i])
    && OrdOf(entries[i]) as int == o + (k - i) && entries[i][13] == entries[k - 1][13]
    && (IsLast(entries[i]) <==> i == k - n)
  }

  predicate IsLfn(e: seq<byte>)
    requires |e| == ENTRY
  {
    e[0] != 0 && !IsDeleted(e) && e[11] % 0x40 == AM_LFN
  }

  lemma TrailStart(entries: seq<seq<byte>>, k: nat, n: nat, o: nat)
    requires Trails(entries, k, n, o)
    ensures forall i :: k - n <= i < k ==> |entries[i]| == ENTRY && (IsLast(entries[i]) <==> i == k - n)
    ensures OrdOf(entries[k - 1]) as int == o + 1
  {
    assert TrailsAt(entries, k, n, o, k - 1);
    forall i | k - n <= i < k
      ensures |entries[i]| == ENTRY && (IsLast(entries[i]) <==> i == k - n)
    {
      assert TrailsAt(entries, k, n, o, i);
    }
  }

  /** There is at most one such row of parts. */
  lemma TrailIsUnique(entries: seq<seq<byte>>, k: nat, n: nat, o: nat, n': nat, o': nat)
    requires Trails(entries, k, n, o) && Trails(entries, k, n', o')
    ensures n == n' && o == o'
  {
    hide IsLast, OrdOf, TrailsAt;
    TrailStart(entries, k, n, o);
    TrailStart(entries, k, n', o');
    assert IsLast(entries[k - n]) && IsLast(entries[k - n']);
  }

  /** The reader's state before entry `k`: the row that ends there, if there is one. */
  ghost predicate Follows(entries: seq<seq<byte>>, k: nat, n: nat, ord: byte, sum: byte) {
    if ord == 0xFF then forall n', o' :: !Trails(entries, k, n', o')
    else Trails(entries, k, n, ord) && SumBefore(entries, k, sum)
  }

  /** The entry before `k` carries this checksum. */
  predicate SumBefore(entries: seq<seq<byte>>, k: nat, sum: byte) {
    0 < k <= |entries| && |entries[k - 1]| == ENTRY && entries[k - 1][13] == sum
  }

  lemma NoTrail(entries: seq<seq<byte>>, k: nat, next: nat)
    requires k < |entries| && next == k + 1 && |entries[k]| == ENTRY && !IsLfn(entries[k])
    ensures forall n, sum :: Follows(entries, next, n, 0xFF, sum)
  {
    hide IsLfn;
    forall n: nat, o: nat | true
      ensures !Trails(entries, next, n, o)
    {
      if 1 <= n <= next { assert !TrailsAt(entries, next, n, o, k); }
    }
  }

  lemma TrailShortens(entries: seq<seq<byte>>, k: nat, n: nat, o: nat)
    requires Trails(entries, k + 1, n, o)
    ensures |entries[k]| == ENTRY && IsLfn(entries[k]) && Pickable(entries[k]) && OrdOf(entries[k]) as int == o + 1
    ensures IsLast(entries[k]) <==> n == 1
    ensures n > 1 ==> Trails(entries, k, n - 1, o + 1) && SumBefore(entries, k, entries[k][13])
  {
    assert TrailsAt(entries, k + 1, n, o, k);
    if n > 1 {
      assert TrailsAt(entries, k + 1, n, o, k - 1);
      var n', o' := n - 1, o + 1;
      forall i | k - n' <= i < k
        ensures TrailsAt(entries, k, n', o', i)
      {
        assert TrailsAt(entries, k + 1, n, o, i);
      }
    }
  }

  lemma TrailGrows(entries: seq<seq<byte>>, k: nat, n: nat, o: nat)
    requires k < |entries| && |entries[k]| == ENTRY && IsLfn(entries[k]) && Pickable(entries[k])
    requires OrdOf(entries[k]) as int == o + 1
    requires IsLast(entries[k]) || (Trails(entries, k, n, o + 1) && SumBefore(entries, k, entries[k][13]))
    ensures Trails(entries, k + 1, if IsLast(entries[k]) then 1 else n + 1, o)
  {
    if IsLast(entries[k]) {
      assert TrailsAt(entries, k + 1, 1, o, k);
    } else {
      var k', n' := k + 1, n + 1;
      assert TrailsAt(entries, k', n', o, k);
      forall i | k - n <= i < k
        ensures TrailsAt(entries, k', n', o, i)
      {
        assert TrailsAt(entries, k, n, o + 1, i);
      }
    }
  }

  /** One more part, by the test of the reader. */
  lemma FollowsPart(entries: seq<seq<byte>>, k: nat, n: nat, ord: byte, sum: byte, ord': byte, sum': byte)
    requires k < |entries| && |entries[k]| == ENTRY && IsLfn(entries[k]) && Follows(entries, k, n, ord, sum)
    requires var e := entries[k];
      && (ord' != 0xFF <==> Pickable(e) && (IsLast(e) || (ord == OrdOf(e) && sum == e[13])))
      && (ord' != 0xFF ==> ord' as int == OrdOf(e) as int - 1 && sum' == e[13])
    ensures Follows(entries, k + 1, if IsLast(entries[k]) then 1 else n + 1, ord', sum')
  {
    hide Pickable, OrdOf, IsLast, IsLfn, TrailsAt;
    var e, next := entries[k], k + 1;
    if ord' != 0xFF {
      PickableOrder(e);
      TrailGrows(entries, k, n, ord');
    } else {
      forall n': nat, o': nat | true
        ensures !Trails(entries, next, n', o')
      {
        if Trails(entries, next, n', o') {
          TrailShortens(entries, k, n', o');
          if n' > 1 && ord != 0xFF { TrailIsUnique(entries, k, n, ord, n' - 1, o' + 1); }
        }
      }
    }
  }

  lemma PartTaken(e: seq<byte>, name: seq<u16>, left: int, want: byte)
    requires Legal(name) && 1 <= left <= PartCount(name) && IsPart(e, name, left, want)
    ensures Pickable(e) && e[13] == want && (left - 1) * PER_ENTRY < |name|
    ensures e[0] as int == left + if IsLast(e) then LLEF else 0
    ensures IsLast(e) <==> left == PartCount(name)
  {
    PartPicks(e, name, left, want);
  }

  lemma PartIsLfn(entries: seq<seq<byte>>, m: nat, name: seq<u16>, k: nat)
    requires Holds(entries, m, name) && k <= m + PartCount(name)
    ensures k < m + PartCount(name) ==> entries[k][0] != 0 && !IsFile(entries[k])
    ensures m <= k < m + PartCount(name) ==> !IsDeleted(entries[k]) && entries[k][11] % 0x40 == AM_LFN
  {
  }

  /** Storing a name for a short entry behind other entries and reading the directory back restores it,
      terminator included. */
  method StoreAndRead(before: seq<seq<byte>>, lfn: seq<u16>, sfn: seq<byte>, after: seq<seq<byte>>,
                      lfnbuf: array<u16>, ghost name: seq<u16>)
    returns (at: int, hasLfn: bool)
    requires Legal(name) && lfn == name + [0] && |sfn| == ENTRY && IsFile(sfn) && lfnbuf.Length == MAX_LFN + 1
    requires forall k :: 0 <= k < |before| ==> |before[k]| == ENTRY && !IsFile(before[k]) && before[k][0] != 0
    requires forall k :: 0 <= k < |after| ==> |after[k]| == ENTRY
    modifies lfnbuf
    ensures at == |before| + PartCount(name) && hasLfn && lfnbuf[..|name| + 1] == name + [0]
  {
    hide IsPart, IsLast, SumSfn, IsFile;
    var parts := Register(lfn, SumSfn(sfn, 11), name);
    var entries := before + parts + [sfn] + after;
    assert entries[|before| + PartCount(name)] == sfn;
    at, hasLfn := Read(entries, lfnbuf, |before|, name);
  }
}
