/** Bytes, fixed-width words and sectors, with the little-endian loads and stores of
    the FAT driver (`ld_word`, `ld_dword`, `st_word`, `st_dword`). */
module Bytes {

  type byte = b: int | 0 <= b < 0x100
  type u16 = w: int | 0 <= w < 0x1_0000
  type u32 = w: int | 0 <= w < 0x1_0000_0000

  const SECTOR_SIZE := 512

  type Sector = s: seq<byte> | |s| == SECTOR_SIZE witness seq(SECTOR_SIZE, _ => 0)

  /** What a C expression of type `DWORD` keeps of a mathematical integer. */
  function Wrap32(x: int): u32 {
    x % 0x1_0000_0000
  }

  function Pow2(n: nat): (p: nat)
    ensures p > 0
  {
    if n == 0 then 1 else 2 * Pow2(n - 1)
  }

  function LdWord(s: seq<byte>, i: nat): u16
    requires i + 1 < |s|
  {
    s[i] as int + 0x100 * s[i + 1] as int
  }

  function LdDword(s: seq<byte>, i: nat): u32
    requires i + 3 < |s|
  {
    s[i] as int + 0x100 * s[i + 1] as int + 0x1_0000 * s[i + 2] as int + 0x100_0000 * s[i + 3] as int
  }

  function StWord(s: seq<byte>, i: nat, v: u16): (r: seq<byte>)
    requires i + 1 < |s|
  {
    s[i := v % 0x100][i + 1 := v / 0x100]
  }

  function StDword(s: seq<byte>, i: nat, v: u32): (r: seq<byte>)
    requires i + 3 < |s|
  {
    s[i := v % 0x100][i + 1 := v / 0x100 % 0x100][i + 2 := v / 0x1_0000 % 0x100][i + 3 := v / 0x100_0000]
  }

  /** The number some bytes stand for, least significant byte first. */
  function Number(b: seq<byte>): nat {
    if b == [] then 0 else b[0] as nat + 0x100 * Number(b[1..])
  }

  /** The bytes from `k` on are the number shifted down by as many bytes. */
  lemma {:induction false} NumberShifts(b: seq<byte>, k: nat)
    requires k <= |b|
    ensures Number(b) / Pow2(8 * k) == Number(b[k..])
    decreases k
  {
    hide Number, Pow2;
    if k == 0 {
      assert b[0..] == b && Pow2(0) == 1 by { NoPower(); }
    } else {
      var j := 8 * (k - 1);
      NumberShifts(b[1..], k - 1);
      assert b[1..][k - 1..] == b[k..];
      NumberStep(b);
      UpperBytes(b[0], Number(b[1..]));
      PowerOfByte(j);
      DivideTwice(Number(b), 0x100, Pow2(j));
    }
  }

  lemma NoPower()
    ensures Pow2(0) == 1
  {
  }

  lemma UpperBytes(low: byte, rest: nat)
    ensures (low as nat + 0x100 * rest) / 0x100 == rest
  {
  }

  lemma DivideTwice(x: nat, a: nat, b: nat)
    requires a > 0 && b > 0
    ensures a * b > 0 && x / (a * b) == x / a / b
  {
    var y, q := x / a, x / a / b;
    var r, s := x - a * y, y - b * q;
    QuotientOf(x, a);
    QuotientOf(y, b);
    Regroup(a, b, q, s);
    TimesGap(a, s, b);
    assert a * b > 0 by { TimesGap(a, 0, b); }
    QuotientIs(x, a * b, q, a * s + r);
  }

  lemma QuotientOf(x: nat, a: nat)
    requires a > 0
    ensures x / a >= 0 && 0 <= x - a * (x / a) < a
  {
  }

  lemma Regroup(a: nat, b: nat, q: nat, s: int)
    ensures a * (b * q + s) == a * b * q + a * s
  {
  }

  lemma TimesGap(d: nat, a: int, b: int)
    ensures a < b ==> d * a + d <= d * b
    ensures 0 <= a ==> 0 <= d * a
  {
    if a < b {
      Distributes(d, a, b - a - 1);
      ProductIsNat(d, b - a - 1);
    }
    if 0 <= a { ProductIsNat(d, a); }
  }

  lemma Distributes(d: nat, a: int, e: int)
    ensures d * (a + 1 + e) == d * a + d + d * e
  {
  }

  lemma ProductIsNat(d: nat, a: nat)
    ensures 0 <= d * a
  {
  }

  lemma QuotientIs(x: nat, d: nat, q: nat, r: nat)
    requires d > 0 && x == d * q + r && r < d
    ensures x / d == q
  {
    QuotientOf(x, d);
    TimesGap(d, q, x / d);
    TimesGap(d, x / d, q);
  }

  lemma PowerOfByte(n: nat)
    ensures Pow2(n + 8) == 0x100 * Pow2(n)
  {
    assert Pow2(n + 2) == 4 * Pow2(n);
    assert Pow2(n + 4) == 16 * Pow2(n);
    assert Pow2(n + 6) == 64 * Pow2(n);
  }

  lemma NumberStep(b: seq<byte>)
    requires b != []
    ensures Number(b) == b[0] as nat + 0x100 * Number(b[1..])
  {
  }

  lemma FourBytes(a: seq<byte>)
    requires |a| == 4
    ensures Number(a) == a[0] as nat + 0x100 * a[1] as nat + 0x1_0000 * a[2] as nat + 0x100_0000 * a[3] as nat
  {
    FourFirst(a);
    NothingIsZero();
    assert a[4..] == [];
  }

  lemma FourMore(a: seq<byte>, b: seq<byte>)
    requires |a| == 4
    ensures Number(a + b) == Number(a) + 0x1_0000_0000 * Number(b)
  {
    hide Number;
    var s := a + b;
    assert s[4..] == b;
    FourFirst(s);
    FourBytes(a);
  }

  lemma FourFirst(s: seq<byte>)
    requires |s| >= 4
    ensures Number(s) == s[0] as nat + 0x100 * s[1] as nat + 0x1_0000 * s[2] as nat + 0x100_0000 * s[3] as nat
      + 0x1_0000_0000 * Number(s[4..])
  {
    hide Number;
    NumberStep(s);
    NumberStep(s[1..]);
    assert s[1..][1..] == s[2..];
    NumberStep(s[2..]);
    assert s[2..][1..] == s[3..];
    NumberStep(s[3..]);
    assert s[3..][1..] == s[4..];
  }

  /** The driver's loads give the number of the bytes they name. */
  lemma LoadsNumber(s: seq<byte>, i: nat)
    ensures i + 1 < |s| ==> LdWord(s, i) == Number(s[i..i + 2])
    ensures i + 3 < |s| ==> LdDword(s, i) == Number(s[i..i + 4])
  {
    hide Number;
    NothingIsZero();
    if i + 1 < |s| {
      NumberStep(s[i..i + 2]);
      NumberStep(s[i..i + 2][1..]);
      assert s[i..i + 2][1..][1..] == [];
    }
    if i + 3 < |s| { FourBytes(s[i..i + 4]); }
  }

  lemma NothingIsZero()
    ensures Number([]) == 0
  {
  }

  /** The bytes of consecutive sectors. */
  function Joined(sectors: seq<Sector>): (b: seq<byte>)
    ensures |b| == |sectors| * SECTOR_SIZE
  {
    if sectors == [] then [] else Joined(sectors[..|sectors| - 1]) + sectors[|sectors| - 1]
  }

  lemma {:induction false} JoinedAt(sectors: seq<Sector>, k: nat)
    requires k < |sectors| * SECTOR_SIZE
    ensures Joined(sectors)[k] == sectors[k / SECTOR_SIZE][k % SECTOR_SIZE]
    decreases |sectors|
  {
    var n := |sectors| - 1;
    if k < n * SECTOR_SIZE {
      JoinedAt(sectors[..n], k);
    } else {
      assert k == n * SECTOR_SIZE + (k - n * SECTOR_SIZE);
    }
  }

  lemma JoinedBytes(sectors: seq<Sector>)
    ensures forall k :: 0 <= k < |sectors| * SECTOR_SIZE ==>
      Joined(sectors)[k] == sectors[k / SECTOR_SIZE][k % SECTOR_SIZE]
  {
    forall k | 0 <= k < |sectors| * SECTOR_SIZE
      ensures Joined(sectors)[k] == sectors[k / SECTOR_SIZE][k % SECTOR_SIZE]
    {
      JoinedAt(sectors, k);
    }
  }

  /** A stored double word reads back, and no other byte of the buffer changes. */
  lemma StDwordLoads(s: seq<byte>, i: nat, v: u32)
    requires i + 3 < |s|
    ensures |StDword(s, i, v)| == |s|
    ensures LdDword(StDword(s, i, v), i) == v
    ensures forall j :: 0 <= j < |s| && !(i <= j < i + 4) ==> StDword(s, i, v)[j] == s[j]
  {
    var a, b, c, d := v % 0x100, v / 0x100 % 0x100, v / 0x1_0000 % 0x100, v / 0x100_0000;
    assert v / 0x1_0000 == v / 0x100 / 0x100;
    assert v / 0x100_0000 == v / 0x1_0000 / 0x100;
    var r := StDword(s, i, v);
    assert r[i] == a && r[i + 1] == b && r[i + 2] == c && r[i + 3] == d;
  }

  /** Copies a whole sector into a sector buffer. */
  method CopyInto(a: array<byte>, s: Sector)
    requires a.Length == SECTOR_SIZE
    modifies a
    ensures a[..] == s
  {
    var i := 0;
    while i < SECTOR_SIZE
      invariant 0 <= i <= SECTOR_SIZE
      invariant a[..i] == s[..i]
    {
      a[i] := s[i];
      i := i + 1;
    }
    assert a[..] == a[..SECTOR_SIZE];
  }

  /** `memcpy` of `w` into a sector buffer at offset `o`. */
  method CopyBytes(a: array<byte>, o: nat, w: seq<byte>)
    requires o + |w| <= a.Length
    modifies a
    ensures a[..] == old(a[..o]) + w + old(a[o + |w|..])
  {
    var i := 0;
    while i < |w|
      invariant 0 <= i <= |w|
      invariant forall j :: 0 <= j < i ==> a[o + j] == w[j]
      invariant forall j :: 0 <= j < a.Length && !(o <= j < o + i) ==> a[j] == old(a[j])
    {
      a[o + i] := w[i];
      i := i + 1;
    }
    assert a[..o] == old(a[..o]) && a[o..o + |w|] == w && a[o + |w|..] == old(a[o + |w|..]);
    assert a[..] == a[..o] + a[o..o + |w|] + a[o + |w|..];
  }
}
