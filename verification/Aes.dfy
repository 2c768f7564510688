/** Counters and word orders of the AES front end (`aes_advctr`, `aes_change_ctrmode`), and exclusive or. */
module Aes {
  import opened Bytes

  /** Sixteen bytes as the four words the processor sees. */
  type Block = b: seq<u32> | |b| == 4 witness [0, 0, 0, 0]

  const TWO128: nat := 0x1_0000_0000_0000_0000_0000_0000_0000_0000

  /** How the bytes of a counter or initial vector are to be taken (`AES_INPUT_BE`, `AES_INPUT_NORMAL`). */
  datatype IvMode = IvMode(be: bool, normal: bool)

  const BIG_NORMAL := IvMode(true, true)

  /** `BSWAP32`. */
  function Swap(x: u32): u32 {
    x % 0x100 * 0x100_0000 + x / 0x100 % 0x100 * 0x1_0000 + x / 0x1_0000 % 0x100 * 0x100 + x / 0x100_0000
  }

  lemma SwapBytes(a: byte, b: byte, c: byte, d: byte)
    ensures Swap(a + 0x100 * b as int + 0x1_0000 * c as int + 0x100_0000 * d as int)
      == d + 0x100 * c as int + 0x1_0000 * b as int + 0x100_0000 * a as int
  {
    var z := c as int + 0x100 * d as int;
    var y := b as int + 0x100 * z;
    var x := a as int + 0x100 * y;
    assert x % 0x100 == a && x / 0x100 == y && y % 0x100 == b && y / 0x100 == z && z % 0x100 == c && z / 0x100 == d;
    assert x / 0x1_0000 == z && x / 0x100_0000 == d;
  }

  lemma BytesOf(x: u32)
    ensures var a, b, c, d := x % 0x100, x / 0x100 % 0x100, x / 0x1_0000 % 0x100, x / 0x100_0000;
      0 <= d < 0x100 && x == a + 0x100 * b + 0x1_0000 * c + 0x100_0000 * d
  {
    assert x / 0x1_0000 == x / 0x100 / 0x100 && x / 0x100_0000 == x / 0x1_0000 / 0x100;
  }

  lemma SwapSwap(x: u32)
    ensures Swap(Swap(x)) == x
  {
    var a, b, c, d := x % 0x100, x / 0x100 % 0x100, x / 0x1_0000 % 0x100, x / 0x100_0000;
    BytesOf(x);
    SwapBytes(a, b, c, d);
    SwapBytes(d, c, b, a);
    hide Swap;
  }

  function SwapAll(w: Block): (r: Block) {
    [Swap(w[0]), Swap(w[1]), Swap(w[2]), Swap(w[3])]
  }

  function Turned(w: Block): (r: Block) {
    [w[3], w[2], w[1], w[0]]
  }

  /** The words of the number an initial vector stands for, least significant first. */
  function Digits(w: Block, m: IvMode): Block {
    var o := if m.normal then Turned(w) else w;
    if m.be then SwapAll(o) else o
  }

  function Num(l: Block): nat {
    l[0] as int + 0x1_0000_0000 * l[1] as int + 0x1_0000_0000_0000_0000 * l[2] as int
      + 0x1_0000_0000_0000_0000_0000_0000 * l[3] as int
  }

  /** The 128-bit number an initial vector stands for. */
  function Value(w: Block, m: IvMode): nat {
    Num(Digits(w, m))
  }

  /** Sixteen bytes of memory as words. */
  function BlockOf(b: seq<byte>): Block
    requires |b| == 16
  {
    [LdDword(b, 0), LdDword(b, 4), LdDword(b, 8), LdDword(b, 12)]
  }

  function Backwards(b: seq<byte>): (r: seq<byte>)
    ensures |r| == |b|
  {
    seq(|b|, i requires 0 <= i < |b| => b[|b| - 1 - i])
  }

  /** The bytes of an initial vector, least significant first: in the big-endian orders each word backwards, in the
      normal orders the last word first. */
  function InOrder(b: seq<byte>, m: IvMode): seq<byte>
    requires |b| == 16
  {
    if m.be && m.normal then Backwards(b)
    else if m.be then Backwards(b[0..4]) + Backwards(b[4..8]) + Backwards(b[8..12]) + Backwards(b[12..16])
    else if m.normal then b[12..16] + b[8..12] + b[4..8] + b[0..4]
    else b
  }

  lemma WordOfBytes(b: seq<byte>, i: nat)
    requires i + 4 <= |b|
    ensures LdDword(b, i) == Number(b[i..i + 4]) && Swap(LdDword(b, i)) == Number(Backwards(b[i..i + 4]))
  {
    LoadsNumber(b, i);
    SwapBytes(b[i], b[i + 1], b[i + 2], b[i + 3]);
    hide Swap;
    var r := Backwards(b[i..i + 4]);
    assert r == [b[i + 3], b[i + 2], b[i + 1], b[i]];
    FourBytes(r);
  }

  lemma NumberOfFour(w: seq<byte>, x: seq<byte>, y: seq<byte>, z: seq<byte>)
    requires |w| == 4 && |x| == 4 && |y| == 4 && |z| == 4
    ensures Number(w + x + y + z) == Number(w) + 0x1_0000_0000 * Number(x) + 0x1_0000_0000_0000_0000 * Number(y)
      + 0x1_0000_0000_0000_0000_0000_0000 * Number(z)
  {
    hide Number;
    var yz := y + z;
    var xyz := x + yz;
    Regrouped(w, x, y, z);
    FourMore(w, xyz);
    FourMore(x, yz);
    FourMore(y, z);
    Nested(Number(w), Number(x), Number(y), Number(z), Number(yz), Number(xyz), Number(w + xyz));
  }

  lemma Regrouped(w: seq<byte>, x: seq<byte>, y: seq<byte>, z: seq<byte>)
    ensures w + x + y + z == w + (x + (y + z))
  {
  }

  lemma Nested(a: nat, b: nat, c: nat, d: nat, cd: nat, bcd: nat, abcd: nat)
    requires cd == c + 0x1_0000_0000 * d && bcd == b + 0x1_0000_0000 * cd && abcd == a + 0x1_0000_0000 * bcd
    ensures abcd ==
      a + 0x1_0000_0000 * b + 0x1_0000_0000_0000_0000 * c + 0x1_0000_0000_0000_0000_0000_0000 * d
  {
  }

  /** The number an initial vector stands for is the little-endian number of its bytes in their order. In the
      order of the NAND counter it is the big-endian number of the sixteen bytes. */
  lemma ValueOfBytes(b: seq<byte>, m: IvMode)
    requires |b| == 16
    ensures Value(BlockOf(b), m) == Number(InOrder(b, m))
  {
    hide Number, Swap, LdDword;
    WordOfBytes(b, 0);
    WordOfBytes(b, 4);
    WordOfBytes(b, 8);
    WordOfBytes(b, 12);
    var w, x, y, z := b[0..4], b[4..8], b[8..12], b[12..16];
    if m.be && m.normal {
      assert Backwards(b) == Backwards(z) + Backwards(y) + Backwards(x) + Backwards(w);
      NumberOfFour(Backwards(z), Backwards(y), Backwards(x), Backwards(w));
    } else if m.be {
      NumberOfFour(Backwards(w), Backwards(x), Backwards(y), Backwards(z));
    } else if m.normal {
      NumberOfFour(z, y, x, w);
    } else {
      assert b == w + x + y + z;
      NumberOfFour(w, x, y, z);
    }
  }

  /** `ADD_u128_u32`: the carry ripples from the least significant word up. */
  method AddCarry(a0: u32, a1: u32, a2: u32, a3: u32, v: u32) returns (s0: u32, s1: u32, s2: u32, s3: u32)
    ensures Num([s0, s1, s2, s3]) == (Num([a0, a1, a2, a3]) + v) % TWO128
  {
    var t0 := a0 + v;
    s0 := t0 % 0x1_0000_0000;
    var t1 := a1 + t0 / 0x1_0000_0000;
    s1 := t1 % 0x1_0000_0000;
    var t2 := a2 + t1 / 0x1_0000_0000;
    s2 := t2 % 0x1_0000_0000;
    var t3 := a3 + t2 / 0x1_0000_0000;
    s3 := t3 % 0x1_0000_0000;
    var carry := t3 / 0x1_0000_0000;
    assert Num([s0, s1, s2, s3]) + carry * TWO128 == Num([a0, a1, a2, a3]) + v;
    NumRange([s0, s1, s2, s3]);
    ModUnique(Num([s0, s1, s2, s3]), carry, Num([a0, a1, a2, a3]) + v);
  }

  lemma NumRange(l: Block)
    ensures Num(l) < TWO128
  {
  }

  lemma ModUnique(r: nat, q: nat, x: nat)
    requires r < TWO128 && r + q * TWO128 == x
    ensures x % TWO128 == r
  {
  }

  /** `aes_advctr`: in every byte and word order the counter advances by `val` modulo 2^128. */
  method AdvanceCounter(ctr: array<u32>, val: u32, m: IvMode)
    requires ctr.Length == 4
    modifies ctr
    ensures Value(ctr[..], m) == (old(Value(ctr[..], m)) + val) % TWO128
  {
    hide Num, Swap;
    ghost var w := ctr[..];
    assert w == [ctr[0], ctr[1], ctr[2], ctr[3]];
    if m.be { SwapWords(ctr); }
    if m.normal {
      assert Digits(w, m) == [ctr[3], ctr[2], ctr[1], ctr[0]];
      ctr[3], ctr[2], ctr[1], ctr[0] := AddCarry(ctr[3], ctr[2], ctr[1], ctr[0], val);
    } else {
      assert Digits(w, m) == [ctr[0], ctr[1], ctr[2], ctr[3]];
      ctr[0], ctr[1], ctr[2], ctr[3] := AddCarry(ctr[0], ctr[1], ctr[2], ctr[3], val);
    }
    ghost var s := ctr[..];
    assert s == [ctr[0], ctr[1], ctr[2], ctr[3]];
    if m.be { SwapWords(ctr); SwapAllTwice(s); }
    assert Digits(ctr[..], m) == if m.normal then Turned(s) else s;
  }

  lemma SwapAllTwice(w: Block)
    ensures SwapAll(SwapAll(w)) == w
  {
    SwapSwap(w[0]);
    SwapSwap(w[1]);
    SwapSwap(w[2]);
    SwapSwap(w[3]);
  }

  method SwapWords(ctr: array<u32>)
    requires ctr.Length == 4
    modifies ctr
    ensures ctr[..] == SwapAll(old(ctr[..]))
  {
    var i := 0;
    while i < 4
      invariant 0 <= i <= 4
      invariant forall j :: 0 <= j < 4 ==> ctr[j] == if j < i then Swap(old(ctr[j])) else old(ctr[j])
    {
      ctr[i] := Swap(ctr[i]);
      i := i + 1;
    }
  }

  /** An initial vector rewritten from one order to another. */
  function Reordered(w: Block, from: IvMode, to: IvMode): Block {
    var s := if from.be != to.be then SwapAll(w) else w;
    if from.normal != to.normal then Turned(s) else s
  }

  /** `aes_change_ctrmode`. */
  method ChangeMode(ctr: array<u32>, from: IvMode, to: IvMode)
    requires ctr.Length == 4
    modifies ctr
    ensures ctr[..] == Reordered(old(ctr[..]), from, to)
  {
    hide Swap;
    if from.be != to.be { SwapWords(ctr); }
    if from.normal != to.normal {
      var temp := ctr[0];
      ctr[0] := ctr[3];
      ctr[3] := temp;
      temp := ctr[1];
      ctr[1] := ctr[2];
      ctr[2] := temp;
    }
  }

  /** Changing the order keeps the number, and changing back restores the bytes. */
  lemma ReorderedKeeps(w: Block, from: IvMode, to: IvMode)
    ensures Value(Reordered(w, from, to), to) == Value(w, from)
    ensures Reordered(Reordered(w, from, to), to, from) == w
  {
    hide Swap, Num;
    SwapAllTwice(w);
    SwapAllTwice(Turned(w));
    assert Digits(Reordered(w, from, to), to) == Digits(w, from);
  }

  /** Bitwise exclusive or of the low `n` bits. */
  function XorBits(a: nat, b: nat, n: nat): (r: nat) {
    if n == 0 then 0 else (a % 2 + b % 2) % 2 + 2 * XorBits(a / 2, b / 2, n - 1)
  }

  /** The lowest bit of an exclusive or, and the bits above it. */
  lemma XorSplit(a: nat, b: nat, n: nat)
    requires n > 0
    ensures XorBits(a, b, n) == (a % 2 + b % 2) % 2 + 2 * XorBits(a / 2, b / 2, n - 1)
    ensures XorBits(a, b, n) % 2 == (a % 2 + b % 2) % 2 && XorBits(a, b, n) / 2 == XorBits(a / 2, b / 2, n - 1)
  {
    Halves((a % 2 + b % 2) % 2, XorBits(a / 2, b / 2, n - 1), XorBits(a, b, n));
  }

  lemma Halves(bit: nat, x: nat, y: nat)
    requires bit < 2 && y == bit + 2 * x
    ensures y % 2 == bit && y / 2 == x
  {
  }

  lemma BitTwice(p: nat, q: nat)
    requires p < 2 && q < 2
    ensures ((p + q) % 2 + q) % 2 == p
  {
  }

  lemma HalfRange(a: nat, n: nat)
    requires n > 0 && a < Pow2(n)
    ensures a / 2 < Pow2(n - 1) && a == a % 2 + 2 * (a / 2)
  {
  }

  /** Bit `i` of an exclusive or is set where exactly one of the two bits is. */
  lemma {:induction false} XorBit(a: nat, b: nat, n: nat, i: nat)
    requires i < n
    ensures XorBits(a, b, n) / Pow2(i) % 2 == 1 <==> a / Pow2(i) % 2 != b / Pow2(i) % 2
  {
    hide XorBits, Pow2;
    XorSplit(a, b, n);
    if i == 0 {
      assert Pow2(0) == 1 by { NoPower(); }
    } else {
      XorBit(a / 2, b / 2, n - 1, i - 1);
      UpperBit(a, i);
      UpperBit(b, i);
      UpperBit(XorBits(a, b, n), i);
    }
  }

  lemma UpperBit(x: nat, i: nat)
    requires i > 0
    ensures x / Pow2(i) == x / 2 / Pow2(i - 1)
  {
    DivideTwice(x, 2, Pow2(i - 1));
  }

  lemma {:induction false} XorTwice(a: nat, b: nat, n: nat)
    requires a < Pow2(n)
    ensures XorBits(a, b, n) < Pow2(n)
    ensures XorBits(XorBits(a, b, n), b, n) == a
  {
    if n > 0 {
      HalfRange(a, n);
      XorTwice(a / 2, b / 2, n - 1);
      XorSplit(a, b, n);
      XorSplit(XorBits(a, b, n), b, n);
      hide XorBits;
      BitTwice(a % 2, b % 2);
    }
  }

  lemma WordRange()
    ensures Pow2(32) == 0x1_0000_0000
  {
    assert Pow2(8) == 0x100;
    assert Pow2(16) == 0x1_0000;
    assert Pow2(24) == 0x100_0000;
  }

  function XorWord(a: u32, b: u32): u32 {
    WordRange();
    XorTwice(a, b, 32);
    XorBits(a, b, 32)
  }

  function Xor(a: Block, b: Block): Block {
    [XorWord(a[0], b[0]), XorWord(a[1], b[1]), XorWord(a[2], b[2]), XorWord(a[3], b[3])]
  }

  lemma XorCancels(a: Block, b: Block)
    ensures Xor(Xor(a, b), b) == a
  {
    hide XorBits;
    WordRange();
    XorTwice(a[0], b[0], 32);
    XorTwice(a[1], b[1], 32);
    XorTwice(a[2], b[2], 32);
    XorTwice(a[3], b[3], 32);
  }
}
