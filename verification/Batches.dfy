/** `aes`: long inputs run through the engine in batches, in place, with the initial vector carried from
    one batch to the next in memory. */
module Batches {
  import opened Bytes
  import opened Aes

  /** The block cipher under the selected key. */
  datatype Cipher = Cipher(enc: Block -> Block, dec: Block -> Block)

  datatype Mode = Ctr | CbcDecrypt | CbcEncrypt | EcbDecrypt | EcbEncrypt

  const MAX_BATCH := 0xFFFF

  /** The block that stands for a number in the engine's own order. */
  function FromNum(v: nat): Block
    requires v < TWO128
  {
    [Swap(v / 0x1_0000_0000_0000_0000_0000_0000), Swap(v / 0x1_0000_0000_0000_0000 % 0x1_0000_0000),
     Swap(v / 0x1_0000_0000 % 0x1_0000_0000), Swap(v % 0x1_0000_0000)]
  }

  lemma NumDigits(v: nat)
    requires v < TWO128
    ensures Num([v % 0x1_0000_0000, v / 0x1_0000_0000 % 0x1_0000_0000, v / 0x1_0000_0000_0000_0000 % 0x1_0000_0000,
                 v / 0x1_0000_0000_0000_0000_0000_0000]) == v
  {
    var a := v / 0x1_0000_0000;
    var b := a / 0x1_0000_0000;
    assert b == v / 0x1_0000_0000_0000_0000 && b / 0x1_0000_0000 == v / 0x1_0000_0000_0000_0000_0000_0000;
  }

  lemma DigitsOfNum(l: Block)
    ensures Num(l) < TWO128
    ensures Num(l) % 0x1_0000_0000 == l[0] && Num(l) / 0x1_0000_0000 % 0x1_0000_0000 == l[1]
    ensures Num(l) / 0x1_0000_0000_0000_0000 % 0x1_0000_0000 == l[2]
    ensures Num(l) / 0x1_0000_0000_0000_0000_0000_0000 == l[3]
  {
    var c := l[2] as int + 0x1_0000_0000 * l[3] as int;
    var b := l[1] as int + 0x1_0000_0000 * c;
    var v := l[0] as int + 0x1_0000_0000 * b;
    assert Num(l) == v;
    assert v / 0x1_0000_0000 == b && b / 0x1_0000_0000 == c && c / 0x1_0000_0000 == l[3];
    assert v / 0x1_0000_0000_0000_0000 == c && v / 0x1_0000_0000_0000_0000_0000_0000 == l[3];
  }

  /** Numbers below 2^128 and blocks are the same thing. */
  lemma FromNumValue(v: nat)
    requires v < TWO128
    ensures Value(FromNum(v), BIG_NORMAL) == v
  {
    hide Swap, Num;
    var l := [v % 0x1_0000_0000, v / 0x1_0000_0000 % 0x1_0000_0000, v / 0x1_0000_0000_0000_0000 % 0x1_0000_0000,
              v / 0x1_0000_0000_0000_0000_0000_0000];
    NumDigits(v);
    SwapSwap(l[0]);
    SwapSwap(l[1]);
    SwapSwap(l[2]);
    SwapSwap(l[3]);
    assert Digits(FromNum(v), BIG_NORMAL) == l;
  }

  lemma ValueFromNum(b: Block)
    ensures Value(b, BIG_NORMAL) < TWO128
    ensures FromNum(Value(b, BIG_NORMAL)) == b
  {
    hide Swap, Num;
    DigitsOfNum(Digits(b, BIG_NORMAL));
    SwapAllTwice(b);
  }

  /** The counter after `n` more blocks. */
  function Counted(reg: Block, n: nat): Block {
    FromNum((Value(reg, BIG_NORMAL) + n) % TWO128)
  }

  lemma CountedTwice(reg: Block, m: nat, n: nat)
    ensures Counted(Counted(reg, m), n) == Counted(reg, m + n)
    ensures Counted(reg, 0) == reg
  {
    hide Value, FromNum;
    ValueFromNum(reg);
    FromNumValue((Value(reg, BIG_NORMAL) + m) % TWO128);
    ModAdd(Value(reg, BIG_NORMAL) + m, n);
  }

  lemma ModAdd(x: nat, n: nat)
    ensures (x % TWO128 + n) % TWO128 == (x + n) % TWO128
  {
  }

  /** What the engine makes of one block, given the block `reg` in its register. */
  function Out(c: Cipher, mode: Mode, reg: Block, x: Block): Block {
    match mode
    case Ctr => Xor(x, c.enc(reg))
    case CbcDecrypt => Xor(c.dec(x), reg)
    case CbcEncrypt => c.enc(Xor(x, reg))
    case EcbDecrypt => c.dec(x)
    case EcbEncrypt => c.enc(x)
  }

  /** The register after that block. */
  function Next(c: Cipher, mode: Mode, reg: Block, x: Block): Block {
    match mode
    case Ctr => Counted(reg, 1)
    case CbcDecrypt => x
    case CbcEncrypt => Out(c, mode, reg, x)
    case _ => reg
  }

  /** The register after the blocks `p`. */
  function After(c: Cipher, mode: Mode, reg: Block, p: seq<Block>): Block
    decreases |p|
  {
    if p == [] then reg else After(c, mode, Next(c, mode, reg, p[0]), p[1..])
  }

  /** One pass over the blocks `p`. */
  function Pass(c: Cipher, mode: Mode, reg: Block, p: seq<Block>): (r: seq<Block>)
    ensures |r| == |p|
    decreases |p|
  {
    if p == [] then [] else [Out(c, mode, reg, p[0])] + Pass(c, mode, Next(c, mode, reg, p[0]), p[1..])
  }

  /** A pass over `p + q` is a pass over `p` followed by one over `q` from the register left behind. */
  lemma {:induction false} PassSplit(c: Cipher, mode: Mode, reg: Block, p: seq<Block>, q: seq<Block>)
    ensures Pass(c, mode, reg, p + q) == Pass(c, mode, reg, p) + Pass(c, mode, After(c, mode, reg, p), q)
    ensures After(c, mode, reg, p + q) == After(c, mode, After(c, mode, reg, p), q)
    decreases |p|
  {
    hide Next, Out;
    if p == [] {
      assert p + q == q;
    } else {
      assert (p + q)[0] == p[0] && (p + q)[1..] == p[1..] + q;
      PassSplit(c, mode, Next(c, mode, reg, p[0]), p[1..], q);
    }
  }

  /** In counter mode block `i` is combined with the encrypted value base + i modulo 2^128. */
  lemma {:induction false} CtrPass(c: Cipher, reg: Block, p: seq<Block>)
    ensures forall i :: 0 <= i < |p| ==> Pass(c, Ctr, reg, p)[i] == Xor(p[i], c.enc(Counted(reg, i)))
    ensures After(c, Ctr, reg, p) == Counted(reg, |p|)
    decreases |p|
  {
    hide Counted, Xor;
    CountedTwice(reg, 0, 0);
    if p != [] {
      CtrPass(c, Counted(reg, 1), p[1..]);
      forall i | 0 <= i < |p|
        ensures Pass(c, Ctr, reg, p)[i] == Xor(p[i], c.enc(Counted(reg, i)))
      {
        if i > 0 {
          CountedTwice(reg, 1, i - 1);
          assert Pass(c, Ctr, reg, p)[i] == Pass(c, Ctr, Counted(reg, 1), p[1..])[i - 1];
        }
      }
      CountedTwice(reg, 1, |p| - 1);
    }
  }

  /** CBC decryption of a block needs only the block before it; the register ends as the last block. */
  lemma {:induction false} CbcPass(c: Cipher, reg: Block, p: seq<Block>)
    ensures forall i :: 0 <= i < |p| ==>
      Pass(c, CbcDecrypt, reg, p)[i] == Xor(c.dec(p[i]), if i == 0 then reg else p[i - 1])
    ensures After(c, CbcDecrypt, reg, p) == if p == [] then reg else p[|p| - 1]
    decreases |p|
  {
    hide Xor;
    if p != [] {
      CbcPass(c, p[0], p[1..]);
      forall i | 0 <= i < |p|
        ensures Pass(c, CbcDecrypt, reg, p)[i] == Xor(c.dec(p[i]), if i == 0 then reg else p[i - 1])
      {
        if i > 0 {
          assert Pass(c, CbcDecrypt, reg, p)[i] == Pass(c, CbcDecrypt, p[0], p[1..])[i - 1];
        }
      }
    }
  }

  /** In CBC encryption the register ends as the last block written. */
  lemma {:induction false} CbcEncryptLast(c: Cipher, reg: Block, p: seq<Block>)
    requires p != []
    ensures After(c, CbcEncrypt, reg, p) == Pass(c, CbcEncrypt, reg, p)[|p| - 1]
    decreases |p|
  {
    if |p| > 1 {
      CbcEncryptLast(c, Next(c, CbcEncrypt, reg, p[0]), p[1..]);
    } else {
      assert p[1..] == [];
    }
  }

  /** The two directions cancel: counter mode with itself, and CBC when decryption inverts encryption. */
  lemma {:induction false} PassInverse(c: Cipher, reg: Block, p: seq<Block>)
    ensures Pass(c, Ctr, reg, Pass(c, Ctr, reg, p)) == p
    ensures (forall b :: c.dec(c.enc(b)) == b) ==> Pass(c, CbcDecrypt, reg, Pass(c, CbcEncrypt, reg, p)) == p
    decreases |p|
  {
    hide Counted, Xor;
    if p != [] {
      XorCancels(p[0], c.enc(reg));
      XorCancels(p[0], reg);
      PassInverse(c, Counted(reg, 1), p[1..]);
      PassInverse(c, Next(c, CbcEncrypt, reg, p[0]), p[1..]);
      var q := Pass(c, Ctr, reg, p);
      assert q[1..] == Pass(c, Ctr, Counted(reg, 1), p[1..]);
      var r := Pass(c, CbcEncrypt, reg, p);
      assert r[1..] == Pass(c, CbcEncrypt, Next(c, CbcEncrypt, reg, p[0]), p[1..]);
      assert p == [p[0]] + p[1..];
    }
  }

  predicate IsEcb(mode: Mode) {
    mode.EcbDecrypt? || mode.EcbEncrypt?
  }

  lemma {:induction false} EcbPass(c: Cipher, mode: Mode, reg: Block, p: seq<Block>)
    requires IsEcb(mode)
    ensures forall i :: 0 <= i < |p| ==>
      Pass(c, mode, reg, p)[i] == if mode.EcbDecrypt? then c.dec(p[i]) else c.enc(p[i])
    ensures After(c, mode, reg, p) == reg
    decreases |p|
  {
    if p != [] {
      EcbPass(c, mode, reg, p[1..]);
      forall i | 0 < i < |p|
        ensures Pass(c, mode, reg, p)[i] == Pass(c, mode, reg, p[1..])[i - 1]
      {
      }
    }
  }

  /** The block that `aes_setiv` loads into the engine. */
  function Register(iv: Block, m: IvMode): Block {
    Reordered(iv, m, BIG_NORMAL)
  }

  /** Memory with `w` stored from index `d` on. */
  function Overwritten(m: seq<Block>, d: nat, w: seq<Block>): (r: seq<Block>)
    requires d + |w| <= |m|
    ensures |r| == |m|
  {
    m[..d] + w + m[d + |w|..]
  }

  lemma OverwrittenTwice(m: seq<Block>, d: nat, v: seq<Block>, w: seq<Block>)
    requires d + |v| + |w| <= |m|
    ensures Overwritten(Overwritten(m, d, v), d + |v|, w) == Overwritten(m, d, v + w)
  {
  }

  lemma NotOverwritten(m: seq<Block>, d: nat, w: seq<Block>, a: nat, b: nat)
    requires d + |w| <= |m| && a <= b <= |m| && (d + |w| <= a || b <= d)
    ensures Overwritten(m, d, w)[a..b] == m[a..b]
  {
  }

  lemma NothingWritten(m: seq<Block>, d: nat)
    requires d <= |m|
    ensures Overwritten(m, d, []) == m
  {
  }

  lemma SliceJoin(s: seq<Block>, a: nat, b: nat, c: nat)
    requires a <= b <= c <= |s|
    ensures s[a..b] + s[b..c] == s[a..c]
  {
  }

  lemma SliceOfSlice(s: seq<Block>, a: nat, n: nat, k: nat, b: nat)
    requires a + n <= |s| && k + b <= n
    ensures s[a..a + n][k..k + b] == s[a + k..a + k + b]
  {
    var t := s[a..a + n];
    var u, v := t[k..k + b], s[a + k..a + k + b];
    forall x | 0 <= x < b
      ensures u[x] == v[x]
    {
      assert t[k + x] == s[a + (k + x)];
    }
  }

  lemma PassOne(c: Cipher, mode: Mode, reg: Block, x: Block)
    ensures Pass(c, mode, reg, [x]) == [Out(c, mode, reg, x)] && After(c, mode, reg, [x]) == Next(c, mode, reg, x)
  {
    assert [x][1..] == [];
  }

  /** Output that does not run over input still to be read: it starts at or below it, or lies wholly above. */
  predicate Clear(dst: nat, src: nat, n: nat) {
    dst <= src || src + n <= dst
  }

  /** `aes_batch`: the engine works through `n` blocks. */
  method RunBatch(mem: array<Block>, dst: nat, src: nat, n: nat, c: Cipher, mode: Mode, reg: Block)
    requires Clear(dst, src, n) && src + n <= mem.Length && dst + n <= mem.Length && n <= MAX_BATCH
    modifies mem
    ensures mem[..] == Overwritten(old(mem[..]), dst, Pass(c, mode, reg, old(mem[src..src + n])))
  {
    hide Out, Next, Pass, After, Overwritten;
    ghost var m0, p := mem[..], mem[src..src + n];
    var i, r := 0, reg;
    PassNothing(c, mode, reg);
    NothingWritten(m0, dst);
    while i < n
      invariant 0 <= i <= n
      invariant r == After(c, mode, reg, p[..i])
      invariant mem[..] == Overwritten(m0, dst, Pass(c, mode, reg, p[..i]))
    {
      ghost var m1 := mem[..];
      NotOverwritten(m0, dst, Pass(c, mode, reg, p[..i]), src + i, src + i + 1);
      var x := mem[src + i];
      assert [x] == m1[src + i..src + i + 1] == m0[src + i..src + i + 1] == [p[i]];
      assert p[..i] + [x] == p[..i + 1];
      PassSplit(c, mode, reg, p[..i], [x]);
      PassOne(c, mode, r, x);
      mem[dst + i] := Out(c, mode, r, x);
      OverwriteOne(m1, dst + i, Out(c, mode, r, x));
      OverwrittenTwice(m0, dst, Pass(c, mode, reg, p[..i]), [Out(c, mode, r, x)]);
      r := Next(c, mode, r, x);
      i := i + 1;
    }
    assert p[..n] == p;
  }

  lemma OverwriteOne(m: seq<Block>, d: nat, x: Block)
    requires d < |m|
    ensures m[d := x] == Overwritten(m, d, [x])
  {
  }

  lemma PassNothing(c: Cipher, mode: Mode, reg: Block)
    ensures Pass(c, mode, reg, []) == [] && After(c, mode, reg, []) == reg
  {
  }

  /** Copies the block just before `end` into the initial vector, in the order the next batch expects. */
  method SaveIv(mem: array<Block>, i: nat, iv: array<u32>, ivMode: IvMode)
    requires iv.Length == 4 && i < mem.Length
    modifies iv
    ensures Register(iv[..], ivMode) == mem[i]
  {
    hide Reordered;
    var b := mem[i];
    iv[0], iv[1], iv[2], iv[3] := b[0], b[1], b[2], b[3];
    assert iv[..] == b;
    ChangeMode(iv, BIG_NORMAL, ivMode);
    ReorderedKeeps(b, BIG_NORMAL, ivMode);
  }

  /** Advancing the counter in memory is what the engine's own counter did. */
  lemma AdvancedRegister(w: Block, w': Block, m: IvMode, n: nat)
    requires Value(w', m) == (Value(w, m) + n) % TWO128
    ensures Register(w', m) == Counted(Register(w, m), n)
  {
    hide Value, FromNum, Reordered;
    ReorderedKeeps(w, m, BIG_NORMAL);
    ReorderedKeeps(w', m, BIG_NORMAL);
    ValueFromNum(Register(w', m));
  }

  /** What the engine's register holds at the start of a batch; without chaining nothing is loaded. */
  function StartRegister(mode: Mode, iv: Block, ivMode: IvMode): Block {
    if IsEcb(mode) then [0, 0, 0, 0] else Register(iv, ivMode)
  }

  lemma AfterBatch(c: Cipher, mode: Mode, reg: Block, p: seq<Block>)
    requires p != []
    ensures After(c, mode, reg, p) ==
      match mode
      case Ctr => Counted(reg, |p|)
      case CbcDecrypt => p[|p| - 1]
      case CbcEncrypt => Pass(c, mode, reg, p)[|p| - 1]
      case _ => reg
  {
    match mode
    case Ctr => CtrPass(c, reg, p);
    case CbcDecrypt => CbcPass(c, reg, p);
    case CbcEncrypt => CbcEncryptLast(c, reg, p);
    case _ => EcbPass(c, mode, reg, p);
  }

  /** One batch together with the bookkeeping on the initial vector around it. */
  method OneBatch(mem: array<Block>, dst: nat, src: nat, blocks: u32, c: Cipher, iv: array<u32>, mode: Mode,
                  ivMode: IvMode)
    requires iv.Length == 4 && 0 < blocks <= MAX_BATCH
    requires Clear(dst, src, blocks) && src + blocks <= mem.Length && dst + blocks <= mem.Length
    modifies mem, iv
    ensures mem[..] == Overwritten(old(mem[..]), dst,
      Pass(c, mode, StartRegister(mode, old(iv[..]), ivMode), old(mem[src..src + blocks])))
    ensures StartRegister(mode, iv[..], ivMode) ==
      After(c, mode, StartRegister(mode, old(iv[..]), ivMode), old(mem[src..src + blocks]))
  {
    hide Register, Value, Counted, Pass, After;
    ghost var p, w := mem[src..src + blocks], iv[..];
    var reg := StartRegister(mode, iv[..], ivMode);
    AfterBatch(c, mode, reg, p);
    if mode == CbcDecrypt { SaveIv(mem, src + blocks - 1, iv, ivMode); }
    RunBatch(mem, dst, src, blocks, c, mode, reg);
    if mode == CbcEncrypt {
      SaveIv(mem, dst + blocks - 1, iv, ivMode);
    } else if mode == Ctr {
      AdvanceCounter(iv, blocks, ivMode);
      AdvancedRegister(w, iv[..], ivMode, blocks);
    }
  }

  /** `aes`: whatever the number of batches, the output is one pass over the input as it was, and the
      initial vector left in memory continues that pass. */
  method Process(mem: array<Block>, dst: nat, src: nat, count: u32, c: Cipher, iv: array<u32>, mode: Mode,
                 ivMode: IvMode)
    requires iv.Length == 4 && Clear(dst, src, count) && src + count <= mem.Length && dst + count <= mem.Length
    modifies mem, iv
    ensures mem[..] == Overwritten(old(mem[..]), dst,
      Pass(c, mode, StartRegister(mode, old(iv[..]), ivMode), old(mem[src..src + count])))
    ensures StartRegister(mode, iv[..], ivMode) ==
      After(c, mode, StartRegister(mode, old(iv[..]), ivMode), old(mem[src..src + count]))
  {
    hide StartRegister, Pass, After, Overwritten;
    ghost var m0, p, reg := mem[..], mem[src..src + count], StartRegister(mode, iv[..], ivMode);
    PassNothing(c, mode, reg);
    NothingWritten(m0, dst);
    var k, left := 0, count;
    while left != 0
      invariant 0 <= left && k + left == count
      invariant mem[..] == Overwritten(m0, dst, Pass(c, mode, reg, p[..k]))
      invariant StartRegister(mode, iv[..], ivMode) == After(c, mode, reg, p[..k])
    {
      var blocks := if left >= MAX_BATCH then MAX_BATCH else left;
      ghost var out, q := Pass(c, mode, reg, p[..k]), p[k..k + blocks];
      NotOverwritten(m0, dst, out, src + k, src + k + blocks);
      SliceOfSlice(m0, src, count, k, blocks);
      assert mem[src + k..src + k + blocks] == q;
      SliceJoin(p, 0, k, k + blocks);
      PassSplit(c, mode, reg, p[..k], q);
      OverwrittenTwice(m0, dst, out, Pass(c, mode, After(c, mode, reg, p[..k]), q));
      OneBatch(mem, dst + k, src + k, blocks, c, iv, mode, ivMode);
      k := k + blocks;
      left := left - blocks;
    }
    assert p[..count] == p;
  }
}
