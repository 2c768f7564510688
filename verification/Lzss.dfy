/** The backward in-place LZSS decompressor (`lzss_decompress`): it writes over the memory it reads. */
module Lzss {
  import opened Bytes
  import opened Wrappers

  /** A literal byte, or `length` bytes that repeat what was written `offset + 3` bytes before. */
  datatype Token = Literal(value: byte) | Match(offset: nat, length: nat)

  predicate Encodable(t: Token) {
    t.Match? ==> t.offset < 0x1000 && 3 <= t.length <= 18
  }

  /** The token whose bytes come first in `s`. */
  function Head(s: seq<byte>, match_: bool): (t: Token)
    requires |s| >= Cost(match_)
    ensures Encodable(t)
  {
    if match_ then Match(s[0] as int % 0x10 * 0x100 + s[1] as int, s[0] / 0x10 + 3) else Literal(s[0])
  }

  /** The flag byte moved on to its next bit. */
  function Shifted(flags: byte): byte {
    flags * 2 % 0x100
  }

  function Cost(match_: bool): nat {
    if match_ then 2 else 1
  }

  function Size(t: Token): nat {
    if t.Match? then t.length else 1
  }

  /** The tokens of a stream given in reading order; `n` of the eight bits of `flags` are still to come.
      None on a stream that ends inside a group header or a token. */
  function Parse(s: seq<byte>, flags: byte, n: nat): (r: Option<seq<Token>>)
    decreases |s|, n
  {
    if n == 0 then
      if s == [] then Some([]) else Parse(s[1..], s[0], 8)
    else
      var m := flags >= 0x80;
      if |s| < Cost(m) then None
      else if |s| == Cost(m) then Some([Head(s, m)])
      else
        var rest := Parse(s[Cost(m)..], Shifted(flags), n - 1);
        if rest.None? then None else Some([Head(s, m)] + rest.value)
  }

  /** `len` more bytes in front of `out`, each a copy of the byte `offset + 3` places behind it. */
  function Repeat(out: seq<byte>, offset: nat, len: nat): (r: seq<byte>)
    requires offset + 2 < |out|
    ensures |r| == |out| + len
    decreases len
  {
    if len == 0 then out
    else
      var r := Repeat(out, offset, len - 1);
      [r[offset + 2]] + r
  }

  lemma RepeatStep(out: seq<byte>, offset: nat, len: nat)
    requires offset + 2 < |out|
    ensures Repeat(out, offset, 0) == out
    ensures Repeat(out, offset, len + 1) == [Repeat(out, offset, len)[offset + 2]] + Repeat(out, offset, len)
  {
  }

  /** Repetition leaves what was there, and every new byte equals the one `offset + 3` places behind it,
      also where the copy overlaps itself. */
  lemma {:induction false} RepeatCopies(out: seq<byte>, offset: nat, len: nat)
    requires offset + 2 < |out|
    ensures var r := Repeat(out, offset, len);
      r[len..] == out && forall i :: 0 <= i < len ==> r[i] == r[i + offset + 3]
    decreases len
  {
    if len > 0 {
      RepeatCopies(out, offset, len - 1);
      var q := Repeat(out, offset, len - 1);
      assert Repeat(out, offset, len) == [q[offset + 2]] + q;
    }
  }

  /** What the tokens stand for; the output grows to the front. None when a match reaches past its end. */
  function Expand(ts: seq<Token>, out: seq<byte>): Option<seq<byte>> {
    if ts == [] then Some(out)
    else
      match ts[0]
      case Literal(b) => Expand(ts[1..], [b] + out)
      case Match(o, len) => if o + 2 >= |out| then None else Expand(ts[1..], Repeat(out, o, len))
  }

  /** The decoder on a copy of the stream. */
  function Decode(s: seq<byte>, flags: byte, n: nat, out: seq<byte>): Option<seq<byte>> {
    var ts := Parse(s, flags, n);
    if ts.None? then None else Expand(ts.value, out)
  }

  /** After every token the `size` bytes written so far and the bytes still to be read fit `cap`: the
      write cursor does not fall below the read cursor. */
  predicate Roomy(s: seq<byte>, flags: byte, n: nat, size: nat, cap: nat)
    decreases |s|, n
  {
    if n == 0 then
      s == [] || Roomy(s[1..], s[0], 8, size, cap)
    else
      var m := flags >= 0x80;
      |s| >= Cost(m) ==>
        var rest, size' := s[Cost(m)..], size + Size(Head(s, m));
        size' + |rest| <= cap && (rest == [] || Roomy(rest, Shifted(flags), n - 1, size', cap))
  }

  /** Memory from `lo` to `hi` in the order the decompressor reads it. */
  function Backward(m: seq<byte>, lo: int, hi: int): (s: seq<byte>)
    requires 0 <= lo && hi <= |m|
    ensures |s| == if lo < hi then hi - lo else 0
    ensures forall i :: 0 <= i < |s| ==> s[i] == m[hi - 1 - i]
  {
    if lo < hi then seq(hi - lo, i requires 0 <= i < hi - lo => m[hi - 1 - i]) else []
  }

  /** The three pointers the last eight bytes of a compressed section give. */
  datatype Footer = Footer(top: nat, start: int, stop: int)

  function ReadFooter(m: seq<byte>, end: nat): Footer
    requires 8 <= end <= |m|
  {
    var v1 := LdDword(m, end - 8);
    Footer(end + LdDword(m, end - 4), end - v1 / 0x100_0000, end - v1 % 0x100_0000)
  }

  /** The footer by its bytes: how far the output ends behind the section, the length of the footer, and the length
      of the section in 24 bits. */
  lemma FooterIsInBytes(m: seq<byte>, end: nat)
    requires 8 <= end <= |m|
    ensures ReadFooter(m, end) ==
      Footer(end + Number(m[end - 4..end]), end - m[end - 5] as int, end - Number(m[end - 8..end - 5]))
  {
    hide Number;
    LoadsNumber(m, end - 8);
    LoadsNumber(m, end - 4);
    var low := m[end - 8..end - 5];
    assert m[end - 8..end] [..4] == low + [m[end - 5]];
    ThreeBytes(low);
    var x := low[0] as nat + 0x100 * low[1] as nat + 0x1_0000 * low[2] as nat;
    assert LdDword(m, end - 8) == x + 0x100_0000 * m[end - 5] as nat;
  }

  lemma ThreeBytes(b: seq<byte>)
    requires |b| == 3
    ensures Number(b) == b[0] as nat + 0x100 * b[1] as nat + 0x1_0000 * b[2] as nat
  {
    hide Number;
    NumberStep(b);
    NumberStep(b[1..]);
    NumberStep(b[1..][1..]);
    NothingIsZero();
    assert b[1..][1..][1..] == [];
  }

  /** One match: copies byte by byte, possibly bytes it has just written. */
  method CopyMatch(a: array<byte>, v2: nat, v15: nat, hi: byte, ghost top: nat) returns (v2': nat, ret: byte)
    requires 2 <= v15 < top - v2 && top <= a.Length && hi / 0x10 + 3 <= v2
    modifies a
    ensures v2' == v2 - (hi / 0x10 + 3)
    ensures a[v2'..top] == Repeat(old(a[v2..top]), v15 - 2, hi / 0x10 + 3)
    ensures forall i :: 0 <= i < v2' || top <= i < a.Length ==> a[i] == old(a[i])
    ensures ret == a[v2']
  {
    hide Repeat;
    ghost var out, count := a[v2..top], 0;
    var v16 := hi as int + 32;
    v2', ret := v2, 0;
    RepeatStep(out, v15 - 2, 0);
    while true
      invariant 0 <= count <= hi / 0x10 + 2 && v16 == hi as int + 32 - 16 * count
      invariant v2' == v2 - count
      invariant a[v2'..top] == Repeat(out, v15 - 2, count)
      invariant forall i :: 0 <= i < v2' || top <= i < a.Length ==> a[i] == old(a[i])
      decreases v16
    {
      ghost var was := a[v2'..top];
      assert a[v2' + v15] == was[v15];
      ret := a[v2' + v15];
      v2' := v2' - 1;
      a[v2'] := ret;
      assert a[v2'..top] == [ret] + was;
      RepeatStep(out, v15 - 2, count);
      v16 := v16 - 16;
      count := count + 1;
      if v16 < 0 { return; }
    }
  }

  /** The output after one token. */
  function After(t: Token, out: seq<byte>): (r: seq<byte>)
    requires t.Match? ==> t.offset + 2 < |out|
    ensures |r| == |out| + Size(t)
  {
    if t.Match? then Repeat(out, t.offset, t.length) else [t.value] + out
  }

  /** One round of the inner loop, on the decoder's side. */
  lemma OneToken(s: seq<byte>, flags: byte, n: nat, out: seq<byte>)
    requires n > 0 && Decode(s, flags, n, out).Some?
    ensures |s| >= Cost(flags >= 0x80)
    ensures var t, rest := Head(s, flags >= 0x80), s[Cost(flags >= 0x80)..];
      && (t.Match? ==> t.offset + 2 < |out|)
      && Decode(s, flags, n, out) ==
         (if rest == [] then Some(After(t, out)) else Decode(rest, Shifted(flags), n - 1, After(t, out)))
  {
    var m := flags >= 0x80;
    var t, rest := Head(s, m), s[Cost(m)..];
    if rest == [] {
      assert [t] + [] == [t];
      ExpandFirst(t, [], out);
    } else {
      ExpandFirst(t, Parse(rest, Shifted(flags), n - 1).value, out);
    }
  }

  lemma ExpandFirst(t: Token, ts: seq<Token>, out: seq<byte>)
    ensures Expand([t] + ts, out) ==
      if t.Match? && t.offset + 2 >= |out| then None else Expand(ts, After(t, out))
  {
    assert ([t] + ts)[1..] == ts;
  }

  lemma RoomyStep(s: seq<byte>, flags: byte, n: nat, size: nat, cap: nat)
    requires n > 0 && Roomy(s, flags, n, size, cap) && |s| >= Cost(flags >= 0x80)
    ensures var rest, size' := s[Cost(flags >= 0x80)..], size + Size(Head(s, flags >= 0x80));
      size' + |rest| <= cap && (rest == [] || Roomy(rest, Shifted(flags), n - 1, size', cap))
  {
  }

  /** Between two groups comes a new flag byte. */
  lemma NewGroup(s: seq<byte>, flags: byte, out: seq<byte>, cap: nat)
    requires s != []
    ensures Decode(s, flags, 0, out) == Decode(s[1..], s[0], 8, out)
    ensures Roomy(s, flags, 0, |out|, cap) == Roomy(s[1..], s[0], 8, |out|, cap)
  {
  }

  lemma StepBack(m: seq<byte>, lo: int, hi: int, k: nat)
    requires 0 <= lo && lo + k <= hi <= |m|
    ensures Backward(m, lo, hi)[k..] == Backward(m, lo, hi - k)
  {
  }

  /** What the decompressor needs of its input: the three pointers lie in memory, the stream is well formed,
      and the output never runs over bytes still to be read. */
  predicate Sound(m: seq<byte>, end: nat) {
    8 <= end <= |m| &&
    var f := ReadFooter(m, end);
    && 0 <= f.stop && f.start <= f.top <= |m| && f.stop <= f.top
    && Decode(Backward(m, f.stop, f.start), 0, 0, []).Some?
    && Roomy(Backward(m, f.stop, f.start), 0, 0, 0, f.top - f.stop)
  }

  /** The bytes an untouched copy of the section decodes to. */
  function Plain(m: seq<byte>, end: nat): seq<byte>
    requires Sound(m, end)
  {
    var f := ReadFooter(m, end);
    Decode(Backward(m, f.stop, f.start), 0, 0, []).value
  }

  /** One literal or match: reads it below `v3` and writes what it stands for below `v2`. */
  method ApplyToken(a: array<byte>, v2: nat, v3: nat, v5: byte, ghost t: Token, ghost top: nat)
    returns (v3': nat, v2': nat, ret: byte)
    requires Cost(v5 >= 0x80) <= v3 <= v2 <= top <= a.Length
    requires t == if v5 >= 0x80 then Match(a[v3 - 1] as int % 0x10 * 0x100 + a[v3 - 2] as int,
                                           a[v3 - 1] / 0x10 + 3) else Literal(a[v3 - 1])
    requires (t.Match? ==> t.offset + 2 < top - v2) && Size(t) <= v2
    modifies a
    ensures v3' == v3 - Cost(v5 >= 0x80) && v2' == v2 - Size(t)
    ensures a[v2'..top] == After(t, old(a[v2..top]))
    ensures forall i :: 0 <= i < v2' || top <= i < a.Length ==> a[i] == old(a[i])
    ensures ret == a[v2']
  {
    hide Repeat;
    ghost var out := a[v2..top];
    if v5 >= 0x80 {
      var v12 := a[v3 - 1];
      var v14 := a[v3 - 2];
      v3' := v3 - 2;
      var v15 := v12 as int % 0x10 * 0x100 + v14 as int + 2;
      v2', ret := CopyMatch(a, v2, v15, v12, top);
    } else {
      ret := a[v3 - 1];
      v3' := v3 - 1;
      v2' := v2 - 1;
      a[v2'] := ret;
      assert a[v2'..top] == [ret] + out;
    }
  }

  /** The next token by the bytes in memory. */
  lemma FirstToken(m: seq<byte>, lo: nat, hi: nat, match_: bool)
    requires hi <= |m| && Cost(match_) <= |Backward(m, lo, hi)|
    ensures Cost(match_) <= hi
    ensures var t := Head(Backward(m, lo, hi), match_);
      && t == (if match_ then Match(m[hi - 1] as int % 0x10 * 0x100 + m[hi - 2] as int, m[hi - 1] / 0x10 + 3)
               else Literal(m[hi - 1]))
      && Size(t) > 0
  {
  }

  /** One token keeps the decoder's verdict and the distance between the cursors. */
  method TakeToken(a: array<byte>, v2: nat, v3: nat, v4: nat, v5: byte, ghost n: nat, ghost m0: seq<byte>,
                   ghost top: nat)
    returns (v3': nat, v2': nat, ret: byte)
    requires n > 0 && v4 <= v3 <= v2 <= top <= a.Length == |m0|
    requires Decode(Backward(m0, v4, v3), v5, n, a[v2..top]).Some?
    requires Roomy(Backward(m0, v4, v3), v5, n, top - v2, top - v4)
    requires forall i :: 0 <= i < v2 || top <= i < a.Length ==> a[i] == m0[i]
    modifies a
    ensures v4 <= v3' < v3 && v3' <= v2' < v2
    ensures old(Decode(Backward(m0, v4, v3), v5, n, a[v2..top])) ==
      if v3' == v4 then Some(a[v2'..top]) else Decode(Backward(m0, v4, v3'), Shifted(v5), n - 1, a[v2'..top])
    ensures v3' > v4 ==> Roomy(Backward(m0, v4, v3'), Shifted(v5), n - 1, top - v2', top - v4)
    ensures forall i :: 0 <= i < v2' || top <= i < a.Length ==> a[i] == m0[i]
    ensures ret == a[v2']
  {
    hide Decode, Repeat, Roomy, After, Parse, Expand, Shifted, Head, Backward, Size;
    ghost var s, out := Backward(m0, v4, v3), a[v2..top];
    OneToken(s, v5, n, out);
    RoomyStep(s, v5, n, |out|, top - v4);
    FirstToken(m0, v4, v3, v5 >= 0x80);
    StepBack(m0, v4, v3, Cost(v5 >= 0x80));
    ghost var t, rest := Head(s, v5 >= 0x80), s[Cost(v5 >= 0x80)..];
    v3', v2', ret := ApplyToken(a, v2, v3, v5, t, top);
    assert top - v2' == |out| + Size(t) && rest == Backward(m0, v4, v3') && |rest| == v3' - v4;
  }

  /** One flag byte and the tokens it announces, up to eight. */
  method TakeGroup(a: array<byte>, v2: nat, v3: nat, v4: nat, ghost flags: byte, ghost m0: seq<byte>, ghost top: nat)
    returns (v3': nat, v2': nat, ret: byte, ghost flags': byte)
    requires v4 < v3 <= v2 <= top <= a.Length == |m0|
    requires Decode(Backward(m0, v4, v3), flags, 0, a[v2..top]).Some?
    requires Roomy(Backward(m0, v4, v3), flags, 0, top - v2, top - v4)
    requires forall i :: 0 <= i < v2 || top <= i < a.Length ==> a[i] == m0[i]
    modifies a
    ensures v4 <= v3' < v3 && v3' <= v2' < v2
    ensures old(Decode(Backward(m0, v4, v3), flags, 0, a[v2..top])) ==
      if v3' == v4 then Some(a[v2'..top]) else Decode(Backward(m0, v4, v3'), flags', 0, a[v2'..top])
    ensures v3' > v4 ==> Roomy(Backward(m0, v4, v3'), flags', 0, top - v2', top - v4)
    ensures forall i :: 0 <= i < v2' || top <= i < a.Length ==> a[i] == m0[i]
    ensures ret == a[v2']
  {
    hide Decode, Roomy, Parse, Backward, Shifted;
    ghost var goal := Decode(Backward(m0, v4, v3), flags, 0, a[v2..top]);
    NewGroup(Backward(m0, v4, v3), flags, a[v2..top], top - v4);
    StepBack(m0, v4, v3, 1);
    var v5: byte := a[v3 - 1];
    v3', v2', ret := v3 - 1, v2, 0;
    NeedsToken(Backward(m0, v4, v3'), v5, 8, a[v2'..top]);
    var v7 := 8;
    while v7 >= 1
      invariant 0 <= v7 <= 8 && v4 < v3' < v3 && v3' <= v2' <= v2 && (v7 < 8 ==> v2' < v2 && ret == a[v2'])
      invariant Decode(Backward(m0, v4, v3'), v5, v7, a[v2'..top]) == goal
      invariant Roomy(Backward(m0, v4, v3'), v5, v7, top - v2', top - v4)
      invariant forall i :: 0 <= i < v2' || top <= i < a.Length ==> a[i] == m0[i]
    {
      v3', v2', ret := TakeToken(a, v2', v3', v4, v5, v7, m0, top);
      v7 := v7 - 1;
      v5 := Shifted(v5);
      flags' := v5;
      if v3' <= v4 { return; }
    }
    flags' := v5;
  }

  lemma NeedsToken(s: seq<byte>, flags: byte, n: nat, out: seq<byte>)
    requires n > 0 && Decode(s, flags, n, out).Some?
    ensures s != []
  {
  }

  lemma NothingLeft(flags: byte, out: seq<byte>)
    ensures Decode([], flags, 0, out) == Some(out)
  {
  }

  /** The footer of a sound section by the arithmetic of the code, and what its stream decodes to. */
  lemma DecodesSection(m: seq<byte>, end: nat)
    requires Sound(m, end)
    ensures 8 <= end <= |m|
    ensures var top, v1 := end + LdDword(m, end - 4), LdDword(m, end - 8);
      var start, stop := end - v1 / 0x100_0000, end - v1 % 0x100_0000;
      && ReadFooter(m, end) == Footer(top, start, stop)
      && 0 <= stop && start <= top <= |m| && stop <= top
      && Decode(Backward(m, stop, start), 0, 0, []) == Some(Plain(m, end))
      && Roomy(Backward(m, stop, start), 0, 0, 0, top - stop)
  {
    hide Decode, Roomy, Backward, LdDword;
  }

  /** `lzss_decompress`: in place, and with the same result as decoding a copy; everything below the
      output and above the section stays as it was. */
  method Decompress(a: array<byte>, end: nat) returns (ret: byte)
    requires Sound(a[..], end)
    modifies a
    ensures var top, out := ReadFooter(old(a[..]), end).top, Plain(old(a[..]), end);
      && ReadFooter(old(a[..]), end).stop <= top - |out|
      && a[..] == old(a[..])[..top - |out|] + out + old(a[..])[top..]
      && ret == (if out == [] then 0 else out[0])
  {
    hide Decode, Roomy, Parse, LdDword, Backward, Number, Sound, Plain, ReadFooter;
    DecodesSection(a[..], end);
    ghost var m0 := a[..];
    ret := 0;
    var v1 := LdDword(a[..], end - 8);
    var v2 := end + LdDword(a[..], end - 4);
    var v3 := end - v1 / 0x100_0000;
    var v4 := end - v1 % 0x100_0000;
    ghost var top: nat, goal, flags: byte := v2, Some(Plain(m0, end)), 0;
    if v3 <= v4 {
      NothingLeft(0, []);
      assert Backward(m0, v4, v3) == [];
      return;
    }
    assert a[v2..top] == [];
    while v3 > v4
      invariant 0 <= v4 <= v3 <= v2 <= top <= a.Length == |m0|
      invariant v3 == v4 ==> Some(a[v2..top]) == goal
      invariant v3 > v4 ==> Decode(Backward(m0, v4, v3), flags, 0, a[v2..top]) == goal
      invariant v3 > v4 ==> Roomy(Backward(m0, v4, v3), flags, 0, top - v2, top - v4)
      invariant forall i :: 0 <= i < v2 || top <= i < a.Length ==> a[i] == m0[i]
      invariant ret == if v2 == top then 0 else a[v2]
      decreases v3
    {
      v3, v2, ret, flags := TakeGroup(a, v2, v3, v4, flags, m0, top);
    }
    assert a[..] == m0[..v2] + a[v2..top] + m0[top..];
  }

  /** One bit per token, the first at weight `2^j`. */
  function FlagBits(ts: seq<Token>, j: nat): (v: nat)
    requires |ts| <= j + 1
    ensures v < 2 * Pow2(j)
  {
    if ts == [] then 0
    else (if ts[0].Match? then Pow2(j) else 0) + (if j == 0 then 0 else FlagBits(ts[1..], j - 1))
  }

  lemma {:induction false} DoubleBits(ts: seq<Token>, j: nat)
    requires |ts| <= j && j > 0
    ensures FlagBits(ts, j) == 2 * FlagBits(ts, j - 1)
    decreases |ts|
  {
    if ts == [] {
    } else if j == 1 {
      assert ts[1..] == [];
    } else {
      DoubleBits(ts[1..], j - 1);
    }
  }

  /** The bytes of one token in reading order. */
  function Body(t: Token): seq<byte>
    requires Encodable(t)
  {
    match t
    case Literal(b) => [b]
    case Match(o, len) => [(len - 3) * 0x10 + o / 0x100, o % 0x100]
  }

  /** The two bytes of a match as one number: length less 3 in the upper four bits, offset in the lower twelve. */
  lemma MatchIsInBytes(t: Token, s: seq<byte>)
    requires Encodable(t) && t.Match?
    ensures |Body(t)| == 2 && Body(t)[0] as int * 0x100 + Body(t)[1] as int == (t.length - 3) * 0x1000 + t.offset
    ensures |s| >= 2 ==> var h := Head(s, true);
      h.Match? && s[0] as int * 0x100 + s[1] as int == (h.length - 3) * 0x1000 + h.offset
  {
  }

  /** The first bit of a flag byte is the highest. */
  lemma {:induction false} FlagIsBit(ts: seq<Token>, j: nat, i: nat)
    requires |ts| <= j + 1 && i < |ts|
    ensures FlagBits(ts, j) / Pow2(j - i) % 2 == 1 <==> ts[i].Match?
    decreases i
  {
    var top := if ts[0].Match? then 1 else 0;
    var rest := if j == 0 then 0 else FlagBits(ts[1..], j - 1);
    hide FlagBits, Pow2;
    FlagsSplit(ts, j);
    if i == 0 {
      QuotientIs(FlagBits(ts, j), Pow2(j), top, rest);
    } else {
      FlagIsBit(ts[1..], j - 1, i - 1);
      PowersMultiply(j - i, i);
      OnePower(i);
      HigherBits(FlagBits(ts, j), Pow2(j), top, rest, Pow2(j - i), Pow2(i), Pow2(i - 1));
    }
  }

  lemma OnePower(i: nat)
    requires i > 0
    ensures Pow2(i) == 2 * Pow2(i - 1)
  {
  }

  lemma FlagsSplit(ts: seq<Token>, j: nat)
    requires 0 < |ts| <= j + 1
    ensures var rest := if j == 0 then 0 else FlagBits(ts[1..], j - 1);
      rest < Pow2(j) && FlagBits(ts, j) == Pow2(j) * (if ts[0].Match? then 1 else 0) + rest
  {
  }

  lemma {:induction false} PowersMultiply(m: nat, n: nat)
    ensures Pow2(m + n) == Pow2(m) * Pow2(n)
    decreases n
  {
    if n > 0 {
      PowersMultiply(m, n - 1);
      Regroup(Pow2(m), 2, Pow2(n - 1), 0);
    }
  }

  /** A bit does not depend on the bits above it. */
  lemma HigherBits(y: nat, p: nat, b: nat, x: nat, d: nat, g: nat, e: nat)
    requires d > 0 && p == d * g && g == 2 * e && y == p * b + x
    ensures y / d % 2 == x / d % 2
  {
    var q := x / d;
    QuotientOf(x, d);
    Multiple(d, e, b);
    Regroup(d, 2, e * b, q);
    ProductIsNat(e, b);
    QuotientIs(y, d, 2 * (e * b) + q, x - d * q);
  }

  lemma Multiple(d: nat, e: nat, b: nat)
    ensures d * (2 * e) * b == d * 2 * (e * b)
  {
  }

  function Bodies(ts: seq<Token>): seq<byte>
    requires forall t :: t in ts ==> Encodable(t)
  {
    if ts == [] then [] else Body(ts[0]) + Bodies(ts[1..])
  }

  function GroupSize(ts: seq<Token>): nat {
    if |ts| < 8 then |ts| else 8
  }

  /** The stream a compressor writes for `ts`, in the order the decompressor reads it. */
  function Serialize(ts: seq<Token>): seq<byte>
    requires forall t :: t in ts ==> Encodable(t)
    decreases |ts|
  {
    if ts == [] then []
    else
      var k := GroupSize(ts);
      FlagByteFits(ts[..k]);
      [FlagBits(ts[..k], 7)] + Bodies(ts[..k]) + Serialize(ts[k..])
  }

  lemma FlagByteFits(g: seq<Token>)
    requires |g| <= 8
    ensures FlagBits(g, 7) < 0x100
  {
    assert Pow2(7) == 0x80;
  }

  lemma MatchReads(o: nat, len: nat)
    requires o < 0x1000 && 3 <= len <= 18
    ensures 0 <= (len - 3) * 0x10 + o / 0x100 < 0x100
    ensures ((len - 3) * 0x10 + o / 0x100) % 0x10 == o / 0x100 && ((len - 3) * 0x10 + o / 0x100) / 0x10 == len - 3
  {
  }

  lemma BodyReads(t: Token, tail: seq<byte>)
    requires Encodable(t)
    ensures |Body(t)| == Cost(t.Match?) && Head(Body(t) + tail, t.Match?) == t
  {
    if t.Match? { MatchReads(t.offset, t.length); }
  }

  /** A token's bit is the top bit of the flags. */
  lemma FlagReads(t: Token, g: seq<Token>)
    requires |g| <= 7
    ensures FlagBits([t] + g, 7) < 0x100 && FlagBits(g, 7) < 0x100
    ensures FlagBits([t] + g, 7) >= 0x80 <==> t.Match?
    ensures Shifted(FlagBits([t] + g, 7)) == FlagBits(g, 7)
  {
    hide FlagBits;
    assert Pow2(7) == 0x80 && Pow2(6) == 0x40;
    FirstBit(t, g, 7);
    DoubleBits(g, 7);
  }

  lemma FirstBit(t: Token, g: seq<Token>, j: nat)
    requires |g| <= j && j > 0
    ensures FlagBits([t] + g, j) == (if t.Match? then Pow2(j) else 0) + FlagBits(g, j - 1)
  {
    assert ([t] + g)[1..] == g;
  }

  /** One step of the parser on the bytes of one token. */
  lemma ParseStep(t: Token, more: seq<byte>, flags: byte, n: nat)
    requires Encodable(t) && n > 0 && (flags >= 0x80 <==> t.Match?)
    ensures Parse(Body(t) + more, flags, n) ==
      if more == [] then Some([t])
      else var rest := Parse(more, Shifted(flags), n - 1); if rest.None? then None else Some([t] + rest.value)
  {
    BodyReads(t, more);
    assert (Body(t) + more)[Cost(t.Match?)..] == more;
    hide Body, Head;
  }

  /** What a group followed by `tail` parses to. */
  function Joined(g: seq<Token>, tail: seq<byte>): Option<seq<Token>> {
    if tail == [] then Some(g)
    else
      var rest := Parse(tail[1..], tail[0], 8);
      if rest.None? then None else Some(g + rest.value)
  }

  lemma JoinedFirst(t: Token, g: seq<Token>, tail: seq<byte>)
    ensures Joined([t] + g, tail) == if Joined(g, tail).None? then None else Some([t] + Joined(g, tail).value)
  {
    if tail != [] {
      var rest := Parse(tail[1..], tail[0], 8);
      if rest.Some? { assert [t] + g + rest.value == [t] + (g + rest.value); }
    }
  }

  lemma NextGroup(tail: seq<byte>, flags: byte)
    ensures tail != [] ==> Parse(tail, flags, 0) == Parse(tail[1..], tail[0], 8)
  {
  }

  /** A group parses to its tokens, and what follows it is the next group. */
  lemma {:induction false} GroupParses(g: seq<Token>, tail: seq<byte>, n: nat)
    requires (forall t :: t in g ==> Encodable(t)) && |g| <= n <= 8 && g != []
    requires tail == [] || |g| == n
    ensures FlagBits(g, 7) < 0x100
    ensures Parse(Bodies(g) + tail, FlagBits(g, 7), n) == Joined(g, tail)
    decreases |g|
  {
    hide FlagBits, Head, Shifted, Parse, Body;
    var t, g1 := g[0], g[1..];
    assert g == [t] + g1;
    var more := Bodies(g1) + tail;
    FlagReads(t, g1);
    assert Bodies(g) + tail == Body(t) + more;
    ParseStep(t, more, FlagBits(g, 7), n);
    JoinedFirst(t, g1, tail);
    if g1 == [] {
      assert more == tail;
      assert g == [t];
      NextGroup(tail, Shifted(FlagBits(g, 7)));
    } else {
      GroupParses(g1, tail, n - 1);
      BodyReads(g1[0], []);
      assert more != [];
    }
  }

  lemma SerializeGroup(ts: seq<Token>)
    requires ts != [] && forall t :: t in ts ==> Encodable(t)
    ensures var g, tail := ts[..GroupSize(ts)], Serialize(ts[GroupSize(ts)..]);
      && FlagBits(g, 7) < 0x100 && g != []
      && Serialize(ts) == [FlagBits(g, 7)] + (Bodies(g) + tail)
      && (tail == [] <==> ts[GroupSize(ts)..] == [])
      && (tail == [] || |g| == 8)
  {
    hide FlagBits, Bodies;
    var g, tail := ts[..GroupSize(ts)], Serialize(ts[GroupSize(ts)..]);
    FlagByteFits(g);
    assert Serialize(ts) == [FlagBits(g, 7)] + Bodies(g) + tail;
  }

  /** Parsing a serialized token list gives the list back. */
  lemma {:induction false} SerializeParses(ts: seq<Token>, flags: byte)
    requires forall t :: t in ts ==> Encodable(t)
    ensures Parse(Serialize(ts), flags, 0) == Some(ts)
    decreases |ts|
  {
    hide FlagBits, Bodies, Encodable, Serialize;
    if ts == [] {
      NothingSerialized();
      assert Parse([], flags, 0) == Some([]);
    } else {
      SerializeGroup(ts);
      var k := GroupSize(ts);
      var g, tail, s := ts[..k], Serialize(ts[k..]), Serialize(ts);
      assert s[1..] == Bodies(g) + tail;
      GroupParses(g, tail, 8);
      SerializeParses(ts[k..], 0);
      assert g + ts[k..] == ts && (ts[k..] == [] ==> g == ts);
      assert Parse(s, flags, 0) == Parse(s[1..], s[0], 8) == Joined(g, tail);
    }
  }

  lemma NothingSerialized()
    ensures Serialize([]) == []
  {
  }

  /** Hence a serialized stream decodes to what its tokens stand for. */
  lemma SerializeDecodes(ts: seq<Token>)
    requires forall t :: t in ts ==> Encodable(t)
    ensures Decode(Serialize(ts), 0, 0, []) == Expand(ts, [])
  {
    SerializeParses(ts, 0);
  }

  function Reverse(s: seq<byte>): (r: seq<byte>)
    ensures |r| == |s| && forall i :: 0 <= i < |s| ==> r[i] == s[|s| - 1 - i]
  {
    seq(|s|, i requires 0 <= i < |s| => s[|s| - 1 - i])
  }

  /** The last eight bytes of a section of `n` bytes in all, whose plain form ends `extra` bytes behind it. */
  function FooterBytes(n: nat, extra: u32): (r: seq<byte>)
    requires n < 0x100_0000
    ensures |r| == 8
  {
    StDword(StDword([0, 0, 0, 0, 0, 0, 0, 0], 0, 8 * 0x100_0000 + n), 4, extra)
  }

  lemma FooterReads(n: nat, extra: u32)
    requires n < 0x100_0000
    ensures LdDword(FooterBytes(n, extra), 0) == 8 * 0x100_0000 + n && LdDword(FooterBytes(n, extra), 4) == extra
  {
    var s: seq<byte> := [0, 0, 0, 0, 0, 0, 0, 0];
    StDwordLoads(s, 0, 8 * 0x100_0000 + n);
    StDwordLoads(StDword(s, 0, 8 * 0x100_0000 + n), 4, extra);
    LoadsSame(StDword(s, 0, 8 * 0x100_0000 + n), 0, FooterBytes(n, extra), 0);
  }

  lemma LoadsSame(a: seq<byte>, i: nat, b: seq<byte>, j: nat)
    requires i + 4 <= |a| && j + 4 <= |b| && a[i..i + 4] == b[j..j + 4]
    ensures LdDword(a, i) == LdDword(b, j)
  {
    var u, v := a[i..i + 4], b[j..j + 4];
    assert u[0] == a[i] && u[1] == a[i + 1] && u[2] == a[i + 2] && u[3] == a[i + 3];
    assert v[0] == b[j] && v[1] == b[j + 1] && v[2] == b[j + 2] && v[3] == b[j + 3];
  }

  /** A token list as a compressed section: the stream backwards, then the footer. */
  function Section(ts: seq<Token>, extra: u32): (r: seq<byte>)
    requires (forall t :: t in ts ==> Encodable(t)) && |Serialize(ts)| + 8 < 0x100_0000
    ensures |r| == |Serialize(ts)| + 8
  {
    Reverse(Serialize(ts)) + FooterBytes(|Serialize(ts)| + 8, extra)
  }

  /** A section wherever it stands in memory is fit for the decompressor if its tokens expand and its
      output keeps clear of unread input, and it stands for their expansion. */
  lemma SectionIsSound(ts: seq<Token>, extra: u32, before: seq<byte>, after: seq<byte>)
    requires (forall t :: t in ts ==> Encodable(t)) && |Serialize(ts)| + 8 < 0x100_0000 && extra <= |after|
    requires Expand(ts, []).Some? && Roomy(Serialize(ts), 0, 0, 0, |Section(ts, extra)| + extra)
    ensures var m, end := before + Section(ts, extra) + after, |before| + |Section(ts, extra)|;
      && Sound(m, end) && Plain(m, end) == Expand(ts, []).value
      && ReadFooter(m, end) == Footer(end + extra, end - 8, |before|)
  {
    hide Serialize, Decode, Roomy, LdDword, FooterBytes, Expand, Reverse, Section;
    var s, n := Serialize(ts), |Serialize(ts)| + 8;
    var m, end := before + Section(ts, extra) + after, |before| + n;
    SectionParts(ts, extra, before, after);
    FooterSlice(m, end, n, extra);
    SerializeDecodes(ts);
  }

  lemma SectionParts(ts: seq<Token>, extra: u32, before: seq<byte>, after: seq<byte>)
    requires (forall t :: t in ts ==> Encodable(t)) && |Serialize(ts)| + 8 < 0x100_0000
    ensures var m, end := before + Section(ts, extra) + after, |before| + |Section(ts, extra)|;
      && m[end - 8..end] == FooterBytes(|Section(ts, extra)|, extra)
      && Backward(m, |before|, end - 8) == Serialize(ts)
  {
    hide Serialize, FooterBytes;
  }

  lemma FooterSlice(m: seq<byte>, end: nat, n: nat, extra: u32)
    requires 8 <= n <= end <= |m| && n < 0x100_0000 && m[end - 8..end] == FooterBytes(n, extra)
    ensures ReadFooter(m, end) == Footer(end + extra, end - 8, end - n)
  {
    var w := FooterBytes(n, extra);
    FooterReads(n, extra);
    assert m[end - 8..end][0..4] == m[end - 8..end - 4] && w[0..4] == m[end - 8..end - 4];
    assert m[end - 8..end][4..8] == m[end - 4..end] && w[4..8] == m[end - 4..end];
    LoadsSame(m, end - 8, w, 0);
    LoadsSame(m, end - 4, w, 4);
  }

  /** Round trip through memory: the decompressor puts the expansion of the tokens where it ends `extra`
      bytes behind the section, and changes nothing else. */
  method DecompressSection(a: array<byte>, ghost ts: seq<Token>, ghost extra: u32, ghost before: seq<byte>,
                           ghost after: seq<byte>, end: nat) returns (ret: byte)
    requires (forall t :: t in ts ==> Encodable(t)) && |Serialize(ts)| + 8 < 0x100_0000 && extra <= |after|
    requires Expand(ts, []).Some? && Roomy(Serialize(ts), 0, 0, 0, |Section(ts, extra)| + extra)
    requires a[..] == before + Section(ts, extra) + after && end == |before| + |Section(ts, extra)|
    modifies a
    ensures var out := Expand(ts, []).value;
      && |out| <= |Section(ts, extra)| + extra
      && a[..] == (before + Section(ts, extra) + after)[..end + extra - |out|] + out + after[extra..]
      && (|out| == |Section(ts, extra)| + extra ==> a[..] == before + out + after[extra..])
  {
    hide Section, Serialize, Roomy, Expand, Sound, Plain;
    ghost var m := a[..];
    SectionIsSound(ts, extra, before, after);
    ret := Decompress(a, end);
    assert m[end + extra..] == after[extra..];
    assert m[..|before|] == before;
  }
}
