/** Long names between the application and the directory: the loop of `get_fileinfo` that lists a name
    and the loop of `create_name` that takes one. */
module NameText {
  import opened Bytes
  import opened Wrappers
  import opened Unicode

  const LFN_BUF := 255
  const MAX_LFN := 255

  ghost predicate Text(cs: seq<nat>) {
    forall i :: 0 <= i < |cs| ==> Scalar(cs[i])
  }

  /** A text in the driver's units. */
  function Units(cs: seq<nat>): (u: seq<u16>)
    requires Text(cs)
  {
    if cs == [] then [] else Units(cs[..|cs| - 1]) + Utf16(cs[|cs| - 1])
  }

  /** A text in the application's bytes. */
  function Coded(cs: seq<nat>): (b: seq<byte>)
    requires Text(cs)
  {
    if cs == [] then [] else Coded(cs[..|cs| - 1]) + Utf8(cs[|cs| - 1])
  }

  lemma TakeOne(cs: seq<nat>, k: nat)
    requires Text(cs) && k < |cs|
    ensures Text(cs[..k]) && Text(cs[..k + 1])
    ensures Units(cs[..k + 1]) == Units(cs[..k]) + Utf16(cs[k])
    ensures Coded(cs[..k + 1]) == Coded(cs[..k]) + Utf8(cs[k])
  {
    assert cs[..k + 1][..k] == cs[..k];
  }

  /** The text up to `k` is a prefix of the whole in both forms. */
  lemma {:induction false} Prefixes(cs: seq<nat>, k: nat)
    requires Text(cs) && k <= |cs|
    ensures Text(cs[..k]) && Units(cs[..k]) <= Units(cs) && Coded(cs[..k]) <= Coded(cs)
    decreases |cs| - k
  {
    hide Units, Coded, Utf16, Utf8, Scalar;
    if k < |cs| {
      TakeOne(cs, k);
      Prefixes(cs, k + 1);
    } else {
      assert cs[..k] == cs;
    }
  }

  lemma UnitsNonzero(cs: seq<nat>)
    requires Text(cs)
    ensures forall i :: 0 <= i < |Units(cs)| ==> Units(cs)[i] != 0
  {
  }

  /** The units of a stored name before its terminator. */
  function UpToNull(lfn: seq<u16>): (u: seq<u16>)
    ensures u <= lfn
  {
    if lfn == [] || lfn[0] == 0 then [] else [lfn[0]] + UpToNull(lfn[1..])
  }

  /** The first terminator from `si` on. */
  lemma NullAt(lfn: seq<u16>, si: nat) returns (n: nat)
    requires si < |lfn| && lfn[|lfn| - 1] == 0 && forall i :: 0 <= i < si ==> lfn[i] != 0
    ensures si <= n < |lfn| && lfn[n] == 0 && forall i :: 0 <= i < n ==> lfn[i] != 0
  {
    n := si;
    while lfn[n] != 0
      invariant si <= n < |lfn| && forall i :: 0 <= i < n ==> lfn[i] != 0
      decreases |lfn| - n
    {
      n := n + 1;
    }
  }

  lemma {:induction false} UpToNullIs(lfn: seq<u16>, n: nat)
    requires n < |lfn| && lfn[n] == 0 && forall i :: 0 <= i < n ==> lfn[i] != 0
    ensures UpToNull(lfn) == lfn[..n]
  {
    if n > 0 { UpToNullIs(lfn[1..], n - 1); }
  }

  /** The loop of `get_fileinfo`: a name that is listed is a text, in the application's bytes; it is not
      listed when these bytes do not fit or its units are no text. */
  method ListName(lfn: seq<u16>) returns (fname: seq<byte>, ghost cs: seq<nat>)
    requires lfn != [] && lfn[|lfn| - 1] == 0
    ensures |fname| <= LFN_BUF
    ensures fname != [] ==> Text(cs) && UpToNull(lfn) == Units(cs) && fname == Coded(cs)
    ensures fname == [] && UpToNull(lfn) != [] ==>
      forall ds: seq<nat> :: Text(ds) && UpToNull(lfn) == Units(ds) ==> |Coded(ds)| > LFN_BUF
  {
    hide Units, Coded, Utf16, Utf8, PutUtf, Wide;
    NoText();
    cs := [];
    var si, hs: u16 := 0, 0;
    fname := [];
    while lfn[si] != 0
      invariant 0 <= si < |lfn| && |fname| <= LFN_BUF && Text(cs) && fname == Coded(cs)
      invariant forall i :: 0 <= i < si ==> lfn[i] != 0
      invariant hs == 0 ==> lfn[..si] == Units(cs)
      invariant hs != 0 ==> si > 0 && hs == lfn[si - 1] && IsSurrogate(hs) && lfn[..si - 1] == Units(cs)
      decreases |lfn| - si
    {
      var wc := lfn[si];
      si := si + 1;
      if hs == 0 && IsSurrogate(wc) {
        hs := wc;
        continue;
      }
      var chr: u32 := hs as int * 0x1_0000 + wc;
      var nw := PutUtf(chr, LFN_BUF - |fname|);
      PutFits(chr, LFN_BUF - |fname|);
      if nw == [] {
        ghost var n := NullAt(lfn, si);
        UpToNullIs(lfn, n);
        NotListed(lfn, n, si, hs, cs);
        fname := [];
        hs := 0;
        return;
      }
      ghost var c := PutIsText(hs, wc, LFN_BUF - |fname|);
      OneMore(cs, c);
      assert lfn[..si] == Units(cs) + Utf16(c);
      fname := fname + nw;
      hs := 0;
      cs := cs + [c];
    }
    UpToNullIs(lfn, si);
    if hs != 0 {
      assert lfn[..si][..si - 1] == lfn[..si - 1];
      BrokenEnd(lfn[..si], cs, hs);
      fname := [];
    } else {
      NoUnits(cs);
    }
  }

  lemma NoText()
    ensures Text([]) && Units([]) == [] && Coded([]) == []
  {
  }

  lemma PutFits(chr: u32, szb: nat)
    ensures |PutUtf(chr, szb)| <= szb
  {
  }

  lemma OneMore(cs: seq<nat>, c: nat)
    requires Text(cs) && Scalar(c)
    ensures Text(cs + [c]) && Units(cs + [c]) == Units(cs) + Utf16(c) && Coded(cs + [c]) == Coded(cs) + Utf8(c)
  {
    assert (cs + [c])[..|cs|] == cs;
  }

  /** Units that `put_utf` stores are those of a character. */
  lemma PutIsText(hs: u16, wc: u16, szb: nat) returns (c: nat)
    requires if hs == 0 then wc != 0 && !IsSurrogate(wc) else IsSurrogate(hs)
    requires PutUtf(hs as int * 0x1_0000 + wc, szb) != []
    ensures Scalar(c) && Wide(c) == hs as int * 0x1_0000 + wc && Utf8(c) == PutUtf(hs as int * 0x1_0000 + wc, szb)
    ensures Utf16(c) == if hs == 0 then [wc] else [hs, wc]
  {
    var chr := hs as int * 0x1_0000 + wc;
    if hs == 0 {
      c := wc;
    } else {
      HighLow(hs, wc);
      HalvesOfPair(hs, wc);
      c := 0x1_0000 + (hs - 0xD800) * 0x400 + (wc - 0xDC00);
      PairOf(hs, wc);
    }
    PutIsUtf8(c, szb);
  }

  /** What `put_utf` accepts above U+FFFF is a high and a low surrogate. */
  lemma HalvesOfPair(hs: u16, wc: u16)
    requires IsSurrogate(hs)
    ensures Wrap32(hs as int * 0x1_0000 - 0xD800_0000) / 0x40 < 0x10_0000 <==> hs < 0xDC00
    ensures Wrap32(wc as int - 0xDC00) < 0x400 <==> 0xDC00 <= wc < 0xE000
  {
  }

  lemma PairOf(hs: u16, wc: u16)
    requires 0xD800 <= hs < 0xDC00 <= wc < 0xE000
    ensures var c := 0x1_0000 + (hs - 0xD800) * 0x400 + (wc - 0xDC00);
      Scalar(c) && Wide(c) == hs as int * 0x1_0000 + wc && Utf16(c) == [hs, wc]
  {
    var h, l := hs - 0xD800, wc - 0xDC00;
    var c := 0x1_0000 + h * 0x400 + l;
    assert (c - 0x1_0000) / 0x400 == h && c % 0x400 == l;
  }

  lemma WholeText(cs: seq<nat>)
    ensures cs[..|cs|] == cs
  {
  }

  lemma SameUnits(c: nat, d: nat, u: seq<u16>, i: nat)
    requires Scalar(c) && Scalar(d) && i + |Utf16(c)| <= |u| && i + |Utf16(d)| <= |u|
    requires u[i..i + |Utf16(c)|] == Utf16(c) && u[i..i + |Utf16(d)|] == Utf16(d)
    ensures c == d
  {
    assert Utf16(c)[0] == u[i] == Utf16(d)[0];
    if |Utf16(c)| == 2 { assert Utf16(c)[1] == u[i + 1]; }
    if |Utf16(d)| == 2 { assert Utf16(d)[1] == u[i + 1]; }
    PairParts16(c);
    PairParts16(d);
  }

  lemma PairParts16(c: nat)
    requires Scalar(c)
    ensures |Utf16(c)| == 2 <==> IsSurrogate(Utf16(c)[0])
    ensures |Utf16(c)| == 2 ==> c == 0x1_0000 + (Utf16(c)[0] as int - 0xD800) * 0x400 + (Utf16(c)[1] as int - 0xDC00)
  {
  }

  /** A text whose units begin those of another is the beginning of it. */
  lemma {:induction false} PrefixText(cs: seq<nat>, ds: seq<nat>)
    requires Text(cs) && Text(ds) && Units(cs) <= Units(ds)
    ensures |cs| <= |ds| && cs == ds[..|cs|]
    decreases |cs|
  {
    hide Units, Coded, Utf16;
    if cs != [] {
      var k := |cs| - 1;
      WholeText(cs);
      WholeText(ds);
      TakeOne(cs, k);
      PrefixText(cs[..k], ds);
      Utf16Nonempty(cs[k]);
      if k < |ds| {
        TakeOne(ds, k);
        Prefixes(ds, k + 1);
        PartAt(Units(ds[..k]), Utf16(cs[k]), Units(ds));
        PartAt(Units(ds[..k]), Utf16(ds[k]), Units(ds));
        SameUnits(cs[k], ds[k], Units(ds), |Units(ds[..k])|);
        assert ds[..k + 1] == ds[..k] + [ds[k]] && cs == cs[..k] + [cs[k]];
      }
    }
  }

  lemma PartAt(a: seq<u16>, b: seq<u16>, u: seq<u16>)
    requires a + b <= u
    ensures |a| + |b| <= |u| && u[|a|..|a| + |b|] == b
  {
    assert (a + b)[|a|..|a| + |b|] == b;
  }

  lemma Utf16Nonempty(c: nat)
    requires Scalar(c)
    ensures Utf16(c) != [] && Utf8(c) != []
  {
  }

  /** The units of the next character of a longer text. */
  lemma NextUnits(cs: seq<nat>, ds: seq<nat>)
    requires Text(cs) && Text(ds) && Units(cs) <= Units(ds) && Units(cs) != Units(ds)
    ensures |cs| < |ds| && Text(ds[..|cs| + 1]) && ds[..|cs|] == cs
    ensures Units(cs) + Utf16(ds[|cs|]) <= Units(ds) && Coded(cs) + Utf8(ds[|cs|]) <= Coded(ds)
  {
    PrefixText(cs, ds);
    WholeText(ds);
    var k := |cs|;
    TakeOne(ds, k);
    Prefixes(ds, k + 1);
  }

  /** Units `put_utf` refuses belong to no text whose bytes fit. */
  lemma NotListed(lfn: seq<u16>, n: nat, si: nat, hs: u16, cs: seq<nat>)
    requires 0 < si <= n <= |lfn| && Text(cs) && |Coded(cs)| <= LFN_BUF
    requires if hs == 0 then lfn[..si - 1] == Units(cs) && !IsSurrogate(lfn[si - 1])
             else si > 1 && IsSurrogate(hs) && lfn[..si - 2] == Units(cs) && lfn[si - 2] == hs
    requires PutUtf(hs as int * 0x1_0000 + lfn[si - 1], LFN_BUF - |Coded(cs)|) == []
    ensures forall ds: seq<nat> :: Text(ds) && lfn[..n] == Units(ds) ==> |Coded(ds)| > LFN_BUF
  {
    hide PutUtf, Units, Coded, Utf16, Utf8, Wide;
    forall ds: seq<nat> | Text(ds) && lfn[..n] == Units(ds)
      ensures |Coded(ds)| > LFN_BUF
    {
      var i := if hs == 0 then si - 1 else si - 2;
      assert lfn[..n][..i] == lfn[..i];
      NextUnits(cs, ds);
      var d := ds[|cs|];
      PartAt(Units(cs), Utf16(d), Units(ds));
      UnitsAreWide(d, lfn[..n], i, hs, lfn[si - 1]);
      PutIsUtf8(d, LFN_BUF - |Coded(cs)|);
      Utf16Nonempty(d);
    }
  }

  lemma UnitsAreWide(d: nat, u: seq<u16>, i: nat, hs: u16, wc: u16)
    requires Scalar(d) && i + |Utf16(d)| <= |u| && u[i..i + |Utf16(d)|] == Utf16(d)
    requires if hs == 0 then u[i] == wc && !IsSurrogate(wc)
             else i + 1 < |u| && u[i] == hs && IsSurrogate(hs) && u[i + 1] == wc
    ensures Wide(d) == hs as int * 0x1_0000 + wc
  {
    assert Utf16(d)[0] == u[i];
    PairParts16(d);
    if |Utf16(d)| == 2 { assert Utf16(d)[1] == u[i + 1]; }
  }

  /** Units that end after a high surrogate belong to no text. */
  lemma BrokenEnd(u: seq<u16>, cs: seq<nat>, hs: u16)
    requires u != [] && Text(cs) && u[..|u| - 1] == Units(cs) && u[|u| - 1] == hs && IsSurrogate(hs)
    ensures forall ds: seq<nat> :: Text(ds) ==> u != Units(ds)
  {
    forall ds: seq<nat> | Text(ds)
      ensures u != Units(ds)
    {
      if u == Units(ds) {
        NextUnits(cs, ds);
        var d := ds[|cs|];
        PartAt(Units(cs), Utf16(d), u);
        assert Utf16(d)[0] == u[|u| - 1];
        PairParts16(d);
        assert false;
      }
    }
  }

  lemma NoUnits(ds: seq<nat>)
    requires Text(ds)
    ensures Units(ds) == [] <==> ds == []
    ensures Coded(ds) == [] <==> ds == []
  {
    if ds != [] { Utf16Nonempty(ds[|ds| - 1]); }
  }

  /** Characters that end a path segment. */
  predicate Stops(c: int) {
    c < 0x20 || c == 0x2F || c == 0x5C
  }

  /** Characters no long name may contain: " * : < > ? | and DEL. */
  predicate Illegal(c: int) {
    c == 0x22 || c == 0x2A || c == 0x3A || c == 0x3C || c == 0x3E || c == 0x3F || c == 0x7C || c == 0x7F
  }

  /** The two sets of characters as text. */
  lemma CharacterSets(c: char)
    ensures Illegal(c as int) <==> c in "\"*:<>?|\U{7F}"
    ensures Stops(c as int) <==> c < ' ' || c in "/\\"
  {
  }

  datatype Scanned = Rejected | Taken(u: seq<u16>)

  /** What the loop of `create_name` makes of the text from character `k` on. */
  function Scan(cs: seq<nat>, k: nat): Scanned
    requires Text(cs) && k <= |cs|
    decreases |cs| - k
  {
    if k == |cs| then Taken(Units(cs))
    else if Stops(cs[k]) then Taken(Units(cs[..k]))
    else if Illegal(cs[k]) || |Units(cs[..k + 1])| > MAX_LFN then Rejected
    else Scan(cs, k + 1)
  }

  /** A name without its trailing spaces and dots. */
  function Snipped(u: seq<u16>): (r: seq<u16>)
    ensures r <= u
    ensures r == u <==> u == [] || (u[|u| - 1] != 0x20 && u[|u| - 1] != 0x2E)
    ensures r == [] || (r[|r| - 1] != 0x20 && r[|r| - 1] != 0x2E)
    ensures forall i :: |r| <= i < |u| ==> u[i] == 0x20 || u[i] == 0x2E
  {
    if u == [] || (u[|u| - 1] != 0x20 && u[|u| - 1] != 0x2E) then u else Snipped(u[..|u| - 1])
  }

  predicate DotName(u: seq<u16>) {
    u == [0x2E] || u == [0x2E, 0x2E]
  }

  /** The name an accepted segment stands for; None is FR_INVALID_NAME. */
  function NameOf(s: Scanned): Option<seq<u16>> {
    if s.Rejected? then None
    else if DotName(s.u) then Some(s.u)
    else if Snipped(s.u) == [] then None
    else Some(Snipped(s.u))
  }

  /** The bytes `p` decode, one after the other, to the characters `cs` and then `rest`. */
  ghost predicate Reads(p: seq<byte>, cs: seq<nat>, rest: seq<byte>)
    requires Text(cs)
    decreases |cs|
  {
    if cs == [] then rest == p
    else
      var d := Decode(p);
      d.Good? && d.uc == Wide(cs[0]) && d.used <= |p| && Reads(p[d.used..], cs[1..], rest)
  }

  lemma {:induction false} ReadsMore(p: seq<byte>, cs: seq<nat>, rest: seq<byte>, c: nat)
    requires Text(cs) && Scalar(c) && Reads(p, cs, rest)
    requires Decode(rest).Good? && Decode(rest).uc == Wide(c) && Decode(rest).used <= |rest|
    ensures Text(cs + [c]) && Reads(p, cs + [c], rest[Decode(rest).used..])
    decreases |cs|
  {
    hide Decode, Wide;
    if cs == [] {
      assert cs + [c] == [c] && [c][1..] == [];
    } else {
      ReadsMore(p[Decode(p).used..], cs[1..], rest, c);
      assert (cs + [c])[1..] == cs[1..] + [c];
    }
  }

  /** A segment whose first characters are `read` ends before `rest`: at a separator, a control character or
      the terminator. */
  predicate Ends(rest: seq<byte>) {
    Decode(rest).Good? && Stops(Decode(rest).uc % 0x1_0000)
  }

  /** It is refused at `rest`: the bytes are malformed, the character is illegal, or there are too many units. */
  ghost predicate Refused(read: seq<nat>, rest: seq<byte>)
    requires Text(read)
  {
    Decode(rest) == Bad ||
    (exists c: nat :: Scalar(c) && Decode(rest).uc == Wide(c) && (Illegal(c) || |Units(read)| + |Utf16(c)| > MAX_LFN))
  }

  /** Whatever the bytes: `read` is what a name segment consists of before `rest`, all of it allowed. */
  ghost predicate Segment(path: seq<byte>, read: seq<nat>, rest: seq<byte>) {
    Text(read) && Reads(path, read, rest) && |Units(read)| <= MAX_LFN && forall i :: 0 <= i < |read| ==>
      Nameable(read[i])
  }

  /** The loop of `create_name` that decodes one segment; None on malformed bytes and on a character or length
      it refuses. */
  method TakeSegment(path: seq<byte>, ghost cs: seq<nat>)
    returns (r: Option<seq<u16>>, ghost read: seq<nat>, ghost rest: seq<byte>)
    ensures Segment(path, read, rest)
    ensures r.Some? ==> r.value == Units(read) && Ends(rest)
    ensures r.None? ==> Refused(read, rest)
    ensures Text(cs) && path == Coded(cs) ==>
      match Scan(cs, 0) case Rejected => r == None case Taken(u) => r == Some(u)
  {
    hide Units, Coded, Utf8, Utf16, Decode, Wide, Scan, Illegal;
    ghost var k, known := 0, Text(cs) && path == Coded(cs);
    NoText();
    assert cs[..0] == [];
    var p, lfn: seq<u16> := path, [];
    read, rest := [], path;
    while true
      invariant k <= |cs|
      invariant known ==>
        Text(cs[..k]) && Coded(cs[..k]) + p == path && lfn == Units(cs[..k]) && Scan(cs, k) == Scan(cs, 0)
      invariant rest == p && Segment(path, read, rest) && lfn == Units(read)
      decreases |p|
    {
      var d := Decode(p);
      if known {
        NextCharacter(cs, k, p);
        if k < |cs| { WideUnits(cs[k]); }
      }
      DecodeUses(p);
      if d == Bad { return None, read, rest; }
      var uc := d.uc;
      p := if d.used <= |p| then p[d.used..] else [];
      ghost var c := NextRead(path, read, rest);
      if uc >= 0x1_0000 { lfn := lfn + [uc / 0x1_0000]; }
      var wc: u16 := uc % 0x1_0000;
      if Stops(wc) { return Some(lfn), read, rest; }
      if wc < 0x80 && Illegal(wc) { return None, read, rest; }
      if |lfn| >= MAX_LFN { return None, read, rest; }
      lfn := lfn + [wc];
      read, rest := read + [c], p;
      if known { k := k + 1; }
    }
  }

  /** The character the loop decodes next, unless the segment ends. */
  lemma NextRead(path: seq<byte>, read: seq<nat>, rest: seq<byte>) returns (c: nat)
    requires Segment(path, read, rest) && Decode(rest).Good?
    ensures Ends(rest) ==> Decode(rest).uc < 0x1_0000
    ensures !Ends(rest) ==>
      && rest != [] && Decode(rest).used <= |rest| && Scalar(c) && Wide(c) == Decode(rest).uc && !Stops(c)
      && Text(read + [c]) && Reads(path, read + [c], rest[Decode(rest).used..])
      && Units(read + [c]) == Units(read) + Utf16(c)
      && Utf16(c) == (if Wide(c) >= 0x1_0000 then [Wide(c) / 0x1_0000] else []) + [Wide(c) % 0x1_0000]
      && (Wide(c) % 0x1_0000 < 0x80 && Illegal(Wide(c) % 0x1_0000) <==> Illegal(c))
  {
    DecodeUses(rest);
    c := 0x20;
    hide Decode, Wide, Units, Coded, Utf16, Utf8, Illegal;
    if rest != [] && Decode(rest).uc != 0 {
      AcceptedIsScalar(rest);
      var c': nat :| Scalar(c') && Decode(rest).uc == Wide(c');
      c := c';
      WideUnits(c);
      ReadsMore(path, read, rest, c);
      OneMore(read, c);
    } else {
      EndOfText(rest);
    }
  }

  lemma EndOfText(p: seq<byte>)
    requires Decode(p).Good? && (p == [] || Decode(p).uc == 0)
    ensures Decode(p).uc == 0
  {
  }

  /** The part of `create_name` that builds the long name: the segment without trailing spaces and dots, unless
      it is a dot name. */
  method CreateName(path: seq<byte>, ghost cs: seq<nat>)
    returns (r: Option<seq<u16>>, ghost read: seq<nat>, ghost rest: seq<byte>)
    ensures Segment(path, read, rest)
    ensures r.Some? ==> Ends(rest) && Some(r.value) == NameOf(Taken(Units(read)))
    ensures r.None? ==> Refused(read, rest) || (Ends(rest) && NameOf(Taken(Units(read))) == None)
    ensures Text(cs) && path == Coded(cs) ==> r == NameOf(Scan(cs, 0))
  {
    hide Units, Coded, Scan, Segment, Ends, Refused;
    r, read, rest := TakeSegment(path, cs);
    if r.None? || DotName(r.value) { return; }
    var lfn, di := r.value, |r.value|;
    assert lfn[..di] == lfn;
    while di > 0 && (lfn[di - 1] == 0x20 || lfn[di - 1] == 0x2E)
      invariant 0 <= di <= |lfn|
      invariant Snipped(lfn[..di]) == Snipped(lfn)
    {
      assert lfn[..di][..di - 1] == lfn[..di - 1];
      di := di - 1;
    }
    r := if di == 0 then None else Some(lfn[..di]);
  }

  /** The units of a character, taken out of its wide form. */
  lemma WideUnits(c: nat)
    requires Scalar(c)
    ensures Utf16(c) == (if Wide(c) >= 0x1_0000 then [Wide(c) / 0x1_0000] else []) + [Wide(c) % 0x1_0000]
    ensures Stops(Wide(c) % 0x1_0000) <==> Stops(c)
    ensures Stops(c) ==> Wide(c) < 0x1_0000
    ensures Wide(c) % 0x1_0000 < 0x80 && Illegal(Wide(c) % 0x1_0000) <==> Illegal(c)
  {
    if c >= 0x1_0000 {
      var h, l := (c - 0x1_0000) / 0x400, c % 0x400;
      assert Wide(c) == (0xD800 + h) * 0x1_0000 + (0xDC00 + l);
      HighLow(0xD800 + h, 0xDC00 + l);
    }
  }

  lemma HighLow(h: nat, l: nat)
    requires l < 0x1_0000
    ensures (h * 0x1_0000 + l) / 0x1_0000 == h && (h * 0x1_0000 + l) % 0x1_0000 == l
  {
  }

  lemma DecodeUses(p: seq<byte>)
    ensures Decode(p).Good? ==> 1 <= Decode(p).used
    ensures Decode(p).Good? && !Stops(Decode(p).uc % 0x1_0000) ==> p != []
  {
  }

  /** What the loop of `create_name` sees before character `k`. */
  lemma NextCharacter(cs: seq<nat>, k: nat, p: seq<byte>)
    requires Text(cs) && k <= |cs| && Text(cs[..k]) && Coded(cs[..k]) + p == Coded(cs)
    ensures k == |cs| ==> Decode(p) == Good(0, 1) && Scan(cs, k) == Taken(Units(cs[..k]))
    ensures k < |cs| ==>
      && Text(cs[..k + 1]) && Decode(p) == Good(Wide(cs[k]), |Utf8(cs[k])|) && |Utf8(cs[k])| <= |p|
      && Coded(cs[..k + 1]) + p[|Utf8(cs[k])|..] == Coded(cs)
      && Units(cs[..k + 1]) == Units(cs[..k]) + Utf16(cs[k])
      && Scan(cs, k) == (if Stops(cs[k]) then Taken(Units(cs[..k]))
                         else if Illegal(cs[k]) || |Units(cs[..k + 1])| > MAX_LFN then Rejected
                         else Scan(cs, k + 1))
  {
    hide Utf8, Wide;
    WholeText(cs);
    if k < |cs| {
      TakeOne(cs, k);
      Prefixes(cs, k + 1);
      var b := Utf8(cs[k]);
      assert Coded(cs[..k]) + b <= Coded(cs[..k]) + p;
      PrefixTail(Coded(cs[..k]), b, p);
      DecodeUtf8(cs[k], p[|b|..]);
      assert b + p[|b|..] == p;
    }
  }

  lemma PrefixTail(a: seq<byte>, b: seq<byte>, p: seq<byte>)
    requires a + b <= a + p
    ensures b <= p && a + b + p[|b|..] == a + p
  {
    assert (a + b)[|a|..] == b && (a + p)[|a|..|a| + |b|] == (a + b)[|a|..];
    assert |b| <= |p|;
    assert (a + p)[|a|..] == p;
  }

  predicate Nameable(c: int) {
    !Stops(c) && !Illegal(c)
  }

  lemma UnitsGrow(cs: seq<nat>, k: nat)
    requires Text(cs) && k < |cs|
    ensures Text(cs[..k]) && |Units(cs[..k])| < |Units(cs)|
  {
    TakeOne(cs, k);
    Prefixes(cs, k + 1);
  }

  /** A scan takes the whole text exactly when no character of it stops or is illegal; otherwise it
      takes less or nothing. */
  lemma {:induction false} ScanTakesAll(cs: seq<nat>, k: nat)
    requires Text(cs) && k <= |cs| && |Units(cs)| <= MAX_LFN
    ensures Scan(cs, k) == Taken(Units(cs)) <==> forall i :: k <= i < |cs| ==> Nameable(cs[i])
    ensures Scan(cs, k).Taken? ==> |Scan(cs, k).u| <= |Units(cs)|
    ensures Scan(cs, k) != Taken(Units(cs)) && Scan(cs, k).Taken? ==> |Scan(cs, k).u| < |Units(cs)|
    decreases |cs| - k
  {
    hide Units;
    if k < |cs| {
      UnitsGrow(cs, k);
      Prefixes(cs, k + 1);
      ScanTakesAll(cs, k + 1);
    }
  }

  /** What a listed name denotes when it is passed back. */
  function Reopened(cs: seq<nat>): Option<seq<u16>>
    requires Text(cs)
  {
    if |Coded(cs)| <= LFN_BUF then NameOf(Scan(cs, 0)) else None
  }

  /** A listed name denotes the same name again exactly when it fits the buffer, has only characters a
      name may have, and does not end in a space or a dot (other than the two dot names). */
  lemma ReopensIff(cs: seq<nat>)
    requires Text(cs) && cs != [] && |Units(cs)| <= MAX_LFN
    ensures Reopened(cs) == Some(Units(cs)) <==>
      && |Coded(cs)| <= 255
      && (forall i :: 0 <= i < |cs| ==> Nameable(cs[i]))
      && (Units(cs) == [0x2E] || Units(cs) == [0x2E, 0x2E] ||
          (Units(cs) != [] && Units(cs)[|Units(cs)| - 1] != 0x20 && Units(cs)[|Units(cs)| - 1] != 0x2E))
  {
    hide Units, Coded, Scan, NameOf, Snipped, Nameable;
    UnitsNotEmpty(cs);
    ScanTakesAll(cs, 0);
    NameOfScan(Scan(cs, 0));
  }

  /** When the name is the whole segment. */
  lemma NameOfScan(s: Scanned)
    ensures s.Rejected? ==> NameOf(s) == None
    ensures s.Taken? && NameOf(s).Some? ==> |NameOf(s).value| <= |s.u|
    ensures s.Taken? && s.u != [] ==>
      (NameOf(s) == Some(s.u) <==>
        s.u == [0x2E] || s.u == [0x2E, 0x2E] || (s.u[|s.u| - 1] != 0x20 && s.u[|s.u| - 1] != 0x2E))
  {
  }

  lemma UnitsNotEmpty(cs: seq<nat>)
    requires Text(cs) && cs != []
    ensures Units(cs) != []
  {
  }

  /** Listing a name and passing the listed bytes back. */
  method ListThenCreate(lfn: seq<u16>, ghost cs: seq<nat>) returns (r: Option<seq<u16>>)
    requires Text(cs) && lfn == Units(cs) + [0]
    ensures r == Reopened(cs)
  {
    hide Units, Coded, Scan;
    NoText();
    NothingScanned();
    UnitsNonzero(cs);
    UpToNullIs(lfn, |Units(cs)|);
    assert lfn[..|Units(cs)|] == Units(cs);
    NoUnits(cs);
    var fname;
    ghost var ds;
    fname, ds := ListName(lfn);
    WholeText(cs);
    if fname != [] {
      PrefixText(ds, cs);
      PrefixText(cs, ds);
    }
    ghost var read, rest;
    r, read, rest := CreateName(fname, if |Coded(cs)| <= LFN_BUF then cs else []);
  }

  lemma NothingScanned()
    ensures Text([]) && NameOf(Scan([], 0)) == None
  {
  }

  /** `n` times the character `c`. */
  function Repeated(c: nat, n: nat): (cs: seq<nat>)
    requires Scalar(c)
    ensures |cs| == n && Text(cs)
  {
    seq(n, _ => c)
  }

  lemma {:induction false} RepeatedLengths(c: nat, n: nat)
    requires Scalar(c)
    ensures |Units(Repeated(c, n))| == n * |Utf16(c)| && |Coded(Repeated(c, n))| == n * |Utf8(c)|
  {
    hide Units, Coded, Utf16, Utf8;
    if n == 0 {
      NoText();
    } else {
      RepeatedLengths(c, n - 1);
      assert Repeated(c, n) == Repeated(c, n - 1) + [c];
      OneMore(Repeated(c, n - 1), c);
      OnceMore(n, |Utf16(c)|);
      OnceMore(n, |Utf8(c)|);
    }
  }

  lemma OnceMore(n: nat, k: nat)
    requires n > 0
    ensures n * k == (n - 1) * k + k
  {
  }

  /** A name of 86 euro signs, well within 255 units, takes 258 bytes and cannot be listed. */
  lemma LongNameNotListed()
    ensures var cs := Repeated(0x20AC, 86);
      |Units(cs)| == 86 && |Coded(cs)| == 258 && Reopened(cs) == None
  {
    RepeatedLengths(0x20AC, 86);
    assert |Utf16(0x20AC)| == 1 && |Utf8(0x20AC)| == 3;
  }
}
