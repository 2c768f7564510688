/** UTF-8 names at the interface of the driver and UTF-16 names inside it (`tchar2uni`, `put_utf`;
    section 3 of RFC 3629). */
module Unicode {
  import opened Bytes
  import opened Wrappers

  /** A character other than the terminator, by its code point. */
  predicate Scalar(c: int) {
    0 < c < 0x11_0000 && !IsSurrogate(c)
  }

  predicate IsSurrogate(c: int) {
    0xD800 <= c <= 0xDFFF
  }

  /** The UTF-16 units of a character. */
  function Utf16(c: nat): (u: seq<u16>)
    requires Scalar(c)
    ensures 1 <= |u| <= 2
  {
    if c < 0x1_0000 then [c] else [0xD800 + (c - 0x1_0000) / 0x400, 0xDC00 + c % 0x400]
  }

  /** The driver's own form of a character: its unit, or both surrogates in one double word. */
  function Wide(c: nat): u32
    requires Scalar(c)
  {
    if c < 0x1_0000 then c else (0xD800 + (c - 0x1_0000) / 0x400) * 0x1_0000 + 0xDC00 + c % 0x400
  }

  /** The UTF-8 bytes of a character. */
  function Utf8(c: nat): (b: seq<byte>)
    requires Scalar(c)
    ensures 1 <= |b| <= 4
  {
    if c < 0x80 then [c]
    else if c < 0x800 then [0xC0 + c / 0x40, 0x80 + c % 0x40]
    else if c < 0x1_0000 then [0xE0 + c / 0x1000, 0x80 + c / 0x40 % 0x40, 0x80 + c % 0x40]
    else [0xF0 + c / 0x4_0000, 0x80 + c / 0x1000 % 0x40, 0x80 + c / 0x40 % 0x40, 0x80 + c % 0x40]
  }

  /** The UTF-16 units spell the character (section 2.1 of RFC 2781), and the driver holds the pair as one number. */
  lemma Utf16Spells(c: nat)
    requires Scalar(c)
    ensures var u := Utf16(c);
      if c < 0x1_0000 then u == [c] && Wide(c) == c
      else |u| == 2 && 0xD800 <= u[0] <= 0xDBFF && 0xDC00 <= u[1] <= 0xDFFF
           && Wide(c) as int == u[0] as int * 0x1_0000 + u[1] as int
           && c == 0x1_0000 + (u[0] as int - 0xD800) * 0x400 + (u[1] as int - 0xDC00)
  {
  }

  /** The examples of section 7 of RFC 3629 and of section 5 of RFC 2781, and the ends of the surrogate range. */
  lemma EncodingExamples()
    ensures Utf8(0x41) == [0x41] && Utf8(0x391) == [0xCE, 0x91]
    ensures Utf8(0x2262) == [0xE2, 0x89, 0xA2] && Utf8(0xD55C) == [0xED, 0x95, 0x9C]
    ensures Utf8(0x2_33B4) == [0xF0, 0xA3, 0x8E, 0xB4] && Utf16(0x1_2345) == [0xD808, 0xDF45]
    ensures Utf8(0xD7FF) == [0xED, 0x9F, 0xBF] && Utf8(0xE000) == [0xEE, 0x80, 0x80]
    ensures !Scalar(0xD800) && !Scalar(0xDFFF) && !Scalar(0x11_0000)
  {
  }

  /** `put_utf`: the bytes stored, none on a wrong code or when fewer than needed fit. */
  function PutUtf(chr: u32, szb: nat): seq<byte> {
    if chr < 0x80 then (if szb < 1 then [] else [chr])
    else if chr < 0x800 then (if szb < 2 then [] else [0xC0 + chr / 0x40 % 0x20, 0x80 + chr % 0x40])
    else if chr < 0x1_0000 then
      (if szb < 3 || IsSurrogate(chr) then []
       else [0xE0 + chr / 0x1000 % 0x10, 0x80 + chr / 0x40 % 0x40, 0x80 + chr % 0x40])
    else if szb < 4 then []
    else
      var hc := Wrap32(chr / 0x1_0000 * 0x1_0000 - 0xD800_0000) / 0x40;
      var lc := Wrap32(chr % 0x1_0000 - 0xDC00);
      if hc >= 0x10_0000 || lc >= 0x400 then []
      else FourBytes(hc / 0x400 * 0x400 + lc + 0x1_0000)
  }

  function FourBytes(c: nat): seq<byte> {
    [0xF0 + c / 0x4_0000 % 8, 0x80 + c / 0x1000 % 0x40, 0x80 + c / 0x40 % 0x40, 0x80 + c % 0x40]
  }

  /** The byte at `i` of a terminated string. */
  function At(s: seq<byte>, i: nat): byte {
    if i < |s| then s[i] else 0
  }

  datatype Decoded = Bad | Good(uc: u32, used: nat)

  /** The trailing bytes of a sequence. */
  function Trail(s: seq<byte>, i: nat, uc: nat, nf: nat): Option<nat>
    decreases nf
  {
    if nf == 0 then Some(uc)
    else if At(s, i) / 0x40 != 2 then None
    else Trail(s, i + 1, uc * 0x40 + At(s, i) as int % 0x40, nf - 1)
  }

  /** `tchar2uni`. */
  function Decode(s: seq<byte>): Decoded {
    var b: byte := At(s, 0);
    if b < 0x80 then Good(b, 1)
    else if b / 0x20 == 6 then Finish(Trail(s, 1, b % 0x20, 1), 2)
    else if b / 0x10 == 14 then Finish(Trail(s, 1, b % 0x10, 2), 3)
    else if b / 8 == 30 then Finish(Trail(s, 1, b % 8, 3), 4)
    else Bad
  }

  function Finish(c: Option<nat>, used: nat): Decoded {
    if c.None? || c.value < 0x80 || !Scalar(c.value) then Bad else Good(Wide(c.value), used)
  }

  lemma PairParts(c: nat)
    requires 0x1_0000 <= c < 0x11_0000
    ensures var chr := Wide(c);
      && 0x1_0000 <= chr < 0x1_0000_0000
      && Wrap32(chr / 0x1_0000 * 0x1_0000 - 0xD800_0000) / 0x40 == (c - 0x1_0000) / 0x400 * 0x400
      && Wrap32(chr % 0x1_0000 - 0xDC00) == c % 0x400
  {
    var h, l := (c - 0x1_0000) / 0x400, c % 0x400;
    assert Wide(c) == (0xD800 + h) * 0x1_0000 + 0xDC00 + l;
    assert Wide(c) / 0x1_0000 == 0xD800 + h && Wide(c) % 0x1_0000 == 0xDC00 + l;
    assert h * 0x1_0000 / 0x40 == h * 0x400;
  }

  lemma PutPair(c: nat, szb: nat)
    requires Scalar(c) && c >= 0x1_0000 && szb >= 4
    ensures PutUtf(Wide(c), szb) == Utf8(c)
  {
    hide Wide, Wrap32, FourBytes, Utf8;
    PairParts(c);
    PairJoins(c);
    FourIsUtf8(c);
  }

  lemma PairJoins(c: nat)
    requires 0x1_0000 <= c < 0x11_0000
    ensures var hc := (c - 0x1_0000) / 0x400 * 0x400;
      0 <= hc < 0x10_0000 && 0 <= c % 0x400 < 0x400 && hc / 0x400 * 0x400 + c % 0x400 + 0x1_0000 == c
  {
  }

  lemma FourIsUtf8(c: nat)
    requires Scalar(c) && c >= 0x1_0000
    ensures FourBytes(c) == Utf8(c)
  {
    assert c / 0x4_0000 % 8 == c / 0x4_0000;
  }

  /** Every character that fits is stored as its UTF-8 bytes. */
  lemma PutIsUtf8(c: nat, szb: nat)
    requires Scalar(c)
    ensures PutUtf(Wide(c), szb) == if |Utf8(c)| <= szb then Utf8(c) else []
  {
    if c >= 0x1_0000 {
      hide PutUtf, Wide, Wrap32;
      PairParts(c);
      if szb >= 4 {
        PutPair(c, szb);
      } else {
        PutNoRoom(Wide(c), szb);
      }
    } else if c >= 0x800 {
      assert c / 0x1000 % 0x10 == c / 0x1000;
    } else if c >= 0x80 {
      assert c / 0x40 % 0x20 == c / 0x40;
    }
  }

  lemma PutNoRoom(chr: u32, szb: nat)
    requires chr >= 0x1_0000 && szb < 4
    ensures PutUtf(chr, szb) == []
  {
  }

  lemma DecodeTwo(c: nat, s: seq<byte>)
    requires 0x80 <= c < 0x800 && At(s, 0) == 0xC0 + c / 0x40 && At(s, 1) == 0x80 + c % 0x40
    ensures Decode(s) == Good(Wide(c), 2)
  {
    hide Trail, Wide;
    TrailOne(s, 1, c / 0x40, 1);
    TrailOne(s, 2, c, 1);
  }

  lemma DecodeThree(c: nat, s: seq<byte>)
    requires Scalar(c) && 0x800 <= c < 0x1_0000
    requires At(s, 0) == 0xE0 + c / 0x1000 && At(s, 1) == 0x80 + c / 0x40 % 0x40 && At(s, 2) == 0x80 + c % 0x40
    ensures Decode(s) == Good(Wide(c), 3)
  {
    hide Trail, Wide;
    Digits(c);
    TrailOne(s, 1, c / 0x1000, 2);
    TrailOne(s, 2, c / 0x40, 1);
    TrailOne(s, 3, c, 1);
  }

  lemma DecodeFour(c: nat, s: seq<byte>)
    requires Scalar(c) && 0x1_0000 <= c
    requires At(s, 0) == 0xF0 + c / 0x4_0000 && At(s, 1) == 0x80 + c / 0x1000 % 0x40
    requires At(s, 2) == 0x80 + c / 0x40 % 0x40 && At(s, 3) == 0x80 + c % 0x40
    ensures Decode(s) == Good(Wide(c), 4)
  {
    hide Trail, Wide;
    Digits(c);
    TrailOne(s, 1, c / 0x4_0000, 3);
    TrailOne(s, 2, c / 0x1000, 2);
    TrailOne(s, 3, c / 0x40, 1);
    TrailOne(s, 4, c, 1);
  }

  /** Whatever follows, the bytes of a character decode to it and exactly its bytes are consumed. */
  lemma DecodeUtf8(c: nat, tail: seq<byte>)
    requires Scalar(c)
    ensures Decode(Utf8(c) + tail) == Good(Wide(c), |Utf8(c)|)
  {
    hide Decode, Wide;
    var s := Utf8(c) + tail;
    if c < 0x80 {
      assert At(s, 0) == c;
      DecodeOne(c, s);
    } else if c < 0x800 {
      DecodeTwo(c, s);
    } else if c < 0x1_0000 {
      DecodeThree(c, s);
    } else {
      DecodeFour(c, s);
    }
  }

  lemma DecodeOne(c: nat, s: seq<byte>)
    requires Scalar(c) && c < 0x80 && At(s, 0) == c
    ensures Decode(s) == Good(Wide(c), 1)
  {
  }

  lemma Digits(c: nat)
    ensures c / 0x40 * 0x40 + c % 0x40 == c
    ensures c / 0x1000 * 0x40 + c / 0x40 % 0x40 == c / 0x40
    ensures c / 0x4_0000 * 0x40 + c / 0x1000 % 0x40 == c / 0x1000
  {
    assert c / 0x1000 == c / 0x40 / 0x40 && c / 0x4_0000 == c / 0x1000 / 0x40;
  }

  lemma WideInjective(c: nat, d: nat)
    requires Scalar(c) && Scalar(d) && Wide(c) == Wide(d)
    ensures c == d
  {
  }

  lemma TwoDigits(x: nat, y: nat)
    requires y < 0x40
    ensures (x * 0x40 + y) / 0x40 == x && (x * 0x40 + y) % 0x40 == y
  {
  }

  /** The code point a decoded sequence spells, by its length. */
  function Spelled(s: seq<byte>, n: nat): nat
    requires 1 <= n <= 4 && n <= |s|
  {
    if n == 1 then s[0]
    else if n == 2 then s[0] as int % 0x20 * 0x40 + s[1] as int % 0x40
    else if n == 3 then (s[0] as int % 0x10 * 0x40 + s[1] as int % 0x40) * 0x40 + s[2] as int % 0x40
    else ((s[0] as int % 8 * 0x40 + s[1] as int % 0x40) * 0x40 + s[2] as int % 0x40) * 0x40 + s[3] as int % 0x40
  }

  /** A byte that announces a sequence of `n` bytes. */
  predicate Leads(b: byte, n: nat) {
    match n
    case 1 => b < 0x80
    case 2 => b / 0x20 == 6
    case 3 => b / 0x10 == 14
    case 4 => b / 8 == 30
    case _ => false
  }

  /** The UTF-8 bytes of a character: a first byte that announces their number, trailing bytes from 80 to BF,
      their bits together the character, and no more bytes than it needs (section 3 of RFC 3629). */
  lemma Utf8Spells(c: nat)
    requires Scalar(c)
    ensures var b := Utf8(c);
      && Leads(b[0], |b|) && Spelled(b, |b|) == c && (forall i :: 1 <= i < |b| ==> 0x80 <= b[i] <= 0xBF)
      && |b| == if c <= 0x7F then 1 else if c <= 0x7FF then 2 else if c <= 0xFFFF then 3 else 4
  {
    hide Decode, Wide, Utf8, Spelled, Leads;
    var b := Utf8(c);
    Utf8Length(c);
    DecodeUtf8(c, []);
    assert b + [] == b;
    DecodedBytes(b, c);
  }

  lemma Utf8Length(c: nat)
    requires Scalar(c)
    ensures |Utf8(c)| == if c <= 0x7F then 1 else if c <= 0x7FF then 2 else if c <= 0xFFFF then 3 else 4
  {
  }

  lemma TrailOne(s: seq<byte>, i: nat, uc: nat, nf: nat)
    requires nf > 0
    ensures Trail(s, i, uc, nf) ==
      if At(s, i) / 0x40 != 2 then None else Trail(s, i + 1, uc * 0x40 + At(s, i) as int % 0x40, nf - 1)
    ensures Trail(s, i, uc, 0) == Some(uc)
  {
  }

  /** What a successful decoding tells about its bytes. */
  lemma DecodedBytes(s: seq<byte>, c: nat)
    requires Scalar(c) && Decode(s).Good? && Decode(s).uc == Wide(c) && Decode(s).used <= |s| && s != []
    ensures 1 <= Decode(s).used <= 4 && Spelled(s, Decode(s).used) == c
    ensures forall i :: 1 <= i < Decode(s).used ==> s[i] / 0x40 == 2
    ensures Leads(s[0], Decode(s).used)
  {
    hide Trail, Wide, Utf8, Utf16, Spelled;
    var b := s[0];
    if b < 0x80 {
      WideSmall(c);
      assert Spelled(s, 1) == b by { OneSpells(s); }
    } else if b / 0x20 == 6 {
      TwoTrail(s);
      WideInjective(c, Spelled(s, 2));
    } else if b / 0x10 == 14 {
      ThreeTrail(s);
      WideInjective(c, Spelled(s, 3));
    } else {
      FourTrail(s);
      WideInjective(c, Spelled(s, 4));
    }
  }

  lemma OneSpells(s: seq<byte>)
    requires s != []
    ensures Spelled(s, 1) == s[0]
  {
  }

  lemma TwoTrail(s: seq<byte>)
    requires |s| >= 2 && Trail(s, 1, s[0] % 0x20, 1).Some?
    ensures Trail(s, 1, s[0] % 0x20, 1) == Some(Spelled(s, 2)) && s[1] / 0x40 == 2
  {
    hide Trail;
    TrailOne(s, 1, s[0] % 0x20, 1);
    TrailOne(s, 2, Spelled(s, 2), 1);
  }

  lemma ThreeTrail(s: seq<byte>)
    requires |s| >= 3 && Trail(s, 1, s[0] % 0x10, 2).Some?
    ensures Trail(s, 1, s[0] % 0x10, 2) == Some(Spelled(s, 3)) && s[1] / 0x40 == 2 && s[2] / 0x40 == 2
  {
    hide Trail;
    TrailOne(s, 1, s[0] % 0x10, 2);
    TrailOne(s, 2, s[0] as int % 0x10 * 0x40 + s[1] as int % 0x40, 1);
    TrailOne(s, 3, Spelled(s, 3), 1);
  }

  lemma FourTrail(s: seq<byte>)
    requires |s| >= 4 && Trail(s, 1, s[0] % 8, 3).Some?
    ensures Trail(s, 1, s[0] % 8, 3) == Some(Spelled(s, 4)) && s[1] / 0x40 == 2 && s[2] / 0x40 == 2 && s[3] / 0x40 == 2
  {
    hide Trail;
    TrailOne(s, 1, s[0] % 8, 3);
    TrailOne(s, 2, s[0] as int % 8 * 0x40 + s[1] as int % 0x40, 2);
    TrailOne(s, 3, (s[0] as int % 8 * 0x40 + s[1] as int % 0x40) * 0x40 + s[2] as int % 0x40, 1);
    TrailOne(s, 4, Spelled(s, 4), 1);
  }

  lemma WideSmall(c: int)
    ensures 0 < c < 0x1_0000 && Scalar(c) ==> Wide(c) == c
    ensures c >= 0x1_0000 && Scalar(c) ==> Wide(c) >= 0x1_0000
  {
  }

  /** The first two bytes of a three- or four-byte sequence that spells a character with more bytes than it needs. */
  predicate Overlong(s: seq<byte>) {
    (At(s, 0) == 0xE0 && At(s, 1) < 0xA0) || (At(s, 0) == 0xF0 && At(s, 1) < 0x90)
  }

  lemma ShortestLength(s: seq<byte>, c: nat)
    requires Scalar(c) && Decode(s).Good? && Decode(s).uc == Wide(c) && Decode(s).used <= |s| && s != []
    ensures s[..Decode(s).used] == Utf8(c) <==> Decode(s).used == |Utf8(c)|
  {
    hide Decode, Wide;
    DecodedBytes(s, c);
    if Decode(s).used == |Utf8(c)| {
      SameSpelling(s, Decode(s).used, c);
    }
  }

  /** An accepted sequence is what the encoder would have written exactly when its first two bytes are
      not those of an overlong form. */
  lemma ShortestFormIff(s: seq<byte>, c: nat)
    requires Scalar(c) && Decode(s).Good? && Decode(s).uc == Wide(c) && Decode(s).used <= |s| && s != []
    ensures s[..Decode(s).used] == Utf8(c) <==> !Overlong(s)
  {
    DecodedBytes(s, c);
    ShortestLength(s, c);
  }

  /** Whatever is accepted spells one character, unless it is the terminator. */
  lemma AcceptedIsScalar(s: seq<byte>)
    requires s != [] && Decode(s).Good? && Decode(s).uc != 0
    ensures Decode(s).used <= |s|
    ensures exists c: nat :: Scalar(c) && Decode(s).uc == Wide(c)
  {
    hide Wide;
    var c := if s[0] < 0x80 then Some(s[0] as nat)
             else if s[0] / 0x20 == 6 then Trail(s, 1, s[0] % 0x20, 1)
             else if s[0] / 0x10 == 14 then Trail(s, 1, s[0] % 0x10, 2)
             else Trail(s, 1, s[0] % 8, 3);
    assert Scalar(c.value);
    if s[0] < 0x80 { WideSmall(c.value); }
    assert Decode(s).uc == Wide(c.value);
  }

  lemma SameSpelling(s: seq<byte>, n: nat, c: nat)
    requires Scalar(c) && 1 <= n <= 4 && n <= |s| && n == |Utf8(c)| && Spelled(s, n) == c
    requires forall i :: 1 <= i < n ==> s[i] / 0x40 == 2
    requires Leads(s[0], n)
    ensures s[..n] == Utf8(c)
  {
    if n == 2 {
      SpellTwo(s[0], s[1], c);
    } else if n == 3 {
      SpellThree(s[0], s[1], s[2], c);
    } else if n == 4 {
      SpellFour(s[0], s[1], s[2], s[3], c);
    }
  }

  lemma Trailing(b: byte)
    requires b / 0x40 == 2
    ensures b == 0x80 + b % 0x40
  {
  }

  lemma SpellTwo(b0: byte, b1: byte, c: nat)
    requires b0 / 0x20 == 6 && b1 / 0x40 == 2 && c == b0 as int % 0x20 * 0x40 + b1 as int % 0x40
    ensures b0 == 0xC0 + c / 0x40 && b1 == 0x80 + c % 0x40
  {
    Trailing(b1);
    TwoDigits(b0 % 0x20, b1 % 0x40);
  }

  lemma SpellThree(b0: byte, b1: byte, b2: byte, c: nat)
    requires b0 / 0x10 == 14 && b1 / 0x40 == 2 && b2 / 0x40 == 2
    requires c == (b0 as int % 0x10 * 0x40 + b1 as int % 0x40) * 0x40 + b2 as int % 0x40
    ensures b0 == 0xE0 + c / 0x1000 && b1 == 0x80 + c / 0x40 % 0x40 && b2 == 0x80 + c % 0x40
  {
    Trailing(b1);
    Trailing(b2);
    TwoDigits(b0 as int % 0x10 * 0x40 + b1 as int % 0x40, b2 % 0x40);
    TwoDigits(b0 % 0x10, b1 % 0x40);
    assert c / 0x1000 == c / 0x40 / 0x40;
  }

  lemma SpellFour(b0: byte, b1: byte, b2: byte, b3: byte, c: nat)
    requires b0 / 8 == 30 && b1 / 0x40 == 2 && b2 / 0x40 == 2 && b3 / 0x40 == 2
    requires c == ((b0 as int % 8 * 0x40 + b1 as int % 0x40) * 0x40 + b2 as int % 0x40) * 0x40 + b3 as int % 0x40
    ensures b0 == 0xF0 + c / 0x4_0000 && b1 == 0x80 + c / 0x1000 % 0x40 && b2 == 0x80 + c / 0x40 % 0x40
    ensures b3 == 0x80 + c % 0x40
  {
    Trailing(b1);
    Trailing(b2);
    Trailing(b3);
    TwoDigits((b0 as int % 8 * 0x40 + b1 as int % 0x40) * 0x40 + b2 as int % 0x40, b3 % 0x40);
    TwoDigits(b0 as int % 8 * 0x40 + b1 as int % 0x40, b2 % 0x40);
    TwoDigits(b0 % 8, b1 % 0x40);
    assert c / 0x1000 == c / 0x40 / 0x40 && c / 0x4_0000 == c / 0x1000 / 0x40;
  }

  /** The two-byte character U+0080 written in three bytes is accepted. */
  lemma OverlongAccepted()
    ensures Decode([0xE0, 0x82, 0x80]) == Good(0x80, 3) && Utf8(0x80) == [0xC2, 0x80]
  {
    var s: seq<byte> := [0xE0, 0x82, 0x80];
    assert Trail(s, 3, 0x80, 0) == Some(0x80);
    assert Trail(s, 2, 2, 1) == Some(0x80);
    assert Trail(s, 1, 0, 2) == Some(0x80);
  }
}
