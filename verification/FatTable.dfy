/** The packed FAT12/16/32 entries of an image, as a table of numbers. */
module FatTable {
  import opened Bytes
  import opened Layout

  /** An image that holds the whole first FAT of a well laid out volume. */
  ghost predicate Holds(g: Geometry, img: seq<Sector>) {
    g.Valid() && g.End() <= |img|
  }

  /** Byte `i` of the first FAT copy. */
  function FatByte(g: Geometry, img: seq<Sector>, i: nat): byte
    requires i < g.fsize * SECTOR_SIZE && g.fatBase + g.fsize <= |img|
  {
    img[g.fatBase + i / SECTOR_SIZE][i % SECTOR_SIZE]
  }

  function SetFatByte(g: Geometry, img: seq<Sector>, i: nat, b: byte): (r: seq<Sector>)
    requires i < g.fsize * SECTOR_SIZE && g.fatBase + g.fsize <= |img|
    ensures |r| == |img|
  {
    var s := g.fatBase + i / SECTOR_SIZE;
    img[s := img[s][i % SECTOR_SIZE := b]]
  }

  lemma SetFatByteReads(g: Geometry, img: seq<Sector>, i: nat, b: byte, j: nat)
    requires i < g.fsize * SECTOR_SIZE && j < g.fsize * SECTOR_SIZE && g.fatBase + g.fsize <= |img|
    ensures FatByte(g, SetFatByte(g, img, i, b), j) == if i == j then b else FatByte(g, img, j)
  {
  }

  /** Byte offset of entry `c` in the FAT. */
  function EntryOffset(g: Geometry, c: nat): (o: nat)
    requires g.Valid() && c < g.nFatEnt
    ensures o + (if g.fsType == Fat32 then 3 else 1) < g.fsize * SECTOR_SIZE
  {
    match g.fsType
    case Fat12 => c + c / 2
    case Fat16 => c * 2
    case Fat32 => c * 4
  }

  /** What `get_fat` reads for entry `c`. */
  function Entry(g: Geometry, img: seq<Sector>, c: nat): u32
    requires Holds(g, img) && c < g.nFatEnt
  {
    var o := EntryOffset(g, c);
    match g.fsType
    case Fat12 => Decode12(c, FatByte(g, img, o), FatByte(g, img, o + 1))
    case Fat16 => Decode16(FatByte(g, img, o), FatByte(g, img, o + 1))
    case Fat32 => Decode32(FatByte(g, img, o), FatByte(g, img, o + 1), FatByte(g, img, o + 2), FatByte(g, img, o + 3))
  }

  function Decode12(c: nat, b0: int, b1: int): u32
    requires 0 <= b0 < 0x100 && 0 <= b1 < 0x100
  {
    if c % 2 == 1 then (b0 + 0x100 * b1) / 0x10 else (b0 + 0x100 * b1) % 0x1000
  }

  function Decode16(b0: int, b1: int): u32
    requires 0 <= b0 < 0x100 && 0 <= b1 < 0x100
  {
    b0 + 0x100 * b1
  }

  function Decode32(b0: int, b1: int, b2: int, b3: int): u32
    requires 0 <= b0 < 0x100 && 0 <= b1 < 0x100 && 0 <= b2 < 0x100 && 0 <= b3 < 0x100
  {
    (b0 + 0x100 * b1 + 0x1_0000 * b2 + 0x100_0000 * b3) % 0x1000_0000
  }

  /** The FAT as a sequence of entry values. */
  function Table(g: Geometry, img: seq<Sector>): (t: seq<u32>)
    requires Holds(g, img)
    ensures |t| == g.nFatEnt
    ensures forall c :: 0 <= c < |t| ==> t[c] == Entry(g, img, c)
  {
    seq(g.nFatEnt, c requires 0 <= c < g.nFatEnt => Entry(g, img, c))
  }

  function TwoBytes(g: Geometry, img: seq<Sector>, o: nat, x: byte, y: byte): (r: seq<Sector>)
    requires o + 1 < g.fsize * SECTOR_SIZE && g.fatBase + g.fsize <= |img|
    ensures |r| == |img|
  {
    SetFatByte(g, SetFatByte(g, img, o, x), o + 1, y)
  }

  /** The image after `put_fat` stored `v` in entry `c`. */
  function PutImage(g: Geometry, img: seq<Sector>, c: nat, v: u32): (r: seq<Sector>)
    requires Holds(g, img) && c < g.nFatEnt
    ensures |r| == |img|
  {
    var o := EntryOffset(g, c);
    match g.fsType
    case Fat12 =>
      var first := SetFatByte(g, img, o, First12(c, FatByte(g, img, o), v));
      SetFatByte(g, first, o + 1, Second12(c, FatByte(g, first, o + 1), v))
    case Fat16 =>
      TwoBytes(g, img, o, v % 0x100, v / 0x100 % 0x100)
    case Fat32 =>
      TwoBytes(g, TwoBytes(g, img, o, v % 0x100, v / 0x100 % 0x100), o + 2,
               v / 0x1_0000 % 0x100, Top32(v, FatByte(g, img, o + 3)))
  }

  /** Last byte of a FAT32 entry: the top four bits are reserved and kept. */
  function Top32(v: u32, was: byte): byte {
    v / 0x100_0000 % 0x10 + was / 0x10 * 0x10
  }

  /** First byte of a FAT12 entry: an odd entry keeps the low nibble of its neighbour. */
  function First12(c: nat, was: byte, v: u32): byte {
    if c % 2 == 1 then was % 0x10 + v % 0x10 * 0x10 else v % 0x100
  }

  /** Second byte of a FAT12 entry: an even entry keeps the high nibble of its neighbour. */
  function Second12(c: nat, was: byte, v: u32): byte {
    if c % 2 == 1 then v / 0x10 % 0x100 else was / 0x10 * 0x10 + v / 0x100 % 0x10
  }

  /** Only first-FAT sectors change. */
  lemma PutImageOutside(g: Geometry, img: seq<Sector>, c: nat, v: u32)
    requires Holds(g, img) && c < g.nFatEnt
    ensures forall s :: 0 <= s < |img| && !g.InFat1(s) ==> PutImage(g, img, c, v)[s] == img[s]
  {
  }

  lemma Parts16(q: int, r: int)
    requires 0 <= r < 0x10
    ensures (r + 0x10 * q) / 0x10 == q && (r + 0x10 * q) % 0x10 == r
  {
  }

  lemma Parts256(q: int, r: int)
    requires 0 <= r < 0x100
    ensures (r + 0x100 * q) / 0x100 == q && (r + 0x100 * q) % 0x100 == r
  {
  }

  lemma Parts4096(q: int, r: int)
    requires 0 <= r < 0x1000
    ensures (r + 0x1000 * q) / 0x1000 == q && (r + 0x1000 * q) % 0x1000 == r
  {
  }

  lemma SplitOdd(v: u32, a: int, e: int, k: int)
    requires 0 <= a < 0x10 && 0 <= e < 0x100 && v == a + 0x10 * e + 0x1000 * k
    ensures v % 0x1000 == a + 0x10 * e && v / 0x10 % 0x100 == e && v % 0x10 == a
  {
    Parts16(e + 0x100 * k, a);
    Parts256(k, e);
    Parts4096(k, a + 0x10 * e);
  }

  lemma SplitEven(v: u32, a: int, e: int, k: int)
    requires 0 <= a < 0x100 && 0 <= e < 0x10 && v == a + 0x100 * e + 0x1000 * k
    ensures v % 0x1000 == a + 0x100 * e && v / 0x100 % 0x10 == e && v % 0x100 == a
  {
    Parts256(e + 0x10 * k, a);
    Parts16(k, e);
    Parts4096(k, a + 0x100 * e);
  }

  /** The nibble arithmetic of a FAT12 store: the own entry reads back. */
  lemma OwnNibbles(c: nat, b0: byte, b1: byte, v: u32)
    ensures Decode12(c, First12(c, b0, v), Second12(c, b1, v)) == v % 0x1000
  {
    if c % 2 == 1 {
      var a, h := v % 0x10, v / 0x10;
      SplitOdd(v, a, h % 0x100, h / 0x100);
      var w: int := b0 % 0x10;
      assert (w + a * 0x10 + 0x100 * (h % 0x100)) / 0x10 == a + 0x10 * (h % 0x100);
    } else {
      var a, h := v % 0x100, v / 0x100;
      SplitEven(v, a, h % 0x10, h / 0x10);
      var w: int := b1 / 0x10;
      assert (a + 0x100 * (w * 0x10 + h % 0x10)) % 0x1000 == a + 0x100 * (h % 0x10);
    }
  }

  /** A neighbour that shares a byte decodes from its own nibble of it only. */
  lemma SharedNibbles(e: nat, b: byte, b': byte, other: byte)
    ensures e % 2 == 0 && b % 0x10 == b' % 0x10 ==> Decode12(e, other, b') == Decode12(e, other, b)
    ensures e % 2 == 1 && b / 0x10 == b' / 0x10 ==> Decode12(e, b', other) == Decode12(e, b, other)
  {
    if e % 2 == 0 {
      LowNibble(b, other);
      LowNibble(b', other);
    } else {
      HighNibble(b, other);
      HighNibble(b', other);
    }
  }

  lemma StoreKeepsNibbles(c: nat, b: byte, v: u32)
    ensures c % 2 == 1 ==> First12(c, b, v) % 0x10 == b % 0x10
    ensures c % 2 == 0 ==> Second12(c, b, v) / 0x10 == b / 0x10
  {
    if c % 2 == 1 {
      assert (b % 0x10 + v % 0x10 * 0x10) % 0x10 == b % 0x10;
    } else {
      assert (b / 0x10 * 0x10 + v / 0x100 % 0x10) / 0x10 == b / 0x10;
    }
  }

  lemma LowNibble(b: byte, other: byte)
    ensures (other as int + 0x100 * b as int) % 0x1000 == other as int + 0x100 * (b as int % 0x10)
  {
  }

  lemma HighNibble(b: byte, other: byte)
    ensures (b as int + 0x100 * other as int) / 0x10 == b as int / 0x10 + 0x10 * other as int
  {
  }

  lemma Recompose16(v: u32)
    ensures v % 0x100 + 0x100 * (v / 0x100 % 0x100) == v % 0x1_0000
  {
    var h := v / 0x100;
    assert h / 0x100 == v / 0x1_0000;
    assert v == v % 0x100 + 0x100 * (h % 0x100) + 0x1_0000 * (v / 0x1_0000);
  }

  /** Reading after two adjacent bytes were stored. */
  lemma TwoBytesRead(g: Geometry, img: seq<Sector>, o: nat, x: byte, y: byte, p: nat)
    requires g.fatBase + g.fsize <= |img| && o + 1 < g.fsize * SECTOR_SIZE && p < g.fsize * SECTOR_SIZE
    ensures FatByte(g, TwoBytes(g, img, o, x, y), p) ==
      if p == o then x else if p == o + 1 then y else FatByte(g, img, p)
  {
    hide FatByte, SetFatByte;
    SetFatByteReads(g, img, o, x, p);
    SetFatByteReads(g, SetFatByte(g, img, o, x), o + 1, y, p);
  }

  /** Reading after four adjacent bytes were stored. */
  lemma FourBytesRead(g: Geometry, img: seq<Sector>, o: nat, x: byte, y: byte, z: byte, w: byte, p: nat)
    requires g.fatBase + g.fsize <= |img| && o + 3 < g.fsize * SECTOR_SIZE && p < g.fsize * SECTOR_SIZE
    ensures FatByte(g, TwoBytes(g, TwoBytes(g, img, o, x, y), o + 2, z, w), p) ==
      if p == o then x else if p == o + 1 then y else if p == o + 2 then z else if p == o + 3 then w
        else FatByte(g, img, p)
  {
    hide FatByte, TwoBytes;
    TwoBytesRead(g, img, o, x, y, p);
    TwoBytesRead(g, TwoBytes(g, img, o, x, y), o + 2, z, w, p);
  }

  /** FAT12: entries decode from their two bytes; neighbours overlap in one byte. */
  lemma Entry12(g: Geometry, img: seq<Sector>, c: nat)
    requires Holds(g, img) && c < g.nFatEnt && g.fsType == Fat12
    ensures c + c / 2 + 1 < g.fsize * SECTOR_SIZE && g.fatBase + g.fsize <= |img|
    ensures Entry(g, img, c) == Decode12(c, FatByte(g, img, c + c / 2), FatByte(g, img, c + c / 2 + 1))
  {
    hide FatByte, Decode12;
  }

  lemma Put12Shape(g: Geometry, img: seq<Sector>, c: nat, v: u32)
    requires Holds(g, img) && c < g.nFatEnt && g.fsType == Fat12
    ensures c + c / 2 + 1 < g.fsize * SECTOR_SIZE && g.fatBase + g.fsize <= |img|
    ensures EntryOffset(g, c) == c + c / 2
    ensures PutImage(g, img, c, v) ==
      TwoBytes(g, img, c + c / 2, First12(c, FatByte(g, img, c + c / 2), v),
               Second12(c, FatByte(g, img, c + c / 2 + 1), v))
  {
    hide FatByte, SetFatByte, First12, Second12;
    var o := c + c / 2;
    assert o == EntryOffset(g, c);
    SetFatByteReads(g, img, o, First12(c, FatByte(g, img, o), v), o + 1);
  }

  /** FAT12: any two bytes stored for entry `c` are what it decodes from. */
  lemma Two12Own(g: Geometry, img: seq<Sector>, c: nat, x: byte, y: byte)
    requires Holds(g, img) && c < g.nFatEnt && g.fsType == Fat12
    requires c + c / 2 + 1 < g.fsize * SECTOR_SIZE && g.fatBase + g.fsize <= |img|
    ensures Entry(g, TwoBytes(g, img, c + c / 2, x, y), c) == Decode12(c, x, y)
  {
    hide FatByte, TwoBytes, Decode12, Entry, Geometry.Valid;
    var r := TwoBytes(g, img, c + c / 2, x, y);
    Entry12(g, r, c);
    TwoBytesRead(g, img, c + c / 2, x, y, c + c / 2);
    TwoBytesRead(g, img, c + c / 2, x, y, c + c / 2 + 1);
  }

  /** FAT12: storing a first byte that keeps the nibble of the entry before, and a second byte that
      keeps the nibble of the entry after, leaves every other entry alone. */
  lemma Two12Other(g: Geometry, img: seq<Sector>, c: nat, x: byte, y: byte, d: nat)
    requires Holds(g, img) && c < g.nFatEnt && d < g.nFatEnt && d != c && g.fsType == Fat12
    requires c + c / 2 + 1 < g.fsize * SECTOR_SIZE && g.fatBase + g.fsize <= |img|
    requires c % 2 == 1 ==> x % 0x10 == FatByte(g, img, c + c / 2) % 0x10
    requires c % 2 == 0 ==> y / 0x10 == FatByte(g, img, c + c / 2 + 1) / 0x10
    ensures Entry(g, TwoBytes(g, img, c + c / 2, x, y), d) == Entry(g, img, d)
  {
    hide FatByte, TwoBytes, Decode12, Entry, Geometry.Valid;
    var o, p := c + c / 2, d + d / 2;
    var r := TwoBytes(g, img, o, x, y);
    Entry12(g, img, d);
    Entry12(g, r, d);
    TwoBytesRead(g, img, o, x, y, p);
    TwoBytesRead(g, img, o, x, y, p + 1);
    if d == c + 1 {
      assert p == if c % 2 == 0 then o + 1 else o + 2;
      SharedNibbles(d, FatByte(g, img, p), FatByte(g, r, p), FatByte(g, img, p + 1));
    } else if d + 1 == c {
      assert p + 1 == if c % 2 == 1 then o else o - 1;
      SharedNibbles(d, FatByte(g, img, p + 1), FatByte(g, r, p + 1), FatByte(g, img, p));
    } else {
      assert p > o + 1 || p + 1 < o;
    }
  }

  lemma Put12Own(g: Geometry, img: seq<Sector>, c: nat, v: u32)
    requires Holds(g, img) && c < g.nFatEnt && g.fsType == Fat12
    ensures Entry(g, PutImage(g, img, c, v), c) == v % 0x1000
  {
    hide FatByte, TwoBytes, Decode12, Entry, PutImage, Geometry.Valid, EntryOffset, First12, Second12;
    var o := c + c / 2;
    Put12Shape(g, img, c, v);
    var b0, b1 := FatByte(g, img, o), FatByte(g, img, o + 1);
    Two12Own(g, img, c, First12(c, b0, v), Second12(c, b1, v));
    OwnNibbles(c, b0, b1, v);
  }

  lemma Put12Other(g: Geometry, img: seq<Sector>, c: nat, v: u32, d: nat)
    requires Holds(g, img) && c < g.nFatEnt && d < g.nFatEnt && d != c && g.fsType == Fat12
    ensures Entry(g, PutImage(g, img, c, v), d) == Entry(g, img, d)
  {
    hide FatByte, TwoBytes, Decode12, Entry, PutImage, Geometry.Valid, EntryOffset, First12, Second12;
    var o := c + c / 2;
    Put12Shape(g, img, c, v);
    var b0, b1 := FatByte(g, img, o), FatByte(g, img, o + 1);
    StoreKeepsNibbles(c, b0, v);
    StoreKeepsNibbles(c, b1, v);
    Two12Other(g, img, c, First12(c, b0, v), Second12(c, b1, v), d);
  }

  /** The first half of a FAT12 store. */
  function TornImage(g: Geometry, img: seq<Sector>, c: nat, v: u32): (r: seq<Sector>)
    requires Holds(g, img) && c < g.nFatEnt && g.fsType == Fat12
    ensures |r| == |img|
  {
    SetFatByte(g, img, EntryOffset(g, c), First12(c, FatByte(g, img, EntryOffset(g, c)), v))
  }

  lemma TornOutside(g: Geometry, img: seq<Sector>, c: nat, v: u32)
    requires Holds(g, img) && c < g.nFatEnt && g.fsType == Fat12
    ensures forall s :: 0 <= s < |img| && !g.InFat1(s) ==> TornImage(g, img, c, v)[s] == img[s]
  {
  }

  lemma Torn12Other(g: Geometry, img: seq<Sector>, c: nat, v: u32, d: nat)
    requires Holds(g, img) && c < g.nFatEnt && d < g.nFatEnt && d != c && g.fsType == Fat12
    ensures Entry(g, TornImage(g, img, c, v), d) == Entry(g, img, d)
  {
    hide FatByte, SetFatByte, Decode12, Entry, Geometry.Valid, First12;
    Put12Shape(g, img, c, v);
    var o := EntryOffset(g, c);
    var b0, b1 := FatByte(g, img, o), FatByte(g, img, o + 1);
    var f := First12(c, b0, v);
    StoreKeepsNibbles(c, b0, v);
    Two12Other(g, img, c, f, b1, d);
    RewriteByte(g, img, o, f);
  }

  /** Storing the byte that is already there changes nothing. */
  lemma RewriteByte(g: Geometry, img: seq<Sector>, o: nat, f: byte)
    requires g.fatBase + g.fsize <= |img| && o + 1 < g.fsize * SECTOR_SIZE
    ensures TwoBytes(g, img, o, f, FatByte(g, img, o + 1)) == SetFatByte(g, img, o, f)
  {
    var r := SetFatByte(g, img, o, f);
    var s := g.fatBase + (o + 1) / SECTOR_SIZE;
    SetFatByteReads(g, img, o, f, o + 1);
    assert r[s][(o + 1) % SECTOR_SIZE := FatByte(g, img, o + 1)] == r[s];
  }

  lemma Entry16(g: Geometry, img: seq<Sector>, c: nat)
    requires Holds(g, img) && c < g.nFatEnt && g.fsType == Fat16
    ensures c * 2 + 1 < g.fsize * SECTOR_SIZE && g.fatBase + g.fsize <= |img|
    ensures Entry(g, img, c) == Decode16(FatByte(g, img, c * 2), FatByte(g, img, c * 2 + 1))
  {
    hide FatByte, Decode16;
  }

  lemma Put16Shape(g: Geometry, img: seq<Sector>, c: nat, v: u32)
    requires Holds(g, img) && c < g.nFatEnt && g.fsType == Fat16
    ensures c * 2 + 1 < g.fsize * SECTOR_SIZE && g.fatBase + g.fsize <= |img|
    ensures PutImage(g, img, c, v) == TwoBytes(g, img, c * 2, v % 0x100, v / 0x100 % 0x100)
  {
    hide FatByte, SetFatByte;
  }

  lemma Two16(g: Geometry, img: seq<Sector>, c: nat, x: byte, y: byte, d: nat)
    requires Holds(g, img) && c < g.nFatEnt && d < g.nFatEnt && g.fsType == Fat16
    requires c * 2 + 1 < g.fsize * SECTOR_SIZE && g.fatBase + g.fsize <= |img|
    ensures Entry(g, TwoBytes(g, img, c * 2, x, y), d) == if d == c then Decode16(x, y) else Entry(g, img, d)
  {
    hide FatByte, TwoBytes, Decode16, Entry, Geometry.Valid;
    Entry16(g, img, d);
    Entry16(g, TwoBytes(g, img, c * 2, x, y), d);
    TwoBytesRead(g, img, c * 2, x, y, d * 2);
    TwoBytesRead(g, img, c * 2, x, y, d * 2 + 1);
  }

  lemma Put16Reads(g: Geometry, img: seq<Sector>, c: nat, v: u32, d: nat)
    requires Holds(g, img) && c < g.nFatEnt && d < g.nFatEnt && g.fsType == Fat16
    ensures Entry(g, PutImage(g, img, c, v), d) == if d == c then v % 0x1_0000 else Entry(g, img, d)
  {
    hide FatByte, TwoBytes, Entry, PutImage, Geometry.Valid;
    Put16Shape(g, img, c, v);
    Two16(g, img, c, v % 0x100, v / 0x100 % 0x100, d);
    Recompose16(v);
  }

  lemma Entry32(g: Geometry, img: seq<Sector>, c: nat)
    requires Holds(g, img) && c < g.nFatEnt && g.fsType == Fat32
    ensures c * 4 + 3 < g.fsize * SECTOR_SIZE && g.fatBase + g.fsize <= |img|
    ensures Entry(g, img, c) ==
      Decode32(FatByte(g, img, c * 4), FatByte(g, img, c * 4 + 1), FatByte(g, img, c * 4 + 2),
               FatByte(g, img, c * 4 + 3))
  {
    hide FatByte, Decode32;
  }

  lemma Put32Shape(g: Geometry, img: seq<Sector>, c: nat, v: u32)
    requires Holds(g, img) && c < g.nFatEnt && g.fsType == Fat32
    ensures c * 4 + 3 < g.fsize * SECTOR_SIZE && g.fatBase + g.fsize <= |img|
    ensures PutImage(g, img, c, v) == TwoBytes(g, TwoBytes(g, img, c * 4, v % 0x100, v / 0x100 % 0x100), c * 4 + 2,
      v / 0x1_0000 % 0x100, Top32(v, FatByte(g, img, c * 4 + 3)))
  {
    hide FatByte, SetFatByte, Top32;
  }

  lemma Four32(g: Geometry, img: seq<Sector>, c: nat, x: byte, y: byte, z: byte, w: byte, d: nat)
    requires Holds(g, img) && c < g.nFatEnt && d < g.nFatEnt && g.fsType == Fat32
    requires c * 4 + 3 < g.fsize * SECTOR_SIZE && g.fatBase + g.fsize <= |img|
    ensures Entry(g, TwoBytes(g, TwoBytes(g, img, c * 4, x, y), c * 4 + 2, z, w), d) ==
      if d == c then Decode32(x, y, z, w) else Entry(g, img, d)
  {
    hide FatByte, TwoBytes, Decode32, Entry, Geometry.Valid;
    Entry32(g, img, d);
    Entry32(g, TwoBytes(g, TwoBytes(g, img, c * 4, x, y), c * 4 + 2, z, w), d);
    FourBytesRead(g, img, c * 4, x, y, z, w, d * 4);
    FourBytesRead(g, img, c * 4, x, y, z, w, d * 4 + 1);
    FourBytesRead(g, img, c * 4, x, y, z, w, d * 4 + 2);
    FourBytesRead(g, img, c * 4, x, y, z, w, d * 4 + 3);
  }

  lemma Put32Reads(g: Geometry, img: seq<Sector>, c: nat, v: u32, d: nat)
    requires Holds(g, img) && c < g.nFatEnt && d < g.nFatEnt && g.fsType == Fat32
    ensures Entry(g, PutImage(g, img, c, v), d) == if d == c then v % 0x1000_0000 else Entry(g, img, d)
  {
    hide FatByte, TwoBytes, Entry, PutImage, Geometry.Valid, Top32;
    Put32Shape(g, img, c, v);
    var w := FatByte(g, img, c * 4 + 3);
    Four32(g, img, c, v % 0x100, v / 0x100 % 0x100, v / 0x1_0000 % 0x100, Top32(v, w), d);
    Recompose28(v, w);
  }

  lemma Parts28(q: int, r: int)
    requires 0 <= r < 0x1000_0000
    ensures (r + 0x1000_0000 * q) % 0x1000_0000 == r
  {
  }

  lemma LowBits28(v: u32)
    ensures v % 0x1000_0000 ==
      v % 0x100 + 0x100 * (v / 0x100 % 0x100) + 0x1_0000 * (v / 0x1_0000 % 0x100) + 0x100_0000 * (v / 0x100_0000 % 0x10)
  {
    var b := v / 0x100;
    var c := b / 0x100;
    var d := c / 0x100;
    var e := d / 0x10;
    assert c == v / 0x1_0000 && d == v / 0x100_0000;
    var low := v % 0x100 + 0x100 * (b % 0x100) + 0x1_0000 * (c % 0x100) + 0x100_0000 * (d % 0x10);
    assert v == low + 0x1000_0000 * e;
    Parts28(e, low);
  }

  lemma Recompose28(v: u32, w: byte)
    ensures Decode32(v % 0x100, v / 0x100 % 0x100, v / 0x1_0000 % 0x100, Top32(v, w)) == v % 0x1000_0000
  {
    LowBits28(v);
    Parts28(w as int / 0x10, v as int % 0x1000_0000);
  }

  /** FAT32: the four reserved top bits of every entry survive a store. */
  lemma Put32KeepsTopBits(g: Geometry, img: seq<Sector>, c: nat, v: u32, d: nat)
    requires Holds(g, img) && c < g.nFatEnt && d < g.nFatEnt && g.fsType == Fat32
    ensures d * 4 + 3 < g.fsize * SECTOR_SIZE && g.fatBase + g.fsize <= |img|
    ensures FatByte(g, PutImage(g, img, c, v), d * 4 + 3) / 0x10 == FatByte(g, img, d * 4 + 3) / 0x10
  {
    hide FatByte, TwoBytes, PutImage, Geometry.Valid;
    Entry32(g, img, d);
    Put32Shape(g, img, c, v);
    var w := Top32(v, FatByte(g, img, c * 4 + 3));
    FourBytesRead(g, img, c * 4, v % 0x100, v / 0x100 % 0x100, v / 0x1_0000 % 0x100, w, d * 4 + 3);
  }

  /** A store changes exactly one entry of the table, to the value cut to the entry width. */
  lemma PutTable(g: Geometry, img: seq<Sector>, c: nat, v: u32)
    requires Holds(g, img) && c < g.nFatEnt
    ensures Table(g, PutImage(g, img, c, v)) == Table(g, img)[c := Mask(g, v)]
    ensures Mask(g, v) == v % Pow2(ValueWidth(g.fsType))
  {
    hide PutImage, Entry, Geometry.Valid, Pow2;
    ValueSizes();
    var r := PutImage(g, img, c, v);
    forall d | 0 <= d < g.nFatEnt
      ensures Table(g, r)[d] == if d == c then Mask(g, v) else Table(g, img)[d]
    {
      match g.fsType
      case Fat12 => if d == c { Put12Own(g, img, c, v); } else { Put12Other(g, img, c, v, d); }
      case Fat16 => Put16Reads(g, img, c, v, d);
      case Fat32 => Put32Reads(g, img, c, v, d);
    }
  }

  /** A FAT12 store interrupted between its two bytes damages no other entry. */
  lemma TornPutTable(g: Geometry, img: seq<Sector>, c: nat, v: u32)
    requires Holds(g, img) && c < g.nFatEnt && g.fsType == Fat12
    ensures forall d :: 0 <= d < g.nFatEnt && d != c ==> Table(g, TornImage(g, img, c, v))[d] == Table(g, img)[d]
  {
    hide TornImage, Entry, Geometry.Valid;
    forall d | 0 <= d < g.nFatEnt && d != c
      ensures Table(g, TornImage(g, img, c, v))[d] == Table(g, img)[d]
    {
      Torn12Other(g, img, c, v, d);
    }
  }

  /** The table depends on the first FAT only. */
  lemma TableFrame(g: Geometry, img: seq<Sector>, img': seq<Sector>)
    requires Holds(g, img) && |img'| == |img|
    requires forall s :: 0 <= s < |img| && g.InFat1(s) ==> img'[s] == img[s]
    ensures Table(g, img') == Table(g, img)
  {
    forall c | 0 <= c < g.nFatEnt
      ensures Entry(g, img', c) == Entry(g, img, c)
    {
    }
  }

  /** How many bits apart the entries are, and how many of them are the value. */
  function EntryWidth(t: FsType): nat {
    match t case Fat12 => 12 case Fat16 => 16 case Fat32 => 32
  }

  function ValueWidth(t: FsType): nat {
    if t == Fat32 then 28 else EntryWidth(t)
  }

  /** The bytes a FAT needs are those its bits fill. */
  lemma FatSizeIsExact(g: Geometry)
    ensures var bits := EntryWidth(g.fsType) * g.nFatEnt;
      bits <= 8 * g.EntryBytes() < bits + 8
  {
    match g.fsType
    case Fat12 => TwoThirds(g.nFatEnt);
    case Fat16 =>
    case Fat32 =>
  }

  lemma TwoThirds(n: nat)
    ensures 12 * n <= 8 * (n * 3 / 2 + n % 2) < 12 * n + 8
  {
    var h := n / 2;
    assert n == 2 * h + n % 2;
    if n % 2 == 0 { assert n * 3 / 2 == 3 * h; } else { assert n * 3 / 2 == 3 * h + 1; }
  }

  /** The bytes of the first FAT copy. */
  function FatBytes(g: Geometry, img: seq<Sector>): (b: seq<byte>)
    requires Holds(g, img)
    ensures |b| == g.fsize * SECTOR_SIZE
  {
    Joined(img[g.fatBase..g.fatBase + g.fsize])
  }

  lemma FatByteIs(g: Geometry, img: seq<Sector>, i: nat)
    requires Holds(g, img) && i < g.fsize * SECTOR_SIZE
    ensures FatByte(g, img, i) == FatBytes(g, img)[i]
  {
    JoinedAt(img[g.fatBase..g.fatBase + g.fsize], i);
  }

  lemma TwoFirst(b: seq<byte>)
    requires |b| >= 2
    ensures Number(b) == b[0] as nat + 0x100 * b[1] as nat + 0x1_0000 * Number(b[2..])
  {
    NumberStep(b);
    NumberStep(b[1..]);
    assert b[1..][1..] == b[2..];
  }

  lemma Shifted(b: seq<byte>, o: nat)
    requires o + 1 < |b|
    ensures Number(b) / Pow2(8 * o) == b[o] as nat + 0x100 * b[o + 1] as nat + 0x1_0000 * Number(b[o + 2..])
    ensures o + 3 < |b| ==>
      Number(b[o + 2..]) == b[o + 2] as nat + 0x100 * b[o + 3] as nat + 0x1_0000 * Number(b[o + 4..])
  {
    NumberShifts(b, o);
    TwoFirst(b[o..]);
    assert b[o..][2..] == b[o + 2..];
    if o + 3 < |b| {
      TwoFirst(b[o + 2..]);
      assert b[o + 2..][2..] == b[o + 4..];
    }
  }

  lemma HalfByteMore(x: nat, o: nat)
    ensures Pow2(8 * o + 4) == 0x10 * Pow2(8 * o) && x / Pow2(8 * o + 4) == x / Pow2(8 * o) / 0x10
  {
    assert Pow2(8 * o + 2) == 4 * Pow2(8 * o);
    DivideTwice(x, Pow2(8 * o), 0x10);
  }

  lemma LowBits(x: nat, r: nat)
    requires x < 0x1_0000
    ensures (x + 0x1_0000 * r) % 0x1000 == x % 0x1000 && (x + 0x1_0000 * r) % 0x1_0000 == x
    ensures (x + 0x1_0000 * r) / 0x10 % 0x1000 == x / 0x10
  {
    Parts16(x / 0x10 + 0x1000 * r, x % 0x10);
    Parts4096(r, x / 0x10);
    Parts4096(x / 0x1000 + 0x10 * r, x % 0x1000);
    Low16(x, r);
  }

  lemma Low16(x: nat, r: nat)
    requires x < 0x1_0000
    ensures (x + 0x1_0000 * r) % 0x1_0000 == x
  {
  }

  lemma ValueSizes()
    ensures Pow2(12) == 0x1000 && Pow2(16) == 0x1_0000 && Pow2(28) == 0x1000_0000
  {
    assert Pow2(6) == 0x40;
    assert Pow2(20) == 0x10_0000;
    assert Pow2(24) == 0x100_0000;
  }

  lemma BitField12(g: Geometry, img: seq<Sector>, c: nat)
    requires Holds(g, img) && c < g.nFatEnt && g.fsType == Fat12
    ensures Entry(g, img, c) == Number(FatBytes(g, img)) / Pow2(12 * c) % Pow2(12)
  {
    hide Number, Pow2, FatByte, FatBytes, Holds;
    var b, o := FatBytes(g, img), c + c / 2;
    Entry12(g, img, c);
    FatByteIs(g, img, o);
    FatByteIs(g, img, o + 1);
    ValueSizes();
    Shifted(b, o);
    LowBits(b[o] as nat + 0x100 * b[o + 1] as nat, Number(b[o + 2..]));
    if c % 2 == 1 {
      HalfByteMore(Number(b), o);
      assert 12 * c == 8 * o + 4;
    } else {
      assert 12 * c == 8 * o;
    }
  }

  lemma BitField16(g: Geometry, img: seq<Sector>, c: nat)
    requires Holds(g, img) && c < g.nFatEnt && g.fsType == Fat16
    ensures Entry(g, img, c) == Number(FatBytes(g, img)) / Pow2(16 * c) % Pow2(16)
  {
    hide Number, Pow2, FatByte, FatBytes, Holds;
    var b, o := FatBytes(g, img), c * 2;
    Entry16(g, img, c);
    FatByteIs(g, img, o);
    FatByteIs(g, img, o + 1);
    ValueSizes();
    Shifted(b, o);
    LowBits(b[o] as nat + 0x100 * b[o + 1] as nat, Number(b[o + 2..]));
    assert 16 * c == 8 * o;
  }

  lemma BitField32(g: Geometry, img: seq<Sector>, c: nat)
    requires Holds(g, img) && c < g.nFatEnt && g.fsType == Fat32
    ensures Entry(g, img, c) == Number(FatBytes(g, img)) / Pow2(32 * c) % Pow2(28)
  {
    hide Number, Pow2, FatByte, FatBytes, Holds, Decode32;
    var b, o := FatBytes(g, img), c * 4;
    Entry32(g, img, c);
    FatByteIs(g, img, o);
    FatByteIs(g, img, o + 1);
    FatByteIs(g, img, o + 2);
    FatByteIs(g, img, o + 3);
    ValueSizes();
    Shifted(b, o);
    FourBytesLow(b[o], b[o + 1], b[o + 2], b[o + 3], Number(b[o + 4..]));
    assert 32 * c == 8 * o;
  }

  lemma FourBytesLow(b0: byte, b1: byte, b2: byte, b3: byte, r: nat)
    ensures (b0 as nat + 0x100 * b1 as nat + 0x1_0000 * (b2 as nat + 0x100 * b3 as nat + 0x1_0000 * r)) % 0x1000_0000
      == Decode32(b0, b1, b2, b3)
  {
    var y := b0 as nat + 0x100 * b1 as nat + 0x1_0000 * b2 as nat + 0x100_0000 * b3 as nat;
    Low28(y, r);
  }

  lemma Low28(y: nat, r: nat)
    ensures (y + 0x1_0000_0000 * r) % 0x1000_0000 == y % 0x1000_0000
  {
    var q, m := y / 0x1000_0000, y % 0x1000_0000;
    assert y == m + 0x1000_0000 * q;
    Parts28(q + 0x10 * r, m);
  }

  /** All three sub-types are the same thing: read the whole FAT as one little-endian number, and entry `c` is
      the field of the entry width at bit `c` times that width, for FAT32 without its top four bits. */
  lemma EntryIsBitField(g: Geometry, img: seq<Sector>, c: nat)
    requires Holds(g, img) && c < g.nFatEnt
    ensures Entry(g, img, c) ==
      Number(FatBytes(g, img)) / Pow2(EntryWidth(g.fsType) * c) % Pow2(ValueWidth(g.fsType))
  {
    hide Entry, Holds, FatBytes, Number, Pow2;
    match g.fsType
    case Fat12 => BitField12(g, img, c);
    case Fat16 => BitField16(g, img, c);
    case Fat32 => BitField32(g, img, c);
  }
}
