/** The free-space query `f_getfree`, with the FAT scan behind it. */
module FreeCount {
  import opened Bytes
  import opened Layout
  import opened Window
  import opened FatTable
  import opened FatAccess
  import opened Chains
  import opened AllocSpec

  /** What the scan counts: the FAT16/32 scan starts at entry 0, the FAT12 scan at entry 2. */
  function Counted(g: Geometry, t: seq<u32>): nat
    requires 3 <= |t|
  {
    if g.fsType == Fat12 then Zeros(t, 2, |t|) else Zeros(t, 0, |t|)
  }

  /** The scan yields the number of free clusters exactly when the two reserved entries it may
      include are not zero. */
  lemma CountedIsFreeIff(g: Geometry, t: seq<u32>)
    requires 3 <= |t|
    ensures Counted(g, t) == FreeClusters(t) <==> g.fsType == Fat12 || (t[0] != 0 && t[1] != 0)
  {
    ZerosSplit(t, 0, 2, |t|);
    ZerosNone(t, 0, 2);
  }

  lemma ZerosStep(t: seq<u32>, lo: nat, k: nat)
    requires lo <= k < |t|
    ensures Zeros(t, lo, k + 1) == Zeros(t, lo, k) + (if t[k] == 0 then 1 else 0) <= k + 1 - lo
    ensures Zeros(t, lo, lo) == 0
  {
  }

  /** FAT12: every entry from 2 on is read through `get_fat`. */
  method ScanFat12(fs: Volume) returns (res: FResult, nfree: u32)
    requires fs.Valid() && fs.geo.fsType == Fat12
    modifies fs`wflag, fs`winSect, fs.win, fs.disk
    ensures fs.Valid()
    ensures res == FrOk || res == FrDiskErr || res == FrIntErr
    ensures res == FrOk ==> nfree == Zeros(Fat(fs), 2, fs.geo.nFatEnt)
    ensures res == FrIntErr ==> !NoOnes(Fat(fs))
    ensures fs.disk.reliable ==> res != FrDiskErr
    ensures fs.disk.reliable && old(fs.Mirrored()) ==> fs.Mirrored()
  {
    hide Table, Geometry.Valid, Volume.Valid, Volume.Mirrored, Zeros;
    ghost var t := Fat(fs);
    res, nfree := FrOk, 0;
    var clst := 2;
    ZerosStep(t, 2, 2);
    while clst < fs.geo.nFatEnt
      invariant fs.Valid() && t == Fat(fs) && fs.img == old(fs.img)
      invariant 2 <= clst <= |t| && nfree == Zeros(t, 2, clst)
      invariant fs.disk.reliable && old(fs.Mirrored()) ==> fs.Mirrored()
    {
      ZerosStep(t, 2, clst);
      var stat := GetFat(fs, clst);
      if stat == DISK_ERROR { return FrDiskErr, nfree; }
      if stat == 1 { return FrIntErr, nfree; }
      if stat == 0 { nfree := nfree + 1; }
      clst := clst + 1;
    }
  }

  /** Width of an entry of the word-sized FATs. */
  function Width(g: Geometry): nat {
    if g.fsType == Fat16 then 2 else 4
  }

  lemma FatSectorTracked(g: Geometry, k: nat)
    requires g.Valid() && g.fsType != Fat12 && k < g.nFatEnt
    ensures g.Tracked(g.fatBase + k * Width(g) / SECTOR_SIZE)
    ensures g.fatBase + k * Width(g) / SECTOR_SIZE < g.End()
  {
  }

  lemma WindowShowsEntry(fs: Volume, k: nat)
    requires fs.Valid() && fs.geo.fsType != Fat12 && k < fs.geo.nFatEnt
    requires fs.winSect == fs.geo.fatBase + k * Width(fs.geo) / SECTOR_SIZE
    ensures fs.winSect < |fs.img| && fs.win[..] == fs.img[fs.winSect]
    ensures Holds(fs.geo, fs.img)
  {
    FatSectorTracked(fs.geo, k);
    hide Geometry.Tracked;
  }

  /** What the sector with entry `k` shows at the entry's offset. */
  lemma WordOfEntry(g: Geometry, img: seq<Sector>, k: nat)
    requires Holds(g, img) && g.fsType == Fat16 && k < g.nFatEnt
    ensures k * 2 % SECTOR_SIZE + 1 < SECTOR_SIZE && g.fatBase + k * 2 / SECTOR_SIZE < |img|
    ensures LdWord(img[g.fatBase + k * 2 / SECTOR_SIZE], k * 2 % SECTOR_SIZE) == Entry(g, img, k)
  {
    hide FatByte, Entry, LdWord, Decode16;
    Entry16(g, img, k);
    WordInSector(g, img, k * 2);
  }

  lemma DwordOfEntry(g: Geometry, img: seq<Sector>, k: nat)
    requires Holds(g, img) && g.fsType == Fat32 && k < g.nFatEnt
    ensures k * 4 % SECTOR_SIZE + 3 < SECTOR_SIZE && g.fatBase + k * 4 / SECTOR_SIZE < |img|
    ensures LdDword(img[g.fatBase + k * 4 / SECTOR_SIZE], k * 4 % SECTOR_SIZE) % 0x1000_0000 == Entry(g, img, k)
  {
    hide FatByte, Entry, LdDword, Decode32;
    Entry32(g, img, k);
    DwordInSector(g, img, k * 4);
  }

  /** Tests the entry at offset `i` of the window for zero. */
  method EntryIsZero(fs: Volume, i: nat, ghost k: nat) returns (zero: bool)
    requires fs.Valid() && fs.geo.fsType != Fat12 && k < fs.geo.nFatEnt
    requires fs.winSect == fs.geo.fatBase + k * Width(fs.geo) / SECTOR_SIZE
    requires i == k * Width(fs.geo) % SECTOR_SIZE
    ensures zero <==> Fat(fs)[k] == 0
  {
    WindowShowsEntry(fs, k);
    hide Entry, Geometry.Valid, Volume.Valid, LdWord, LdDword, Holds;
    if fs.geo.fsType == Fat16 {
      WordOfEntry(fs.geo, fs.img, k);
      zero := LdWord(fs.win[..], i) == 0;
    } else {
      DwordOfEntry(fs.geo, fs.img, k);
      zero := LdDword(fs.win[..], i) % 0x1000_0000 == 0;
    }
  }

  /** FAT16/32: the FAT is read as an array of words, one sector at a time. */
  method ScanWords(fs: Volume) returns (res: FResult, nfree: u32)
    requires fs.Valid() && fs.geo.fsType != Fat12
    modifies fs`wflag, fs`winSect, fs.win, fs.disk
    ensures fs.Valid()
    ensures res == FrOk || res == FrDiskErr
    ensures res == FrOk ==> nfree == Zeros(Fat(fs), 0, fs.geo.nFatEnt)
    ensures fs.disk.reliable ==> res == FrOk
    ensures fs.disk.reliable && old(fs.Mirrored()) ==> fs.Mirrored()
  {
    hide Table, Geometry.Valid, Volume.Valid, Volume.Mirrored, Geometry.Tracked, Width, Geometry.End, Zeros;
    ghost var t := Fat(fs);
    ZerosStep(t, 0, 0);
    ghost var k: nat := 0;
    res, nfree := FrOk, 0;
    var clst := fs.geo.nFatEnt;
    var sect := fs.geo.fatBase;
    var i: nat := 0;
    while clst > 0
      invariant res == FrOk
      invariant fs.Valid() && t == Fat(fs) && fs.img == old(fs.img)
      invariant k + clst == |t| && nfree == Zeros(t, 0, k)
      invariant ScanPosition(fs.geo, k, sect, i)
      invariant i != 0 && clst > 0 ==> fs.winSect + 1 == sect
      invariant fs.disk.reliable && old(fs.Mirrored()) ==> fs.Mirrored()
    {
      if i == 0 {
        FatSectorInRange(fs, k);
        res := fs.MoveWindow(sect);
        if res != FrOk { return; }
        sect := sect + 1;
      }
      ZerosStep(t, 0, k);
      var zero := EntryIsZero(fs, i, k);
      if zero { nfree := nfree + 1; }
      NextPosition(fs.geo, k, fs.winSect, i);
      i := i + Width(fs.geo);
      i := i % SECTOR_SIZE;
      clst := clst - 1;
      k := k + 1;
    }
  }

  lemma FatSectorInRange(fs: Volume, k: nat)
    requires fs.Valid() && fs.geo.fsType != Fat12 && k < fs.geo.nFatEnt
    ensures fs.geo.fatBase + k * Width(fs.geo) / SECTOR_SIZE < |fs.img| <= 0xFFFF_FFFF
  {
    FatSectorTracked(fs.geo, k);
  }

  /** The position after entry `k` was read from sector `s`. */
  lemma NextPosition(g: Geometry, k: nat, s: nat, i: nat)
    requires i == k * Width(g) % SECTOR_SIZE && s == g.fatBase + k * Width(g) / SECTOR_SIZE
    ensures ScanPosition(g, k + 1, s + 1, (i + Width(g)) % SECTOR_SIZE)
  {
    if Width(g) == 2 {
      StepBy(k, 2);
    } else {
      StepBy(k, 4);
    }
  }

  lemma StepBy(k: nat, w: nat)
    requires w == 2 || w == 4
    ensures var x, y, i := k * w, (k + 1) * w, k * w % SECTOR_SIZE;
      && y % SECTOR_SIZE == (i + w) % SECTOR_SIZE
      && y / SECTOR_SIZE == x / SECTOR_SIZE + (if (i + w) % SECTOR_SIZE == 0 then 1 else 0)
  {
    if w == 2 {
      StepByTwo(k);
    } else {
      StepByFour(k);
    }
  }

  lemma StepByTwo(k: nat)
    ensures var x, y, i := 2 * k, 2 * k + 2, 2 * k % SECTOR_SIZE;
      && y % SECTOR_SIZE == (i + 2) % SECTOR_SIZE
      && y / SECTOR_SIZE == x / SECTOR_SIZE + (if (i + 2) % SECTOR_SIZE == 0 then 1 else 0)
  {
    NextPlace(k / 256, 2 * (k % 256), 2);
  }

  lemma StepByFour(k: nat)
    ensures var x, y, i := 4 * k, 4 * k + 4, 4 * k % SECTOR_SIZE;
      && y % SECTOR_SIZE == (i + 4) % SECTOR_SIZE
      && y / SECTOR_SIZE == x / SECTOR_SIZE + (if (i + 4) % SECTOR_SIZE == 0 then 1 else 0)
  {
    NextPlace(k / 128, 4 * (k % 128), 4);
  }

  /** One entry further, inside a sector or over its end. */
  lemma NextPlace(q: nat, i: nat, w: nat)
    requires w > 0 && i + w <= SECTOR_SIZE
    ensures (SECTOR_SIZE * q + i) / SECTOR_SIZE == q && (SECTOR_SIZE * q + i) % SECTOR_SIZE == i
    ensures var y := SECTOR_SIZE * q + i + w;
      && y % SECTOR_SIZE == (i + w) % SECTOR_SIZE
      && y / SECTOR_SIZE == q + (if (i + w) % SECTOR_SIZE == 0 then 1 else 0)
  {
    if i + w == SECTOR_SIZE {
      assert SECTOR_SIZE * q + i + w == SECTOR_SIZE * (q + 1);
    }
  }

  /** Before entry `k`: `i` is its offset in its sector, and `sect` is the next sector to load. */
  ghost predicate ScanPosition(g: Geometry, k: nat, sect: nat, i: nat) {
    && i == k * Width(g) % SECTOR_SIZE
    && sect == g.fatBase + k * Width(g) / SECTOR_SIZE + (if i == 0 then 0 else 1)
  }

  /** `f_getfree`. */
  method GetFree(fs: Volume) returns (res: FResult, nclst: u32)
    requires fs.Valid()
    modifies fs`wflag, fs`winSect, fs`freeClst, fs`fsiDirty, fs.win, fs.disk
    ensures fs.Valid()
    ensures Fat(fs) == old(Fat(fs))
    ensures res == FrOk || res == FrDiskErr || res == FrIntErr
    ensures res == FrOk && old(fs.freeClst) <= fs.geo.nFatEnt - 2 ==> nclst == old(fs.freeClst) == fs.freeClst
    ensures res == FrOk && old(fs.freeClst) > fs.geo.nFatEnt - 2 ==> nclst == Counted(fs.geo, Fat(fs)) == fs.freeClst
    ensures res != FrOk ==> fs.freeClst == old(fs.freeClst)
    ensures fs.disk.reliable && NoOnes(Fat(fs)) ==> res == FrOk
    ensures fs.disk.reliable && old(fs.Mirrored()) ==> fs.Mirrored()
  {
    hide Table, Geometry.Valid, Volume.Mirrored, Zeros;
    res, nclst := FrOk, 0;
    if fs.freeClst <= fs.geo.nFatEnt - 2 {
      nclst := fs.freeClst;
    } else {
      var nfree := 0;
      if fs.geo.fsType == Fat12 {
        res, nfree := ScanFat12(fs);
      } else {
        res, nfree := ScanWords(fs);
      }
      if res == FrOk {
        nclst := nfree;
        fs.freeClst := nfree;
        fs.fsiDirty := true;
      }
    }
  }

  /** The answer is the number of free clusters, provided the stored count was accurate and the
      two reserved entries are not zero (or the volume is FAT12). */
  lemma GetFreeIsExact(g: Geometry, s: Alloc, answer: u32)
    requires 3 <= |s.t| && Accurate(s)
    requires answer == if s.free <= |s.t| - 2 then s.free else Counted(g, s.t)
    requires g.fsType == Fat12 || (s.t[0] != 0 && s.t[1] != 0)
    ensures answer == FreeClusters(s.t)
    ensures Accurate(s.(free := answer))
  {
    CountedIsFreeIff(g, s.t);
  }
}
