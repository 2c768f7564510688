/** Reading and writing FAT entries through the window (`get_fat`, `put_fat`). */
module FatAccess {
  import opened Bytes
  import opened Layout
  import opened Window
  import opened FatTable

  const DISK_ERROR: u32 := 0xFFFF_FFFF

  /** The FAT of a mounted volume, as the driver reads it. */
  ghost function Fat(fs: Volume): (t: seq<u32>)
    requires fs.Valid()
    reads fs, fs.disk, fs.win
    ensures |t| == fs.geo.nFatEnt && 3 <= |t| <= 0x1000_0000
  {
    Table(fs.geo, fs.img)
  }

  /** Brings byte `i` of the first FAT into the window. */
  method MoveToFatByte(fs: Volume, i: nat) returns (res: FResult)
    requires fs.Valid() && i < fs.geo.fsize * SECTOR_SIZE
    modifies fs`wflag, fs`winSect, fs.win, fs.disk
    ensures fs.Valid()
    ensures fs.winSect == old(fs.winSect) || !fs.geo.InData(fs.winSect)
    ensures fs.wflag ==> old(fs.wflag)
    ensures res == FrOk || res == FrDiskErr
    ensures res == FrOk ==>
      fs.winSect == fs.geo.fatBase + i / SECTOR_SIZE && fs.geo.InFat1(fs.winSect) && fs.geo.Tracked(fs.winSect)
    ensures res == FrOk ==> fs.winSect < |fs.img| && fs.win[..] == fs.img[fs.winSect]
    ensures res == FrOk ==> fs.win[i % SECTOR_SIZE] == FatByte(fs.geo, fs.img, i)
    ensures fs.disk.reliable ==> res == FrOk
    ensures fs.disk.locked ==> fs.disk.sectors == old(fs.disk.sectors) && (!old(fs.wflag) ==> res == FrOk)
    ensures fs.disk.reliable && old(fs.Mirrored()) ==> fs.Mirrored()
  {
    res := fs.MoveWindow(fs.geo.fatBase + i / SECTOR_SIZE);
  }

  /** The FAT12 case: the two bytes may lie in different sectors. */
  method GetFat12(fs: Volume, clst: u32) returns (val: u32)
    requires fs.Valid() && fs.geo.fsType == Fat12 && clst < fs.geo.nFatEnt
    modifies fs`wflag, fs`winSect, fs.win, fs.disk
    ensures fs.Valid()
    ensures fs.winSect == old(fs.winSect) || !fs.geo.InData(fs.winSect)
    ensures fs.wflag ==> old(fs.wflag)
    ensures val == DISK_ERROR || (val == Entry(fs.geo, fs.img, clst) && fs.geo.InFat1(fs.winSect))
    ensures fs.disk.reliable ==> val != DISK_ERROR
    ensures fs.disk.locked ==> fs.disk.sectors == old(fs.disk.sectors) && (!old(fs.wflag) ==> val != DISK_ERROR)
    ensures fs.disk.reliable && old(fs.Mirrored()) ==> fs.Mirrored()
  {
    hide FatByte, Geometry.Valid, Entry;
    val := DISK_ERROR;
    Entry12(fs.geo, fs.img, clst);
    var bc: nat := clst + clst / 2;
    var res := MoveToFatByte(fs, bc);
    if res == FrOk {
      var lo := fs.win[bc % SECTOR_SIZE];
      bc := bc + 1;
      res := MoveToFatByte(fs, bc);
      if res == FrOk {
        val := Decode12(clst, lo, fs.win[bc % SECTOR_SIZE]);
      }
    }
  }

  method GetFat16(fs: Volume, clst: u32) returns (val: u32)
    requires fs.Valid() && fs.geo.fsType == Fat16 && clst < fs.geo.nFatEnt
    modifies fs`wflag, fs`winSect, fs.win, fs.disk
    ensures fs.Valid()
    ensures fs.winSect == old(fs.winSect) || !fs.geo.InData(fs.winSect)
    ensures fs.wflag ==> old(fs.wflag)
    ensures val == DISK_ERROR || (val == Entry(fs.geo, fs.img, clst) && fs.geo.InFat1(fs.winSect))
    ensures fs.disk.reliable ==> val != DISK_ERROR
    ensures fs.disk.locked ==> fs.disk.sectors == old(fs.disk.sectors) && (!old(fs.wflag) ==> val != DISK_ERROR)
    ensures fs.disk.reliable && old(fs.Mirrored()) ==> fs.Mirrored()
  {
    hide FatByte, Geometry.Valid, Entry;
    val := DISK_ERROR;
    Entry16(fs.geo, fs.img, clst);
    var res := MoveToFatByte(fs, clst * 2);
    if res == FrOk {
      WordInSector(fs.geo, fs.img, clst * 2);
      val := LdWord(fs.win[..], clst * 2 % SECTOR_SIZE);
    }
  }

  method GetFat32(fs: Volume, clst: u32) returns (val: u32)
    requires fs.Valid() && fs.geo.fsType == Fat32 && clst < fs.geo.nFatEnt
    modifies fs`wflag, fs`winSect, fs.win, fs.disk
    ensures fs.Valid()
    ensures fs.winSect == old(fs.winSect) || !fs.geo.InData(fs.winSect)
    ensures fs.wflag ==> old(fs.wflag)
    ensures val == DISK_ERROR || (val == Entry(fs.geo, fs.img, clst) && fs.geo.InFat1(fs.winSect))
    ensures fs.disk.reliable ==> val != DISK_ERROR
    ensures fs.disk.locked ==> fs.disk.sectors == old(fs.disk.sectors) && (!old(fs.wflag) ==> val != DISK_ERROR)
    ensures fs.disk.reliable && old(fs.Mirrored()) ==> fs.Mirrored()
  {
    hide FatByte, Geometry.Valid, Entry;
    val := DISK_ERROR;
    Entry32(fs.geo, fs.img, clst);
    var res := MoveToFatByte(fs, clst * 4);
    if res == FrOk {
      DwordInSector(fs.geo, fs.img, clst * 4);
      val := LdDword(fs.win[..], clst * 4 % SECTOR_SIZE) % 0x1000_0000;
    }
  }

  /** `get_fat`: 1 for an entry number out of range, DISK_ERROR when the window cannot be moved. */
  method GetFat(fs: Volume, clst: u32) returns (val: u32)
    requires fs.Valid()
    modifies fs`wflag, fs`winSect, fs.win, fs.disk
    ensures fs.Valid()
    ensures fs.winSect == old(fs.winSect) || !fs.geo.InData(fs.winSect)
    ensures fs.wflag ==> old(fs.wflag)
    ensures !(2 <= clst < fs.geo.nFatEnt) ==> val == 1 && fs.winSect == old(fs.winSect)
    ensures 2 <= clst < fs.geo.nFatEnt ==> val == DISK_ERROR || val == Fat(fs)[clst]
    ensures 2 <= clst < fs.geo.nFatEnt && val != DISK_ERROR ==> fs.geo.InFat1(fs.winSect)
    ensures fs.disk.reliable ==> val != DISK_ERROR
    ensures fs.disk.locked ==> fs.disk.sectors == old(fs.disk.sectors) && (!old(fs.wflag) ==> val != DISK_ERROR)
    ensures fs.disk.reliable && old(fs.Mirrored()) ==> fs.Mirrored()
  {
    hide FatByte, Geometry.Valid, Entry;
    if clst < 2 || clst >= fs.geo.nFatEnt {
      val := 1;
    } else {
      match fs.geo.fsType {
        case Fat12 => val := GetFat12(fs, clst);
        case Fat16 => val := GetFat16(fs, clst);
        case Fat32 => val := GetFat32(fs, clst);
      }
    }
  }

  lemma WordInSector(g: Geometry, img: seq<Sector>, i: nat)
    requires i % 2 == 0 && i + 1 < g.fsize * SECTOR_SIZE && g.fatBase + g.fsize <= |img|
    ensures i % SECTOR_SIZE + 1 < SECTOR_SIZE
    ensures LdWord(img[g.fatBase + i / SECTOR_SIZE], i % SECTOR_SIZE) ==
      Decode16(FatByte(g, img, i), FatByte(g, img, i + 1))
  {
    assert (i + 1) / SECTOR_SIZE == i / SECTOR_SIZE && (i + 1) % SECTOR_SIZE == i % SECTOR_SIZE + 1;
  }

  lemma DwordInSector(g: Geometry, img: seq<Sector>, i: nat)
    requires i % 4 == 0 && i + 3 < g.fsize * SECTOR_SIZE && g.fatBase + g.fsize <= |img|
    ensures i % SECTOR_SIZE + 3 < SECTOR_SIZE
    ensures LdDword(img[g.fatBase + i / SECTOR_SIZE], i % SECTOR_SIZE) % 0x1000_0000 ==
      Decode32(FatByte(g, img, i), FatByte(g, img, i + 1), FatByte(g, img, i + 2), FatByte(g, img, i + 3))
  {
    var q, r := i / SECTOR_SIZE, i % SECTOR_SIZE;
    assert r % 4 == 0;
    assert (i + 1) / SECTOR_SIZE == q && (i + 1) % SECTOR_SIZE == r + 1;
    assert (i + 2) / SECTOR_SIZE == q && (i + 2) % SECTOR_SIZE == r + 2;
    assert (i + 3) / SECTOR_SIZE == q && (i + 3) % SECTOR_SIZE == r + 3;
  }

  /** Stores one byte of the first FAT in the window that shows it. */
  method PokeFatByte(fs: Volume, i: nat, b: byte)
    requires fs.Valid() && i < fs.geo.fsize * SECTOR_SIZE
    requires fs.winSect == fs.geo.fatBase + i / SECTOR_SIZE && fs.geo.Tracked(fs.winSect)
    modifies fs`wflag, fs`img, fs.win
    ensures fs.Valid()
    ensures fs.img == SetFatByte(fs.geo, old(fs.img), i, b)
  {
    fs.win[i % SECTOR_SIZE] := b;
    fs.TouchWindow();
  }

  /** Bytes that follow an aligned byte inside its group share its sector. */
  lemma SameSector(o: nat, k: nat)
    requires (o % 4 == 0 && k < 4) || (o % 2 == 0 && k < 2)
    ensures (o + k) / SECTOR_SIZE == o / SECTOR_SIZE && (o + k) % SECTOR_SIZE == o % SECTOR_SIZE + k
  {
    if o % 4 == 0 {
      var q, r := o / 4 / 128, o / 4 % 128;
      assert o == SECTOR_SIZE * q + 4 * r;
      SectorSum(q, 4 * r, 0);
      SectorSum(q, 4 * r, k);
    } else {
      var q, r := o / 2 / 256, o / 2 % 256;
      assert o == SECTOR_SIZE * q + 2 * r;
      SectorSum(q, 2 * r, 0);
      SectorSum(q, 2 * r, k);
    }
  }

  lemma SectorSum(q: nat, r: nat, k: nat)
    requires r + k < SECTOR_SIZE
    ensures (SECTOR_SIZE * q + r + k) / SECTOR_SIZE == q && (SECTOR_SIZE * q + r + k) % SECTOR_SIZE == r + k
  {
  }

  /** The FAT12 case. A disk error between the two bytes leaves the entry half written. */
  method PutFat12(fs: Volume, clst: u32, val: u32) returns (res: FResult)
    requires fs.Valid() && fs.geo.fsType == Fat12 && clst < fs.geo.nFatEnt
    modifies fs`wflag, fs`winSect, fs`img, fs.win, fs.disk
    ensures fs.Valid()
    ensures fs.winSect == old(fs.winSect) || !fs.geo.InData(fs.winSect)
    ensures res == FrOk || res == FrDiskErr
    ensures res == FrOk ==> fs.img == PutImage(fs.geo, old(fs.img), clst, val) && fs.geo.InFat1(fs.winSect)
    ensures res == FrDiskErr ==> fs.img == old(fs.img) || fs.img == TornImage(fs.geo, old(fs.img), clst, val)
    ensures fs.disk.reliable ==> res == FrOk
    ensures fs.disk.reliable && old(fs.Mirrored()) ==> fs.Mirrored()
  {
    hide Geometry.Valid, SetFatByte, FatByte, First12, Second12;
    var o := EntryOffset(fs.geo, clst);
    res := MoveToFatByte(fs, o);
    if res == FrOk {
      PokeFatByte(fs, o, First12(clst, fs.win[o % SECTOR_SIZE], val));
      res := MoveToFatByte(fs, o + 1);
      if res == FrOk {
        PokeFatByte(fs, o + 1, Second12(clst, fs.win[(o + 1) % SECTOR_SIZE], val));
      }
    }
  }

  method PutFat16(fs: Volume, clst: u32, val: u32) returns (res: FResult)
    requires fs.Valid() && fs.geo.fsType == Fat16 && clst < fs.geo.nFatEnt
    modifies fs`wflag, fs`winSect, fs`img, fs.win, fs.disk
    ensures fs.Valid()
    ensures fs.winSect == old(fs.winSect) || !fs.geo.InData(fs.winSect)
    ensures res == FrOk || res == FrDiskErr
    ensures res == FrOk ==> fs.img == PutImage(fs.geo, old(fs.img), clst, val) && fs.geo.InFat1(fs.winSect)
    ensures res == FrDiskErr ==> fs.img == old(fs.img)
    ensures fs.disk.reliable ==> res == FrOk
    ensures fs.disk.reliable && old(fs.Mirrored()) ==> fs.Mirrored()
  {
    hide Geometry.Valid, SetFatByte, FatByte;
    var o := EntryOffset(fs.geo, clst);
    SameSector(o, 1);
    res := MoveToFatByte(fs, o);
    if res == FrOk {
      PokeFatByte(fs, o, val % 0x100);
      PokeFatByte(fs, o + 1, val / 0x100 % 0x100);
    }
  }

  /** Stores the four bytes of a FAT32 entry in the window that shows them. */
  method PokeFour(fs: Volume, o: nat, val: u32, top: byte)
    requires fs.Valid() && o % 4 == 0 && o + 3 < fs.geo.fsize * SECTOR_SIZE
    requires fs.winSect == fs.geo.fatBase + o / SECTOR_SIZE && fs.geo.Tracked(fs.winSect)
    modifies fs`wflag, fs`img, fs.win
    ensures fs.Valid()
    ensures fs.img == TwoBytes(fs.geo, TwoBytes(fs.geo, old(fs.img), o, val % 0x100, val / 0x100 % 0x100), o + 2,
                               val / 0x1_0000 % 0x100, top)
  {
    hide Geometry.Valid, SetFatByte;
    SameSector(o, 1);
    SameSector(o, 2);
    SameSector(o, 3);
    PokeFatByte(fs, o, val % 0x100);
    PokeFatByte(fs, o + 1, val / 0x100 % 0x100);
    PokeFatByte(fs, o + 2, val / 0x1_0000 % 0x100);
    PokeFatByte(fs, o + 3, top);
  }

  method PutFat32(fs: Volume, clst: u32, val: u32) returns (res: FResult)
    requires fs.Valid() && fs.geo.fsType == Fat32 && clst < fs.geo.nFatEnt
    modifies fs`wflag, fs`winSect, fs`img, fs.win, fs.disk
    ensures fs.Valid()
    ensures fs.winSect == old(fs.winSect) || !fs.geo.InData(fs.winSect)
    ensures res == FrOk || res == FrDiskErr
    ensures res == FrOk ==> fs.img == PutImage(fs.geo, old(fs.img), clst, val) && fs.geo.InFat1(fs.winSect)
    ensures res == FrDiskErr ==> fs.img == old(fs.img)
    ensures fs.disk.reliable ==> res == FrOk
    ensures fs.disk.reliable && old(fs.Mirrored()) ==> fs.Mirrored()
  {
    hide Geometry.Valid, Geometry.InData, SetFatByte, FatByte, Top32, Volume.Mirrored;
    var o := EntryOffset(fs.geo, clst);
    SameSector(o, 3);
    res := MoveToFatByte(fs, o);
    if res == FrOk {
      FatByteInWindow(fs, o + 3);
      PokeFour(fs, o, val, Top32(val, fs.win[o % SECTOR_SIZE + 3]));
    }
  }

  lemma FatByteInWindow(fs: Volume, i: nat)
    requires fs.Valid() && i < fs.geo.fsize * SECTOR_SIZE
    requires fs.winSect == fs.geo.fatBase + i / SECTOR_SIZE && fs.geo.Tracked(fs.winSect)
    ensures fs.win[i % SECTOR_SIZE] == FatByte(fs.geo, fs.img, i)
  {
  }

  /** Nothing outside the first FAT differs between two images. */
  ghost predicate SameOutsideFat(g: Geometry, img: seq<Sector>, img': seq<Sector>) {
    |img'| == |img| && forall s :: 0 <= s < |img| && !g.InFat1(s) ==> img'[s] == img[s]
  }

  /** `put_fat`. On a disk error a FAT12 entry that straddles two sectors may be half written;
      no other entry is damaged. */
  method PutFat(fs: Volume, clst: u32, val: u32) returns (res: FResult)
    requires fs.Valid()
    modifies fs`wflag, fs`winSect, fs`img, fs.win, fs.disk
    ensures fs.Valid()
    ensures fs.winSect == old(fs.winSect) || !fs.geo.InData(fs.winSect)
    ensures !(2 <= clst < fs.geo.nFatEnt) <==> res == FrIntErr
    ensures res == FrIntErr ==> fs.img == old(fs.img) && fs.winSect == old(fs.winSect)
    ensures res == FrOk || res == FrIntErr || res == FrDiskErr
    ensures res == FrOk ==> fs.img == PutImage(fs.geo, old(fs.img), clst, val) && fs.geo.InFat1(fs.winSect)
    ensures res == FrOk ==> Fat(fs) == old(Fat(fs))[clst := Mask(fs.geo, val)]
    ensures res == FrDiskErr ==> forall d :: 0 <= d < fs.geo.nFatEnt && d != clst ==> Fat(fs)[d] == old(Fat(fs))[d]
    ensures SameOutsideFat(fs.geo, old(fs.img), fs.img)
    ensures fs.disk.reliable ==> res != FrDiskErr
    ensures fs.disk.reliable && old(fs.Mirrored()) ==> fs.Mirrored()
  {
    hide Geometry.Valid, PutImage, TornImage, Entry;
    res := FrIntErr;
    if 2 <= clst < fs.geo.nFatEnt {
      ghost var was := fs.img;
      match fs.geo.fsType {
        case Fat12 =>
          res := PutFat12(fs, clst, val);
          TornPutTable(fs.geo, was, clst, val);
          TornOutside(fs.geo, was, clst, val);
        case Fat16 => res := PutFat16(fs, clst, val);
        case Fat32 => res := PutFat32(fs, clst, val);
      }
      PutTable(fs.geo, was, clst, val);
      PutImageOutside(fs.geo, was, clst, val);
    }
  }
}
