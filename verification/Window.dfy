/** The storage device and the one-sector write-back window of a mounted volume
    (`sync_window`, `move_window`, `sync_fs`). */
module Window {
  import opened Bytes
  import opened Layout

  datatype FResult = FrOk | FrDiskErr | FrIntErr | FrDenied | FrNoFilesystem

  /** The bytes of `n` consecutive sectors. */
  function Flatten(sectors: seq<Sector>, s: nat, n: nat): (data: seq<byte>)
    requires s + n <= |sectors|
    ensures |data| == n * SECTOR_SIZE
    ensures forall k :: 0 <= k < |data| ==> data[k] == sectors[s + k / SECTOR_SIZE][k % SECTOR_SIZE]
  {
    JoinedBytes(sectors[s..s + n]);
    Joined(sectors[s..s + n])
  }

  /** A medium that never fails, one that may fail at any transfer, and a write-protected one. */
  datatype Medium = Reliable | Faulty | Locked

  /** A block device as the driver sees it. A failed write may leave the addressed sector with unknown
      contents, except on a write-protected medium. */
  class Disk {
    const medium: Medium
    const reliable: bool := medium == Reliable
    const locked: bool := medium == Locked
    var sectors: seq<Sector>

    constructor (s: seq<Sector>, m: Medium)
      ensures sectors == s && medium == m
    {
      sectors, medium := s, m;
    }

    /** `disk_read` of one sector into a buffer. */
    method Read(s: u32, buf: array<byte>) returns (ok: bool)
      requires buf.Length == SECTOR_SIZE
      modifies buf
      ensures ok ==> s < |sectors| && buf[..] == sectors[s]
      ensures (reliable || locked) && s < |sectors| ==> ok
    {
      var fault: bool := *;
      ok := s < |sectors| && (reliable || locked || !fault);
      if ok {
        CopyInto(buf, sectors[s]);
      }
    }

    /** `disk_read` of `n` consecutive sectors into the caller's memory. */
    method ReadMany(s: u32, n: nat) returns (ok: bool, data: seq<byte>)
      ensures ok ==> s + n <= |sectors| && data == Flatten(sectors, s, n)
      ensures reliable && s + n <= |sectors| ==> ok
    {
      var fault: bool := *;
      ok := s + n <= |sectors| && (reliable || !fault);
      data := [];
      if ok {
        data := Flatten(sectors, s, n);
      }
    }

    /** `disk_write` of one sector. */
    method Write(s: u32, data: Sector) returns (ok: bool)
      modifies this`sectors
      ensures |sectors| == |old(sectors)|
      ensures ok ==> s < |sectors| && sectors == old(sectors)[s := data]
      ensures forall i :: 0 <= i < |sectors| && i != s ==> sectors[i] == old(sectors)[i]
      ensures reliable && s < |sectors| ==> ok
      ensures locked ==> !ok && sectors == old(sectors)
    {
      var fault: bool := *;
      ok := s < |sectors| && !locked && (reliable || !fault);
      if ok {
        sectors := sectors[s := data];
      } else if s < |sectors| && !locked {
        var left: Sector := *;
        sectors := sectors[s := left];
      }
    }
  }

  /** What became of one write: done, or failed with this left in the sector. */
  datatype Outcome = Done | Failed(left: Sector)

  function Written(sectors: seq<Sector>, s: nat, data: Sector, o: Outcome): (r: seq<Sector>)
    ensures |r| == |sectors|
  {
    if s >= |sectors| then sectors else sectors[s := if o.Done? then data else o.left]
  }

  /** `sync_window` on a dirty window as a function of the outcomes of its two writes. The second outcome
      does not matter for the result. */
  function FlushStep(g: Geometry, sectors: seq<Sector>, ws: nat, data: Sector, first: Outcome, second: Outcome):
    (r: (FResult, seq<Sector>))
    ensures |r.1| == |sectors|
  {
    var one := Written(sectors, ws, data, first);
    if first.Failed? then (FrDiskErr, one)
    else if g.InFat1(ws) && g.nFats == 2 then (FrOk, Written(one, ws + g.fsize, data, second))
    else (FrOk, one)
  }

  /** The second copy of the FAT holds the same sectors as the first. */
  ghost predicate CopiesAgree(g: Geometry, sectors: seq<Sector>) {
    g.nFats == 2 ==>
      forall i :: g.fatBase <= i < g.fatBase + g.fsize && i + g.fsize < |sectors| ==> sectors[i + g.fsize] == sectors[i]
  }

  /** A flush reports success and leaves the copies different exactly when it wrote a FAT sector and the
      write to the second copy failed, leaving anything else there. */
  lemma CopiesDivergeIff(g: Geometry, sectors: seq<Sector>, ws: nat, data: Sector, first: Outcome, second: Outcome)
    requires g.Valid() && g.End() <= |sectors| && ws < |sectors| && g.Tracked(ws) && CopiesAgree(g, sectors)
    ensures var r := FlushStep(g, sectors, ws, data, first, second);
      r.0 == FrOk && !CopiesAgree(g, r.1) <==>
        first.Done? && g.nFats == 2 && g.InFat1(ws) && second.Failed? && second.left != data
  {
    FatRangeTest(g, 0);
    var r := FlushStep(g, sectors, ws, data, first, second);
    if first.Done? && g.nFats == 2 && g.InFat1(ws) {
      assert r.1[ws] == data && r.1[ws + g.fsize] == if second.Done? then data else second.left;
      assert forall i :: 0 <= i < |sectors| && i != ws && i != ws + g.fsize ==> r.1[i] == sectors[i];
    }
  }

  /** If a failed write leaves the sector as it was, that is so exactly when the FAT sector had changed. */
  lemma ChangedSectorDiverges(g: Geometry, sectors: seq<Sector>, ws: nat, data: Sector)
    requires g.Valid() && g.End() <= |sectors| && CopiesAgree(g, sectors) && g.InFat1(ws) && g.nFats == 2
    ensures ws + g.fsize < |sectors|
    ensures var r := FlushStep(g, sectors, ws, data, Done, Failed(sectors[ws + g.fsize]));
      r.0 == FrOk && (!CopiesAgree(g, r.1) <==> data != sectors[ws])
  {
    FatRangeTest(g, 0);
    CopiesDivergeIff(g, sectors, ws, data, Done, Failed(sectors[ws + g.fsize]));
  }

  /** The FSInfo sector written by `sync_fs`. */
  function FsInfoSector(free: u32, last: u32): (s: seq<byte>)
    ensures |s| == SECTOR_SIZE
  {
    var zero: seq<byte> := seq(SECTOR_SIZE, _ => 0);
    StDword(StDword(StDword(StDword(StWord(zero, 510, 0xAA55), 0, 0x4161_5252), 484, 0x6141_7272), 488, free), 492,
            last)
  }

  /** What a mount takes from the FSInfo sector: the free count and the last allocation, both unknown
      when the signatures are wrong. */
  function LoadFsInfo(s: seq<byte>): (u32, u32)
    requires |s| == SECTOR_SIZE
  {
    if LdWord(s, 510) == 0xAA55 && LdDword(s, 0) == 0x4161_5252 && LdDword(s, 484) == 0x6141_7272
    then (LdDword(s, 488), LdDword(s, 492))
    else (0xFFFF_FFFF, 0xFFFF_FFFF)
  }

  lemma LdDwordSame(a: seq<byte>, b: seq<byte>, i: nat)
    requires |a| == |b| && i + 3 < |a| && a[i] == b[i] && a[i + 1] == b[i + 1] && a[i + 2] == b[i + 2]
    requires a[i + 3] == b[i + 3]
    ensures LdDword(a, i) == LdDword(b, i)
  {
  }

  /** The next mount finds the counts that were written. */
  lemma FsInfoReadsBack(free: u32, last: u32)
    ensures LoadFsInfo(FsInfoSector(free, last)) == (free, last)
  {
    var zero: seq<byte> := seq(SECTOR_SIZE, _ => 0);
    var s0 := StWord(zero, 510, 0xAA55);
    var s1 := StDword(s0, 0, 0x4161_5252);
    var s2 := StDword(s1, 484, 0x6141_7272);
    var s3 := StDword(s2, 488, free);
    var s4 := StDword(s3, 492, last);
    StDwordLoads(s0, 0, 0x4161_5252);
    StDwordLoads(s1, 484, 0x6141_7272);
    StDwordLoads(s2, 488, free);
    StDwordLoads(s3, 492, last);
    LdDwordSame(s1, s4, 0);
    LdDwordSame(s2, s4, 484);
    LdDwordSame(s3, s4, 488);
    assert s4 == FsInfoSector(free, last);
    assert s4[510] == s0[510] && s4[511] == s0[511];
    assert LdWord(s0, 510) == 0xAA55;
    hide StDword, LdDword;
  }

  /** The three signatures of an FSInfo sector: "RRaA", "rrAa" and 55 AA. */
  predicate Signed(s: Sector) {
    s[0..4] == [0x52, 0x52, 0x61, 0x41] && s[484..488] == [0x72, 0x72, 0x41, 0x61] && s[510..512] == [0x55, 0xAA]
  }

  /** What a mount takes: the numbers in bytes 488 to 491 and 492 to 495 of a signed sector. */
  lemma InfoIsInBytes(s: Sector)
    ensures LoadFsInfo(s) ==
      if Signed(s) then (Number(s[488..492]), Number(s[492..496])) else (0xFFFF_FFFF, 0xFFFF_FFFF)
  {
    LoadsNumber(s, 488);
    LoadsNumber(s, 492);
    hide Number;
    SameDword(s, 0, 0x52, 0x52, 0x61, 0x41);
    SameDword(s, 484, 0x72, 0x72, 0x41, 0x61);
    SameWord(s, 510, 0x55, 0xAA);
  }

  lemma SameWord(s: Sector, i: nat, a: byte, b: byte)
    requires i + 1 < SECTOR_SIZE
    ensures LdWord(s, i) == a as int + 0x100 * b as int <==> s[i..i + 2] == [a, b]
  {
    assert s[i..i + 2] == [s[i], s[i + 1]];
    SameBytes(s[i], s[i + 1], 0, 0, a, b, 0, 0);
  }

  lemma SameDword(s: Sector, i: nat, a: byte, b: byte, c: byte, d: byte)
    requires i + 3 < SECTOR_SIZE
    ensures LdDword(s, i) == a as int + 0x100 * b as int + 0x1_0000 * c as int + 0x100_0000 * d as int <==>
      s[i..i + 4] == [a, b, c, d]
  {
    assert s[i..i + 4] == [s[i], s[i + 1], s[i + 2], s[i + 3]];
    SameBytes(s[i], s[i + 1], s[i + 2], s[i + 3], a, b, c, d);
  }

  /** Four bytes are determined by their number. */
  lemma SameBytes(w: byte, x: byte, y: byte, z: byte, a: byte, b: byte, c: byte, d: byte)
    ensures w as int + 0x100 * x as int + 0x1_0000 * y as int + 0x100_0000 * z as int ==
            a as int + 0x100 * b as int + 0x1_0000 * c as int + 0x100_0000 * d as int
      <==> w == a && x == b && y == c && z == d
  {
    SameLow(w, x as int + 0x100 * y as int + 0x1_0000 * z as int, a, b as int + 0x100 * c as int + 0x1_0000 * d as int);
    SameLow(x, y as int + 0x100 * z as int, b, c as int + 0x100 * d as int);
    SameLow(y, z, c, d);
  }

  lemma SameLow(x: byte, y: int, a: byte, b: int)
    ensures x as int + 0x100 * y == a as int + 0x100 * b <==> x == a && y == b
  {
  }

  /** What a sync writes: a signed sector with the two counts in these bytes. */
  lemma InfoWritten(free: u32, last: u32)
    ensures var s := FsInfoSector(free, last);
      Signed(s) && Number(s[488..492]) == free && Number(s[492..496]) == last
  {
    hide FsInfoSector, LoadFsInfo, Number;
    var s := FsInfoSector(free, last);
    FsInfoReadsBack(free, last);
    FsInfoSigned(free, last);
    InfoIsInBytes(s);
  }

  lemma FsInfoSigned(free: u32, last: u32)
    ensures Signed(FsInfoSector(free, last))
  {
    var s := FsInfoSector(free, last);
    assert s[0] == 0x52 && s[1] == 0x52 && s[2] == 0x61 && s[3] == 0x41;
    assert s[484] == 0x72 && s[485] == 0x72 && s[486] == 0x41 && s[487] == 0x61;
    assert s[510] == 0x55 && s[511] == 0xAA;
  }

  /** Neither a sector the driver reads through nor its mirror is the FSInfo sector. */
  lemma InfoApart(g: Geometry, s: u32)
    requires g.Valid() && g.Tracked(s)
    ensures g.fsInfo ==> s != g.volBase + 1 && (g.InFat1(s) ==> s + g.fsize != g.volBase + 1)
    ensures g.fsInfo ==> g.volBase + 1 < g.fatBase
    ensures g.InFat1(s) ==> !g.InFat2(s)
  {
  }

  lemma InfoRange(g: Geometry)
    requires g.Valid() && g.fsInfo
    ensures g.volBase + 1 < g.fatBase <= g.dataBase < g.End()
    ensures !g.Tracked(g.volBase + 1)
  {
  }

  /** A mounted volume (`FATFS`). `img` is what a reader sees in each sector, the window included;
      the second FAT and the FSInfo sector are never read back and are left out of it. */
  class Volume {
    const geo: Geometry
    const disk: Disk
    const win: array<byte>
    var winSect: u32
    var wflag: bool
    var lastClst: u32
    var freeClst: u32
    var fsiDirty: bool
    ghost var img: seq<Sector>

    ghost predicate Valid()
      reads this, disk, win
    {
      && geo.Valid()
      && win.Length == SECTOR_SIZE
      && geo.End() <= |disk.sectors| <= 0xFFFF_FFFF
      && |img| == |disk.sectors|
      && (wflag ==> winSect < |img| && geo.Tracked(winSect))
      && (winSect < |img| && geo.Tracked(winSect) ==> win[..] == img[winSect])
      && (forall s :: 0 <= s < |img| && geo.Tracked(s) && !(wflag && s == winSect) ==> disk.sectors[s] == img[s])
      && InfoKept()
    }

    /** On a reliable medium the FSInfo sector holds the counts unless they are marked as changed. */
    ghost predicate InfoKept()
      reads this, disk
    {
      geo.fsInfo && !fsiDirty && disk.reliable && geo.volBase + 1 < |disk.sectors| ==>
        LoadFsInfo(disk.sectors[geo.volBase + 1]) == (freeClst, lastClst)
    }

    /** The two FAT copies hold the same sectors on the medium. */
    ghost predicate Mirrored()
      reads disk
    {
      CopiesAgree(geo, disk.sectors)
    }

    /** A freshly mounted volume: nothing is dirty and the image is the medium. The window `w` shows
        sector `ws`. */
    constructor (g: Geometry, d: Disk, w: array<byte>, ws: u32, free: u32, last: u32)
      requires g.Valid() && g.End() <= |d.sectors| <= 0xFFFF_FFFF && w.Length == SECTOR_SIZE
      requires ws < |d.sectors| && g.Tracked(ws) ==> w[..] == d.sectors[ws]
      requires g.fsInfo && d.reliable && g.volBase + 1 < |d.sectors| ==>
        LoadFsInfo(d.sectors[g.volBase + 1]) == (free, last)
      ensures Valid() && geo == g && disk == d && win == w && winSect == ws
      ensures img == d.sectors && freeClst == free && lastClst == last && !wflag && !fsiDirty
    {
      geo, disk, win := g, d, w;
      winSect, wflag := ws, false;
      freeClst, lastClst, fsiDirty := free, last, false;
      img := d.sectors;
    }

    /** `sync_window`. The result of the write to the second FAT is ignored. */
    method SyncWindow() returns (res: FResult)
      requires Valid()
      modifies this`wflag, disk
      ensures Valid()
      ensures res == FrOk || res == FrDiskErr
      ensures res == FrOk ==> !wflag
      ensures wflag ==> old(wflag)
      ensures disk.reliable ==> res == FrOk
      ensures disk.reliable && old(Mirrored()) ==> Mirrored()
      ensures !old(wflag) ==> res == FrOk && disk.sectors == old(disk.sectors)
      ensures old(wflag) ==> exists first, second ::
        (res, disk.sectors) == FlushStep(geo, old(disk.sectors), winSect, win[..], first, second)
      ensures disk.locked ==> disk.sectors == old(disk.sectors) && (old(wflag) ==> res == FrDiskErr && wflag)
    {
      hide Wrap32, Geometry.Valid, LoadFsInfo;
      res := FrOk;
      if wflag {
        ghost var was, data := disk.sectors, win[..];
        FatRangeTest(geo, winSect);
        InfoApart(geo, winSect);
        var ok := disk.Write(winSect, win[..]);
        ghost var first := if ok then Done else Failed(disk.sectors[winSect]);
        ghost var second := Done;
        assert disk.sectors == Written(was, winSect, data, first);
        if ok {
          wflag := false;
          if Wrap32(winSect - geo.fatBase) < geo.fsize {
            if geo.nFats == 2 {
              ghost var one := disk.sectors;
              var ok2 := disk.Write(winSect + geo.fsize, win[..]);
              second := if ok2 then Done else Failed(disk.sectors[winSect + geo.fsize]);
              assert disk.sectors == Written(one, winSect + geo.fsize, data, second);
            }
          }
        } else {
          res := FrDiskErr;
        }
        assert (res, disk.sectors) == FlushStep(geo, was, winSect, data, first, second);
      }
    }

    /** `move_window`. A failed read leaves the window invalid, a failed flush leaves it as it was. */
    method MoveWindow(sect: u32) returns (res: FResult)
      requires Valid()
      modifies this`wflag, this`winSect, win, disk
      ensures Valid()
      ensures res == FrOk || res == FrDiskErr
      ensures res == FrOk ==> winSect == sect
      ensures res == FrOk && sect < |img| && geo.Tracked(sect) ==> win[..] == img[sect]
      ensures res != FrOk ==> winSect == old(winSect) || winSect == 0xFFFF_FFFF
      ensures wflag ==> old(wflag)
      ensures !old(wflag) ==> disk.sectors == old(disk.sectors)
      ensures disk.reliable && sect < |img| ==> res == FrOk
      ensures disk.reliable && old(Mirrored()) ==> Mirrored()
      ensures disk.locked ==> disk.sectors == old(disk.sectors) && (!old(wflag) && sect < |img| ==> res == FrOk)
    {
      res := FrOk;
      if sect != winSect {
        res := SyncWindow();
        if res == FrOk {
          var s := sect;
          var ok := disk.Read(sect, win);
          if !ok {
            s := 0xFFFF_FFFF;
            res := FrDiskErr;
          }
          winSect := s;
        }
      }
    }

    /** Marks the window as changed: the change becomes part of the image. */
    method TouchWindow()
      requires geo.Valid() && win.Length == SECTOR_SIZE && geo.End() <= |disk.sectors| <= 0xFFFF_FFFF
      requires |img| == |disk.sectors| && winSect < |img| && geo.Tracked(winSect) && InfoKept()
      requires forall s :: 0 <= s < |img| && geo.Tracked(s) && s != winSect ==> disk.sectors[s] == img[s]
      modifies this`wflag, this`img
      ensures Valid() && wflag && img == old(img)[winSect := win[..]]
    {
      wflag := true;
      img := img[winSect := win[..]];
    }

    /** `sync_fs`: flushes the window, then rewrites FSInfo when it is maintained and out of date. */
    method SyncFs() returns (res: FResult)
      requires Valid()
      modifies this`wflag, this`winSect, this`fsiDirty, win, disk
      ensures Valid()
      ensures res == FrOk || res == FrDiskErr
      ensures res == FrOk ==> !wflag
      ensures wflag ==> old(wflag)
      ensures winSect == old(winSect) || (geo.fsInfo && winSect == geo.volBase + 1)
      ensures disk.reliable ==> res == FrOk
      ensures disk.reliable && old(Mirrored()) ==> Mirrored()
      ensures disk.reliable && geo.fsInfo ==>
        !fsiDirty && LoadFsInfo(disk.sectors[geo.volBase + 1]) == (freeClst, lastClst)
      ensures disk.locked ==> disk.sectors == old(disk.sectors) && (old(wflag) ==> res == FrDiskErr && wflag)
    {
      hide LoadFsInfo, Geometry.Valid, CopiesAgree;
      if geo.fsInfo { InfoRange(geo); }
      res := SyncWindow();
      if res == FrOk {
        if geo.fsInfo && fsiDirty {
          WriteInfo();
        }
        var fault: bool := *;
        if disk.medium == Faulty && fault {
          res := FrDiskErr;
        }
      }
    }

    /** The FSInfo sector goes through the window. The result of the write is ignored. */
    method WriteInfo()
      requires Valid() && !wflag && geo.fsInfo
      modifies this`winSect, this`fsiDirty, win, disk
      ensures Valid() && !fsiDirty && winSect == geo.volBase + 1
      ensures disk.reliable && old(Mirrored()) ==> Mirrored()
      ensures disk.locked ==> disk.sectors == old(disk.sectors)
    {
      hide FsInfoSector, LoadFsInfo, Geometry.Valid;
      InfoRange(geo);
      FsInfoReadsBack(freeClst, lastClst);
      CopyInto(win, FsInfoSector(freeClst, lastClst));
      winSect := geo.volBase + 1;
      var _ := disk.Write(winSect, win[..]);
      fsiDirty := false;
    }

    /** `disk_write` of one data sector past the window. */
    method WriteData(s: u32, data: Sector) returns (ok: bool)
      requires Valid()
      requires geo.dataBase <= s < |img| && s != winSect
      modifies this`img, disk
      ensures Valid()
      ensures ok ==> img == old(img)[s := data]
      ensures |img| == |old(img)|
      ensures forall i :: 0 <= i < |img| && i != s ==> img[i] == old(img)[i]
      ensures disk.reliable ==> ok
      ensures disk.locked ==> !ok && disk.sectors == old(disk.sectors)
      ensures old(Mirrored()) ==> Mirrored()
    {
      hide LoadFsInfo;
      ok := disk.Write(s, data);
      img := img[s := disk.sectors[s]];
    }
  }

  /** The second copy lags behind the first at most in the sector held dirty in the window,
      and not at all once the window is clean. */
  lemma MirrorLag(v: Volume, i: int)
    requires v.Valid() && v.Mirrored() && v.geo.nFats == 2
    requires v.geo.InFat1(i)
    ensures v.disk.sectors[i + v.geo.fsize] != v.img[i] ==> v.wflag && v.winSect == i
    ensures !v.wflag ==> v.disk.sectors[i + v.geo.fsize] == v.img[i] == v.disk.sectors[i]
  {
  }
}
