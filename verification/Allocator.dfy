/** The cluster allocator over the window (`create_chain`, `remove_chain`). */
module Allocator {
  import opened Bytes
  import opened Layout
  import opened Window
  import opened FatTable
  import opened FatAccess
  import opened Chains
  import opened AllocSpec

  /** The allocator state held by a mounted volume. */
  ghost function AllocOf(fs: Volume): (s: Alloc)
    requires fs.Valid()
    reads fs, fs.disk, fs.win
    ensures |s.t| == fs.geo.nFatEnt && 3 <= |s.t| <= 0x1000_0000
  {
    Alloc(Fat(fs), fs.freeClst, fs.lastClst)
  }

  /** The end mark as it is stored in an entry. */
  function Eoc(g: Geometry): (e: u32)
    requires g.Valid()
    ensures e >= g.nFatEnt
  {
    Mask(g, 0xFFFF_FFFF)
  }

  /** The search loop of `create_chain`. */
  method ScanFat(fs: Volume, start: u32, scl: u32) returns (ncl: u32)
    requires fs.Valid() && 2 <= start < fs.geo.nFatEnt && 1 <= scl < fs.geo.nFatEnt
    modifies fs`wflag, fs`winSect, fs.win, fs.disk
    ensures fs.Valid()
    ensures fs.winSect == old(fs.winSect) || !fs.geo.InData(fs.winSect)
    ensures fs.wflag ==> old(fs.wflag)
    ensures ncl != DISK_ERROR ==> ncl == Scan(Fat(fs), start, scl)
    ensures ncl != DISK_ERROR ==> fs.geo.InFat1(fs.winSect)
    ensures fs.disk.reliable ==> ncl != DISK_ERROR
    ensures fs.disk.reliable && old(fs.Mirrored()) ==> fs.Mirrored()
  {
    hide Table, Geometry.Valid, Volume.Valid, Volume.Mirrored;
    ghost var t := Fat(fs);
    ncl := start;
    while true
      invariant fs.Valid() && fs.img == old(fs.img) && t == Fat(fs) && (fs.wflag ==> old(fs.wflag))
      invariant fs.winSect == old(fs.winSect) || !fs.geo.InData(fs.winSect)
      invariant 2 <= ncl < |t|
      invariant Scan(t, start, scl) == Scan(t, ncl, scl)
      invariant fs.disk.reliable && old(fs.Mirrored()) ==> fs.Mirrored()
      decreases Distance(|t|, ncl, scl)
    {
      var cs := GetFat(fs, ncl);
      if cs == 0 { return; }
      if cs == 1 || cs == DISK_ERROR { return cs; }
      if ncl == scl { return 0; }
      ncl := ncl + 1;
      if ncl >= fs.geo.nFatEnt {
        ncl := 2;
        if ncl > scl { return 0; }
      }
    }
  }

  lemma SearchIsScan(t: seq<u32>)
    requires 3 <= |t| <= 0x1000_0000
    ensures forall scl: nat :: 1 <= scl < |t| ==> Search(t, scl) == Scan(t, if scl + 1 < |t| then scl + 1 else 2, scl)
  {
  }

  /** The cluster `create_chain` settles on, before it is linked. */
  method PickCluster(fs: Volume, clst: u32) returns (ncl: u32)
    requires fs.Valid() && (clst == 0 || 2 <= clst < fs.geo.nFatEnt)
    modifies fs`wflag, fs`winSect, fs.win, fs.disk
    ensures fs.Valid()
    ensures fs.winSect == old(fs.winSect) || !fs.geo.InData(fs.winSect)
    ensures fs.wflag ==> old(fs.wflag)
    ensures ncl != DISK_ERROR ==> ncl == Pick(AllocOf(fs), clst)
    ensures ncl != DISK_ERROR ==> fs.geo.InFat1(fs.winSect)
    ensures fs.disk.reliable ==> ncl != DISK_ERROR
    ensures fs.disk.reliable && old(fs.Mirrored()) ==> fs.Mirrored()
  {
    hide Table, Geometry.Valid, Volume.Valid, Volume.Mirrored, Scan, Search;
    ghost var t := Fat(fs);
    SearchIsScan(t);
    var scl := clst;
    if clst == 0 {
      scl := fs.lastClst;
      if scl == 0 || scl >= fs.geo.nFatEnt { scl := 1; }
    }
    ncl := 0;
    if scl == clst {
      ncl := scl + 1;
      if ncl >= fs.geo.nFatEnt { ncl := 2; }
      var cs := GetFat(fs, ncl);
      if cs == 1 || cs == DISK_ERROR { return cs; }
      if cs != 0 {
        cs := fs.lastClst;
        if cs >= 2 && cs < fs.geo.nFatEnt { scl := cs; }
        ncl := 0;
      }
    }
    if ncl == 0 {
      ncl := scl + 1;
      if ncl >= fs.geo.nFatEnt { ncl := 2; }
      ncl := ScanFat(fs, ncl, scl);
    }
  }

  /** Marks `ncl` as a chain end and links it behind `clst`. */
  method LinkCluster(fs: Volume, clst: u32, ncl: u32) returns (res: FResult)
    requires fs.Valid() && 2 <= ncl < fs.geo.nFatEnt && (clst == 0 || 2 <= clst < fs.geo.nFatEnt)
    modifies fs`wflag, fs`winSect, fs`img, fs.win, fs.disk
    ensures fs.Valid()
    ensures fs.winSect == old(fs.winSect) || !fs.geo.InData(fs.winSect)
    ensures res == FrOk || res == FrDiskErr
    ensures res == FrOk ==> Fat(fs) == Linked(old(Fat(fs)), Eoc(fs.geo), clst, ncl) && fs.geo.InFat1(fs.winSect)
    ensures res != FrOk ==> forall d :: 0 <= d < fs.geo.nFatEnt && (clst == 0 || d != clst) && d != ncl ==>
      Fat(fs)[d] == old(Fat(fs))[d]
    ensures SameOutsideFat(fs.geo, old(fs.img), fs.img)
    ensures fs.disk.reliable ==> res == FrOk
    ensures fs.disk.reliable && old(fs.Mirrored()) ==> fs.Mirrored()
  {
    hide Table, Geometry.Valid, Volume.Valid, Volume.Mirrored, PutImage;
    res := PutFat(fs, ncl, 0xFFFF_FFFF);
    if res == FrOk && clst != 0 {
      res := PutFat(fs, clst, ncl);
      MaskFits(fs, ncl);
    }
  }

  /** A cluster number is stored in full. */
  lemma MaskFits(fs: Volume, ncl: u32)
    requires fs.Valid() && 2 <= ncl < fs.geo.nFatEnt
    ensures Mask(fs.geo, ncl) == ncl
  {
  }

  /** Records that `ncl` was taken. */
  method NoteAllocation(fs: Volume, ncl: u32)
    requires fs.Valid() && fs.freeClst > 0
    modifies fs`freeClst, fs`lastClst, fs`fsiDirty
    ensures fs.Valid()
    ensures fs.lastClst == ncl
    ensures fs.freeClst == if old(fs.freeClst) <= fs.geo.nFatEnt - 2 then old(fs.freeClst) - 1 else old(fs.freeClst)
  {
    fs.lastClst := ncl;
    if fs.freeClst <= fs.geo.nFatEnt - 2 { fs.freeClst := fs.freeClst - 1; }
    fs.fsiDirty := true;
  }

  lemma GeometryHolds(fs: Volume)
    requires fs.Valid()
    ensures fs.geo.Valid()
  {
  }

  lemma LinkedDiffers(t: seq<u32>, eoc: u32, clst: nat, ncl: nat)
    requires clst < |t| && 2 <= ncl < |t| <= 0x1000_0000 && t[ncl] == 0 && eoc >= |t|
    ensures Linked(t, eoc, clst, ncl) != t
  {
    assert Linked(t, eoc, clst, ncl)[ncl] != t[ncl];
  }

  /** The part of `create_chain` that looks for a cluster and links it. */
  method AllocateCluster(fs: Volume, clst: u32) returns (ncl: u32)
    requires fs.Valid() && fs.freeClst > 0 && (clst == 0 || 2 <= clst < fs.geo.nFatEnt)
    modifies fs`wflag, fs`winSect, fs`img, fs`freeClst, fs`lastClst, fs`fsiDirty, fs.win, fs.disk
    ensures fs.Valid()
    ensures fs.winSect == old(fs.winSect) || !fs.geo.InData(fs.winSect)
    ensures ncl != DISK_ERROR ==> Outcome(ncl, AllocOf(fs)) == Allocate(old(AllocOf(fs)), Eoc(fs.geo), clst)
    ensures ncl == DISK_ERROR ==> fs.freeClst == old(fs.freeClst) && fs.lastClst == old(fs.lastClst)
    ensures ncl == DISK_ERROR ==>
      forall d :: 0 <= d < fs.geo.nFatEnt && (clst == 0 || d != clst) && old(Fat(fs))[d] != 0 ==>
        Fat(fs)[d] == old(Fat(fs))[d]
    ensures SameOutsideFat(fs.geo, old(fs.img), fs.img)
    ensures ncl != DISK_ERROR && Fat(fs) == old(Fat(fs)) ==>
      fs.img == old(fs.img) && (fs.wflag ==> old(fs.wflag)) && fs.fsiDirty == old(fs.fsiDirty)
    ensures ncl != DISK_ERROR ==> fs.geo.InFat1(fs.winSect)
    ensures fs.disk.reliable ==> ncl != DISK_ERROR
    ensures fs.disk.reliable && old(fs.Mirrored()) ==> fs.Mirrored()
  {
    hide Table, Geometry.Valid, Volume.Valid, Volume.Mirrored, Pick, Linked, SameOutsideFat;
    SameIsSame(fs.geo, fs.img);
    ghost var s := AllocOf(fs);
    ncl := PickCluster(fs, clst);
    if ncl == 0 || ncl == 1 || ncl == DISK_ERROR { return; }
    PickFinds(s, clst);
    GeometryHolds(fs);
    LinkedDiffers(s.t, Eoc(fs.geo), clst, ncl);
    var res := LinkCluster(fs, clst, ncl);
    if res == FrOk {
      NoteAllocation(fs, ncl);
    } else {
      ncl := DISK_ERROR;
    }
  }

  /** `create_chain`. A disk error while linking can leave the picked cluster marked, and the entry
      of `clst` changed; every other entry in use is as before. */
  method CreateChain(fs: Volume, clst: u32) returns (ncl: u32)
    requires fs.Valid()
    modifies fs`wflag, fs`winSect, fs`img, fs`freeClst, fs`lastClst, fs`fsiDirty, fs.win, fs.disk
    ensures fs.Valid()
    ensures fs.winSect == old(fs.winSect) || !fs.geo.InData(fs.winSect)
    ensures ncl != DISK_ERROR ==>
      Outcome(ncl, AllocOf(fs)) == AllocSpec.CreateChain(old(AllocOf(fs)), Eoc(fs.geo), clst)
    ensures ncl == DISK_ERROR ==> fs.freeClst == old(fs.freeClst) && fs.lastClst == old(fs.lastClst)
    ensures ncl == DISK_ERROR ==>
      forall d :: 0 <= d < fs.geo.nFatEnt && (clst == 0 || d != clst) && old(Fat(fs))[d] != 0 ==>
        Fat(fs)[d] == old(Fat(fs))[d]
    ensures SameOutsideFat(fs.geo, old(fs.img), fs.img)
    ensures ncl != DISK_ERROR && Fat(fs) == old(Fat(fs)) ==>
      fs.img == old(fs.img) && (fs.wflag ==> old(fs.wflag)) && fs.fsiDirty == old(fs.fsiDirty)
    ensures ncl != DISK_ERROR ==> fs.geo.InFat1(fs.winSect) || (fs.img == old(fs.img) && fs.winSect == old(fs.winSect))
    ensures fs.disk.reliable ==> ncl != DISK_ERROR
    ensures fs.disk.reliable && old(fs.Mirrored()) ==> fs.Mirrored()
  {
    hide Table, Geometry.Valid, Volume.Valid, Volume.Mirrored, Allocate, SameOutsideFat;
    SameIsSame(fs.geo, fs.img);
    if clst != 0 {
      var cs := GetFat(fs, clst);
      if cs < 2 { return 1; }
      if cs == DISK_ERROR { return cs; }
      if cs < fs.geo.nFatEnt { return cs; }
    }
    if fs.freeClst == 0 { return 0; }
    ncl := AllocateCluster(fs, clst);
  }

  lemma SameIsSame(g: Geometry, img: seq<Sector>)
    ensures SameOutsideFat(g, img, img)
  {
  }

  lemma OutsideTrans(g: Geometry, a: seq<Sector>, b: seq<Sector>, c: seq<Sector>)
    requires SameOutsideFat(g, a, b) && SameOutsideFat(g, b, c)
    ensures SameOutsideFat(g, a, c)
  {
  }

  /** Counts one more free cluster, unless the count is unknown. */
  method NoteFreed(fs: Volume)
    requires fs.Valid()
    modifies fs`freeClst, fs`fsiDirty
    ensures fs.Valid()
    ensures fs.freeClst == CountFreed(old(fs.freeClst), fs.geo.nFatEnt)
  {
    if fs.freeClst < fs.geo.nFatEnt - 2 {
      fs.freeClst := fs.freeClst + 1;
      fs.fsiDirty := true;
    }
  }

  /** One round of the loop of `remove_chain`, on the specification side. */
  lemma FreeOneStep(s: Alloc, c: nat)
    requires 2 <= c < |s.t| <= 0x1000_0000 && 2 <= s.t[c]
    ensures var s' := s.(t := s.t[c := 0], free := CountFreed(s.free, |s.t|));
      && Used(s'.t) < Used(s.t)
      && FreeFrom(s, c) == (if s.t[c] < |s.t| then FreeFrom(s', s.t[c]) else Removal(true, s'))
      && Walked(s.t, c) == (if s.t[c] < |s.t| then {c} + Walked(s'.t, s.t[c]) else {c})
  {
    ZerosUpdate(s.t, 0, |s.t|, c, 0);
  }

  /** The loop of `remove_chain`: ends on every FAT. */
  method FreeClustersFrom(fs: Volume, clst: u32) returns (res: FResult)
    requires fs.Valid() && 2 <= clst < fs.geo.nFatEnt
    modifies fs`wflag, fs`winSect, fs`img, fs`freeClst, fs`fsiDirty, fs.win, fs.disk
    ensures fs.Valid()
    ensures fs.winSect == old(fs.winSect) || !fs.geo.InData(fs.winSect)
    ensures res == FrOk || res == FrIntErr || res == FrDiskErr
    ensures res != FrDiskErr ==> Removal(res == FrOk, AllocOf(fs)) == FreeFrom(old(AllocOf(fs)), clst)
    ensures res == FrDiskErr ==> forall d :: 0 <= d < fs.geo.nFatEnt && d !in Walked(old(Fat(fs)), clst) ==>
      Fat(fs)[d] == old(Fat(fs))[d]
    ensures SameOutsideFat(fs.geo, old(fs.img), fs.img)
    ensures res != FrDiskErr ==> fs.geo.InFat1(fs.winSect)
    ensures fs.disk.reliable ==> res != FrDiskErr
    ensures fs.disk.reliable && old(fs.Mirrored()) ==> fs.Mirrored()
  {
    hide SameOutsideFat, Geometry.InData, FreeClusters, Table, Geometry.Valid, Volume.Valid, Volume.Mirrored,
         FreeFrom, Walked, CountFreed, PutImage;
    ghost var s, img := AllocOf(fs), fs.img;
    SameIsSame(fs.geo, img);
    var c := clst;
    while true
      invariant fs.Valid() && 2 <= c < fs.geo.nFatEnt
      invariant fs.winSect == old(fs.winSect) || !fs.geo.InData(fs.winSect)
      invariant FreeFrom(AllocOf(fs), c) == FreeFrom(s, clst)
      invariant Walked(Fat(fs), c) <= Walked(s.t, clst)
      invariant forall d :: 0 <= d < |s.t| && d !in Walked(s.t, clst) ==> Fat(fs)[d] == s.t[d]
      invariant SameOutsideFat(fs.geo, img, fs.img)
      invariant fs.disk.reliable && old(fs.Mirrored()) ==> fs.Mirrored()
      decreases Used(Fat(fs))
    {
      ghost var s1, img1 := AllocOf(fs), fs.img;
      FreeStops(s1, c);
      var nxt := GetFat(fs, c);
      if nxt == 0 { return FrOk; }
      if nxt == 1 { return FrIntErr; }
      if nxt == DISK_ERROR { return FrDiskErr; }
      FreeOneStep(s1, c);
      res := PutFat(fs, c, 0);
      OutsideTrans(fs.geo, img, img1, fs.img);
      if res != FrOk { return; }
      NoteFreed(fs);
      assert Fat(fs) == s1.t[c := 0];
      if nxt >= fs.geo.nFatEnt { return FrOk; }
      c := nxt;
    }
  }

  lemma FreeStops(s: Alloc, c: nat)
    requires 2 <= c < |s.t| <= 0x1000_0000
    ensures c in Walked(s.t, c)
    ensures s.t[c] < 2 ==> FreeFrom(s, c) == Removal(s.t[c] == 0, s)
  {
  }

  /** `remove_chain`. A disk error leaves every entry off the walked path as it was. */
  method RemoveChain(fs: Volume, clst: u32, pclst: u32) returns (res: FResult)
    requires fs.Valid()
    modifies fs`wflag, fs`winSect, fs`img, fs`freeClst, fs`fsiDirty, fs.win, fs.disk
    ensures fs.Valid()
    ensures fs.winSect == old(fs.winSect) || !fs.geo.InData(fs.winSect)
    ensures res == FrOk || res == FrIntErr || res == FrDiskErr
    ensures res != FrDiskErr ==>
      Removal(res == FrOk, AllocOf(fs)) == AllocSpec.RemoveChain(old(AllocOf(fs)), Eoc(fs.geo), clst, pclst)
    ensures res == FrDiskErr ==> 2 <= clst < fs.geo.nFatEnt && pclst < fs.geo.nFatEnt
    ensures res == FrDiskErr ==>
      forall d :: 0 <= d < fs.geo.nFatEnt && (pclst == 0 || d != pclst) && Fat(fs)[d] != old(Fat(fs))[d] ==>
      d in Walked(Ended(old(Fat(fs)), Eoc(fs.geo), pclst), clst)
    ensures SameOutsideFat(fs.geo, old(fs.img), fs.img)
    ensures res == FrOk ==> fs.geo.InFat1(fs.winSect)
    ensures fs.disk.reliable ==> res != FrDiskErr
    ensures fs.disk.reliable && old(fs.Mirrored()) ==> fs.Mirrored()
  {
    hide Table, Geometry.Valid, Volume.Valid, Volume.Mirrored, FreeFrom, Walked, CountFreed, PutImage;
    SameIsSame(fs.geo, fs.img);
    if clst < 2 || clst >= fs.geo.nFatEnt { return FrIntErr; }
    if pclst != 0 {
      res := PutFat(fs, pclst, 0xFFFF_FFFF);
      if res != FrOk { return; }
    }
    res := FreeClustersFrom(fs, clst);
  }
}
