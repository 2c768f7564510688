/** `f_truncate`: cuts a file at its file pointer and frees the clusters behind. */
module Truncation {
  import opened Bytes
  import opened Layout
  import opened Window
  import opened FatTable
  import opened FatAccess
  import opened Chains
  import opened AllocSpec
  import opened Allocator
  import opened FileView
  import opened FileObject

  /** The FAT `t` after the chain `p` was cut behind its first `k` clusters. */
  ghost predicate CutAt(g: Geometry, t: seq<u32>, t': seq<u32>, p: seq<nat>, k: nat)
    requires g.Valid() && k <= |p|
  {
    if k == |p| then t' == t
    else if k == 0 then t' == Cleared(t, p)
    else p[k - 1] < |t| && t' == Cleared(t[p[k - 1] := Eoc(g)], p[k..])
  }

  lemma NothingCut(g: Geometry, t: seq<u32>, p: seq<nat>)
    requires g.Valid()
    ensures CutAt(g, t, t, p, |p|)
  {
  }

  /** A cut frees exactly the clusters behind the kept part. */
  lemma CutRechains(g: Geometry, t: seq<u32>, t': seq<u32>, p: seq<nat>, k: nat)
    requires g.Valid() && k <= |p| && CutAt(g, t, t', p, k)
    ensures Rechained(t, t', p, p[..k])
  {
    hide Geometry.Valid;
    assert p == p[..k] + p[k..];
    if 0 < k < |p| { assert p[k - 1] == p[..k][k - 1]; }
  }

  /** A cut keeps the FAT a set of disjoint chains, with the kept part in place of the whole. */
  lemma CutKeepsForest(g: Geometry, t: seq<u32>, t': seq<u32>, cs: set<seq<nat>>, p: seq<nat>, k: nat)
    requires g.Valid() && |t| == g.nFatEnt && Forest(t, cs) && p in cs && k <= |p| && CutAt(g, t, t', p, k)
    ensures Forest(t', if k == 0 then cs - {p} else cs - {p} + {p[..k]})
  {
    assert IsChain(t, p) && |p| > 0;
    hide Geometry.Valid, IsChain;
    if k == |p| {
      assert p[..k] == p && cs - {p} + {p} == cs;
    } else if k == 0 {
      ClearChainForest(t, cs, p);
    } else {
      CutChainForest(t, cs, p, k, Eoc(g));
    }
  }

  /** `remove_chain` on the part of the chain `p` from its `k`-th cluster on. */
  method RemoveSuffix(fs: Volume, ghost p: seq<nat>, ghost k: nat, clst: u32, pclst: u32) returns (res: FResult)
    requires fs.Valid() && IsChain(Fat(fs), p) && k < |p|
    requires clst == p[k] && pclst == if k == 0 then 0 else p[k - 1]
    modifies fs`wflag, fs`winSect, fs`img, fs`freeClst, fs`fsiDirty, fs.win, fs.disk
    ensures fs.Valid()
    ensures fs.winSect == old(fs.winSect) || !fs.geo.InData(fs.winSect)
    ensures res == FrOk || res == FrDiskErr
    ensures res == FrOk ==> CutAt(fs.geo, old(Fat(fs)), Fat(fs), p, k) && fs.geo.InFat1(fs.winSect)
    ensures res == FrOk ==> KeepsCount(old(AllocOf(fs)), AllocOf(fs))
    ensures forall c :: 0 <= c < fs.geo.nFatEnt && c !in p ==> Fat(fs)[c] == old(Fat(fs))[c]
    ensures SameOutsideFat(fs.geo, old(fs.img), fs.img)
    ensures fs.disk.reliable ==> res == FrOk
    ensures fs.disk.reliable && old(fs.Mirrored()) ==> fs.Mirrored()
  {
    hide IsChain, Geometry.Valid, Volume.Valid, Table, Volume.Mirrored, AllocSpec.RemoveChain, Accurate,
         SameOutsideFat, Walked, Ended, Eoc;
    HoldsImage(fs);
    ghost var s := AllocOf(fs);
    SuffixRemoved(s, p, k, Eoc(fs.geo));
    res := Allocator.RemoveChain(fs, clst, pclst);
    if res == FrOk { CutKeepsOthers(fs.geo, s.t, Fat(fs), p, k); }
  }

  lemma CutKeepsOthers(g: Geometry, t: seq<u32>, t': seq<u32>, p: seq<nat>, k: nat)
    requires g.Valid() && k <= |p| && CutAt(g, t, t', p, k)
    ensures |t'| == |t| && forall c :: 0 <= c < |t| && c !in p ==> t'[c] == t[c]
  {
    if 0 < k < |p| { assert p[k - 1] in p; }
    assert forall c :: c in p[k..] ==> c in p;
  }

  lemma SuffixRemoved(s: Alloc, p: seq<nat>, k: nat, eoc: u32)
    requires IsChain(s.t, p) && k < |p| && 3 <= |s.t| <= 0x1000_0000 && eoc >= |s.t|
    ensures 2 <= p[k] < |s.t| && (k > 0 ==> 2 <= p[k - 1] < |s.t| && p[k - 1] in p)
    ensures var r := AllocSpec.RemoveChain(s, eoc, p[k], if k == 0 then 0 else p[k - 1]);
      && r.ok
      && r.state.t == (if k == 0 then Cleared(s.t, p) else Cleared(s.t[p[k - 1] := eoc], p[k..]))
      && (Accurate(s) ==> Accurate(r.state))
    ensures forall c :: c in Walked(Ended(s.t, eoc, if k == 0 then 0 else p[k - 1]), p[k]) ==> c in p
    ensures forall c :: c in p[k..] ==> c in p
  {
    hide AllocSpec.RemoveChain, Accurate, Walked;
    forall i | 0 <= i < |p| ensures 2 <= p[i] < |s.t| { assert Links(s.t, p, i); }
    RemoveFreesSuffix(s, p, k, eoc);
    if k == 0 {
      WalkedOnChain(s.t, p);
    } else {
      CutTail(s.t, p, k, eoc);
      WalkedOnChain(s.t[p[k - 1] := eoc], p[k..]);
    }
  }

  /** The case of a file that keeps some clusters: the one of the file pointer becomes the last. */
  method ReleaseBehind(f: File, ghost k: nat) returns (res: FResult)
    requires f.Base() && 0 < k <= |f.chain| && f.clust == f.chain[k - 1]
    modifies f.fs`wflag, f.fs`winSect, f.fs`img, f.fs`freeClst, f.fs`fsiDirty, f.fs.win, f.fs.disk
    ensures f.fs.Valid()
    ensures f.fs.winSect == old(f.fs.winSect) || !f.fs.geo.InData(f.fs.winSect)
    ensures res == FrOk || res == FrDiskErr
    ensures res == FrOk ==> CutAt(f.fs.geo, old(Fat(f.fs)), Fat(f.fs), f.chain, k) && f.fs.geo.InFat1(f.fs.winSect)
    ensures res == FrOk ==> KeepsCount(old(AllocOf(f.fs)), AllocOf(f.fs))
    ensures forall c :: 0 <= c < f.fs.geo.nFatEnt && c !in f.chain ==> Fat(f.fs)[c] == old(Fat(f.fs))[c]
    ensures SameOutsideFat(f.fs.geo, old(f.fs.img), f.fs.img)
    ensures f.fs.disk.reliable ==> res == FrOk
    ensures f.fs.disk.locked && !old(f.fs.wflag) && k == |f.chain| ==>
      res == FrOk && !f.fs.wflag && f.fs.disk.sectors == old(f.fs.disk.sectors)
    ensures f.fs.disk.reliable && old(f.fs.Mirrored()) ==> f.fs.Mirrored()
  {
    hide File.Base, Covers, EntryRoom, EntryApart, Geometry.InData, IsChain, Geometry.Valid, Volume.Valid, Table,
         Volume.Mirrored, InChain, PowerOfTwo, Accurate, Placed, Fits, SameOutsideFat, CutAt;
    BaseFacts(f);
    SameIsSame(f.fs.geo, f.fs.img);
    ReleasePosition(f, k);
    ChainLink(f, k - 1);
    NothingCut(f.fs.geo, Fat(f.fs), f.chain);
    var ncl := GetFat(f.fs, f.clust);
    res := FrOk;
    if ncl == DISK_ERROR { res := FrDiskErr; }
    if ncl == 1 { res := FrIntErr; }
    if res == FrOk && ncl < f.fs.geo.nFatEnt {
      res := RemoveSuffix(f.fs, f.chain, k, ncl, f.clust);
    }
  }

  /** Gives the clusters behind the file pointer back. */
  method ReleaseTail(f: File, ghost k: nat) returns (res: FResult)
    requires f.Base() && f.fptr < f.objsize && k <= |f.chain|
    requires f.fptr == 0 ==> k == 0
    requires f.fptr > 0 ==> 0 < k == ClusterIndex(f.fs.geo, f.fptr - 1) + 1 && f.clust == f.chain[k - 1]
    modifies f`sclust
    modifies f.fs`wflag, f.fs`winSect, f.fs`img, f.fs`freeClst, f.fs`fsiDirty, f.fs.win, f.fs.disk
    ensures f.Allocated() && f.fs.Valid()
    ensures f.fs.winSect == old(f.fs.winSect) || !f.fs.geo.InData(f.fs.winSect)
    ensures res == FrOk || res == FrDiskErr
    ensures res == FrOk ==> CutAt(f.fs.geo, old(Fat(f.fs)), Fat(f.fs), f.chain, k) && f.fs.geo.InFat1(f.fs.winSect)
    ensures res == FrOk ==> f.sclust == if f.fptr == 0 then 0 else old(f.sclust)
    ensures res == FrOk ==> KeepsCount(old(AllocOf(f.fs)), AllocOf(f.fs))
    ensures forall c :: 0 <= c < f.fs.geo.nFatEnt && c !in f.chain ==> Fat(f.fs)[c] == old(Fat(f.fs))[c]
    ensures SameOutsideFat(f.fs.geo, old(f.fs.img), f.fs.img)
    ensures f.fs.disk.reliable ==> res == FrOk
    ensures f.fs.disk.locked && !old(f.fs.wflag) && 0 < k == |f.chain| ==>
      res == FrOk && !f.fs.wflag && f.fs.disk.sectors == old(f.fs.disk.sectors)
    ensures f.fs.disk.reliable && old(f.fs.Mirrored()) ==> f.fs.Mirrored()
  {
    hide File.Base, Covers, EntryRoom, EntryApart, Geometry.InData, IsChain, Geometry.Valid, Volume.Valid, Table,
         Volume.Mirrored, InChain, PowerOfTwo, Accurate, Placed, Fits, SameOutsideFat, CutAt;
    BaseFacts(f);
    HoldsImage(f.fs);
    SameIsSame(f.fs.geo, f.fs.img);
    ReleasePosition(f, k);
    if f.fptr == 0 {
      res := RemoveSuffix(f.fs, f.chain, 0, f.sclust, 0);
      f.sclust := 0;
    } else {
      res := ReleaseBehind(f, k);
    }
  }

  /** Clusters of the chain around the cut. */
  lemma ReleasePosition(f: File, k: nat)
    requires f.Base() && k <= |f.chain|
    ensures forall i :: 0 <= i < |f.chain| ==> 2 <= f.chain[i] < f.fs.geo.nFatEnt < DISK_ERROR
    ensures f.objsize > 0 ==> f.chain != [] && f.sclust == f.chain[0]
    ensures f.chain != [] ==> IsChain(Fat(f.fs), f.chain)
    ensures k > 0 ==> f.chain[k - 1] in f.chain
    ensures forall c :: c in f.chain[k..] ==> c in f.chain
  {
    forall i | 0 <= i < |f.chain|
      ensures 2 <= f.chain[i] < f.fs.geo.nFatEnt < DISK_ERROR
    {
      ChainLink(f, i);
    }
  }

  /** Removing a chain visits its clusters only. */
  lemma {:induction false} WalkedOnChain(t: seq<u32>, p: seq<nat>)
    requires IsChain(t, p)
    ensures 2 <= p[0] < |t|
    ensures forall c :: c in Walked(t, p[0]) ==> c in p
    decreases |p|
  {
    assert Links(t, p, 0);
    if |p| > 1 {
      assert Links(t, p, 1);
      TailChain(t, p);
      WalkedOnChain(t[p[0] := 0], p[1..]);
    }
  }

  /** The kept part of the chain is the chain of a file of `m` bytes. */
  lemma CutFile(g: Geometry, t: seq<u32>, t': seq<u32>, p: seq<nat>, start: u32, n: nat, m: nat, ds: int)
    requires g.Valid() && |t| == g.nFatEnt && p != [] && Covers(g, t, p, start, n) && m < n && EntryApart(g, t, p, ds)
    requires Clusters(g, m) <= |p| && CutAt(g, t, t', p, Clusters(g, m))
    ensures Covers(g, t', p[..Clusters(g, m)], if m == 0 then 0 else start, m)
    ensures EntryApart(g, t', p[..Clusters(g, m)], ds)
  {
    assert PowerOfTwo(g.csize);
    CutKeepsOthers(g, t, t', p, Clusters(g, m));
    assert forall c :: c in p[..Clusters(g, m)] ==> c in p;
    hide PowerOfTwo, Geometry.Valid;
    var k := Clusters(g, m);
    if k == |p| {
      assert p[..k] == p;
    } else if k > 0 {
      CutHead(t, p, k, Eoc(g));
    }
  }

  lemma ClustersFit(g: Geometry, p: seq<nat>, n: nat, m: nat)
    requires PowerOfTwo(g.csize) && Fits(g, p, n) && m < n
    ensures p != [] && Clusters(g, m) <= |p|
  {
    if m > 0 { IndexMonotone(g, m - 1, n - 1); }
  }

  /** The kept bytes, seen through the kept chain. */
  lemma CutContent(g: Geometry, eff: seq<Sector>, eff': seq<Sector>, p: seq<nat>, n: nat, m: nat)
    requires Placed(g, p) && Fits(g, p, n) && m < n && g.End() <= |eff| == |eff'|
    requires forall s :: g.dataBase <= s < |eff| ==> eff'[s] == eff[s]
    ensures Clusters(g, m) <= |p|
    ensures Placed(g, p[..Clusters(g, m)]) && Fits(g, p[..Clusters(g, m)], m)
    ensures Content(g, eff', p[..Clusters(g, m)], m) == Content(g, eff, p, n)[..m]
  {
    hide Content;
    ClustersFit(g, p, n, m);
    var q := p[..Clusters(g, m)];
    ContentPrefix(g, eff, p, n, m);
    ContentGrows(g, eff, q, p, m);
    ContentFrame(g, eff, eff', q, m);
  }

  /** Writes the dirty buffer back, wherever its sector now belongs. */
  method FlushKept(f: File) returns (res: FResult)
    requires f.Base() && f.fs.geo.InFat1(f.fs.winSect)
    requires f.dirty || f.sect != 0 ==> f.fs.geo.dataBase <= f.sect < |f.fs.img|
    requires !f.dirty && f.sect != 0 ==> f.buf[..] == f.fs.img[f.sect]
    modifies f`dirty, f.fs`img, f.fs.disk
    ensures f.Base()
    ensures res == FrOk || res == FrDiskErr
    ensures res == FrOk ==>
      f.Buffered() && !f.dirty && f.fs.img == Overlay(old(f.fs.img), old(f.dirty), f.sect, f.buf[..])
    ensures Fat(f.fs) == old(Fat(f.fs))
    ensures !old(f.dirty) ==> f.fs.img == old(f.fs.img)
    ensures |f.fs.img| == |old(f.fs.img)| && forall i :: 0 <= i < |f.fs.img| && i != f.sect ==>
      f.fs.img[i] == old(f.fs.img)[i]
    ensures f.fs.disk.reliable ==> res == FrOk
    ensures !old(f.dirty) ==> res == FrOk && f.fs.disk.sectors == old(f.fs.disk.sectors)
    ensures old(f.fs.Mirrored()) ==> f.fs.Mirrored()
  {
    hide IsChain, Placed, Volume.Valid, Table, Volume.Mirrored, Fits, InChain;
    res := FrOk;
    HoldsImage(f.fs);
    if f.dirty {
      ghost var was := f.fs.img;
      var ok := f.fs.WriteData(f.sect, f.buf[..]);
      DataWriteKeepsFat(f.fs.geo, was, f.fs.img, f.sect);
      if !ok { return FrDiskErr; }
      f.dirty := false;
    }
  }

  /** Where a file that is about to be cut stands. */
  lemma CutPosition(f: File)
    requires f.Base() && f.Buffered() && f.Cursor() && f.fptr < f.objsize
    ensures PowerOfTwo(f.fs.geo.csize) && f.chain != [] && IsChain(Fat(f.fs), f.chain)
    ensures var k := Clusters(f.fs.geo, f.fptr);
      k <= |f.chain| && (f.fptr > 0 ==> 0 < k == ClusterIndex(f.fs.geo, f.fptr - 1) + 1 && f.clust == f.chain[k - 1])
    ensures f.dirty || f.sect != 0 ==> f.fs.geo.dataBase <= f.sect < |f.fs.img|
    ensures f.dirty ==> InChain(f.fs.geo, f.chain, f.sect)
    ensures !f.dirty && f.sect != 0 ==> f.buf[..] == f.fs.img[f.sect]
    ensures Placed(f.fs.geo, f.chain) && Fits(f.fs.geo, f.chain, f.objsize)
    ensures f.dirty ==> f.sect < |f.fs.img| && |f.buf[..]| == SECTOR_SIZE
    ensures f.Data() == Content(f.fs.geo, Overlay(f.fs.img, f.dirty, f.sect, f.buf[..]), f.chain, f.objsize)
    ensures f.fptr % SECTOR_SIZE != 0 ==> ClusterIndex(f.fs.geo, f.fptr) < Clusters(f.fs.geo, f.fptr)
    ensures f.fptr % SECTOR_SIZE != 0 ==>
      ClusterIndex(f.fs.geo, f.fptr) < |f.chain| && f.sect == SectorAt(f.fs.geo, f.chain, f.fptr)
  {
    hide IsChain, Table, Volume.Valid, Content, EntryRoom, EntryApart;
    HoldsImage(f.fs);
    ClustersFit(f.fs.geo, f.chain, f.objsize, f.fptr);
    if f.fptr % SECTOR_SIZE != 0 { SameCluster(f.fs.geo, f.fptr); }
  }

  lemma PrefixSector(g: Geometry, p: seq<nat>, k: nat, o: nat)
    requires g.Valid() && k <= |p| && ClusterIndex(g, o) < k
    ensures SectorAt(g, p[..k], o) == SectorAt(g, p, o)
  {
  }

  /** Frees the clusters behind the file pointer and sets the size. */
  method SetEnd(f: File) returns (res: FResult)
    requires f.Base() && f.Buffered() && f.Cursor() && f.fptr < f.objsize
    modifies f`sclust, f`chain, f`objsize, f`modified
    modifies f.fs`wflag, f.fs`winSect, f.fs`img, f.fs`freeClst, f.fs`fsiDirty, f.fs.win, f.fs.disk
    ensures f.Allocated() && f.fs.Valid()
    ensures f.fs.winSect == old(f.fs.winSect) || !f.fs.geo.InData(f.fs.winSect)
    ensures res == FrOk || res == FrDiskErr
    ensures res == FrOk ==> f.Base() && f.Cursor() && f.fs.geo.InFat1(f.fs.winSect)
    ensures f.objsize == f.fptr && f.modified && f.chain <= old(f.chain) && |f.chain| == Clusters(f.fs.geo, f.fptr)
    ensures res == FrOk ==> CutAt(f.fs.geo, old(Fat(f.fs)), Fat(f.fs), old(f.chain), |f.chain|)
    ensures res == FrOk ==> KeepsCount(old(AllocOf(f.fs)), AllocOf(f.fs))
    ensures forall c :: 0 <= c < f.fs.geo.nFatEnt && c !in old(f.chain) ==> Fat(f.fs)[c] == old(Fat(f.fs))[c]
    ensures SameOutsideFat(f.fs.geo, old(f.fs.img), f.fs.img)
    ensures f.fs.disk.reliable ==> res == FrOk
    ensures f.fs.disk.locked && !old(f.fs.wflag) && f.fptr > 0 && |f.chain| == |old(f.chain)| ==>
      res == FrOk && !f.fs.wflag && f.fs.disk.sectors == old(f.fs.disk.sectors)
    ensures f.fs.disk.reliable && old(f.fs.Mirrored()) ==> f.fs.Mirrored()
  {
    hide Covers, EntryApart, File.Data, File.Eff, EntryRoom, Geometry.InData, IsChain, Placed, Geometry.Valid,
         Volume.Valid, Table, Volume.Mirrored, Fits, InChain, PowerOfTwo, CutAt, Content, SectorAt, ClusterIndex,
         Accurate, SameOutsideFat;
    CutPosition(f);
    ghost var k, p, t, n, start := Clusters(f.fs.geo, f.fptr), f.chain, Fat(f.fs), f.objsize, f.sclust;
    HoldsImage(f.fs);
    res := ReleaseTail(f, k);
    f.chain := f.chain[..k];
    f.objsize := f.fptr;
    f.modified := true;
    if res == FrOk {
      CutFile(f.fs.geo, t, Fat(f.fs), p, start, n, f.fptr, f.dirSect);
      FatIsNoData(f.fs, f.chain);
      if f.fptr % SECTOR_SIZE != 0 { PrefixSector(f.fs.geo, p, k, f.fptr); }
    }
  }

  /** After the chain was cut: writes the buffer back. `img`, `b` and `dirty` are image and buffer before. */
  method FlushCut(f: File, ghost p: seq<nat>, ghost img: seq<Sector>, ghost b: seq<byte>, ghost n: nat)
    returns (res: FResult)
    requires f.Base() && f.Cursor() && f.fs.geo.InFat1(f.fs.winSect) && f.objsize == f.fptr < n && f.buf[..] == b
    requires Holds(f.fs.geo, img) && SameOutsideFat(f.fs.geo, img, f.fs.img) && PowerOfTwo(f.fs.geo.csize)
    requires Placed(f.fs.geo, p) && Fits(f.fs.geo, p, n) && Clusters(f.fs.geo, f.fptr) <= |p|
    requires f.chain == p[..Clusters(f.fs.geo, f.fptr)] && |b| == SECTOR_SIZE
    requires f.dirty ==> InChain(f.fs.geo, p, f.sect)
    requires f.dirty || f.sect != 0 ==> f.fs.geo.dataBase <= f.sect < |img|
    requires !f.dirty && f.sect != 0 ==> b == img[f.sect]
    modifies f`dirty, f.fs`img, f.fs.disk
    ensures f.Allocated() && f.fs.Valid()
    ensures res == FrOk || res == FrDiskErr
    ensures res == FrOk ==> f.Base() && f.Buffered() && f.Cursor() && !f.dirty
    ensures res == FrOk ==> f.Data() == Content(f.fs.geo, Overlay(img, old(f.dirty), f.sect, b), p, n)[..f.fptr]
    ensures Fat(f.fs) == old(Fat(f.fs))
    ensures OutsideFile(f.fs.geo, p, img, f.fs.img)
    ensures f.fs.disk.reliable ==> res == FrOk
    ensures !old(f.dirty) ==> res == FrOk && f.fs.disk.sectors == old(f.fs.disk.sectors)
    ensures old(f.fs.Mirrored()) ==> f.fs.Mirrored()
  {
    hide File.Allocated, Overlay, Rechained, FreeClusters, Geometry.End, File.Base, File.Buffered, File.Data,
         File.Eff, Covers, EntryRoom, EntryApart, Geometry.InData, IsChain, Placed, Geometry.Valid, Volume.Valid, Table,
         Volume.Mirrored, Fits, InChain, PowerOfTwo, CutAt, Content, SectorAt, ClusterIndex, Accurate, SameOutsideFat,
         OutsideFile, Clusters;
    BaseFacts(f);
    ghost var img1, dirty := f.fs.img, f.dirty;
    SectorKept(f.fs.geo, img, img1, f.sect);
    res := FlushKept(f);
    BaseFacts(f);
    OutsideAfter(f.fs.geo, p, img, img1, f.fs.img, dirty, f.sect);
    if res == FrOk {
      DirectParts(f);
      FlushedContent(f.fs.geo, img, img1, f.fs.img, dirty, f.sect, b, p, n, f.fptr);
    }
  }

  /** Frees the clusters behind the file pointer, sets the size, and writes the buffer back. */
  method CutHere(f: File) returns (res: FResult)
    requires f.Base() && f.Buffered() && f.Cursor() && f.fptr < f.objsize
    modifies f`sclust, f`chain, f`objsize, f`dirty, f`modified
    modifies f.fs`wflag, f.fs`winSect, f.fs`img, f.fs`freeClst, f.fs`fsiDirty, f.fs.win, f.fs.disk
    ensures f.Allocated() && f.fs.Valid()
    ensures f.fs.winSect == old(f.fs.winSect) || !f.fs.geo.InData(f.fs.winSect)
    ensures res == FrOk || res == FrDiskErr
    ensures res == FrOk ==> f.Base() && f.Buffered() && f.Cursor() && !f.dirty
    ensures f.objsize == f.fptr && f.modified && f.chain <= old(f.chain) && |f.chain| == Clusters(f.fs.geo, f.fptr)
    ensures res == FrOk ==> f.Data() == old(f.Data())[..f.fptr]
    ensures res == FrOk ==> CutAt(f.fs.geo, old(Fat(f.fs)), Fat(f.fs), old(f.chain), |f.chain|)
    ensures res == FrOk ==> KeepsCount(old(AllocOf(f.fs)), AllocOf(f.fs))
    ensures forall c :: 0 <= c < f.fs.geo.nFatEnt && c !in old(f.chain) ==> Fat(f.fs)[c] == old(Fat(f.fs))[c]
    ensures OutsideFile(f.fs.geo, old(f.chain), old(f.fs.img), f.fs.img)
    ensures f.fs.disk.reliable ==> res == FrOk
    ensures f.fs.disk.locked && !old(f.fs.wflag) && !old(f.dirty) && f.fptr > 0 && |f.chain| == |old(f.chain)| ==>
      res == FrOk && !f.fs.wflag && f.fs.disk.sectors == old(f.fs.disk.sectors)
    ensures f.fs.disk.reliable && old(f.fs.Mirrored()) ==> f.fs.Mirrored()
  {
    hide File.Allocated, Overlay, Rechained, FreeClusters, Geometry.End, File.Base, File.Buffered, File.Data,
         File.Eff, Covers, EntryRoom, EntryApart, Geometry.InData, IsChain, Placed, Geometry.Valid, Volume.Valid, Table,
         Volume.Mirrored, Fits, InChain, PowerOfTwo, CutAt, Content, SectorAt, ClusterIndex, Accurate, SameOutsideFat,
         OutsideFile, Clusters;
    BaseFacts(f);
    HoldsImage(f.fs);
    CutPosition(f);
    ghost var p, img, b, n, dirty := f.chain, f.fs.img, f.buf[..], f.objsize, f.dirty;
    res := SetEnd(f);
    ghost var img1 := f.fs.img;
    if res != FrOk {
      OutsideAfter(f.fs.geo, p, img, img1, img1, dirty, f.sect);
      return;
    }
    assert f.chain == p[..Clusters(f.fs.geo, f.fptr)];
    res := FlushCut(f, p, img, b, n);
  }

  /** Changes to the first FAT and to a sector of the chain stay inside the file. */
  lemma OutsideAfter(g: Geometry, p: seq<nat>, img: seq<Sector>, img1: seq<Sector>, img2: seq<Sector>, dirty: bool,
                     s: int)
    requires SameOutsideFat(g, img, img1) && |img2| == |img1| && (!dirty ==> img2 == img1) && (dirty ==>
      InChain(g, p, s))
    requires forall i :: 0 <= i < |img2| && i != s ==> img2[i] == img1[i]
    ensures OutsideFile(g, p, img, img2)
  {
  }

  /** The kept bytes after the FAT changed and the buffer was written back. */
  lemma FlushedContent(g: Geometry, img: seq<Sector>, img1: seq<Sector>, img2: seq<Sector>, dirty: bool, sect: int,
                       buf: seq<byte>, p: seq<nat>, n: nat, m: nat)
    requires Holds(g, img) && SameOutsideFat(g, img, img1) && Placed(g, p) && Fits(g, p, n) && m < n
    requires dirty ==> 0 <= sect < |img| && |buf| == SECTOR_SIZE
    requires |img1| == |img| && img2 == Overlay(img1, dirty, sect, buf)
    ensures Clusters(g, m) <= |p| && g.End() <= |img2|
    ensures Placed(g, p[..Clusters(g, m)]) && Fits(g, p[..Clusters(g, m)], m)
    ensures Content(g, img2, p[..Clusters(g, m)], m) == Content(g, Overlay(img, dirty, sect, buf), p, n)[..m]
  {
    DataKept(g, img, img1);
    hide Content, Placed, Fits, Clusters;
    CutContent(g, Overlay(img, dirty, sect, buf), img2, p, n, m);
  }

  lemma SectorKept(g: Geometry, img: seq<Sector>, img': seq<Sector>, s: int)
    requires Holds(g, img) && SameOutsideFat(g, img, img')
    ensures g.dataBase <= s < |img| ==> s < |img'| && img'[s] == img[s]
  {
  }

  lemma DataKept(g: Geometry, img: seq<Sector>, img': seq<Sector>)
    requires Holds(g, img) && g.Valid() && SameOutsideFat(g, img, img')
    ensures |img'| == |img| && forall i :: g.dataBase <= i < |img| ==> img'[i] == img[i]
  {
  }

  lemma NothingOutside(g: Geometry, p: seq<nat>, img: seq<Sector>)
    ensures OutsideFile(g, p, img, img)
  {
  }

  /** Outside the first FAT only sectors of the chain differ. */
  ghost predicate OutsideFile(g: Geometry, p: seq<nat>, img: seq<Sector>, img': seq<Sector>) {
    |img'| == |img| && forall s :: 0 <= s < |img| && !g.InFat1(s) && !InChain(g, p, s) ==> img'[s] == img[s]
  }

  /** A writable file without error, and nothing waits to be written for it. */
  predicate Untouched(f: File)
    reads f`err, f`dirty, f.fs`wflag
  {
    f.err == FrOk && f.writable && !f.dirty && !f.fs.wflag
  }

  /** `f_truncate`: the file keeps the bytes before the file pointer and the clusters they need; the
      other clusters become free and nothing outside the old chain changes. */
  method Truncate(f: File) returns (res: FResult)
    requires f.Valid()
    modifies f`sclust, f`chain, f`objsize, f`dirty, f`modified, f`err
    modifies f.fs`wflag, f.fs`winSect, f.fs`img, f.fs`freeClst, f.fs`fsiDirty, f.fs.win, f.fs.disk
    ensures f.Valid()
    ensures f.fs.winSect == old(f.fs.winSect) || !f.fs.geo.InData(f.fs.winSect)
    ensures f.chain <= old(f.chain)
    ensures f.fptr >= old(f.objsize) || old(f.err) != FrOk || !f.writable ==> f.chain == old(f.chain)
    ensures old(f.err) != FrOk ==> res == f.err == old(f.err)
    ensures old(f.err) == FrOk && !f.writable ==> res == FrDenied && f.err == FrOk && f.Data() == old(f.Data())
    ensures old(f.err) == FrOk && f.writable ==> res == f.err && (res == FrOk || res == FrDiskErr)
    ensures old(f.err) == FrOk && f.writable && res == FrOk ==>
      && f.objsize == f.fptr && f.Data() == old(f.Data())[..f.fptr]
      && CutAt(f.fs.geo, old(Fat(f.fs)), Fat(f.fs), old(f.chain), |f.chain|)
      && KeepsCount(old(AllocOf(f.fs)), AllocOf(f.fs))
    ensures old(f.err) == FrOk && (f.fptr >= old(f.objsize) || !f.writable) ==>
      && f.err == FrOk && f.fs.img == old(f.fs.img) && f.dirty == old(f.dirty) && f.modified == old(f.modified)
      && f.fs.wflag == old(f.fs.wflag) && f.fs.freeClst == old(f.fs.freeClst) && f.fs.fsiDirty == old(f.fs.fsiDirty)
    ensures old(f.err) == FrOk && f.writable && f.fptr < old(f.objsize) ==>
      f.modified && PowerOfTwo(f.fs.geo.csize) && |f.chain| == Clusters(f.fs.geo, f.fptr)
    ensures forall c :: 0 <= c < f.fs.geo.nFatEnt && c !in old(f.chain) ==> Fat(f.fs)[c] == old(Fat(f.fs))[c]
    ensures OutsideFile(f.fs.geo, old(f.chain), old(f.fs.img), f.fs.img)
    ensures f.fs.disk.reliable && old(f.err) == FrOk && f.writable ==> res == FrOk
    ensures f.fs.disk.locked && old(Untouched(f)) && f.fptr > 0 && f.chain == old(f.chain) ==>
      res == FrOk && !f.dirty && !f.fs.wflag && f.fs.disk.sectors == old(f.fs.disk.sectors)
    ensures f.fs.disk.reliable && old(f.fs.Mirrored()) ==> f.fs.Mirrored()
  {
    hide File.Base, File.Buffered, File.Data, File.Cursor, EntryRoom, EntryApart, Geometry.InData, IsChain, Placed,
         Geometry.Valid, Volume.Valid, Table, Volume.Mirrored, Fits, InChain, PowerOfTwo, CutAt, Clusters, Content,
         SectorAt, ClusterIndex, Accurate, Overlay, OutsideFile;
    HoldsImage(f.fs);
    NothingOutside(f.fs.geo, f.chain, f.fs.img);
    NothingCut(f.fs.geo, Fat(f.fs), f.chain);
    if f.err != FrOk { return f.err; }
    if !f.writable { return FrDenied; }
    CursorFacts(f);
    ghost var c := f.Data();
    assert c[..|c|] == c;
    res := FrOk;
    if f.fptr < f.objsize {
      res := CutHere(f);
      if res != FrOk { f.err := res; }
    }
  }
}
