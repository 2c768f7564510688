/** An open file: `f_read`, `f_write`, `f_lseek` over its sector buffer. */
module FileObject {
  import opened Bytes
  import opened Layout
  import opened Window
  import opened FatTable
  import opened FatAccess
  import opened Chains
  import opened AllocSpec
  import opened Allocator
  import opened FileView

  /** Two images that may differ only in sectors of the chain. */
  ghost predicate OnlyChainSectors(g: Geometry, p: seq<nat>, img: seq<Sector>, img': seq<Sector>) {
    |img'| == |img| && forall s :: 0 <= s < |img| && !InChain(g, p, s) ==> img'[s] == img[s]
  }

  /** What an operation on the file with chain `p`, now `p'`, does to the rest of the volume: the
      clusters it took were free, no other entry in use changed (after success no other entry at all),
      and outside the first FAT only sectors of the file changed. */
  ghost predicate Confined(ok: bool, g: Geometry, p: seq<nat>, t: seq<u32>, img: seq<Sector>,
                           p': seq<nat>, t': seq<u32>, img': seq<Sector>) {
    && |t'| == |t| && |img'| == |img|
    && p <= p'
    && (forall c :: c in p' && c !in p ==> c < |t| && t[c] == 0)
    && (forall c :: 0 <= c < |t| && c !in p' && (ok || t[c] != 0) ==> t'[c] == t[c])
    && (forall s :: 0 <= s < |img| && !g.InFat1(s) && !InChain(g, p', s) ==> img'[s] == img[s])
  }

  lemma ConfinedRefl(g: Geometry, p: seq<nat>, t: seq<u32>, img: seq<Sector>)
    ensures Confined(true, g, p, t, img, p, t, img)
  {
  }

  lemma ConfinedWeaken(ok: bool, g: Geometry, p: seq<nat>, t: seq<u32>, img: seq<Sector>, p': seq<nat>, t': seq<u32>,
                       img': seq<Sector>)
    requires Confined(ok, g, p, t, img, p', t', img')
    ensures Confined(false, g, p, t, img, p', t', img')
  {
  }

  lemma ConfinedTrans(ok: bool, g: Geometry, p: seq<nat>, t: seq<u32>, img: seq<Sector>,
                      p1: seq<nat>, t1: seq<u32>, img1: seq<Sector>, p2: seq<nat>, t2: seq<u32>, img2: seq<Sector>)
    requires Confined(true, g, p, t, img, p1, t1, img1) && Confined(ok, g, p1, t1, img1, p2, t2, img2)
    ensures Confined(ok, g, p, t, img, p2, t2, img2)
  {
    forall c | c in p1 ensures c in p2 {
      var k :| 0 <= k < |p1| && p1[k] == c;
      assert p2[k] == c;
    }
  }

  /** Writing sectors of the file is confined to it. */
  lemma OnlyChainConfined(g: Geometry, p: seq<nat>, t: seq<u32>, img: seq<Sector>, img': seq<Sector>)
    requires OnlyChainSectors(g, p, img, img')
    ensures Confined(true, g, p, t, img, p, t, img')
  {
  }

  /** Writing sectors of the file after something that was confined to it. */
  lemma ConfinedThenOwn(ok: bool, g: Geometry, p: seq<nat>, t: seq<u32>, img: seq<Sector>, p': seq<nat>, t': seq<u32>,
                        img1: seq<Sector>, img2: seq<Sector>)
    requires Confined(true, g, p, t, img, p', t', img1) && OnlyChainSectors(g, p', img1, img2)
    ensures Confined(ok, g, p, t, img, p', t', img2)
  {
  }

  /** What was confined to the file brings no reserved value 1 into the FAT. */
  lemma ConfinedNoOnes(g: Geometry, p: seq<nat>, t: seq<u32>, img: seq<Sector>, p': seq<nat>, t': seq<u32>,
                       img': seq<Sector>)
    requires Confined(true, g, p, t, img, p', t', img') && IsChainOrNone(t', p')
    ensures NoOnes(t) ==> NoOnes(t')
  {
    forall c | c in p' ensures 2 <= c < |t'| && t'[c] >= 2 { OnChain(t', p', c); }
  }

  /** Bytes of a directory entry. */
  const ENTRY_SIZE := 32

  /** A directory entry lies behind the FAT copies: in the root directory or in a cluster. */
  predicate EntryRoom(g: Geometry, ds: int, ofs: nat) {
    g.fatBase + g.FatSectors() <= ds < g.End() && ofs + ENTRY_SIZE <= SECTOR_SIZE
  }

  /** The cluster that holds the directory entry, if one does, is in use and not by this file. */
  ghost predicate EntryApart(g: Geometry, t: seq<u32>, p: seq<nat>, ds: int) {
    g.csize > 0 && g.dataBase <= ds ==>
      var c := g.SectorToCluster(ds); 2 <= c < |t| && t[c] != 0 && c !in p
  }

  /** `p` is the chain that starts at `start`, none for 0, and holds `n` bytes. */
  ghost predicate Covers(g: Geometry, t: seq<u32>, p: seq<nat>, start: u32, n: nat) {
    && (start == 0 <==> p == [])
    && (p != [] ==> p[0] == start && IsChain(t, p))
    && Placed(g, p)
    && Fits(g, p, n)
  }

  /** Image and buffer show a file on chain `p` that begins with `c`. */
  ghost predicate Shows(g: Geometry, img: seq<Sector>, p: seq<nat>, dirty: bool, sect: int, buf: seq<byte>,
                        c: seq<byte>) {
    && Placed(g, p) && g.End() <= |img| && (dirty ==> 0 <= sect < |img| && |buf| == SECTOR_SIZE)
    && Fits(g, p, |c|) && Content(g, Overlay(img, dirty, sect, buf), p, |c|) == c
  }

  lemma ShowsOutsideFat(g: Geometry, img: seq<Sector>, img': seq<Sector>, p: seq<nat>, dirty: bool, sect: int,
                        buf: seq<byte>, c: seq<byte>)
    requires Holds(g, img) && SameOutsideFat(g, img, img') && Shows(g, img, p, dirty, sect, buf, c)
    ensures Shows(g, img', p, dirty, sect, buf, c)
  {
    hide Content;
    ContentFrame(g, Overlay(img, dirty, sect, buf), Overlay(img', dirty, sect, buf), p, |c|);
  }

  /** A failed direct write at byte `o` leaves everything in front of it. */
  lemma ShowsBefore(g: Geometry, img: seq<Sector>, img': seq<Sector>, p: seq<nat>, n: nat, o: nat, cc: nat, sect: int,
                    buf: seq<byte>)
    requires Placed(g, p) && g.End() <= |img| == |img'| && Fits(g, p, n) && o <= n && o % SECTOR_SIZE == 0
    requires ClusterIndex(g, o) < |p| && SectorInCluster(g, o) + cc <= g.csize
    requires forall i :: 0 <= i < |img| && !(SectorAt(g, p, o) <= i < SectorAt(g, p, o) + cc) ==> img'[i] == img[i]
    ensures Shows(g, img', p, false, sect, buf, Content(g, img, p, n)[..o])
  {
    ContentPrefix(g, img, p, n, o);
    forall k | 0 <= k < o
      ensures ByteAt(g, img', p, k) == ByteAt(g, img, p, k)
    {
      IndexMonotone(g, k, o);
      SectorAtInChain(g, p, k);
      SectorBefore(g, p, o, cc, k);
    }
  }

  lemma SectorBefore(g: Geometry, p: seq<nat>, o: nat, cc: nat, k: nat)
    requires Placed(g, p) && k < o && o % SECTOR_SIZE == 0
    requires ClusterIndex(g, o) < |p| && ClusterIndex(g, k) < |p| && SectorInCluster(g, o) + cc <= g.csize
    ensures !(SectorAt(g, p, o) <= SectorAt(g, p, k) < SectorAt(g, p, o) + cc)
  {
    var j := SectorAt(g, p, k) - SectorAt(g, p, o);
    if 0 <= j < cc {
      SectorAtSteps(g, p, o, j);
      BlockBehind(k, o, j);
      SectorAtInjective(g, p, k, o + j * SECTOR_SIZE);
    }
  }

  lemma BlockBehind(k: nat, o: nat, j: nat)
    requires k < o && o % SECTOR_SIZE == 0
    ensures k / SECTOR_SIZE < (o + j * SECTOR_SIZE) / SECTOR_SIZE
  {
  }

  /** A clean buffer does not matter. */
  lemma ShowsClean(g: Geometry, img: seq<Sector>, p: seq<nat>, sect: int, buf: seq<byte>, c: seq<byte>, sect': int,
                   buf': seq<byte>)
    requires Shows(g, img, p, false, sect, buf, c)
    ensures Shows(g, img, p, false, sect', buf', c)
  {
  }

  /** An open file object (`FIL`). `chain` is the cluster chain of the file. */
  class File {
    const fs: Volume
    const buf: array<byte>
    const readable: bool
    const writable: bool
    const dirSect: u32
    const dirOfs: nat
    var sclust: u32
    var objsize: u32
    var fptr: u32
    var clust: u32
    var sect: u32
    var dirty: bool
    var modified: bool
    var err: FResult
    ghost var chain: seq<nat>
    ghost var lost: bool   // the last sync rewrote the directory entry but failed to flush it

    /** What holds even after a disk error: the directory entry lies behind the FAT and not in the buffer,
        and a dirty buffer is meant for a data sector that the window does not hold. */
    ghost predicate Allocated()
      reads `dirty, `sect, fs, fs.disk, fs.win
    {
      && fs.Valid() && buf.Length == SECTOR_SIZE && buf != fs.win
      && EntryRoom(fs.geo, dirSect, dirOfs) && sect != dirSect
      && (dirty ==> fs.geo.InData(sect) && sect != fs.winSect)
    }

    /** The chain is the one the FAT shows, it covers the file, and the window is elsewhere. */
    ghost predicate Base()
      reads `sclust, `objsize, `chain, `dirty, `sect, fs, fs.disk, fs.win
    {
      && Allocated()
      && Covers(fs.geo, Fat(fs), chain, sclust, objsize)
      && !InChain(fs.geo, chain, fs.winSect)
      && EntryApart(fs.geo, Fat(fs), chain, dirSect)
    }

    /** The sector buffer: dirty only for a sector of this file, otherwise a copy of its sector. */
    ghost predicate Buffered()
      requires Base()
      reads `sclust, `objsize, `chain, `dirty, `sect, buf, fs, fs.disk, fs.win
    {
      && (dirty ==> InChain(fs.geo, chain, sect))
      && (!dirty && sect != 0 ==> fs.geo.dataBase <= sect < |fs.img| && buf[..] == fs.img[sect])
    }

    /** The sectors of the volume as this file sees them. */
    ghost function Eff(): (r: seq<Sector>)
      requires Base() && Buffered()
      reads `sclust, `objsize, `chain, `dirty, `sect, buf, fs, fs.disk, fs.win
      ensures |r| == |fs.img| >= fs.geo.End()
    {
      Overlay(fs.img, dirty, sect, buf[..])
    }

    /** The content of the file. */
    ghost function Data(): (c: seq<byte>)
      requires Base() && Buffered()
      reads `sclust, `objsize, `chain, `dirty, `sect, buf, fs, fs.disk, fs.win
      ensures |c| == objsize
    {
      Content(fs.geo, Eff(), chain, objsize)
    }

    /** `clust` holds the byte before the file pointer, and inside a sector the buffer shows it. */
    ghost predicate Cursor()
      requires Base()
      reads `sclust, `objsize, `chain, `fptr, `clust, `dirty, `sect, fs, fs.disk, fs.win
    {
      && fptr <= objsize
      && (fptr > 0 ==> ClusterIndex(fs.geo, fptr - 1) < |chain| && clust == chain[ClusterIndex(fs.geo, fptr - 1)])
      && (fptr % SECTOR_SIZE != 0 ==> ClusterIndex(fs.geo, fptr) < |chain| && sect == SectorAt(fs.geo, chain, fptr))
    }

    ghost predicate Valid()
      reads this, buf, fs, fs.disk, fs.win
    {
      Allocated() && (err == FrOk ==> Base() && Buffered() && Cursor() && (dirty ==> modified))
    }

    /** What the sectors of the chain and the buffer still show of the file up to `c`, also after an error. */
    ghost predicate Salvaged(c: seq<byte>)
      reads `chain, `dirty, `sect, buf, fs
    {
      Shows(fs.geo, fs.img, chain, dirty, sect, buf[..], c)
    }

    /** The end of `f_open` for an existing file whose directory entry, at `ofs` in sector `ds`, names
        `start` and `size`. */
    constructor (v: Volume, r: bool, w: bool, ds: u32, ofs: nat, start: u32, size: u32, ghost p: seq<nat>)
      requires v.Valid() && (start == 0 <==> p == [])
      requires p != [] ==> p[0] == start && IsChain(Fat(v), p)
      requires Fits(v.geo, p, size) && !InChain(v.geo, p, v.winSect)
      requires EntryRoom(v.geo, ds, ofs) && EntryApart(v.geo, Fat(v), p, ds)
      ensures Valid() && Base() && Buffered() && err == FrOk && fresh(buf)
      ensures fs == v && readable == r && writable == w && dirSect == ds && dirOfs == ofs && chain == p
      ensures objsize == size && fptr == 0
      ensures !modified && !lost && !dirty && sect == 0
      ensures Data() == Content(v.geo, v.img, p, size)
    {
      if p != [] { ChainIsPlaced(v.geo, Fat(v), p); }
      fs, readable, writable, dirSect, dirOfs := v, r, w, ds, ofs;
      buf := new byte[SECTOR_SIZE](_ => 0);
      sclust, objsize, fptr, clust, sect := start, size, 0, 0, 0;
      dirty, modified, err := false, false, FrOk;
      chain, lost := p, false;
    }

    /** Brings sector `s` of the file into the sector buffer. */
    method LoadBuffer(s: u32) returns (res: FResult)
      requires Base() && Buffered() && InChain(fs.geo, chain, s)
      modifies this`dirty, this`sect, buf, fs`img, fs.disk
      ensures res == FrOk || res == FrDiskErr
      ensures Base()
      ensures res == FrOk ==>
        Buffered() && sect == s && Eff() == old(Eff()) && Data() == old(Data()) && buf[..] == Eff()[s]
      ensures Fat(fs) == old(Fat(fs))
      ensures OnlyChainSectors(fs.geo, chain, old(fs.img), fs.img)
      ensures dirty ==> old(dirty)
      ensures !old(dirty) ==> fs.img == old(fs.img)
      ensures fs.disk.reliable ==> res == FrOk
      ensures old(fs.Mirrored()) ==> fs.Mirrored()
    {
      hide IsChain, Placed, Geometry.Valid, Volume.Valid, Table, Volume.Mirrored, Fits, EntryRoom, EntryApart,
           Geometry.InData;
      res := FrOk;
      InChainRange(fs, chain, s);
      ChainSector(this, s);
      if sect != s {
        res := FlushBuffer();
        if res != FrOk { return; }
        SectorOnDisk(fs, s);
        var ok := fs.disk.Read(s, buf);
        if !ok { return FrDiskErr; }
      }
      sect := s;
    }

    /** On a cluster boundary of `f_read`: steps to the cluster of the file pointer. */
    method FollowForRead() returns (res: FResult)
      requires Base() && Buffered() && Cursor()
      requires fptr < objsize && fptr % SECTOR_SIZE == 0 && SectorInCluster(fs.geo, fptr) == 0
      modifies this`clust, fs`wflag, fs`winSect, fs.win, fs.disk
      ensures Allocated() && fs.Valid()
      ensures fs.winSect == old(fs.winSect) || !fs.geo.InData(fs.winSect)
      ensures res == FrOk || res == FrDiskErr
      ensures fs.wflag ==> old(fs.wflag)
      ensures res == FrOk ==> Base() && Buffered()
      ensures res == FrOk ==> At() && Data() == old(Data())
      ensures fs.disk.reliable ==> res == FrOk
      ensures fs.disk.reliable && old(fs.Mirrored()) ==> fs.Mirrored()
    {
      hide IsChain, Placed, Geometry.Valid, Volume.Valid, Table, Volume.Mirrored, Fits, InChain, PowerOfTwo,
           EntryRoom, EntryApart, Geometry.InData;
      PositionInChain(this, fptr);
      ghost var was := fs.winSect;
      var clst := sclust;
      if fptr != 0 {
        NextCluster(fs.geo, fptr);
        ChainLink(this, ClusterIndex(fs.geo, fptr - 1));
        clst := GetFat(fs, clust);
      }
      Elsewhere(fs.geo, chain, was, fs.winSect, sect);
      if clst < 2 { return FrIntErr; }
      if clst == DISK_ERROR { return FrDiskErr; }
      clust := clst;
      return FrOk;
    }

    /** Reads `cc` whole sectors past the buffer, replacing the one the dirty buffer holds. */
    method ReadDirect(s: u32, cc: nat) returns (res: FResult, data: seq<byte>)
      requires Base() && Buffered() && fptr % SECTOR_SIZE == 0 && fptr + cc * SECTOR_SIZE <= objsize
      requires ClusterIndex(fs.geo, fptr) < |chain| && SectorInCluster(fs.geo, fptr) + cc <= fs.geo.csize
      requires s == SectorAt(fs.geo, chain, fptr)
      ensures res == FrOk || res == FrDiskErr
      ensures res == FrOk ==> data == Data()[fptr..fptr + cc * SECTOR_SIZE]
      ensures fs.disk.reliable ==> res == FrOk
    {
      hide IsChain, Placed, Geometry.Valid, Volume.Valid, Table, Fits, PowerOfTwo, ClusterIndex, SectorInCluster,
           SectorAt, ByteAt, Patched, Overlay, EntryRoom, EntryApart, Geometry.InData;
      RangeOnVolume(this, fptr, cc);
      var ok;
      ok, data := fs.disk.ReadMany(s, cc);
      if !ok { return FrDiskErr, []; }
      data := Patched(data, buf[..], dirty, sect, s, cc);
      PatchedIsEff(this, s, cc);
      DirectBytes(fs.geo, Eff(), chain, objsize, fptr, cc, data);
      return FrOk, data;
    }

    /** The sector of the file pointer, on a sector boundary; 0 when `clst2sect` refuses the cluster. */
    method CurrentSector() returns (s: u32)
      requires Base() && At() && fptr % SECTOR_SIZE == 0
      ensures s == SectorAt(fs.geo, chain, fptr) > 0 && InChain(fs.geo, chain, s)
    {
      SectorAtInChain(fs.geo, chain, fptr);
      s := fs.geo.ClusterToSector(clust) + SectorInCluster(fs.geo, fptr);
    }

    /** `clust` is the cluster of the file pointer itself. */
    ghost predicate At()
      requires Base()
      reads `sclust, `objsize, `chain, `fptr, `clust, `dirty, `sect, fs, fs.disk, fs.win
    {
      ClusterIndex(fs.geo, fptr) < |chain| && clust == chain[ClusterIndex(fs.geo, fptr)]
    }

    /** Reads as many whole sectors as fit the cluster. */
    method ReadWhole(s: u32, csect: nat, btr: u32) returns (res: FResult, data: seq<byte>)
      requires Base() && Buffered() && At() && fptr % SECTOR_SIZE == 0 && SECTOR_SIZE <= btr && fptr + btr <= objsize
      requires s == SectorAt(fs.geo, chain, fptr) && csect == SectorInCluster(fs.geo, fptr)
      modifies this`fptr
      ensures Allocated() && fs.Valid() && Base() && Buffered()
      ensures res == FrOk || res == FrDiskErr
      ensures res == FrOk ==> Cursor()
      ensures res == FrOk ==> 0 < |data| <= btr && fptr == old(fptr) + |data|
      ensures res == FrOk ==> Data() == old(Data()) && data == Data()[old(fptr)..fptr]
      ensures fs.disk.reliable ==> res == FrOk
    {
      hide IsChain, Placed, Geometry.Valid, Volume.Valid, Table, Volume.Mirrored, Fits, InChain, PowerOfTwo, SectorAt,
           ClusterIndex, SectorInCluster, Content, Overlay, EntryRoom, EntryApart, Geometry.InData;
      var cc := ClipToCluster(csect, btr);
      res, data := ReadDirect(s, cc);
      if res == FrOk {
        fptr := fptr + cc * SECTOR_SIZE;
      }
    }

    /** How many whole sectors a direct transfer moves: clipped at the cluster boundary. */
    method ClipToCluster(csect: nat, len: u32) returns (cc: nat)
      requires Base() && At() && fptr % SECTOR_SIZE == 0 && SECTOR_SIZE <= len && csect == SectorInCluster(fs.geo, fptr)
      ensures 0 < cc && csect + cc <= fs.geo.csize && cc * SECTOR_SIZE <= len
      ensures cc == len / SECTOR_SIZE || csect + cc == fs.geo.csize
      ensures ClusterIndex(fs.geo, fptr + cc * SECTOR_SIZE - 1) == ClusterIndex(fs.geo, fptr)
      ensures (fptr + cc * SECTOR_SIZE) % SECTOR_SIZE == 0
    {
      WholeSectorsSpan(fs.geo, fptr, len);
      cc := len / SECTOR_SIZE;
      if csect + cc > fs.geo.csize { cc := fs.geo.csize - csect; }
    }

    /** Takes bytes out of the sector buffer. */
    method ReadPart(btr: u32) returns (data: seq<byte>)
      requires Base() && Buffered() && At() && btr > 0 && fptr + btr <= objsize
      requires sect == SectorAt(fs.geo, chain, fptr)
      modifies this`fptr
      ensures Allocated() && fs.Valid() && Base() && Buffered() && Cursor()
      ensures 0 < |data| <= btr && fptr == old(fptr) + |data|
      ensures Data() == old(Data()) && data == Data()[old(fptr)..fptr]
    {
      hide IsChain, Placed, Geometry.Valid, Volume.Valid, Table, Volume.Mirrored, Fits, InChain, PowerOfTwo, SectorAt,
           ClusterIndex, SectorInCluster, Content, Overlay, EntryRoom, EntryApart, Geometry.InData;
      var o := fptr % SECTOR_SIZE;
      var rcnt := SECTOR_SIZE - o;
      if rcnt > btr { rcnt := btr; }
      BufferIsData(this, fptr, rcnt);
      data := buf[..][o..o + rcnt];
      fptr := fptr + rcnt;
    }

    /** Reads whole sectors directly, or part of one through the buffer; on a sector boundary. */
    method ReadAtBoundary(btr: u32) returns (res: FResult, data: seq<byte>)
      requires Base() && Buffered() && At() && fptr % SECTOR_SIZE == 0 && btr > 0 && fptr + btr <= objsize
      modifies this`dirty, this`sect, this`fptr, buf, fs`img, fs.disk
      ensures Allocated() && fs.Valid()
      ensures res == FrOk || res == FrDiskErr
      ensures res == FrOk ==> Base() && Buffered() && Cursor()
      ensures res == FrOk ==> 0 < |data| <= btr && fptr == old(fptr) + |data|
      ensures res == FrOk ==> Data() == old(Data()) && data == Data()[old(fptr)..fptr]
      ensures Fat(fs) == old(Fat(fs))
      ensures OnlyChainSectors(fs.geo, chain, old(fs.img), fs.img)
      ensures dirty ==> old(dirty)
      ensures !old(dirty) ==> fs.img == old(fs.img)
      ensures fs.disk.reliable ==> res == FrOk
      ensures old(fs.Mirrored()) ==> fs.Mirrored()
    {
      hide File.Base, File.Buffered, File.Cursor, File.Data, File.Eff, File.Allocated, IsChain, Placed,
           Geometry.Valid, Volume.Valid, Table, Volume.Mirrored, Fits, InChain, PowerOfTwo, SectorAt, ClusterIndex,
           SectorInCluster, Content, Overlay, OnlyChainSectors, EntryRoom, EntryApart, Geometry.InData;
      BaseFacts(this);
      OnlyChainRefl(fs.geo, chain, fs.img);
      var s := CurrentSector();
      if s == 0 { return FrIntErr, []; }
      if btr / SECTOR_SIZE > 0 {
        res, data := ReadWhole(s, SectorInCluster(fs.geo, fptr), btr);
      } else {
        data := [];
        res := LoadBuffer(s);
        BaseFacts(this);
        if res == FrOk { data := ReadPart(btr); }
      }
    }

    /** One round of the loop of `f_read`: whole sectors directly, or part of one through the buffer. */
    method ReadChunk(btr: u32) returns (res: FResult, data: seq<byte>)
      requires Base() && Buffered() && Cursor() && btr > 0 && fptr + btr <= objsize
      modifies this`clust, this`dirty, this`sect, this`fptr, buf, fs`wflag, fs`winSect, fs`img, fs.win, fs.disk
      ensures Allocated() && fs.Valid()
      ensures fs.winSect == old(fs.winSect) || !fs.geo.InData(fs.winSect)
      ensures res == FrOk || res == FrDiskErr
      ensures res == FrOk ==> Base() && Buffered() && Cursor()
      ensures res == FrOk ==> 0 < |data| <= btr && fptr == old(fptr) + |data|
      ensures res == FrOk ==> Data() == old(Data()) && data == Data()[old(fptr)..fptr]
      ensures Fat(fs) == old(Fat(fs))
      ensures OnlyChainSectors(fs.geo, chain, old(fs.img), fs.img)
      ensures dirty ==> old(dirty)
      ensures !old(dirty) ==> fs.img == old(fs.img)
      ensures fs.wflag ==> old(fs.wflag)
      ensures fs.disk.reliable ==> res == FrOk
      ensures fs.disk.reliable && old(fs.Mirrored()) ==> fs.Mirrored()
    {
      hide File.Base, File.Buffered, File.Cursor, File.Data, File.Eff, File.Allocated, IsChain, Placed,
           Geometry.Valid, Volume.Valid, Table, Volume.Mirrored, Fits, InChain, PowerOfTwo, SectorAt, ClusterIndex,
           SectorInCluster, Content, Overlay, OnlyChainSectors, EntryRoom, EntryApart, Geometry.InData;
      res, data := FrOk, [];
      CursorFacts(this);
      PositionInChain(this, fptr);
      OnlyChainRefl(fs.geo, chain, fs.img);
      if fptr % SECTOR_SIZE == 0 {
        AtBoundary(this);
        if SectorInCluster(fs.geo, fptr) == 0 {
          res := FollowForRead();
          if res != FrOk { return; }
        }
        res, data := ReadAtBoundary(btr);
      } else {
        MidSector(this);
        data := ReadPart(btr);
      }
    }

    /** The loop of `f_read`. */
    method ReadLoop(count: u32) returns (res: FResult, data: seq<byte>)
      requires err == FrOk && Base() && Buffered() && Cursor() && fptr + count <= objsize
      modifies this`clust, this`dirty, this`sect, this`fptr, buf, fs`wflag, fs`winSect, fs`img, fs.win, fs.disk
      ensures Allocated() && fs.Valid()
      ensures fs.winSect == old(fs.winSect) || !fs.geo.InData(fs.winSect)
      ensures res == FrOk || res == FrDiskErr
      ensures res == FrOk ==> Base() && Buffered() && Cursor()
      ensures res == FrOk ==> fptr == old(fptr) + count && Data() == old(Data()) && data == Data()[old(fptr)..fptr]
      ensures Fat(fs) == old(Fat(fs))
      ensures OnlyChainSectors(fs.geo, chain, old(fs.img), fs.img)
      ensures dirty ==> old(dirty)
      ensures !old(dirty) ==> fs.img == old(fs.img)
      ensures fs.wflag ==> old(fs.wflag)
      ensures fs.disk.reliable ==> res == FrOk
      ensures fs.disk.reliable && old(fs.Mirrored()) ==> fs.Mirrored()
    {
      hide File.Base, File.Buffered, File.Cursor, File.Data, File.Eff, IsChain, Placed, Geometry.Valid, Volume.Valid,
           Table, Volume.Mirrored, Fits, InChain, PowerOfTwo, SectorAt, ClusterIndex, SectorInCluster, Content,
           Overlay, OnlyChainSectors, EntryRoom, EntryApart, Geometry.InData;
      res, data := FrOk, [];
      CursorFacts(this);
      var btr := count;
      ghost var c := Data();
      OnlyChainRefl(fs.geo, chain, fs.img);
      while btr > 0
        invariant res == FrOk && Allocated() && fs.Valid() && Base() && Buffered() && Cursor()
        invariant 0 <= btr && btr + |data| == count && fptr == old(fptr) + |data|
        invariant Data() == c && data == c[old(fptr)..fptr]
        invariant Fat(fs) == old(Fat(fs))
        invariant OnlyChainSectors(fs.geo, chain, old(fs.img), fs.img)
        invariant dirty ==> old(dirty)
        invariant !old(dirty) ==> fs.img == old(fs.img)
        invariant fs.wflag ==> old(fs.wflag)
        invariant fs.winSect == old(fs.winSect) || !fs.geo.InData(fs.winSect)
        invariant fs.disk.reliable && old(fs.Mirrored()) ==> fs.Mirrored()
      {
        ghost var img, was := fs.img, fptr;
        var part;
        res, part := ReadChunk(btr);
        OnlyChainTrans(fs.geo, chain, old(fs.img), img, fs.img);
        if res != FrOk { return; }
        assert c[old(fptr)..was] + c[was..fptr] == c[old(fptr)..fptr];
        data := data + part;
        btr := btr - |part|;
      }
    }

    /** `f_read`: the bytes at the file pointer, as many as asked for and left in the file. */
    method Read(count: u32) returns (res: FResult, data: seq<byte>)
      requires Valid()
      modifies this`clust, this`dirty, this`sect, this`fptr, this`err, buf
      modifies fs`wflag, fs`winSect, fs`img, fs.win, fs.disk
      ensures Valid()
      ensures fs.winSect == old(fs.winSect) || !fs.geo.InData(fs.winSect)
      ensures old(err) != FrOk ==> res == err == old(err) && data == []
      ensures old(err) == FrOk && !readable ==>
        res == FrDenied && data == [] && err == FrOk && Data() == old(Data()) && fptr == old(fptr)
      ensures old(err) == FrOk && readable ==> res == err && (res == FrOk || res == FrDiskErr)
      ensures old(err) == FrOk && readable && res == FrOk ==>
        var n := if count > objsize - old(fptr) then objsize - old(fptr) else count;
        && fptr == old(fptr) + n
        && Data() == old(Data())
        && data == Data()[old(fptr)..fptr]
      ensures Fat(fs) == old(Fat(fs))
      ensures OnlyChainSectors(fs.geo, chain, old(fs.img), fs.img)
      ensures dirty ==> old(dirty)
      ensures !old(dirty) ==> fs.img == old(fs.img)
      ensures fs.wflag ==> old(fs.wflag)
      ensures fs.disk.reliable && old(err) == FrOk && readable ==> res == FrOk
      ensures fs.disk.reliable && old(fs.Mirrored()) ==> fs.Mirrored()
    {
      hide IsChain, Placed, Geometry.Valid, Volume.Valid, Table, Volume.Mirrored, Fits, InChain, PowerOfTwo, SectorAt,
           ClusterIndex, SectorInCluster, Content, Overlay, OnlyChainSectors, EntryRoom, EntryApart, Geometry.InData;
      OnlyChainRefl(fs.geo, chain, fs.img);
      if err != FrOk { return err, []; }
      if !readable { return FrDenied, []; }
      var btr := count;
      if btr > objsize - fptr { btr := objsize - fptr; }
      res, data := ReadLoop(btr);
      if res != FrOk { err := res; }
    }

    /** Calls `create_chain` behind cluster `at` (0 for a file without clusters) and records the outcome. */
    method ExtendChain(at: u32, ghost i: nat) returns (clst: u32)
      requires Base() && Buffered()
      requires if chain == [] then at == 0 else i < |chain| && at == chain[i]
      modifies this`sclust, this`chain
      modifies fs`wflag, fs`winSect, fs`img, fs`freeClst, fs`lastClst, fs`fsiDirty, fs.win, fs.disk
      ensures Allocated() && fs.Valid()
      ensures fs.winSect == old(fs.winSect) || !fs.geo.InData(fs.winSect)
      ensures clst != DISK_ERROR ==> Base() && Buffered() && Data() == old(Data())
      ensures clst < 2 ==> chain == old(chain) && fs.img == old(fs.img) && i + 1 >= |chain|
      ensures chain == old(chain) && clst != DISK_ERROR ==>
        fs.img == old(fs.img) && (fs.wflag ==> old(fs.wflag)) && fs.fsiDirty == old(fs.fsiDirty)
      ensures clst == 0 ==> fs.freeClst == 0 || FreeClusters(Fat(fs)) == 0
      ensures clst == 1 ==> !NoOnes(old(Fat(fs)))
      ensures 2 <= clst < DISK_ERROR ==> clst < fs.geo.nFatEnt
      ensures 2 <= clst < DISK_ERROR ==>
        if i + 1 < |old(chain)| then chain == old(chain) && clst == chain[i + 1]
        else chain == old(chain) + [clst as nat]
      ensures clst == DISK_ERROR ==> chain == old(chain)
      ensures SameOutsideFat(fs.geo, old(fs.img), fs.img)
      ensures Confined(clst != DISK_ERROR, fs.geo, old(chain), old(Fat(fs)), old(fs.img), chain, Fat(fs), fs.img)
      ensures clst != DISK_ERROR ==> KeepsCount(old(AllocOf(fs)), AllocOf(fs))
      ensures fs.disk.reliable ==> clst != DISK_ERROR
      ensures fs.disk.reliable && old(fs.Mirrored()) ==> fs.Mirrored()
    {
      hide File.Base, File.Buffered, File.Data, EntryRoom, Consistent, Content, Overlay, Table, Volume.Mirrored,
           InChain, IsChain, Volume.Valid, Confined, SameOutsideFat, KeepsCount, FreeClusters, NoOnes,
           Geometry.InData;
      Parts(this);
      ghost var p, t, img, b, was, start := chain, Fat(fs), fs.img, buf[..], fs.winSect, sclust;
      clst := CallCreateChain(fs, at, p, i);
      KeptConfined(clst != DISK_ERROR, fs.geo, p, t, img, Fat(fs), fs.img, i, clst);
      if clst >= 2 && clst != DISK_ERROR {
        if i + 1 >= |p| {
          chain := p + [clst as nat];
          FatIsNoData(fs, chain);
          ConsistentGrown(fs.geo, t, img, p, start, objsize, was, dirSect, dirOfs, dirty, sect, b, Fat(fs), fs.img,
                          clst, fs.winSect);
        }
        if sclust == 0 { sclust := clst; }
      }
      if clst < 2 || (clst < DISK_ERROR && i + 1 < |p|) {
        ConsistentMoved(fs.geo, t, img, p, start, objsize, was, dirSect, dirOfs, dirty, sect, b, fs.winSect);
      }
      if clst == DISK_ERROR { Elsewhere(fs.geo, p, was, fs.winSect, sect); } else { Whole(this); }
    }

    /** On a cluster boundary of `f_write`: steps to the cluster of the file pointer, allocating it if
        the chain ends here. `full` reports that no cluster could be allocated. */
    method FollowForWrite() returns (res: FResult, full: bool)
      requires Base() && Buffered() && Cursor()
      requires fptr % SECTOR_SIZE == 0 && SectorInCluster(fs.geo, fptr) == 0
      modifies this`clust, this`sclust, this`chain
      modifies fs`wflag, fs`winSect, fs`img, fs`freeClst, fs`lastClst, fs`fsiDirty, fs.win, fs.disk
      ensures Allocated() && fs.Valid()
      ensures fs.winSect == old(fs.winSect) || !fs.geo.InData(fs.winSect)
      ensures res == FrOk || res == FrDiskErr || res == FrIntErr
      ensures res == FrOk ==> Base() && Buffered() && Data() == old(Data())
      ensures res == FrOk && !full ==> At() && |chain| == Max(|old(chain)|, ClusterIndex(fs.geo, fptr) + 1)
      ensures res == FrOk && full ==> chain == old(chain) && ClusterIndex(fs.geo, fptr) >= |chain|
      ensures res == FrOk && full ==> Cursor() && (fs.freeClst == 0 || FreeClusters(Fat(fs)) == 0)
      ensures res != FrOk ==> Salvaged(old(Data())[..fptr])
      ensures res == FrIntErr ==> !NoOnes(old(Fat(fs)))
      ensures Confined(res != FrDiskErr, fs.geo, old(chain), old(Fat(fs)), old(fs.img), chain, Fat(fs), fs.img)
      ensures res != FrDiskErr ==> KeepsCount(old(AllocOf(fs)), AllocOf(fs))
      ensures fs.disk.reliable ==> res != FrDiskErr
      ensures fs.disk.reliable && old(fs.Mirrored()) ==> fs.Mirrored()
    {
      hide Shows, SameOutsideFat, File.Base, File.Buffered, File.Data, Clusters, IsChain, Geometry.Valid,
           Volume.Valid, Table, Volume.Mirrored, InChain, PowerOfTwo, Content, Overlay, Confined, Placed, Fits,
           FreeClusters, NoOnes, ClusterIndex, SectorInCluster, SectorAt, EntryRoom, EntryApart, Geometry.InData;
      res, full := FrOk, false;
      CursorFacts(this);
      WritePosition(this);
      ConfinedRefl(fs.geo, chain, Fat(fs), fs.img);
      SalvagedNow(this, fptr);
      HoldsImage(fs);
      ghost var img, c := fs.img, Data()[..fptr];
      var clst := sclust;
      if fptr == 0 {
        if clst == 0 {
          clst := ExtendChain(0, 0);
        }
      } else {
        clst := ExtendChain(clust, ClusterIndex(fs.geo, fptr - 1));
      }
      if clst == 0 { full := true; return; }
      if clst == 1 { SalvagedNow(this, fptr); return FrIntErr, false; }
      if clst == DISK_ERROR {
        ShowsOutsideFat(fs.geo, img, fs.img, chain, dirty, sect, buf[..], c);
        return FrDiskErr, false;
      }
      clust := clst;
    }

    /** Loads the sector of the file pointer for a partial write, unless it is past the end of file. */
    method LoadForWrite(s: u32) returns (res: FResult)
      requires Base() && Buffered() && !dirty && InChain(fs.geo, chain, s)
      modifies this`sect, buf
      ensures res == FrOk || res == FrDiskErr
      ensures Base()
      ensures res == FrOk ==> sect == s && (fptr < objsize ==> buf[..] == fs.img[s])
      ensures fs.disk.reliable ==> res == FrOk
    {
      hide IsChain, Placed, Geometry.Valid, Volume.Valid, Table, Volume.Mirrored, Fits, EntryRoom, EntryApart,
           Geometry.InData;
      InChainRange(fs, chain, s);
      ChainSector(this, s);
      SectorOnDisk(fs, s);
      if sect != s && fptr < objsize {
        var ok := fs.disk.Read(s, buf);
        if !ok { return FrDiskErr; }
      }
      sect := s;
      return FrOk;
    }

    /** Puts bytes into the sector buffer. `eff` is what the file saw before; behind the old end of
        file the buffer may hold anything. */
    method PutBytes(w: seq<byte>, ghost eff: seq<Sector>)
      requires Base() && At() && |w| > 0 && fptr % SECTOR_SIZE + |w| <= SECTOR_SIZE && fptr + |w| <= 0xFFFF_FFFF
      requires fptr <= objsize && sect == SectorAt(fs.geo, chain, fptr)
      requires InChain(fs.geo, chain, sect) && sect < |fs.img|
      requires eff == Overlay(fs.img, dirty, sect, buf[..])
      requires fptr - fptr % SECTOR_SIZE < objsize ==> buf[..] == eff[sect]
      modifies this`fptr, this`objsize, this`dirty, buf
      ensures Allocated() && fs.Valid() && Base() && Buffered() && Cursor()
      ensures fptr == old(fptr) + |w| && objsize == Max(old(objsize), fptr)
      ensures Data() == Splice(Content(fs.geo, eff, chain, old(objsize)), old(fptr), w)
    {
      hide IsChain, Placed, Geometry.Valid, Volume.Valid, Table, Volume.Mirrored, InChain, PowerOfTwo, Content,
           SectorAt, ClusterIndex, SectorInCluster, EntryRoom, EntryApart, Geometry.InData;
      HoldsImage(fs);
      ChainSector(this, sect);
      var o := fptr % SECTOR_SIZE;
      ghost var was := buf[..];
      CopyBytes(buf, o, w);
      ghost var d: Sector := buf[..];
      PutInSector(fs.geo, eff, chain, objsize, fptr, w, was, d);
      AdvanceInSector(fs.geo, chain, fptr, |w|);
      OverlayAgain(fs.img, dirty, sect, was, d);
      dirty := true;
      fptr := fptr + |w|;
      if fptr > objsize { objsize := fptr; }
    }

    /** The buffer follows a direct write of `w` to the sectors from `s` on. */
    method RefreshBuffer(s: u32, cc: nat, w: seq<byte>)
      requires buf.Length == SECTOR_SIZE && !dirty && |w| == cc * SECTOR_SIZE && s + cc <= 0xFFFF_FFFF
      modifies this`dirty, buf
      ensures !dirty
      ensures buf[..] ==
        if s <= sect < s + cc then w[(sect - s) * SECTOR_SIZE..(sect - s + 1) * SECTOR_SIZE] else old(buf[..])
    {
      hide Wrap32;
      WrapRange(sect, s, cc);
      var d := Wrap32(sect - s);
      if d < cc {
        CopyInto(buf, w[d * SECTOR_SIZE..(d + 1) * SECTOR_SIZE]);
        dirty := false;
      }
    }

    /** The sectors of a direct write, and the buffer if its sector was among them. The file pointer stays. */
    method WriteThrough(s: u32, cc: nat, w: seq<byte>) returns (res: FResult)
      requires Base() && Buffered() && !dirty && At() && fptr <= objsize && fptr % SECTOR_SIZE == 0
      requires SectorInCluster(fs.geo, fptr) + cc <= fs.geo.csize && s == SectorAt(fs.geo, chain, fptr)
      requires |w| == cc * SECTOR_SIZE && fptr + |w| <= 0xFFFF_FFFF
      modifies this`dirty, buf, fs`img, fs.disk
      ensures Allocated() && fs.Valid() && buf != fs.win && PowerOfTwo(fs.geo.csize)
      ensures res == FrOk || res == FrDiskErr
      ensures res != FrOk ==> Salvaged(old(Data())[..fptr])
      ensures Fat(fs) == old(Fat(fs)) && !dirty
      ensures res == FrOk ==>
        var n := Max(objsize, fptr + |w|);
        && Consistent(fs.geo, Fat(fs), fs.img, chain, sclust, n, fs.winSect, dirSect, dirOfs, false, sect, buf[..])
        && Shown(fs.geo, Fat(fs), fs.img, chain, sclust, n, fs.winSect, dirSect, dirOfs, false, sect, buf[..]) ==
             Splice(old(Data()), fptr, w)
      ensures OnlyChainSectors(fs.geo, chain, old(fs.img), fs.img)
      ensures fs.disk.reliable ==> res == FrOk
      ensures old(fs.Mirrored()) ==> fs.Mirrored()
    {
      hide Shows, File.Cursor, File.Base, File.Buffered, File.Data, File.Allocated, Consistent, Placed,
           Geometry.Valid, Volume.Valid, Table, Volume.Mirrored, InChain, PowerOfTwo, Content, SectorAt, ClusterIndex,
           SectorInCluster, Splice, Wrap32, OnlyChainSectors, Fits;
      Parts(this);
      DirectParts(this);
      RangeBound(this, fptr, cc);
      ghost var img, b, n := fs.img, buf[..], Max(objsize, fptr + |w|);
      res := WriteSectors(fs, chain, fptr, objsize, s, cc, w);
      ConsistentFacts(fs.geo, Fat(fs), img, chain, sclust, objsize, fs.winSect, dirSect, dirOfs, dirty, sect, b);
      if res != FrOk { ShowsBefore(fs.geo, img, fs.img, chain, objsize, fptr, cc, sect, buf[..]); }
      if res == FrOk {
        RefreshBuffer(s, cc, w);
        RefreshedBuffer(img, fs.img, s, cc, w, sect, b, buf[..]);
        ConsistentWritten(fs.geo, Fat(fs), img, chain, sclust, objsize, fs.winSect, dirSect, dirOfs, sect, b, fs.img, n,
                          buf[..]);
      }
      AllocatedFrom(this);
    }

    /** Writes `cc` whole sectors of the file past the buffer, then refreshes the buffer if its
        sector was among them. */
    method WriteDirect(s: u32, cc: nat, w: seq<byte>) returns (res: FResult)
      requires Base() && Buffered() && !dirty && At() && fptr <= objsize && fptr % SECTOR_SIZE == 0
      requires 0 < cc && SectorInCluster(fs.geo, fptr) + cc <= fs.geo.csize && s == SectorAt(fs.geo, chain, fptr)
      requires |w| == cc * SECTOR_SIZE && fptr + |w| <= 0xFFFF_FFFF
      requires ClusterIndex(fs.geo, fptr + |w| - 1) == ClusterIndex(fs.geo, fptr) && (fptr + |w|) % SECTOR_SIZE == 0
      modifies this`fptr, this`objsize, this`dirty, buf, fs`img, fs.disk
      ensures Allocated() && fs.Valid()
      ensures res == FrOk || res == FrDiskErr
      ensures res != FrOk ==> fptr == old(fptr) && Salvaged(old(Data())[..fptr])
      ensures res == FrOk ==> Base() && Buffered() && Cursor()
      ensures res == FrOk ==> fptr == old(fptr) + |w| && objsize == Max(old(objsize), fptr)
      ensures res == FrOk ==> Data() == Splice(old(Data()), old(fptr), w)
      ensures Fat(fs) == old(Fat(fs))
      ensures OnlyChainSectors(fs.geo, chain, old(fs.img), fs.img)
      ensures fs.disk.reliable ==> res == FrOk
      ensures old(fs.Mirrored()) ==> fs.Mirrored()
    {
      hide File.Cursor, File.Base, File.Buffered, File.Data, File.Allocated, Consistent, Placed, Geometry.Valid,
           Volume.Valid, Table, Volume.Mirrored, InChain, PowerOfTwo, Content, SectorAt, ClusterIndex,
           SectorInCluster, Splice, Wrap32, OnlyChainSectors, Fits;
      ghost var o := fptr;
      res := WriteThrough(s, cc, w);
      if res != FrOk { return; }
      fptr := fptr + |w|;
      if fptr > objsize { objsize := fptr; }
      Whole(this);
      BoundaryCursor(this, o);
    }

    /** Writes whole sectors of `w`, or its part in one sector, at the file pointer; on a sector boundary. */
    method WriteAtBoundary(w: seq<byte>) returns (res: FResult, wcnt: nat)
      requires Base() && Buffered() && At() && fptr <= objsize && fptr % SECTOR_SIZE == 0
      requires |w| > 0 && fptr + |w| <= 0xFFFF_FFFF
      modifies this`fptr, this`objsize, this`dirty, this`sect, buf, fs`img, fs.disk
      ensures Allocated() && fs.Valid()
      ensures res == FrOk || res == FrDiskErr
      ensures res != FrOk ==> fptr == old(fptr) && Salvaged(old(Data())[..fptr])
      ensures res == FrOk ==> Base() && Buffered() && Cursor() && 0 < wcnt <= |w|
      ensures res == FrOk ==> fptr == old(fptr) + wcnt && Data() == Splice(old(Data()), old(fptr), w[..wcnt])
      ensures Fat(fs) == old(Fat(fs))
      ensures OnlyChainSectors(fs.geo, chain, old(fs.img), fs.img)
      ensures fs.disk.reliable ==> res == FrOk
      ensures old(fs.Mirrored()) ==> fs.Mirrored()
    {
      hide Shows, IsChain, Placed, Geometry.Valid, Volume.Valid, Table, Volume.Mirrored, InChain, PowerOfTwo, Content,
           SectorAt, ClusterIndex, SectorInCluster, Splice, OnlyChainSectors, Fits, EntryRoom, EntryApart,
           Geometry.InData;
      wcnt := 0;
      ghost var c := Data()[..fptr];
      HoldsImage(fs);
      ghost var img := fs.img;
      res := FlushBuffer();
      SalvagedNow(this, fptr);
      if res != FrOk { return; }
      var s := CurrentSector();
      if s == 0 { res := FrIntErr; return; }
      if |w| / SECTOR_SIZE > 0 {
        var cc := ClipToCluster(CurrentOffset(), |w|);
        wcnt := cc * SECTOR_SIZE;
        ghost var img1 := fs.img;
        res := WriteDirect(s, cc, w[..wcnt]);
        OnlyChainTrans(fs.geo, chain, img, img1, fs.img);
      } else {
        ghost var sect0, b := sect, buf[..];
        res := LoadForWrite(s);
        if res != FrOk {
          ShowsClean(fs.geo, fs.img, chain, sect0, b, c, sect, buf[..]);
          return;
        }
        wcnt := |w|;
        InChainRange(fs, chain, s);
        assert w[..wcnt] == w;
        PutBytes(w, fs.img);
      }
    }

    /** `csect`. */
    function CurrentOffset(): (i: nat)
      requires PowerOfTwo(fs.geo.csize)
      reads `fptr
      ensures i == SectorInCluster(fs.geo, fptr)
    {
      SectorInCluster(fs.geo, fptr)
    }

    /** The case of a file pointer on a sector boundary: steps to its cluster when it opens one, then writes. */
    method WriteFromBoundary(w: seq<byte>) returns (res: FResult, full: bool, wcnt: nat)
      requires Base() && Buffered() && Cursor() && fptr % SECTOR_SIZE == 0 && |w| > 0 && fptr + |w| <= 0xFFFF_FFFF
      modifies this`clust, this`sclust, this`chain, this`fptr, this`objsize, this`dirty, this`sect, buf
      modifies fs`wflag, fs`winSect, fs`img, fs`freeClst, fs`lastClst, fs`fsiDirty, fs.win, fs.disk
      ensures Allocated() && fs.Valid()
      ensures fs.winSect == old(fs.winSect) || !fs.geo.InData(fs.winSect)
      ensures res == FrOk || res == FrDiskErr || res == FrIntErr
      ensures res != FrOk ==> fptr == old(fptr) && Salvaged(old(Data())[..fptr])
      ensures res == FrOk ==> Base() && Buffered() && Cursor()
      ensures res == FrOk && full ==>
        Data() == old(Data()) && fptr == old(fptr) && (fs.freeClst == 0 || FreeClusters(Fat(fs)) == 0)
      ensures res == FrOk && full ==> chain == old(chain) && !Fits(fs.geo, chain, fptr + 1)
      ensures res == FrOk && !full ==> |chain| == Max(|old(chain)|, Clusters(fs.geo, fptr))
      ensures res == FrOk && !full ==> 0 < wcnt <= |w| && fptr == old(fptr) + wcnt
      ensures res == FrOk && !full ==> Data() == Splice(old(Data()), old(fptr), w[..wcnt])
      ensures res == FrIntErr ==> !NoOnes(old(Fat(fs)))
      ensures Confined(res != FrDiskErr, fs.geo, old(chain), old(Fat(fs)), old(fs.img), chain, Fat(fs), fs.img)
      ensures res != FrDiskErr ==> KeepsCount(old(AllocOf(fs)), AllocOf(fs))
      ensures fs.disk.reliable ==> res != FrDiskErr
      ensures fs.disk.reliable && old(fs.Mirrored()) ==> fs.Mirrored()
    {
      hide File.Salvaged, File.Allocated, File.Base, File.Buffered, File.Cursor, File.Data, File.Eff, File.At,
           Clusters, IsChain, Geometry.Valid, Volume.Valid, Table, Volume.Mirrored, InChain, PowerOfTwo, Content,
           Overlay, Confined, Placed, Fits, FreeClusters, NoOnes, ClusterIndex, SectorInCluster, SectorAt,
           OnlyChainSectors, Splice, EntryRoom, EntryApart, Geometry.InData;
      res, full, wcnt := FrOk, false, 0;
      CursorFacts(this);
      ghost var p, t, img := chain, Fat(fs), fs.img;
      ConfinedRefl(fs.geo, p, t, img);
      AtBoundary(this);
      if SectorInCluster(fs.geo, fptr) == 0 {
        res, full := FollowForWrite();
        ConfinedWeaken(res != FrDiskErr, fs.geo, p, t, img, chain, Fat(fs), fs.img);
        if res == FrOk && full { BoundaryFull(fs.geo, chain, fptr); }
        if res != FrOk || full { return; }
      }
      ghost var img1 := fs.img;
      res, wcnt := WriteAtBoundary(w);
      ConfinedThenOwn(res != FrDiskErr, fs.geo, p, t, img, chain, Fat(fs), img1, fs.img);
      if res == FrOk { ChainLength(this, |p|, old(fptr)); }
    }

    /** One round of the loop of `f_write`. */
    method WriteChunk(w: seq<byte>) returns (res: FResult, full: bool, wcnt: nat)
      requires Base() && Buffered() && Cursor() && |w| > 0 && fptr + |w| <= 0xFFFF_FFFF
      modifies this`clust, this`sclust, this`chain, this`fptr, this`objsize, this`dirty, this`sect, buf
      modifies fs`wflag, fs`winSect, fs`img, fs`freeClst, fs`lastClst, fs`fsiDirty, fs.win, fs.disk
      ensures Allocated() && fs.Valid()
      ensures fs.winSect == old(fs.winSect) || !fs.geo.InData(fs.winSect)
      ensures res == FrOk || res == FrDiskErr || res == FrIntErr
      ensures res != FrOk ==> fptr == old(fptr) && Salvaged(old(Data())[..fptr])
      ensures res == FrOk ==> Base() && Buffered() && Cursor()
      ensures res == FrOk && full ==>
        Data() == old(Data()) && fptr == old(fptr) && (fs.freeClst == 0 || FreeClusters(Fat(fs)) == 0)
      ensures res == FrOk && full ==> chain == old(chain) && !Fits(fs.geo, chain, fptr + 1)
      ensures res == FrOk && !full ==> |chain| == Max(|old(chain)|, Clusters(fs.geo, fptr))
      ensures res == FrOk && !full ==> 0 < wcnt <= |w| && fptr == old(fptr) + wcnt
      ensures res == FrOk && !full ==> Data() == Splice(old(Data()), old(fptr), w[..wcnt])
      ensures res == FrIntErr ==> !NoOnes(old(Fat(fs)))
      ensures Confined(res != FrDiskErr, fs.geo, old(chain), old(Fat(fs)), old(fs.img), chain, Fat(fs), fs.img)
      ensures res != FrDiskErr ==> KeepsCount(old(AllocOf(fs)), AllocOf(fs))
      ensures fs.disk.reliable ==> res != FrDiskErr
      ensures fs.disk.reliable && old(fs.Mirrored()) ==> fs.Mirrored()
    {
      hide File.Salvaged, File.Allocated, File.Base, File.Buffered, File.Cursor, File.Data, File.Eff, File.At,
           Clusters, IsChain, Geometry.Valid, Volume.Valid, Table, Volume.Mirrored, InChain, PowerOfTwo, Content,
           Overlay, Confined, Placed, Fits, FreeClusters, NoOnes, ClusterIndex, SectorInCluster, SectorAt,
           OnlyChainSectors, Splice, EntryRoom, EntryApart, Geometry.InData;
      CursorFacts(this);
      if fptr % SECTOR_SIZE == 0 {
        res, full, wcnt := WriteFromBoundary(w);
      } else {
        ConfinedRefl(fs.geo, chain, Fat(fs), fs.img);
        MidSector(this);
        res, full, wcnt := FrOk, false, SECTOR_SIZE - fptr % SECTOR_SIZE;
        if wcnt > |w| { wcnt := |w|; }
        PutBytes(w[..wcnt], Eff());
        ChainLength(this, |chain|, old(fptr));
      }
    }

    /** The loop of `f_write`. */
    method WriteLoop(w: seq<byte>) returns (res: FResult, bw: nat)
      requires Base() && Buffered() && Cursor() && fptr + |w| <= 0xFFFF_FFFF
      modifies this`clust, this`sclust, this`chain, this`fptr, this`objsize, this`dirty, this`sect, buf
      modifies fs`wflag, fs`winSect, fs`img, fs`freeClst, fs`lastClst, fs`fsiDirty, fs.win, fs.disk
      ensures Allocated() && fs.Valid()
      ensures fs.winSect == old(fs.winSect) || !fs.geo.InData(fs.winSect)
      ensures res == FrOk || res == FrDiskErr || res == FrIntErr
      ensures res != FrOk ==>
        bw <= |w| && fptr == old(fptr) + bw && Salvaged(Splice(old(Data()), old(fptr), w[..bw])[..fptr])
      ensures res == FrOk ==> Base() && Buffered() && Cursor()
      ensures res == FrOk ==> bw <= |w| && fptr == old(fptr) + bw && Data() == Splice(old(Data()), old(fptr), w[..bw])
      ensures res == FrOk && bw < |w| ==>
        !Fits(fs.geo, chain, fptr + 1) && (fs.freeClst == 0 || FreeClusters(Fat(fs)) == 0)
      ensures res == FrOk ==> |chain| == Max(|old(chain)|, Clusters(fs.geo, fptr))
      ensures res == FrIntErr ==> !NoOnes(old(Fat(fs)))
      ensures Confined(res != FrDiskErr, fs.geo, old(chain), old(Fat(fs)), old(fs.img), chain, Fat(fs), fs.img)
      ensures res != FrDiskErr ==> KeepsCount(old(AllocOf(fs)), AllocOf(fs))
      ensures fs.disk.reliable ==> res != FrDiskErr
      ensures fs.disk.reliable && old(fs.Mirrored()) ==> fs.Mirrored()
    {
      hide File.Salvaged, File.Base, File.Buffered, File.Cursor, File.Data, Clusters, IsChain, Geometry.Valid,
           Volume.Valid, Table, Volume.Mirrored, InChain, PowerOfTwo, Content, Overlay, Confined, Placed, Fits,
           FreeClusters, NoOnes, ClusterIndex, SectorInCluster, SectorAt, OnlyChainSectors, Splice, EntryRoom,
           EntryApart, Geometry.InData;
      res, bw := FrOk, 0;
      CursorFacts(this);
      ghost var p, t, img, c := chain, Fat(fs), fs.img, Data();
      ConfinedRefl(fs.geo, p, t, img);
      SpliceNothing(c, fptr);
      while bw < |w|
        invariant res == FrOk && 0 <= bw <= |w|
        invariant Base() && Buffered() && Cursor() && Allocated() && PowerOfTwo(fs.geo.csize)
        invariant fptr == old(fptr) + bw && Data() == Splice(c, old(fptr), w[..bw])
        invariant Confined(true, fs.geo, p, t, img, chain, Fat(fs), fs.img)
        invariant |chain| == Max(|p|, Clusters(fs.geo, fptr))
        invariant NoOnes(t) ==> NoOnes(Fat(fs))
        invariant KeepsCount(old(AllocOf(fs)), AllocOf(fs))
        invariant fs.winSect == old(fs.winSect) || !fs.geo.InData(fs.winSect)
        invariant fs.disk.reliable && old(fs.Mirrored()) ==> fs.Mirrored()
      {
        ghost var p1, t1, img1, o := chain, Fat(fs), fs.img, fptr;
        CursorFacts(this);
        var full, wcnt;
        res, full, wcnt := WriteChunk(w[bw..]);
        ConfinedTrans(res != FrDiskErr, fs.geo, p, t, img, p1, t1, img1, chain, Fat(fs), fs.img);
        if res != FrOk || full { return; }
        SpliceSplice(c, old(fptr), w[..bw], w[bw..][..wcnt]);
        assert w[..bw] + w[bw..][..wcnt] == w[..bw + wcnt];
        CursorFacts(this);
        BaseFacts(this);
        ConfinedNoOnes(fs.geo, p, t, img, chain, Fat(fs), fs.img);
        ClustersMonotone(fs.geo, o, fptr);
        bw := bw + wcnt;
      }
    }

    /** How many of `btw` bytes `f_write` accepts: the file pointer must not pass 4 GiB - 1. */
    function Accepted(btw: u32): (n: nat)
      reads `fptr
      ensures n <= btw && fptr + n <= 0xFFFF_FFFF
      ensures n < btw ==> fptr + n == 0xFFFF_FFFF
    {
      if Wrap32(fptr + btw) < fptr then Wrap32(0xFFFF_FFFF - fptr) else btw
    }

    /** `f_write`: replaces or extends the file at the file pointer with the first `bw` bytes of `w`. */
    method Write(w: seq<byte>) returns (res: FResult, bw: nat)
      requires Valid() && |w| <= 0xFFFF_FFFF
      modifies this`clust, this`sclust, this`chain, this`fptr, this`objsize, this`dirty
      modifies this`sect, this`err, this`modified, buf
      modifies fs`wflag, fs`winSect, fs`img, fs`freeClst, fs`lastClst, fs`fsiDirty, fs.win, fs.disk
      ensures Valid()
      ensures fs.winSect == old(fs.winSect) || !fs.geo.InData(fs.winSect)
      ensures old(err) != FrOk ==> res == err == old(err) && bw == 0
      ensures old(err) == FrOk && !writable ==>
        res == FrDenied && bw == 0 && err == FrOk && Data() == old(Data()) && fptr == old(fptr) &&
        chain == old(chain) &&
        fs.img == old(fs.img) && fs.wflag == old(fs.wflag) && fs.freeClst == old(fs.freeClst) &&
        fs.fsiDirty == old(fs.fsiDirty) && modified == old(modified)
      ensures old(err) == FrOk && writable ==> res == err && (res == FrOk || res == FrDiskErr || res == FrIntErr)
      ensures old(err) == FrOk && writable && res == FrOk ==>
        && bw <= |w| && fptr == old(fptr) + bw
        && Data() == Splice(old(Data()), old(fptr), w[..bw])
        && PowerOfTwo(fs.geo.csize) && |chain| == Max(|old(chain)|, Clusters(fs.geo, fptr))
        && (bw < old(Accepted(|w|)) ==>
          !Fits(fs.geo, chain, fptr + 1) && (fs.freeClst == 0 || FreeClusters(Fat(fs)) == 0))
        && modified
      ensures old(err) == FrOk && writable && res != FrOk ==>
        bw <= |w| && fptr == old(fptr) + bw && Salvaged(Splice(old(Data()), old(fptr), w[..bw])[..fptr])
      ensures res == FrIntErr && old(err) == FrOk ==> !NoOnes(old(Fat(fs)))
      ensures Confined(res != FrDiskErr || old(err) != FrOk, fs.geo, old(chain), old(Fat(fs)), old(fs.img),
                       chain, Fat(fs), fs.img)
      ensures res != FrDiskErr ==> KeepsCount(old(AllocOf(fs)), AllocOf(fs))
      ensures fs.disk.reliable && old(err) == FrOk ==> res != FrDiskErr
      ensures fs.disk.reliable && old(fs.Mirrored()) ==> fs.Mirrored()
    {
      hide File.Salvaged, File.Base, File.Buffered, File.Cursor, File.Data, Clusters, IsChain, Geometry.Valid,
           Volume.Valid, Table, Volume.Mirrored, InChain, PowerOfTwo, Content, Overlay, Confined, Placed, Fits,
           FreeClusters, NoOnes, ClusterIndex, SectorInCluster, SectorAt, OnlyChainSectors, Splice, EntryRoom,
           EntryApart, Geometry.InData;
      ConfinedRefl(fs.geo, chain, Fat(fs), fs.img);
      if err != FrOk { return err, 0; }
      if !writable { return FrDenied, 0; }
      CursorFacts(this);
      var btw := Accepted(|w|);
      res, bw := WriteLoop(w[..btw]);
      assert bw <= btw ==> w[..btw][..bw] == w[..bw];
      if res != FrOk { err := res; return; }
      CursorFacts(this);
      modified := true;
    }

    /** One step of `f_lseek` along the chain: in write mode the chain is stretched if it ends. */
    method StepForSeek(clst: u32, ghost k: nat) returns (next: u32)
      requires Base() && Buffered() && k < |chain| && clst == chain[k]
      requires writable || k + 1 < |chain|
      modifies this`sclust, this`chain
      modifies fs`wflag, fs`winSect, fs`img, fs`freeClst, fs`lastClst, fs`fsiDirty, fs.win, fs.disk
      ensures Allocated() && fs.Valid()
      ensures fs.winSect == old(fs.winSect) || !fs.geo.InData(fs.winSect)
      ensures next != DISK_ERROR ==> Base() && Buffered() && Data() == old(Data())
      ensures next == 0 ==>
        writable && chain == old(chain) && k + 1 == |chain| && (fs.freeClst == 0 || FreeClusters(Fat(fs)) == 0)
      ensures next == 1 ==> writable && !NoOnes(old(Fat(fs)))
      ensures 2 <= next < DISK_ERROR ==>
        next < fs.geo.nFatEnt && old(chain) <= chain && k + 1 < |chain| && next == chain[k + 1]
      ensures k + 1 < |old(chain)| ==> chain == old(chain)
      ensures chain == old(chain) && next != DISK_ERROR ==>
        fs.img == old(fs.img) && (fs.wflag ==> old(fs.wflag)) && fs.fsiDirty == old(fs.fsiDirty)
      ensures 2 <= next < DISK_ERROR ==> |chain| == Max(|old(chain)|, k + 2)
      ensures Confined(next != DISK_ERROR, fs.geo, old(chain), old(Fat(fs)), old(fs.img), chain, Fat(fs), fs.img)
      ensures next != DISK_ERROR ==> KeepsCount(old(AllocOf(fs)), AllocOf(fs))
      ensures fs.disk.reliable ==> next != DISK_ERROR
      ensures fs.disk.reliable && old(fs.Mirrored()) ==> fs.Mirrored()
    {
      hide IsChain, Geometry.Valid, Volume.Valid, Table, Volume.Mirrored, InChain, PowerOfTwo, Content, Overlay,
           Confined, Placed, Fits, FreeClusters, NoOnes, EntryRoom, EntryApart, Geometry.InData;
      ChainLink(this, k);
      if writable {
        next := ExtendChain(clst, k);
      } else {
        ConfinedRefl(fs.geo, chain, Fat(fs), fs.img);
        ConfinedWeaken(true, fs.geo, chain, Fat(fs), fs.img, chain, Fat(fs), fs.img);
        ghost var was := fs.winSect;
        next := GetFat(fs, clst);
        Elsewhere(fs.geo, chain, was, fs.winSect, sect);
      }
    }

    /** One round of the loop of `f_lseek`: one cluster forward. */
    method SeekStep(clst: u32, ghost j: nat, ghost rest: nat) returns (res: FResult, full: bool)
      requires Base() && Buffered() && j < |chain| && clst == clust == chain[j]
      requires fptr == j * ClusterBytes(fs.geo) && rest > ClusterBytes(fs.geo) && fptr + rest <= 0xFFFF_FFFF
      requires !writable ==> Fits(fs.geo, chain, fptr + rest)
      modifies this`clust, this`sclust, this`chain, this`fptr
      modifies fs`wflag, fs`winSect, fs`img, fs`freeClst, fs`lastClst, fs`fsiDirty, fs.win, fs.disk
      ensures Allocated() && fs.Valid()
      ensures fs.winSect == old(fs.winSect) || !fs.geo.InData(fs.winSect)
      ensures res == FrOk || res == FrDiskErr || res == FrIntErr
      ensures 0 < ClusterBytes(fs.geo) && fptr == old(fptr) + ClusterBytes(fs.geo) == (j + 1) * ClusterBytes(fs.geo)
      ensures res == FrOk ==> Base() && Buffered() && Data() == old(Data()) && old(chain) <= chain
      ensures res == FrOk && !full ==> j + 1 < |chain| && clust == chain[j + 1]
      ensures res == FrOk && full ==> writable && chain == old(chain) && clust == old(clust) && j + 1 == |chain|
      ensures res == FrOk && full ==> fs.freeClst == 0 || FreeClusters(Fat(fs)) == 0
      ensures res == FrIntErr ==> !NoOnes(old(Fat(fs)))
      ensures Fits(fs.geo, old(chain), old(fptr) + rest) ==> chain == old(chain)
      ensures res == FrOk && chain == old(chain) ==>
        fs.img == old(fs.img) && (fs.wflag ==> old(fs.wflag)) && fs.fsiDirty == old(fs.fsiDirty)
      ensures res == FrOk && !full ==> |chain| == Max(|old(chain)|, j + 2)
      ensures Confined(res != FrDiskErr, fs.geo, old(chain), old(Fat(fs)), old(fs.img), chain, Fat(fs), fs.img)
      ensures res != FrDiskErr ==> KeepsCount(old(AllocOf(fs)), AllocOf(fs))
      ensures fs.disk.reliable ==> res != FrDiskErr
      ensures fs.disk.reliable && old(fs.Mirrored()) ==> fs.Mirrored()
    {
      hide File.Base, File.Buffered, File.Data, IsChain, Geometry.Valid, Volume.Valid, Table, Volume.Mirrored,
           InChain, PowerOfTwo, Content, Overlay, Confined, Placed, Fits, FreeClusters, NoOnes, ClusterIndex,
           SectorInCluster, SectorAt, ClusterBytes, EntryRoom, EntryApart, Geometry.InData;
      BaseFacts(this);
      ghost var p, t, img := chain, Fat(fs), fs.img;
      MoreClusters(fs.geo, chain, j, rest);
      res, full := FrOk, false;
      fptr := fptr + ClusterBytes(fs.geo);
      var next := StepForSeek(clst, j);
      ConfinedWeaken(next != DISK_ERROR, fs.geo, p, t, img, chain, Fat(fs), fs.img);
      if next == 0 && writable { full := true; return; }
      if next == DISK_ERROR { return FrDiskErr, false; }
      if next <= 1 || next >= fs.geo.nFatEnt { return FrIntErr, false; }
      clust := next;
    }

    /** The cluster-following loop of `f_lseek`, from the beginning of cluster `k` of the chain. Stops in the
        cluster `rest` bytes before the target, or behind the last one when the disk is full. */
    method SeekClusters(ofs: u32, ghost k: nat) returns (res: FResult, full: bool, rest: u32, ghost j: nat)
      requires Base() && Buffered() && k < |chain| && clust == chain[k]
      requires fptr == k * ClusterBytes(fs.geo) && 0 < ofs && fptr + ofs <= 0xFFFF_FFFF
      requires !writable ==> Fits(fs.geo, chain, fptr + ofs)
      modifies this`clust, this`sclust, this`chain, this`fptr
      modifies fs`wflag, fs`winSect, fs`img, fs`freeClst, fs`lastClst, fs`fsiDirty, fs.win, fs.disk
      ensures Allocated() && fs.Valid()
      ensures fs.winSect == old(fs.winSect) || !fs.geo.InData(fs.winSect)
      ensures res == FrOk || res == FrDiskErr || res == FrIntErr
      ensures res == FrOk ==> Base() && Buffered() && Data() == old(Data())
      ensures res == FrOk ==> j < |chain| && clust == chain[j] && |chain| == Max(|old(chain)|, j + 1)
      ensures res == FrOk && full ==>
        writable && j + 1 == |chain| && fptr == j * ClusterBytes(fs.geo) + ClusterBytes(fs.geo) < old(fptr) + ofs &&
        rest == 0 && (fs.freeClst == 0 || FreeClusters(Fat(fs)) == 0)
      ensures res == FrOk && !full ==>
        fptr == j * ClusterBytes(fs.geo) && 0 < rest <= ClusterBytes(fs.geo) && fptr + rest == old(fptr) + ofs
      ensures res == FrIntErr ==> !NoOnes(old(Fat(fs)))
      ensures Fits(fs.geo, old(chain), old(fptr) + ofs) ==> chain == old(chain)
      ensures res == FrOk && chain == old(chain) ==>
        fs.img == old(fs.img) && (fs.wflag ==> old(fs.wflag)) && fs.fsiDirty == old(fs.fsiDirty)
      ensures res == FrOk ==> old(chain) <= chain
      ensures Confined(res != FrDiskErr, fs.geo, old(chain), old(Fat(fs)), old(fs.img), chain, Fat(fs), fs.img)
      ensures res != FrDiskErr ==> KeepsCount(old(AllocOf(fs)), AllocOf(fs))
      ensures fs.disk.reliable ==> res != FrDiskErr
      ensures fs.disk.reliable && old(fs.Mirrored()) ==> fs.Mirrored()
    {
      hide File.Base, File.Buffered, File.Data, Clusters, IsChain, Geometry.Valid, Volume.Valid, Table,
           Volume.Mirrored, InChain, PowerOfTwo, Content, Overlay, Confined, Placed, Fits, FreeClusters, NoOnes,
           ClusterIndex, SectorInCluster, SectorAt, ClusterBytes, EntryRoom, EntryApart, Geometry.InData;
      BaseFacts(this);
      res, full, rest, j := FrOk, false, ofs, k;
      ghost var p, t, img, target := chain, Fat(fs), fs.img, fptr + ofs;
      ConfinedRefl(fs.geo, p, t, img);
      var bcs := ClusterBytes(fs.geo);
      while rest > bcs
        invariant res == FrOk && !full && Allocated() && fs.Valid() && Base() && Buffered() && Data() == old(Data())
        invariant j < |chain| && clust == chain[j] && p <= chain
        invariant fptr == j * ClusterBytes(fs.geo) && 0 < rest && fptr + rest == target
        invariant Fits(fs.geo, p, target) ==> chain == p
        invariant chain == p ==> fs.img == img && (fs.wflag ==> old(fs.wflag)) && fs.fsiDirty == old(fs.fsiDirty)
        invariant |chain| == Max(|p|, j + 1)
        invariant Confined(true, fs.geo, p, t, img, chain, Fat(fs), fs.img)
        invariant NoOnes(t) ==> NoOnes(Fat(fs))
        invariant KeepsCount(old(AllocOf(fs)), AllocOf(fs))
        invariant fs.winSect == old(fs.winSect) || !fs.geo.InData(fs.winSect)
        invariant fs.disk.reliable && old(fs.Mirrored()) ==> fs.Mirrored()
        decreases rest
      {
        ghost var p1, t1, img1 := chain, Fat(fs), fs.img;
        res, full := SeekStep(clust, j, rest);
        ConfinedTrans(res != FrDiskErr, fs.geo, p, t, img, p1, t1, img1, chain, Fat(fs), fs.img);
        if res != FrOk { return; }
        BaseFacts(this);
        ConfinedNoOnes(fs.geo, p, t, img, chain, Fat(fs), fs.img);
        rest := rest - bcs;
        if full {
          rest := 0;
          return;
        }
        j := j + 1;
      }
    }

    /** Follows the chain from the beginning of its cluster `k`. The file pointer moves `ofs` bytes on, or
        stops behind the last cluster when the disk is full. */
    method SeekWalk(ofs: u32, ghost k: nat) returns (res: FResult, rest: u32)
      requires Base() && Buffered() && k < |chain| && clust == chain[k]
      requires fptr == k * ClusterBytes(fs.geo) && 0 < ofs && fptr + ofs <= 0xFFFF_FFFF
      requires !writable ==> Fits(fs.geo, chain, fptr + ofs)
      modifies this`clust, this`sclust, this`chain, this`fptr
      modifies fs`wflag, fs`winSect, fs`img, fs`freeClst, fs`lastClst, fs`fsiDirty, fs.win, fs.disk
      ensures Allocated() && fs.Valid()
      ensures fs.winSect == old(fs.winSect) || !fs.geo.InData(fs.winSect)
      ensures res == FrOk || res == FrDiskErr || res == FrIntErr
      ensures res == FrOk ==> Base() && Buffered() && Data() == old(Data())
      ensures res == FrOk ==> 0 < fptr <= old(fptr) + ofs && Fits(fs.geo, chain, fptr)
      ensures res == FrOk ==> ClusterIndex(fs.geo, fptr - 1) < |chain| && clust == chain[ClusterIndex(fs.geo, fptr - 1)]
      ensures res == FrOk && fptr < old(fptr) + ofs ==>
        writable && !Fits(fs.geo, chain, fptr + 1) && (fs.freeClst == 0 || FreeClusters(Fat(fs)) == 0)
      ensures res == FrOk ==> rest % SECTOR_SIZE == fptr % SECTOR_SIZE
      ensures res == FrOk && rest % SECTOR_SIZE != 0 ==>
        ClusterIndex(fs.geo, fptr) < |chain| &&
        fs.geo.ClusterToSector(clust) + rest / SECTOR_SIZE == SectorAt(fs.geo, chain, fptr)
      ensures res == FrIntErr ==> !NoOnes(old(Fat(fs)))
      ensures Fits(fs.geo, old(chain), old(fptr) + ofs) ==> chain == old(chain)
      ensures res == FrOk && chain == old(chain) ==>
        fs.img == old(fs.img) && (fs.wflag ==> old(fs.wflag)) && fs.fsiDirty == old(fs.fsiDirty)
      ensures res == FrOk ==> old(chain) <= chain
      ensures res == FrOk ==> |chain| == Max(|old(chain)|, Clusters(fs.geo, fptr))
      ensures Confined(res != FrDiskErr, fs.geo, old(chain), old(Fat(fs)), old(fs.img), chain, Fat(fs), fs.img)
      ensures res != FrDiskErr ==> KeepsCount(old(AllocOf(fs)), AllocOf(fs))
      ensures fs.disk.reliable ==> res != FrDiskErr
      ensures fs.disk.reliable && old(fs.Mirrored()) ==> fs.Mirrored()
    {
      hide File.Base, File.Buffered, File.Data, Clusters, IsChain, Geometry.Valid, Volume.Valid, Table,
           Volume.Mirrored, InChain, PowerOfTwo, Content, Overlay, Confined, Placed, Fits, FreeClusters, NoOnes,
           ClusterIndex, SectorInCluster, SectorAt, ClusterBytes, EntryRoom, EntryApart, Geometry.InData;
      BaseFacts(this);
      ghost var j: nat;
      var full;
      res, full, rest, j := SeekClusters(ofs, k);
      if res != FrOk { return; }
      BaseFacts(this);
      if full {
        ClusterEnd(fs.geo, chain, j);
      } else {
        PositionInCluster(fs.geo, j, rest);
        SeekLanding(fs.geo, chain, j, rest);
        fptr := fptr + rest;
      }
    }

    /** Where `f_lseek` starts to follow the chain: at the current cluster when the target is not before
        it, at the first cluster otherwise, which is allocated for an empty file. `full` reports that
        there was no cluster for it. */
    method SeekStart(ofs: u32) returns (res: FResult, full: bool, rest: u32, ghost k: nat)
      requires Base() && Buffered() && Cursor() && 0 < ofs
      requires !writable ==> ofs <= objsize
      modifies this`clust, this`sclust, this`chain, this`fptr
      modifies fs`wflag, fs`winSect, fs`img, fs`freeClst, fs`lastClst, fs`fsiDirty, fs.win, fs.disk
      ensures Allocated() && fs.Valid()
      ensures fs.winSect == old(fs.winSect) || !fs.geo.InData(fs.winSect)
      ensures res == FrOk || res == FrDiskErr || res == FrIntErr
      ensures res == FrOk ==> Base() && Buffered() && Data() == old(Data())
      ensures res == FrOk && full ==>
        writable && fptr == 0 && chain == old(chain) == [] && (fs.freeClst == 0 || FreeClusters(Fat(fs)) == 0)
      ensures res == FrOk && !full ==>
        k < |chain| && clust == chain[k] && fptr == k * ClusterBytes(fs.geo) && 0 < rest && fptr + rest == ofs
      ensures res == FrIntErr ==> !NoOnes(old(Fat(fs)))
      ensures Fits(fs.geo, old(chain), ofs) ==> chain == old(chain)
      ensures res == FrOk && chain == old(chain) ==>
        fs.img == old(fs.img) && (fs.wflag ==> old(fs.wflag)) && fs.fsiDirty == old(fs.fsiDirty)
      ensures res == FrOk ==> old(chain) <= chain
      ensures res == FrOk && !full ==> |chain| == Max(|old(chain)|, 1)
      ensures !writable ==> chain == old(chain) && Fits(fs.geo, chain, ofs)
      ensures Confined(res != FrDiskErr, fs.geo, old(chain), old(Fat(fs)), old(fs.img), chain, Fat(fs), fs.img)
      ensures res != FrDiskErr ==> KeepsCount(old(AllocOf(fs)), AllocOf(fs))
      ensures fs.disk.reliable ==> res != FrDiskErr
      ensures fs.disk.reliable && old(fs.Mirrored()) ==> fs.Mirrored()
    {
      hide File.Base, File.Buffered, File.Data, File.Cursor, Clusters, IsChain, Geometry.Valid, Volume.Valid, Table,
           Volume.Mirrored, InChain, PowerOfTwo, Content, Overlay, Confined, Placed, Fits, FreeClusters, NoOnes,
           ClusterIndex, SectorInCluster, SectorAt, ClusterBytes, EntryRoom, EntryApart, Geometry.InData;
      BaseFacts(this);
      SeekPosition(this, ofs);
      ghost var p, t, img := chain, Fat(fs), fs.img;
      ConfinedRefl(fs.geo, p, t, img);
      BytesPositive(fs.geo);
      var bcs := ClusterBytes(fs.geo);
      var ifptr := fptr;
      if ifptr > 0 { RestartPosition(fs.geo, ifptr, ofs); }
      res, full, rest, k := FrOk, false, ofs, 0;
      fptr := 0;
      if ifptr > 0 && (ofs - 1) / bcs >= (ifptr - 1) / bcs {
        k := ClusterIndex(fs.geo, ifptr - 1);
        fptr := (ifptr - 1) / bcs * bcs;
        rest := ofs - fptr;
      } else {
        var clst := sclust;
        if clst == 0 {
          clst := ExtendChain(0, 0);
          ConfinedWeaken(clst != DISK_ERROR, fs.geo, p, t, img, chain, Fat(fs), fs.img);
          if clst == 1 { res := FrIntErr; return; }
          if clst == DISK_ERROR { res := FrDiskErr; return; }
        }
        clust := clst;
        full := clst == 0;
      }
    }

    /** The moving part of `f_lseek` for a positive target. */
    method SeekFollow(ofs: u32) returns (res: FResult, rest: u32)
      requires Base() && Buffered() && Cursor() && 0 < ofs
      requires !writable ==> ofs <= objsize
      modifies this`clust, this`sclust, this`chain, this`fptr
      modifies fs`wflag, fs`winSect, fs`img, fs`freeClst, fs`lastClst, fs`fsiDirty, fs.win, fs.disk
      ensures Allocated() && fs.Valid()
      ensures fs.winSect == old(fs.winSect) || !fs.geo.InData(fs.winSect)
      ensures res == FrOk || res == FrDiskErr || res == FrIntErr
      ensures res == FrOk ==> Base() && Buffered() && Data() == old(Data())
      ensures res == FrOk ==> fptr <= ofs && Fits(fs.geo, chain, fptr)
      ensures res == FrOk && fptr > 0 ==>
        ClusterIndex(fs.geo, fptr - 1) < |chain| && clust == chain[ClusterIndex(fs.geo, fptr - 1)]
      ensures res == FrOk && fptr < ofs ==>
        writable && !Fits(fs.geo, chain, fptr + 1) && (fs.freeClst == 0 || FreeClusters(Fat(fs)) == 0)
      ensures res == FrOk ==> rest % SECTOR_SIZE == fptr % SECTOR_SIZE
      ensures res == FrOk && rest % SECTOR_SIZE != 0 ==>
        ClusterIndex(fs.geo, fptr) < |chain| &&
        fs.geo.ClusterToSector(clust) + rest / SECTOR_SIZE == SectorAt(fs.geo, chain, fptr)
      ensures res == FrIntErr ==> !NoOnes(old(Fat(fs)))
      ensures Fits(fs.geo, old(chain), ofs) ==> chain == old(chain)
      ensures res == FrOk && chain == old(chain) ==>
        fs.img == old(fs.img) && (fs.wflag ==> old(fs.wflag)) && fs.fsiDirty == old(fs.fsiDirty)
      ensures res == FrOk ==> old(chain) <= chain
      ensures res == FrOk ==> |chain| == Max(|old(chain)|, Clusters(fs.geo, fptr))
      ensures Confined(res != FrDiskErr, fs.geo, old(chain), old(Fat(fs)), old(fs.img), chain, Fat(fs), fs.img)
      ensures res != FrDiskErr ==> KeepsCount(old(AllocOf(fs)), AllocOf(fs))
      ensures fs.disk.reliable ==> res != FrDiskErr
      ensures fs.disk.reliable && old(fs.Mirrored()) ==> fs.Mirrored()
    {
      hide Geometry.End, Volume.InfoKept, File.Base, File.Buffered, File.Data, File.Cursor, Clusters, IsChain,
           Geometry.Valid, Volume.Valid, Table, Volume.Mirrored, InChain, PowerOfTwo, Content, Overlay, Confined,
           Placed, Fits, FreeClusters, NoOnes, ClusterIndex, SectorInCluster, SectorAt, ClusterBytes, EntryRoom,
           EntryApart, Geometry.InData;
      BaseFacts(this);
      EmptyFits(fs.geo);
      FirstCluster(fs.geo, 0);
      ghost var p, t, img := chain, Fat(fs), fs.img;
      var full;
      ghost var k;
      res, full, rest, k := SeekStart(ofs);
      if res != FrOk { return; }
      if full { return FrOk, 0; }
      ghost var p1, t1, img1 := chain, Fat(fs), fs.img;
      BaseFacts(this);
      ConfinedNoOnes(fs.geo, p, t, img, chain, Fat(fs), fs.img);
      res, rest := SeekWalk(rest, k);
      if res == FrOk { FirstCluster(fs.geo, fptr); }
      ConfinedTrans(res != FrDiskErr, fs.geo, p, t, img, p1, t1, img1, chain, Fat(fs), fs.img);
    }

    /** The moving part of `f_lseek`. Leaves in `rest` the offset inside the last cluster. */
    method SeekTo(ofs: u32) returns (res: FResult, rest: u32)
      requires Base() && Buffered() && Cursor()
      requires !writable ==> ofs <= objsize
      modifies this`clust, this`sclust, this`chain, this`fptr
      modifies fs`wflag, fs`winSect, fs`img, fs`freeClst, fs`lastClst, fs`fsiDirty, fs.win, fs.disk
      ensures Allocated() && fs.Valid()
      ensures fs.winSect == old(fs.winSect) || !fs.geo.InData(fs.winSect)
      ensures res == FrOk || res == FrDiskErr || res == FrIntErr
      ensures res == FrOk ==> Base() && Buffered() && Data() == old(Data())
      ensures res == FrOk ==> fptr <= ofs && Fits(fs.geo, chain, fptr)
      ensures res == FrOk && fptr > 0 ==>
        ClusterIndex(fs.geo, fptr - 1) < |chain| && clust == chain[ClusterIndex(fs.geo, fptr - 1)]
      ensures res == FrOk && fptr < ofs ==>
        writable && !Fits(fs.geo, chain, fptr + 1) && (fs.freeClst == 0 || FreeClusters(Fat(fs)) == 0)
      ensures res == FrOk ==> rest % SECTOR_SIZE == fptr % SECTOR_SIZE
      ensures res == FrOk && rest % SECTOR_SIZE != 0 ==>
        ClusterIndex(fs.geo, fptr) < |chain| &&
        fs.geo.ClusterToSector(clust) + rest / SECTOR_SIZE == SectorAt(fs.geo, chain, fptr)
      ensures res == FrIntErr ==> !NoOnes(old(Fat(fs)))
      ensures Fits(fs.geo, old(chain), ofs) ==> chain == old(chain)
      ensures res == FrOk && chain == old(chain) ==>
        fs.img == old(fs.img) && (fs.wflag ==> old(fs.wflag)) && fs.fsiDirty == old(fs.fsiDirty)
      ensures res == FrOk ==> old(chain) <= chain
      ensures res == FrOk ==> |chain| == Max(|old(chain)|, Clusters(fs.geo, fptr))
      ensures Confined(res != FrDiskErr, fs.geo, old(chain), old(Fat(fs)), old(fs.img), chain, Fat(fs), fs.img)
      ensures res != FrDiskErr ==> KeepsCount(old(AllocOf(fs)), AllocOf(fs))
      ensures fs.disk.reliable ==> res != FrDiskErr
      ensures fs.disk.reliable && old(fs.Mirrored()) ==> fs.Mirrored()
    {
      hide Geometry.End, Volume.InfoKept, File.Base, File.Buffered, File.Data, File.Cursor, Clusters, IsChain,
           Geometry.Valid, Volume.Valid, Table, Volume.Mirrored, InChain, PowerOfTwo, Content, Overlay, Confined,
           Placed, Fits, FreeClusters, NoOnes, ClusterIndex, SectorInCluster, SectorAt, ClusterBytes, EntryRoom,
           EntryApart, Geometry.InData;
      BaseFacts(this);
      if ofs == 0 {
        ConfinedRefl(fs.geo, chain, Fat(fs), fs.img);
        FitsMonotone(this);
        FirstCluster(fs.geo, 0);
        fptr := 0;
        return FrOk, 0;
      }
      res, rest := SeekFollow(ofs);
    }

    /** `f_lseek` on a file without error, to a target clipped as the mode asks. */
    method SeekFrom(ofs: u32) returns (res: FResult)
      requires Base() && Buffered() && Cursor() && (!writable ==> ofs <= objsize)
      modifies this`clust, this`sclust, this`chain, this`fptr, this`objsize, this`dirty, this`sect, this`modified, buf
      modifies fs`wflag, fs`winSect, fs`img, fs`freeClst, fs`lastClst, fs`fsiDirty, fs.win, fs.disk
      ensures Allocated() && fs.Valid()
      ensures fs.winSect == old(fs.winSect) || !fs.geo.InData(fs.winSect)
      ensures res == FrOk || res == FrDiskErr || res == FrIntErr
      ensures res == FrOk ==> Base() && Buffered() && Cursor()
      ensures res == FrOk ==> fptr <= ofs && objsize == Max(old(objsize), fptr) && old(Data()) <= Data()
      ensures res == FrOk && fptr < ofs ==>
        writable && ofs > old(objsize) && PowerOfTwo(fs.geo.csize) && !Fits(fs.geo, chain, fptr + 1) &&
        (fs.freeClst == 0 || FreeClusters(Fat(fs)) == 0)
      ensures res == FrOk ==> PowerOfTwo(fs.geo.csize) && |chain| == Max(|old(chain)|, Clusters(fs.geo, fptr))
      ensures res == FrOk && ofs <= old(objsize) ==> chain == old(chain)
      ensures res == FrOk && chain == old(chain) ==>
        (!old(dirty) ==> fs.img == old(fs.img)) && (fs.wflag ==> old(fs.wflag)) && fs.fsiDirty == old(fs.fsiDirty)
      ensures res == FrOk ==> old(chain) <= chain
      ensures dirty ==> old(dirty)
      ensures old(modified) || (res == FrOk && objsize > old(objsize)) ==> modified
      ensures res == FrIntErr ==> !NoOnes(old(Fat(fs)))
      ensures Confined(res != FrDiskErr, fs.geo, old(chain), old(Fat(fs)), old(fs.img), chain, Fat(fs), fs.img)
      ensures res != FrDiskErr ==> KeepsCount(old(AllocOf(fs)), AllocOf(fs))
      ensures fs.disk.reliable ==> res != FrDiskErr
      ensures fs.disk.reliable && old(fs.Mirrored()) ==> fs.Mirrored()
    {
      hide File.Allocated, File.At, File.Eff, ClusterBytes, File.Base, File.Buffered, File.Data, File.Cursor,
           Clusters, IsChain, Geometry.Valid, Volume.Valid, Table, Volume.Mirrored, InChain, PowerOfTwo, Content,
           Overlay, Confined, Placed, Fits, FreeClusters, NoOnes, ClusterIndex, SectorInCluster, SectorAt,
           OnlyChainSectors, EntryRoom, EntryApart, Geometry.InData;
      CursorFacts(this);
      FitsMonotone(this);
      ghost var p, t, img := chain, Fat(fs), fs.img;
      var rest;
      res, rest := SeekTo(ofs);
      if res != FrOk { return; }
      BaseFacts(this);
      FirstCluster(fs.geo, fptr);
      ghost var img1 := fs.img;
      res := SeekFinish(rest);
      ConfinedThenOwn(res != FrDiskErr, fs.geo, p, t, img, chain, Fat(fs), img1, fs.img);
    }

    /** `f_lseek`: moves the file pointer. In write mode a target past the end of file extends the file
        (with whatever its new clusters hold), up to the space there is; otherwise it is clipped. */
    method Seek(offset: u32) returns (res: FResult)
      requires Valid()
      modifies this`clust, this`sclust, this`chain, this`fptr, this`objsize, this`dirty
      modifies this`sect, this`err, this`modified, buf
      modifies fs`wflag, fs`winSect, fs`img, fs`freeClst, fs`lastClst, fs`fsiDirty, fs.win, fs.disk
      ensures Valid()
      ensures fs.winSect == old(fs.winSect) || !fs.geo.InData(fs.winSect)
      ensures old(err) != FrOk ==> res == err == old(err)
      ensures old(err) == FrOk ==> res == err && (res == FrOk || res == FrDiskErr || res == FrIntErr)
      ensures old(err) == FrOk && res == FrOk ==>
        var target := if offset > old(objsize) && !writable then old(objsize) else offset;
        && fptr <= target
        && (fptr < target ==>
              writable && target > old(objsize) && PowerOfTwo(fs.geo.csize) && !Fits(fs.geo, chain, fptr + 1) &&
              (fs.freeClst == 0 || FreeClusters(Fat(fs)) == 0))
        && PowerOfTwo(fs.geo.csize) && |chain| == Max(|old(chain)|, Clusters(fs.geo, fptr))
        && objsize == Max(old(objsize), fptr)
        && old(Data()) <= Data()
        && old(chain) <= chain && (target <= old(objsize) ==> chain == old(chain))
        && (chain == old(chain) ==>
              (!old(dirty) ==> fs.img == old(fs.img)) && (fs.wflag ==> old(fs.wflag)) &&
              fs.fsiDirty == old(fs.fsiDirty))
        && (objsize > old(objsize) ==> modified)
      ensures old(modified) ==> modified
      ensures dirty ==> old(dirty)
      ensures res == FrIntErr && old(err) == FrOk ==> !NoOnes(old(Fat(fs)))
      ensures Confined(res != FrDiskErr || old(err) != FrOk, fs.geo, old(chain), old(Fat(fs)), old(fs.img), chain,
                       Fat(fs), fs.img)
      ensures res != FrDiskErr ==> KeepsCount(old(AllocOf(fs)), AllocOf(fs))
      ensures fs.disk.reliable && old(err) == FrOk ==> res != FrDiskErr
      ensures fs.disk.reliable && old(fs.Mirrored()) ==> fs.Mirrored()
    {
      hide File.Base, File.Buffered, File.Data, File.Cursor, Clusters, IsChain, Geometry.Valid, Volume.Valid, Table,
           Volume.Mirrored, InChain, PowerOfTwo, Content, Overlay, Confined, Placed, Fits, FreeClusters, NoOnes,
           ClusterIndex, SectorInCluster, SectorAt, OnlyChainSectors, EntryRoom, EntryApart, Geometry.InData;
      ghost var p, t, img := chain, Fat(fs), fs.img;
      ConfinedRefl(fs.geo, p, t, img);
      if err != FrOk { return err; }
      CursorFacts(this);
      var ofs := offset;
      if ofs > objsize && !writable { ofs := objsize; }
      res := SeekFrom(ofs);
      if res != FrOk { err := res; }
    }

    /** The end of `f_lseek`: the file grows to the file pointer, and the buffer shows its sector. */
    method SeekFinish(rest: u32) returns (res: FResult)
      requires Base() && Buffered() && Fits(fs.geo, chain, fptr) && rest % SECTOR_SIZE == fptr % SECTOR_SIZE
      requires fptr > 0 ==> ClusterIndex(fs.geo, fptr - 1) < |chain| && clust == chain[ClusterIndex(fs.geo, fptr - 1)]
      requires rest % SECTOR_SIZE != 0 ==>
        ClusterIndex(fs.geo, fptr) < |chain| &&
        fs.geo.ClusterToSector(clust) + rest / SECTOR_SIZE == SectorAt(fs.geo, chain, fptr)
      modifies this`objsize, this`dirty, this`sect, this`modified, buf, fs`img, fs.disk
      ensures Allocated() && fs.Valid()
      ensures res == FrOk || res == FrDiskErr
      ensures res == FrOk ==> Base() && Buffered() && Cursor()
      ensures res == FrOk ==> objsize == Max(old(objsize), fptr) && old(Data()) <= Data()
      ensures Fat(fs) == old(Fat(fs))
      ensures OnlyChainSectors(fs.geo, chain, old(fs.img), fs.img)
      ensures dirty ==> old(dirty)
      ensures !old(dirty) ==> fs.img == old(fs.img)
      ensures old(modified) || objsize > old(objsize) ==> modified
      ensures fs.disk.reliable ==> res == FrOk
      ensures old(fs.Mirrored()) ==> fs.Mirrored()
    {
      hide IsChain, Geometry.Valid, Volume.Valid, Table, Volume.Mirrored, InChain, PowerOfTwo, Content, Overlay,
           Placed, Fits, ClusterIndex, SectorInCluster, SectorAt, OnlyChainSectors, EntryRoom, EntryApart,
           Geometry.InData;
      HoldsImage(fs);
      OnlyChainRefl(fs.geo, chain, fs.img);
      res := FrOk;
      ghost var n := Max(objsize, fptr);
      PrefixOfData(this, n);
      if fptr > objsize {
        objsize := fptr;
        modified := true;
      }
      if fptr % SECTOR_SIZE != 0 {
        var nsect := fs.geo.ClusterToSector(clust) + rest / SECTOR_SIZE;
        SectorAtInChain(fs.geo, chain, fptr);
        InChainRange(fs, chain, nsect);
        res := LoadBuffer(nsect);
      }
    }

    /** Writes the dirty sector buffer back. */
    method FlushBuffer() returns (res: FResult)
      requires Base() && Buffered()
      modifies this`dirty, fs`img, fs.disk
      ensures Base() && Buffered()
      ensures res == FrOk || res == FrDiskErr
      ensures Eff() == old(Eff())
      ensures res == FrOk ==> !dirty && Eff() == fs.img
      ensures Fat(fs) == old(Fat(fs))
      ensures OnlyChainSectors(fs.geo, chain, old(fs.img), fs.img)
      ensures dirty ==> old(dirty)
      ensures !old(dirty) ==> fs.img == old(fs.img)
      ensures fs.disk.reliable ==> res == FrOk
      ensures old(fs.Mirrored()) ==> fs.Mirrored()
    {
      hide IsChain, Placed, Geometry.Valid, Volume.Valid, Table, Volume.Mirrored, EntryRoom, EntryApart,
           Geometry.InData;
      res := FrOk;
      if dirty {
        InChainRange(fs, chain, sect);
        ghost var was := fs.img;
        var ok := fs.WriteData(sect, buf[..]);
        DataWriteKeepsFat(fs.geo, was, fs.img, sect);
        if ok {
          dirty := false;
        } else {
          res := FrDiskErr;
        }
      }
    }
  }

  /** Writing past the FAT leaves the table alone. */
  lemma DataWriteKeepsFat(g: Geometry, img: seq<Sector>, img': seq<Sector>, s: int)
    requires Holds(g, img) && |img'| == |img| && g.dataBase <= s
    requires forall i :: 0 <= i < |img| && i != s ==> img'[i] == img[i]
    ensures Table(g, img') == Table(g, img)
  {
    TableFrame(g, img, img');
  }

  /** Sectors of a chain are data sectors of the volume. */
  lemma InChainRange(fs: Volume, p: seq<nat>, s: int)
    requires fs.Valid() && InChain(fs.geo, p, s)
    ensures fs.geo.dataBase <= s < |fs.img| && 0 < s < 0xFFFF_FFFF
    ensures Holds(fs.geo, fs.img)
  {
  }

  /** A sector of the file is neither in the window nor that of the directory entry. */
  lemma ChainSector(f: File, s: int)
    requires f.Base() && InChain(f.fs.geo, f.chain, s)
    ensures f.fs.geo.InData(s) && f.fs.geo.dataBase <= s < |f.fs.img| && s != f.fs.winSect && s != f.dirSect
  {
  }

  /** A data sector that is not in the window is on the medium as in the image. */
  lemma SectorOnDisk(fs: Volume, s: int)
    requires fs.Valid() && fs.geo.dataBase <= s < |fs.img| && s != fs.winSect
    ensures s < |fs.disk.sectors| && fs.disk.sectors[s] == fs.img[s]
  {
  }

  /** Positions inside the file lie on its chain. */
  lemma PositionInChain(f: File, k: nat)
    requires f.Base() && k < f.objsize
    ensures PowerOfTwo(f.fs.geo.csize) && ClusterIndex(f.fs.geo, k) < |f.chain|
    ensures f.chain != [] && 2 <= f.chain[0] < f.fs.geo.nFatEnt && f.sclust == f.chain[0]
    ensures k == 0 ==> ClusterIndex(f.fs.geo, k) == 0
  {
    IndexMonotone(f.fs.geo, k, f.objsize - 1);
    NextCluster(f.fs.geo, 0);
  }

  /** The FAT entry of a chain element names the next one. */
  lemma ChainLink(f: File, i: nat)
    requires f.Base() && i < |f.chain|
    ensures 2 <= f.chain[i] < f.fs.geo.nFatEnt < DISK_ERROR
    ensures i + 1 < |f.chain| ==> Fat(f.fs)[f.chain[i]] == f.chain[i + 1] && 2 <= f.chain[i + 1] < f.fs.geo.nFatEnt
    ensures i + 1 == |f.chain| ==> Fat(f.fs)[f.chain[i]] >= f.fs.geo.nFatEnt
  {
    assert Links(Fat(f.fs), f.chain, i);
    if i + 1 < |f.chain| { assert Links(Fat(f.fs), f.chain, i + 1); }
  }

  /** Where the window may have moved to: away from the data region, so not onto a sector of a file. */
  lemma Elsewhere(g: Geometry, p: seq<nat>, was: int, now: int, s: int)
    requires now == was || !g.InData(now)
    ensures !InChain(g, p, was) ==> !InChain(g, p, now)
    ensures g.InData(s) && s != was ==> s != now
  {
  }

  /** `Base` and `Buffered` as a statement about values: FAT, image, chain, start cluster, size, window
      sector, place of the directory entry, and the buffer. */
  ghost predicate Consistent(g: Geometry, t: seq<u32>, img: seq<Sector>, p: seq<nat>, start: u32, n: nat, ws: int,
                             ds: int, ofs: nat, dirty: bool, sect: int, buf: seq<byte>) {
    && |buf| == SECTOR_SIZE && EntryRoom(g, ds, ofs) && sect != ds
    && Covers(g, t, p, start, n) && g.End() <= |img| && !InChain(g, p, ws) && EntryApart(g, t, p, ds)
    && (dirty ==> InChain(g, p, sect) && g.InData(sect) && sect != ws)
    && (!dirty && sect != 0 ==> g.dataBase <= sect < |img| && buf == img[sect])
  }

  /** The content a consistent file shows. */
  ghost function Shown(g: Geometry, t: seq<u32>, img: seq<Sector>, p: seq<nat>, start: u32, n: nat, ws: int, ds: int,
                       ofs: nat, dirty: bool, sect: int, buf: seq<byte>): seq<byte>
    requires Consistent(g, t, img, p, start, n, ws, ds, ofs, dirty, sect, buf)
  {
    Content(g, Overlay(img, dirty, sect, buf), p, n)
  }

  /** What an open file shows are the bytes of its clusters, in the order of its chain, up to its size. */
  lemma DataIsClusters(f: File)
    requires f.Base() && f.Buffered()
    ensures Placed(f.fs.geo, f.chain) && f.fs.geo.End() <= |f.Eff()| && f.objsize <= |f.chain| * ClusterBytes(f.fs.geo)
    ensures f.Data() == ChainData(f.fs.geo, f.Eff(), f.chain)[..f.objsize]
  {
    hide ChainData, Geometry.Valid, IsChain, Table, ByteAt, File.Allocated, EntryApart, Volume.Valid;
    ContentIsClusters(f.fs.geo, f.Eff(), f.chain, f.objsize);
  }

  /** Byte `o` of sector `i` of the `j`-th cluster of a file. */
  lemma DataByte(f: File, j: nat, i: nat, o: nat)
    requires f.Base() && f.Buffered() && j < |f.chain| && i < f.fs.geo.csize && o < SECTOR_SIZE
    ensures var k := (j * f.fs.geo.csize + i) * SECTOR_SIZE + o;
      var s := f.fs.geo.dataBase + f.fs.geo.csize * (f.chain[j] - 2) + i;
      0 <= k && 0 <= s < |f.Eff()| && (k < f.objsize ==> f.Data()[k] == f.Eff()[s][o])
  {
    hide Geometry.Valid, IsChain, Table, ByteAt, File.Allocated, EntryApart, Volume.Valid, Placed, Overlay;
    BytePlace(f.fs.geo, f.Eff(), f.chain, j, i, o);
  }

  lemma Parts(f: File)
    requires f.Base() && f.Buffered()
    ensures f.Allocated() && f.fs.Valid() && Holds(f.fs.geo, f.fs.img) && f.fs.geo.Valid() && f.buf != f.fs.win
    ensures f.sclust == 0 <==> f.chain == []
    ensures f.chain != [] ==> IsChain(Fat(f.fs), f.chain)
    ensures Consistent(f.fs.geo, Fat(f.fs), f.fs.img, f.chain, f.sclust, f.objsize, f.fs.winSect, f.dirSect, f.dirOfs,
                       f.dirty, f.sect, f.buf[..])
    ensures f.Data() == Shown(f.fs.geo, Fat(f.fs), f.fs.img, f.chain, f.sclust, f.objsize, f.fs.winSect, f.dirSect,
                              f.dirOfs, f.dirty, f.sect, f.buf[..])
  {
    hide IsChain, Table, Content;
  }

  lemma Whole(f: File)
    requires f.fs.Valid() && f.buf != f.fs.win
    requires Consistent(f.fs.geo, Fat(f.fs), f.fs.img, f.chain, f.sclust, f.objsize, f.fs.winSect, f.dirSect, f.dirOfs,
                        f.dirty, f.sect, f.buf[..])
    ensures f.Base() && f.Buffered() && f.Allocated()
    ensures f.Data() == Shown(f.fs.geo, Fat(f.fs), f.fs.img, f.chain, f.sclust, f.objsize, f.fs.winSect, f.dirSect,
                              f.dirOfs, f.dirty, f.sect, f.buf[..])
  {
    hide IsChain, Table, Content, Volume.Valid;
  }

  /** The window may move away from the data region. */
  lemma ConsistentMoved(g: Geometry, t: seq<u32>, img: seq<Sector>, p: seq<nat>, start: u32, n: nat, was: int, ds: int,
                        ofs: nat, dirty: bool, sect: int, buf: seq<byte>, ws: int)
    requires Consistent(g, t, img, p, start, n, was, ds, ofs, dirty, sect, buf)
    requires ws == was || !g.InData(ws)
    ensures Consistent(g, t, img, p, start, n, ws, ds, ofs, dirty, sect, buf)
    ensures Shown(g, t, img, p, start, n, ws, ds, ofs, dirty, sect, buf) ==
      Shown(g, t, img, p, start, n, was, ds, ofs, dirty, sect, buf)
  {
    hide Covers, EntryRoom, EntryApart, Content;
  }

  /** The facts of a consistent file with a clean buffer that a direct write needs. */
  lemma DirectParts(f: File)
    requires f.Base() && f.Buffered() && !f.dirty
    ensures Placed(f.fs.geo, f.chain) && Fits(f.fs.geo, f.chain, f.objsize) && !InChain(f.fs.geo, f.chain, f.fs.winSect)
    ensures f.fs.geo.End() <= |f.fs.img| && f.Data() == Content(f.fs.geo, f.fs.img, f.chain, f.objsize)
    ensures PowerOfTwo(f.fs.geo.csize) && f.buf.Length == SECTOR_SIZE
    ensures f.sect != 0 ==> f.sect < |f.fs.img| && f.buf[..] == f.fs.img[f.sect]
  {
  }

  lemma AllocatedFrom(f: File)
    requires f.fs.Valid() && f.buf.Length == SECTOR_SIZE && f.buf != f.fs.win
    requires EntryRoom(f.fs.geo, f.dirSect, f.dirOfs)
    requires f.sect != f.dirSect && !f.dirty
    ensures f.Allocated()
  {
  }

  lemma ConsistentFacts(g: Geometry, t: seq<u32>, img: seq<Sector>, p: seq<nat>, start: u32, n: nat, ws: int, ds: int,
                        ofs: nat, dirty: bool, sect: int, buf: seq<byte>)
    requires Consistent(g, t, img, p, start, n, ws, ds, ofs, dirty, sect, buf)
    ensures EntryRoom(g, ds, ofs) && sect != ds
  {
  }

  /** The same file after its sectors were written past a clean buffer. */
  lemma ConsistentWritten(g: Geometry, t: seq<u32>, img: seq<Sector>, p: seq<nat>, start: u32, n: nat, ws: int, ds: int,
                          ofs: nat, sect: int, buf: seq<byte>, img': seq<Sector>, n': nat, buf': seq<byte>)
    requires Consistent(g, t, img, p, start, n, ws, ds, ofs, false, sect, buf)
    requires |img'| == |img| && PowerOfTwo(g.csize) && Fits(g, p, n') && |buf'| == SECTOR_SIZE
    requires sect != 0 ==> 0 <= sect < |img'| && buf' == img'[sect]
    ensures Consistent(g, t, img', p, start, n', ws, ds, ofs, false, sect, buf')
    ensures Shown(g, t, img', p, start, n', ws, ds, ofs, false, sect, buf') == Content(g, img', p, n')
  {
    hide InChain, EntryRoom, EntryApart, Content, Fits;
  }

  /** The same file after cluster `c` was linked behind its chain. */
  lemma ConsistentGrown(g: Geometry, t: seq<u32>, img: seq<Sector>, p: seq<nat>, start: u32, n: nat, was: int, ds: int,
                        ofs: nat, dirty: bool, sect: u32, buf: seq<byte>, t': seq<u32>, img': seq<Sector>, c: nat,
                        ws: int)
    requires Holds(g, img) && Consistent(g, t, img, p, start, n, was, ds, ofs, dirty, sect, buf)
    requires SameOutsideFat(g, img, img') && |t'| == |t| == g.nFatEnt
    requires IsChain(t', p + [c]) && 0 < c < |t| < 0x1_0000_0000
    requires t[c] == 0 && forall d :: 0 <= d < |t| && d !in p && d != c ==> t'[d] == t[d]
    requires !g.InData(ws)
    ensures Consistent(g, t', img', p + [c], if start == 0 then c else start, n, ws, ds, ofs, dirty, sect, buf)
    ensures Shown(g, t', img', p + [c], if start == 0 then c else start, n, ws, ds, ofs, dirty, sect, buf) ==
      Shown(g, t, img, p, start, n, was, ds, ofs, dirty, sect, buf)
  {
    hide IsChain, Content, EntryRoom;
    GrownChain(g, p, t, img, t', img', c, start, n, dirty, sect, buf);
  }

  /** A window on the FAT is not on a data sector. */
  lemma FatIsNoData(fs: Volume, p: seq<nat>)
    requires fs.Valid()
    ensures fs.geo.InFat1(fs.winSect) ==> !InChain(fs.geo, p, fs.winSect) && !fs.geo.InData(fs.winSect)
  {
  }

  /** A direct transfer stays inside the data region of the volume. */
  lemma RangeOnVolume(f: File, o: nat, cc: nat)
    requires f.Base() && ClusterIndex(f.fs.geo, o) < |f.chain| && SectorInCluster(f.fs.geo, o) + cc <= f.fs.geo.csize
    ensures var s := SectorAt(f.fs.geo, f.chain, o);
      && f.fs.geo.dataBase <= s && s + cc <= |f.fs.img| == |f.fs.disk.sectors| <= 0xFFFF_FFFF
      && (forall i :: s <= i < s + cc ==> InChain(f.fs.geo, f.chain, i))
  {
    DirectRange(f.fs.geo, f.chain, o, cc);
  }

  lemma RangeBound(f: File, o: nat, cc: nat)
    requires f.Base() && ClusterIndex(f.fs.geo, o) < |f.chain| && SectorInCluster(f.fs.geo, o) + cc <= f.fs.geo.csize
    ensures SectorAt(f.fs.geo, f.chain, o) + cc <= |f.fs.img| <= 0xFFFF_FFFF
  {
    RangeOnVolume(f, o, cc);
  }

  /** After a direct write the refreshed buffer shows its sector again. */
  lemma RefreshedBuffer(img: seq<Sector>, img': seq<Sector>, s: int, cc: nat, w: seq<byte>, sect: int, buf: seq<byte>,
                        buf': seq<byte>)
    requires 0 <= s && s + cc <= |img'| == |img| && |w| == cc * SECTOR_SIZE
    requires forall i :: s <= i < s + cc ==> img'[i] == w[(i - s) * SECTOR_SIZE..(i - s + 1) * SECTOR_SIZE]
    requires forall i :: 0 <= i < |img'| && !(s <= i < s + cc) ==> img'[i] == img[i]
    requires sect != 0 ==> 0 <= sect < |img| && buf == img[sect]
    requires buf' == if s <= sect < s + cc then w[(sect - s) * SECTOR_SIZE..(sect - s + 1) * SECTOR_SIZE] else buf
    ensures sect != 0 ==> buf' == img'[sect]
  {
  }

  /** The transferred bytes with the sector of the dirty buffer laid over them. */
  function Patched(raw: seq<byte>, buf: seq<byte>, dirty: bool, sect: u32, s: u32, cc: nat): (r: seq<byte>)
    requires |raw| == cc * SECTOR_SIZE && |buf| == SECTOR_SIZE
    ensures |r| == |raw|
  {
    var d := Wrap32(sect - s);
    if dirty && d < cc then
      raw[..d * SECTOR_SIZE] + buf + raw[(d + 1) * SECTOR_SIZE..]
    else raw
  }

  lemma PatchedByte(raw: seq<byte>, buf: seq<byte>, dirty: bool, sect: u32, s: u32, cc: nat, k: nat)
    requires |raw| == cc * SECTOR_SIZE && |buf| == SECTOR_SIZE && k < |raw| && s + cc <= 0xFFFF_FFFF
    ensures Patched(raw, buf, dirty, sect, s,
                    cc)[k] == if dirty && sect == s + k / SECTOR_SIZE then buf[k % SECTOR_SIZE] else raw[k]
  {
    if sect < s {
      assert Wrap32(sect - s) == sect - s + 0x1_0000_0000;
    } else {
      assert Wrap32(sect - s) == sect - s;
    }
  }

  /** After the overlay a direct transfer holds what the file sees in those sectors. */
  lemma PatchedIsEff(f: File, s: u32, cc: nat)
    requires f.Base() && f.Buffered() && f.fs.geo.dataBase <= s
    requires s + cc <= |f.fs.img| == |f.fs.disk.sectors| <= 0xFFFF_FFFF
    requires forall i :: s <= i < s + cc ==> InChain(f.fs.geo, f.chain, i)
    ensures var raw := Flatten(f.fs.disk.sectors, s, cc);
      forall k :: 0 <= k < cc * SECTOR_SIZE ==>
        Patched(raw, f.buf[..], f.dirty, f.sect, s, cc)[k] == f.Eff()[s + k / SECTOR_SIZE][k % SECTOR_SIZE]
  {
    hide IsChain, Geometry.Valid, Volume.Valid, Table, Fits, PowerOfTwo, Patched, InChain;
    var raw := Flatten(f.fs.disk.sectors, s, cc);
    forall k | 0 <= k < cc * SECTOR_SIZE
      ensures Patched(raw, f.buf[..], f.dirty, f.sect, s, cc)[k] == f.Eff()[s + k / SECTOR_SIZE][k % SECTOR_SIZE]
    {
      assert InChain(f.fs.geo, f.chain, s + k / SECTOR_SIZE);
      SectorOnDisk(f.fs, s + k / SECTOR_SIZE);
      PatchedByte(raw, f.buf[..], f.dirty, f.sect, s, cc, k);
    }
  }

  /** While the buffer shows the sector of byte `o`, its bytes are bytes of the file. */
  lemma BufferIsData(f: File, o: nat, len: nat)
    requires f.Base() && f.Buffered() && ClusterIndex(f.fs.geo, o) < |f.chain|
    requires f.sect == SectorAt(f.fs.geo, f.chain, o)
    requires o % SECTOR_SIZE + len <= SECTOR_SIZE && o + len <= f.objsize && len > 0
    ensures f.buf[..][o % SECTOR_SIZE..o % SECTOR_SIZE + len] == f.Data()[o..o + len]
    ensures ClusterIndex(f.fs.geo, o + len - 1) == ClusterIndex(f.fs.geo, o)
    ensures (o + len) % SECTOR_SIZE != 0 ==>
      ClusterIndex(f.fs.geo, o + len) < |f.chain| && SectorAt(f.fs.geo, f.chain, o + len) == f.sect
  {
    SectorAtInChain(f.fs.geo, f.chain, o);
    BufferIsSector(f);
    SectorBytes(f.fs.geo, f.Eff(), f.chain, f.objsize, o, len);
    AdvanceInSector(f.fs.geo, f.chain, o, len);
  }

  /** The buffer shows its sector. */
  lemma BufferIsSector(f: File)
    requires f.Base() && f.Buffered() && InChain(f.fs.geo, f.chain, f.sect)
    ensures f.sect < |f.Eff()| && f.buf[..] == f.Eff()[f.sect]
  {
  }

  lemma OnlyChainRefl(g: Geometry, p: seq<nat>, img: seq<Sector>)
    ensures OnlyChainSectors(g, p, img, img)
  {
  }

  lemma OnlyChainTrans(g: Geometry, p: seq<nat>, a: seq<Sector>, b: seq<Sector>, c: seq<Sector>)
    requires OnlyChainSectors(g, p, a, b) && OnlyChainSectors(g, p, b, c)
    ensures OnlyChainSectors(g, p, a, c)
  {
  }

  /** The start cluster is the first of the chain. */
  lemma StartCluster(f: File)
    requires f.Base()
    ensures f.sclust == 0 <==> f.chain == []
    ensures f.chain != [] ==> f.sclust == f.chain[0] && 2 <= f.sclust < f.fs.geo.nFatEnt < DISK_ERROR
  {
    hide IsChain, Table, Volume.Valid;
    if f.chain != [] {
      GeometryFits(f.fs);
      assert 2 <= f.chain[0] < f.fs.geo.nFatEnt;
    }
  }

  lemma GeometryFits(fs: Volume)
    requires fs.Valid()
    ensures fs.geo.nFatEnt < DISK_ERROR
  {
  }

  /** `clust` holds the byte before the file pointer. */
  lemma CursorCluster(f: File)
    requires f.Base() && f.Buffered() && f.Cursor()
    ensures PowerOfTwo(f.fs.geo.csize)
    ensures f.fptr > 0 ==>
      ClusterIndex(f.fs.geo, f.fptr - 1) < |f.chain| && f.clust == f.chain[ClusterIndex(f.fs.geo, f.fptr - 1)]
    ensures forall i :: 0 <= i < |f.chain| ==> 2 <= f.chain[i]
  {
    hide IsChain, Table, Volume.Valid, ClusterIndex;
  }

  /** Where the file pointer of a write on a cluster boundary stands on the chain. */
  lemma WritePosition(f: File)
    requires f.Base() && f.Buffered() && f.Cursor() && PowerOfTwo(f.fs.geo.csize)
    requires f.fptr % SECTOR_SIZE == 0 && SectorInCluster(f.fs.geo, f.fptr) == 0
    ensures f.fptr == 0 ==> ClusterIndex(f.fs.geo, f.fptr) == 0
    ensures f.chain != [] ==> 2 <= f.sclust < f.fs.geo.nFatEnt < DISK_ERROR
    ensures f.sclust == 0 <==> f.chain == []
    ensures f.chain != [] ==> f.sclust == f.chain[0]
    ensures f.fptr > 0 ==> ClusterIndex(f.fs.geo, f.fptr) == ClusterIndex(f.fs.geo, f.fptr - 1) + 1 <= |f.chain|
    ensures f.fptr > 0 ==> f.chain != [] && f.clust == f.chain[ClusterIndex(f.fs.geo, f.fptr - 1)] && f.clust != 0
  {
    hide File.Base, File.Buffered, File.Cursor, ClusterIndex, SectorInCluster, PowerOfTwo;
    StartCluster(f);
    CursorCluster(f);
    NextCluster(f.fs.geo, f.fptr);
  }

  lemma HoldsImage(fs: Volume)
    requires fs.Valid()
    ensures Holds(fs.geo, fs.img) && fs.geo.Valid() && fs.geo.End() <= |fs.img| && PowerOfTwo(fs.geo.csize)
  {
  }

  /** Linking cluster `c` behind the chain leaves the rest of the volume alone. */
  lemma KeptConfined(ok: bool, g: Geometry, p: seq<nat>, t: seq<u32>, img: seq<Sector>, t': seq<u32>,
                     img': seq<Sector>, i: nat, c: nat)
    requires |t'| == |t| && SameOutsideFat(g, img, img')
    requires forall d :: 0 <= d < |t| && d !in p && d != c && (ok || t[d] != 0) ==> t'[d] == t[d]
    ensures t' == t ==> Confined(ok, g, p, t, img, p, t', img')
    ensures !ok ==> c >= |t| ==> Confined(ok, g, p, t, img, p, t', img')
    ensures c < |t| && t[c] == 0 ==> Confined(ok, g, p, t, img, p + [c], t', img')
  {
  }

  /** The file after cluster `c` was linked behind its chain: same bytes, and the buffer still fits. */
  lemma GrownChain(g: Geometry, p: seq<nat>, t: seq<u32>, img: seq<Sector>, t': seq<u32>, img': seq<Sector>, c: nat,
                   start: u32, n: nat, dirty: bool, sect: u32, buf: seq<byte>)
    requires Holds(g, img) && SameOutsideFat(g, img, img') && Covers(g, t, p, start, n) && g.End() <= |img|
    requires |t'| == g.nFatEnt && IsChain(t', p + [c]) && |buf| == SECTOR_SIZE && 0 < c < 0x1_0000_0000
    requires dirty ==> InChain(g, p, sect)
    ensures Covers(g, t', p + [c], if start == 0 then c else start, n) && |img'| == |img|
    ensures dirty ==> InChain(g, p + [c], sect)
    ensures !dirty && g.dataBase <= sect < |img| ==> img'[sect] == img[sect]
    ensures dirty ==> sect < |img|
    ensures Content(g, Overlay(img', dirty, sect, buf), p + [c], n) == Content(g, Overlay(img, dirty, sect, buf), p, n)
  {
    ChainIsPlaced(g, t', p + [c]);
    hide IsChain, Content;
    var eff, eff' := Overlay(img, dirty, sect, buf), Overlay(img', dirty, sect, buf);
    ContentFrame(g, eff, eff', p, n);
    ContentGrows(g, eff', p, p + [c], n);
  }

  /** `create_chain` on the chain `p`, called with its `i`-th cluster (or 0 when `p` is empty). */
  method CallCreateChain(fs: Volume, at: u32, ghost p: seq<nat>, ghost i: nat) returns (clst: u32)
    requires fs.Valid()
    requires if p == [] then at == 0 else IsChain(Fat(fs), p) && i < |p| && at == p[i]
    modifies fs`wflag, fs`winSect, fs`img, fs`freeClst, fs`lastClst, fs`fsiDirty, fs.win, fs.disk
    ensures fs.Valid()
    ensures fs.winSect == old(fs.winSect) || !fs.geo.InData(fs.winSect)
    ensures clst == 0 ==> fs.freeClst == 0 || FreeClusters(Fat(fs)) == 0
    ensures clst == 1 ==> !NoOnes(old(Fat(fs)))
    ensures clst < 2 || (i + 1 < |p| && clst != DISK_ERROR) ==>
      Fat(fs) == old(Fat(fs)) && fs.img == old(fs.img) && (fs.wflag ==>
        old(fs.wflag)) && fs.fsiDirty == old(fs.fsiDirty)
    ensures i + 1 < |p| ==> clst == DISK_ERROR || clst == p[i + 1] >= 2
    ensures clst != DISK_ERROR ==> clst < fs.geo.nFatEnt
    ensures 2 <= clst < DISK_ERROR && i + 1 >= |p| ==> IsChain(Fat(fs), p + [clst as nat]) && old(Fat(fs))[clst] == 0
    ensures forall d ::
      0 <= d < fs.geo.nFatEnt && d !in p && d != clst && (clst != DISK_ERROR || old(Fat(fs))[d] != 0) ==>
      Fat(fs)[d] == old(Fat(fs))[d]
    ensures clst != DISK_ERROR ==> fs.geo.InFat1(fs.winSect) || (fs.img == old(fs.img) && fs.winSect == old(fs.winSect))
    ensures 2 <= clst < DISK_ERROR && i + 1 >= |p| ==> fs.geo.InFat1(fs.winSect)
    ensures SameOutsideFat(fs.geo, old(fs.img), fs.img)
    ensures clst != DISK_ERROR ==> KeepsCount(old(AllocOf(fs)), AllocOf(fs))
    ensures fs.disk.reliable ==> clst != DISK_ERROR
    ensures fs.disk.reliable && old(fs.Mirrored()) ==> fs.Mirrored()
  {
    hide IsChain, Geometry.Valid, Volume.Valid, Table, Volume.Mirrored, AllocSpec.CreateChain, SameOutsideFat, Eoc,
         FreeClusters, NoOnes;
    HoldsImage(fs);
    ghost var s := AllocOf(fs);
    CreateOnChain(s, Eoc(fs.geo), p, i, at);
    CreateKeepsCount(s, Eoc(fs.geo), at);
    if p != [] { ChainElement(fs, p, i); }
    clst := Allocator.CreateChain(fs, at);
    if 2 <= clst < DISK_ERROR && i + 1 >= |p| {
      OnChain(Fat(fs), p + [clst as nat], clst);
    }
  }

  lemma ChainElement(fs: Volume, p: seq<nat>, i: nat)
    requires fs.Valid() && i < |p| && IsChain(Fat(fs), p)
    ensures p[i] in p && 2 <= p[i] < fs.geo.nFatEnt < DISK_ERROR
    ensures i + 1 < |p| ==> 2 <= p[i + 1] < fs.geo.nFatEnt
  {
    assert Links(Fat(fs), p, i);
    if i + 1 < |p| { assert Links(Fat(fs), p, i + 1); }
  }

  lemma OverlayAgain(img: seq<Sector>, dirty: bool, sect: int, was: seq<byte>, d: Sector)
    requires 0 <= sect < |img| && |was| == SECTOR_SIZE
    ensures Overlay(img, true, sect, d) == Overlay(img, dirty, sect, was)[sect := d]
  {
  }

  /** Writing `w` into a copy of the sector of byte `o`. */
  lemma PutInSector(g: Geometry, eff: seq<Sector>, p: seq<nat>, n: nat, o: nat, w: seq<byte>, was: seq<byte>, d: Sector)
    requires Placed(g, p) && g.End() <= |eff| && Fits(g, p, n) && o <= n && |w| > 0
    requires o % SECTOR_SIZE + |w| <= SECTOR_SIZE && ClusterIndex(g, o) < |p| && 0 <= SectorAt(g, p, o) < |eff|
    requires |was| == SECTOR_SIZE && d == was[..o % SECTOR_SIZE] + w + was[o % SECTOR_SIZE + |w|..]
    requires o - o % SECTOR_SIZE < n ==> was == eff[SectorAt(g, p, o)]
    ensures Fits(g, p, Max(n, o + |w|))
    ensures Content(g, eff[SectorAt(g, p, o) := d], p, Max(n, o + |w|)) == Splice(Content(g, eff, p, n), o, w)
  {
    hide Placed, Content, Splice, Fits;
    WriteInSector(g, eff, p, n, o, w, d);
  }

  /** `disk_write` of `cc` sectors of a file, one after the other. */
  method WriteSectors(fs: Volume, ghost p: seq<nat>, ghost o: nat, ghost n: nat, s: u32, cc: nat, w: seq<byte>)
    returns (res: FResult)
    requires fs.Valid() && Placed(fs.geo, p) && Fits(fs.geo, p, n) && o <= n && !InChain(fs.geo, p, fs.winSect)
    requires o % SECTOR_SIZE == 0 && ClusterIndex(fs.geo, o) < |p| && SectorInCluster(fs.geo, o) + cc <= fs.geo.csize
    requires s == SectorAt(fs.geo, p, o) && |w| == cc * SECTOR_SIZE && fs.geo.End() <= |fs.img|
    modifies fs`img, fs.disk
    ensures fs.Valid() && |fs.img| == |old(fs.img)|
    ensures res == FrOk || res == FrDiskErr
    ensures OnlyChainSectors(fs.geo, p, old(fs.img), fs.img)
    ensures Fat(fs) == old(Fat(fs))
    ensures res == FrOk ==> Fits(fs.geo, p, Max(n, o + |w|))
    ensures res == FrOk ==>
      Content(fs.geo, fs.img, p, Max(n, o + |w|)) == Splice(Content(fs.geo, old(fs.img), p, n), o, w)
    ensures res == FrOk ==> forall i :: s <= i < s + cc ==>
      i < |fs.img| && fs.img[i] == w[(i - s) * SECTOR_SIZE..(i - s + 1) * SECTOR_SIZE]
    ensures forall i :: 0 <= i < |fs.img| && !(s <= i < s + cc) ==> fs.img[i] == old(fs.img)[i]
    ensures fs.disk.reliable ==> res == FrOk
    ensures old(fs.Mirrored()) ==> fs.Mirrored()
  {
    hide Placed, Geometry.Valid, Volume.Valid, Table, Volume.Mirrored, InChain, PowerOfTwo, Content, SectorAt,
         ClusterIndex, SectorInCluster, Splice;
    res := FrOk;
    ghost var c := Content(fs.geo, fs.img, p, n);
    DirectRange(fs.geo, p, o, cc);
    HoldsImage(fs);
    SpliceNothing(c, o);
    var j := 0;
    while j < cc
      invariant 0 <= j <= cc && res == FrOk
      invariant fs.Valid() && |fs.img| == |old(fs.img)|
      invariant Fat(fs) == old(Fat(fs))
      invariant Fits(fs.geo, p, Max(n, o + j * SECTOR_SIZE))
      invariant Content(fs.geo, fs.img, p, Max(n, o + j * SECTOR_SIZE)) == Splice(c, o, w[..j * SECTOR_SIZE])
      invariant forall i :: s <= i < s + j ==> fs.img[i] == w[(i - s) * SECTOR_SIZE..(i - s + 1) * SECTOR_SIZE]
      invariant forall i :: 0 <= i < |fs.img| && !(s <= i < s + cc) ==> fs.img[i] == old(fs.img)[i]
      invariant old(fs.Mirrored()) ==> fs.Mirrored()
    {
      ghost var img := fs.img;
      var d := w[j * SECTOR_SIZE..(j + 1) * SECTOR_SIZE];
      assert InChain(fs.geo, p, s + j);
      NextSectorWrite(fs.geo, img, p, n, o, j, cc, c, w);
      var ok := fs.WriteData(s + j, d);
      DataWriteKeepsFat(fs.geo, img, fs.img, s + j);
      if !ok { return FrDiskErr; }
      j := j + 1;
    }
    assert w[..cc * SECTOR_SIZE] == w;
  }

  /** One more whole sector of a direct write. */
  lemma NextSectorWrite(g: Geometry, img: seq<Sector>, p: seq<nat>, n: nat, o: nat, j: nat, cc: nat, c: seq<byte>,
                        w: seq<byte>)
    requires Placed(g, p) && g.End() <= |img| && o <= n && j < cc && |w| == cc * SECTOR_SIZE
    requires o % SECTOR_SIZE == 0 && ClusterIndex(g, o) < |p| && SectorInCluster(g, o) + cc <= g.csize
    requires Fits(g, p, Max(n, o + j * SECTOR_SIZE)) && |c| == n
    requires Content(g, img, p, Max(n, o + j * SECTOR_SIZE)) == Splice(c, o, w[..j * SECTOR_SIZE])
    ensures 0 <= SectorAt(g, p, o) + j < |img|
    ensures var d: Sector := w[j * SECTOR_SIZE..(j + 1) * SECTOR_SIZE];
      && Fits(g, p, Max(n, o + (j + 1) * SECTOR_SIZE))
      && Content(g, img[SectorAt(g, p, o) + j := d], p, Max(n, o + (j + 1) * SECTOR_SIZE)) ==
           Splice(c, o, w[..(j + 1) * SECTOR_SIZE])
  {
    hide Content, Splice, Fits, SectorAt, ClusterIndex, SectorInCluster;
    var d: Sector := w[j * SECTOR_SIZE..(j + 1) * SECTOR_SIZE];
    var o' := o + j * SECTOR_SIZE;
    SectorAtSteps(g, p, o, j);
    DirectRange(g, p, o, cc);
    assert o' % SECTOR_SIZE == 0;
    WriteWholeSector(g, img, p, Max(n, o'), o', d);
    SpliceSplice(c, o, w[..j * SECTOR_SIZE], d);
    assert w[..j * SECTOR_SIZE] + d == w[..(j + 1) * SECTOR_SIZE];
  }

  lemma WrapRange(sect: u32, s: u32, cc: nat)
    requires s + cc <= 0xFFFF_FFFF
    ensures Wrap32(sect - s) < cc <==> s <= sect < s + cc
    ensures s <= sect ==> Wrap32(sect - s) == sect - s
  {
    if sect < s {
      assert Wrap32(sect - s) == sect - s + 0x1_0000_0000;
    }
  }

  /** Where the cursor stands on a sector boundary inside a cluster. */
  lemma AtBoundary(f: File)
    requires f.Base() && f.Buffered() && f.Cursor() && f.fptr % SECTOR_SIZE == 0
    ensures PowerOfTwo(f.fs.geo.csize)
    ensures SectorInCluster(f.fs.geo, f.fptr) != 0 ==> f.At()
  {
    NextCluster(f.fs.geo, f.fptr);
  }

  lemma CursorFacts(f: File)
    requires f.Base() && f.Buffered() && f.Cursor()
    ensures f.Allocated() && f.fs.Valid() && PowerOfTwo(f.fs.geo.csize)
    ensures f.fptr <= f.objsize && Clusters(f.fs.geo, f.fptr) <= |f.chain|
  {
  }

  /** A file without error shows all its content. */
  lemma SalvagedNow(f: File, n: nat)
    requires f.Base() && f.Buffered() && n <= f.objsize
    ensures f.Salvaged(f.Data()[..n])
  {
    hide IsChain, Table, Content, EntryRoom, EntryApart;
    ContentPrefix(f.fs.geo, f.Eff(), f.chain, f.objsize, n);
  }

  lemma BaseFacts(f: File)
    requires f.Base()
    ensures f.Allocated() && f.fs.Valid() && f.fs.geo.Valid() && PowerOfTwo(f.fs.geo.csize)
    ensures Clusters(f.fs.geo, 0) == 0 && Clusters(f.fs.geo, f.objsize) <= |f.chain|
    ensures IsChainOrNone(Fat(f.fs), f.chain)
  {
  }

  lemma FirstCluster(g: Geometry, n: nat)
    requires PowerOfTwo(g.csize)
    ensures n > 0 ==> Clusters(g, n) >= 1
    ensures Clusters(g, 0) == 0
  {
  }

  lemma BoundaryCursor(f: File, o: nat)
    requires f.Base() && f.Buffered() && o < f.fptr <= f.objsize && f.fptr % SECTOR_SIZE == 0
    requires PowerOfTwo(f.fs.geo.csize) && ClusterIndex(f.fs.geo, f.fptr - 1) == ClusterIndex(f.fs.geo, o) < |f.chain|
    requires f.clust == f.chain[ClusterIndex(f.fs.geo, o)]
    ensures f.Cursor()
  {
  }

  /** On a sector boundary behind the chain there is no room for a byte. */
  lemma BoundaryFull(g: Geometry, p: seq<nat>, o: nat)
    requires PowerOfTwo(g.csize) && ClusterIndex(g, o) >= |p|
    ensures !Fits(g, p, o + 1)
  {
  }

  lemma ClustersMonotone(g: Geometry, m: nat, n: nat)
    requires PowerOfTwo(g.csize) && m <= n
    ensures Clusters(g, m) <= Clusters(g, n)
  {
    if m > 0 { IndexMonotone(g, m - 1, n - 1); }
  }

  /** After bytes from `o` on were written the chain is no longer than they need. */
  lemma ChainLength(f: File, len: nat, o: nat)
    requires f.Base() && f.Buffered() && f.Cursor() && o < f.fptr && PowerOfTwo(f.fs.geo.csize)
    requires |f.chain| == len || |f.chain| == Max(len, ClusterIndex(f.fs.geo, o) + 1)
    ensures |f.chain| == Max(len, Clusters(f.fs.geo, f.fptr))
  {
    IndexMonotone(f.fs.geo, o, f.fptr - 1);
  }

  /** Where the cursor stands inside a sector: the buffer shows it. */
  lemma MidSector(f: File)
    requires f.Base() && f.Buffered() && f.Cursor() && f.fptr % SECTOR_SIZE != 0
    ensures f.At() && InChain(f.fs.geo, f.chain, f.sect) && f.sect < |f.fs.img|
    ensures f.sect == SectorAt(f.fs.geo, f.chain, f.fptr)
    ensures f.Eff() == Overlay(f.fs.img, f.dirty, f.sect, f.buf[..])
    ensures f.Data() == Content(f.fs.geo, f.Eff(), f.chain, f.objsize)
    ensures f.buf[..] == f.Eff()[f.sect]
  {
    SameCluster(f.fs.geo, f.fptr);
    SectorAtInChain(f.fs.geo, f.chain, f.fptr);
    BufferIsSector(f);
  }

  /** If more than a cluster is left to go inside the covered part, the chain goes on. */
  lemma MoreClusters(g: Geometry, p: seq<nat>, j: nat, rest: nat)
    requires PowerOfTwo(g.csize) && j < |p| && rest > ClusterBytes(g)
    ensures ClusterBytes(g) > 0
    ensures (j + 1) * ClusterBytes(g) == j * ClusterBytes(g) + ClusterBytes(g)
    ensures Fits(g, p, j * ClusterBytes(g) + rest) ==> j + 1 < |p|
  {
    var x := j * ClusterBytes(g);
    PositionInCluster(g, j + 1, 1);
    assert (j + 1) * ClusterBytes(g) == x + ClusterBytes(g);
    IndexMonotone(g, (j + 1) * ClusterBytes(g), x + rest - 1);
  }

  /** Behind the last cluster of the chain. */
  lemma ClusterEnd(g: Geometry, p: seq<nat>, j: nat)
    requires PowerOfTwo(g.csize) && j + 1 == |p|
    ensures ClusterBytes(g) > 0 && (j * ClusterBytes(g) + ClusterBytes(g)) % SECTOR_SIZE == 0
    ensures ClusterIndex(g, j * ClusterBytes(g) + ClusterBytes(g) - 1) == j
    ensures Fits(g, p, j * ClusterBytes(g) + ClusterBytes(g))
    ensures Clusters(g, j * ClusterBytes(g) + ClusterBytes(g)) == j + 1
    ensures !Fits(g, p, j * ClusterBytes(g) + ClusterBytes(g) + 1)
  {
    PositionInCluster(g, j, ClusterBytes(g));
    PositionInCluster(g, j + 1, 1);
    assert (j + 1) * ClusterBytes(g) == j * ClusterBytes(g) + ClusterBytes(g);
  }

  /** The sector `f_lseek` computes for a landing inside a sector. */
  lemma SeekLanding(g: Geometry, p: seq<nat>, j: nat, rest: nat)
    requires g.Valid() && j < |p| && 0 < rest <= ClusterBytes(g)
    ensures var x := j * ClusterBytes(g) + rest;
      && Fits(g, p, x) && x > 0 && Clusters(g, x) == j + 1
      && (rest % SECTOR_SIZE != 0 ==>
        ClusterIndex(g, x) == j && SectorAt(g, p, x) == g.ClusterToSector(p[j]) + rest / SECTOR_SIZE)
  {
    PositionInCluster(g, j, rest);
  }

  /** Facts `f_lseek` relies on before it moves. */
  lemma SeekPosition(f: File, ofs: u32)
    requires f.Base() && f.Buffered() && f.Cursor() && ofs > 0
    ensures PowerOfTwo(f.fs.geo.csize)
    ensures !f.writable && ofs <= f.objsize ==> Fits(f.fs.geo, f.chain, ofs) && f.chain != []
    ensures f.chain == [] ==>
      f.fptr == 0 && Fits(f.fs.geo, f.chain, 0) && !Fits(f.fs.geo, f.chain, 1) && !Fits(f.fs.geo, f.chain, ofs)
    ensures f.chain != [] ==> 2 <= f.sclust < f.fs.geo.nFatEnt < DISK_ERROR && f.sclust == f.chain[0]
    ensures f.sclust == 0 <==> f.chain == []
    ensures f.fptr > 0 ==>
      ClusterIndex(f.fs.geo, f.fptr - 1) < |f.chain| && f.clust == f.chain[ClusterIndex(f.fs.geo, f.fptr - 1)]
  {
    StartCluster(f);
    CursorCluster(f);
    FitsMonotone(f);
    hide File.Base, File.Buffered, File.Cursor, ClusterIndex, PowerOfTwo;
  }

  lemma EmptyFits(g: Geometry)
    requires PowerOfTwo(g.csize)
    ensures Fits(g, [], 0) && !Fits(g, [], 1)
  {
  }

  /** Where `f_lseek` restarts when the target is not before the current cluster. */
  lemma RestartPosition(g: Geometry, ifptr: nat, ofs: nat)
    requires PowerOfTwo(g.csize) && ifptr > 0 && ofs > 0
    ensures ClusterBytes(g) > 0
    ensures var k := (ifptr - 1) / ClusterBytes(g);
      && k == ClusterIndex(g, ifptr - 1)
      && ((ofs - 1) / ClusterBytes(g) >= k ==> 0 <= k * ClusterBytes(g) < ofs)
  {
    var k, q, c := (ifptr - 1) / ClusterBytes(g), (ofs - 1) / ClusterBytes(g), ClusterBytes(g);
    ClusterBytesIndex(g, ifptr - 1);
    ClusterBytesIndex(g, ofs - 1);
    hide PowerOfTwo, ClusterBytes, ClusterIndex;
    if q >= k { TimesMonotone(k, q, c); }
  }

  lemma BytesPositive(g: Geometry)
    requires PowerOfTwo(g.csize)
    ensures ClusterBytes(g) > 0
  {
  }

  lemma TimesMonotone(k: int, q: int, c: int)
    requires 0 <= k <= q && c >= 0
    ensures 0 <= k * c <= q * c
  {
  }

  /** Everything before the end of file is covered by the chain. */
  lemma FitsMonotone(f: File)
    requires f.Base()
    ensures forall x: nat :: x <= f.objsize ==> Fits(f.fs.geo, f.chain, x)
  {
    forall x: nat | x <= f.objsize ensures Fits(f.fs.geo, f.chain, x) {
      if x > 0 { IndexMonotone(f.fs.geo, x - 1, f.objsize - 1); }
    }
  }

  /** What the file would show with a larger size starts with what it shows now. */
  lemma PrefixOfData(f: File, n: nat)
    requires f.Base() && f.Buffered() && Fits(f.fs.geo, f.chain, n) && n >= f.objsize
    ensures f.Data() <= Content(f.fs.geo, f.Eff(), f.chain, n)
  {
    hide Content;
    ContentPrefix(f.fs.geo, f.Eff(), f.chain, n, f.objsize);
  }
}
