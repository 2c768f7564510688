/** A file through a whole life: mounted, opened, worked on, synced, and found again by the next mount; and
    two files open side by side. */
module Lifetimes {
  import opened Wrappers
  import opened Bytes
  import opened Layout
  import opened Window
  import opened FatTable
  import opened FatAccess
  import opened Chains
  import opened AllocSpec
  import opened Allocator
  import opened FileView
  import opened FileObject
  import opened Truncation
  import opened Durability
  import opened FileRuns

  /** The boot sector is neither part of a file nor of the FAT nor does it hold a directory entry. */
  lemma BootSectorKept(ok: bool, g: Geometry, ds: int, ofs: nat, p: seq<nat>, t: seq<u32>, img: seq<Sector>,
                       p': seq<nat>, t': seq<u32>, img': seq<Sector>)
    requires Spared(ok, g, ds, ofs, p, t, img, p', t', img') && g.Valid() && EntryRoom(g, ds, ofs) && g.End() <= |img|
    ensures |img'| == |img| && g.volBase < |img| && img'[g.volBase] == img[g.volBase]
  {
    assert !OwnSector(g, p, t, g.volBase);
  }

  lemma EntryWithoutInfo(g: Geometry, x: bool, sectors: seq<Sector>, c: nat)
    requires Holds(g, sectors) && Holds(g.(fsInfo := x), sectors) && c < g.nFatEnt
    ensures Entry(g.(fsInfo := x), sectors, c) == Entry(g, sectors, c)
  {
    hide Decode12, Decode16, Decode32;
  }

  lemma TableWithoutInfo(g: Geometry, x: bool, sectors: seq<Sector>)
    requires Holds(g, sectors) && g.(fsInfo := x).Valid()
    ensures Holds(g.(fsInfo := x), sectors) && Table(g.(fsInfo := x), sectors) == Table(g, sectors)
  {
    var h := g.(fsInfo := x);
    assert h.End() == g.End();
    forall c | 0 <= c < g.nFatEnt
      ensures Entry(h, sectors, c) == Entry(g, sectors, c)
    {
      EntryWithoutInfo(g, x, sectors, c);
    }
  }

  lemma ContentWithoutInfo(g: Geometry, x: bool, sectors: seq<Sector>, p: seq<nat>, n: nat)
    requires Placed(g, p) && g.End() <= |sectors| && Fits(g, p, n) && g.(fsInfo := x).Valid()
    ensures var h := g.(fsInfo := x);
      Placed(h, p) && h.End() == g.End() && Fits(h, p, n) && Content(h, sectors, p, n) == Content(g, sectors, p, n)
  {
    var h := g.(fsInfo := x);
    assert forall k :: 0 <= k < n ==> ByteAt(h, sectors, p, k) == ByteAt(g, sectors, p, k);
  }

  /** What a file is does not depend on whether an FSInfo sector is maintained. */
  lemma StoredWithoutInfo(g: Geometry, x: bool, sectors: seq<Sector>, ds: int, ofs: nat, p: seq<nat>, c: seq<byte>)
    requires Stored(g, sectors, ds, ofs, p, c) && g.(fsInfo := x).Valid() && Holds(g, sectors)
    ensures Stored(g.(fsInfo := x), sectors, ds, ofs, p, c)
  {
    hide Content, Table, IsChain, LoadStart, LdDword;
    TableWithoutInfo(g, x, sectors);
    ContentWithoutInfo(g, x, sectors, p, |c|);
  }

  /** The counts the next mount starts from are right or unknown. */
  ghost predicate RightCounts(g: Geometry, sectors: seq<Sector>) {
    Holds(g, sectors) && (g.fsInfo ==> g.volBase + 1 < |sectors|) &&
    var counts := MountedCounts(g, sectors); Accurate(Alloc(Table(g, sectors), counts.0, counts.1))
  }

  /** Two mounts from the same boot sector differ at most in whether FSInfo could be read. */
  lemma SameMount(b: BootSector, bsect: u32, g: Geometry, h: Geometry)
    requires MountFat(b, bsect, g.fsInfo) == Some(g) && MountFat(b, bsect, h.fsInfo) == Some(h)
    ensures h == g.(fsInfo := h.fsInfo)
  {
    InfoIsOptional(b, bsect);
    hide MountFat;
  }

  /** A file as it stands on a medium, with the place of its directory entry. */
  ghost predicate Resting(g: Geometry, sectors: seq<Sector>, ds: u32, ofs: nat, p: seq<nat>, c: seq<byte>) {
    && g.Valid() && Holds(g, sectors) && Stored(g, sectors, ds, ofs, p, c)
    && EntryRoom(g, ds, ofs) && EntryApart(g, Table(g, sectors), p, ds)
  }

  lemma RestingWithoutInfo(g: Geometry, h: Geometry, sectors: seq<Sector>, ds: u32, ofs: nat, p: seq<nat>, c: seq<byte>)
    requires Resting(g, sectors, ds, ofs, p, c) && h == g.(fsInfo := h.fsInfo) && h.Valid()
    ensures Resting(h, sectors, ds, ofs, p, c) && Table(h, sectors) == Table(g, sectors)
  {
    hide Stored, Table, Geometry.Valid;
    TableWithoutInfo(g, h.fsInfo, sectors);
    StoredWithoutInfo(g, h.fsInfo, sectors, ds, ofs, p, c);
  }

  /** After a run and a successful sync the medium holds the file, its boot sector and its FAT. */
  lemma RestsAgain(f: File, d0: seq<Sector>)
    requires f.Valid() && f.err == FrOk && OnMedium(f) && !f.fs.wflag
    requires f.fs.geo.volBase < |d0| == |f.fs.img| && f.fs.img[f.fs.geo.volBase] == d0[f.fs.geo.volBase]
    ensures Resting(f.fs.geo, f.fs.disk.sectors, f.dirSect, f.dirOfs, f.chain, f.Data())
    ensures |f.fs.disk.sectors| == |d0| && f.fs.disk.sectors[f.fs.geo.volBase] == d0[f.fs.geo.volBase]
    ensures Table(f.fs.geo, f.fs.disk.sectors) == Fat(f.fs)
  {
    MediumIsImage(f.fs);
    HoldsImage(f.fs);
    TableFrame(f.fs.geo, f.fs.img, f.fs.disk.sectors);
    BootTracked(f.fs.geo);
    hide Stored, Table;
  }

  lemma BootTracked(g: Geometry)
    requires g.Valid()
    ensures g.Tracked(g.volBase) && !g.InFat1(g.volBase) && g.volBase < g.fatBase <= g.dataBase
  {
  }

  /** What the mount found in the image is what the medium held. */
  lemma Found(g: Geometry, fs: Volume, sectors: seq<Sector>, ds: u32, ofs: nat, p: seq<nat>, c: seq<byte>)
    requires fs.Valid() && fs.img == sectors && fs.geo == g.(fsInfo := fs.geo.fsInfo)
    requires Resting(g, sectors, ds, ofs, p, c)
    ensures Resting(fs.geo, fs.img, ds, ofs, p, c) && Fat(fs) == Table(g, sectors)
  {
    RestingWithoutInfo(g, fs.geo, sectors, ds, ofs, p, c);
  }

  /** The counts on a clean reliable medium are those of the mounted volume. */
  lemma CountsOnMedium(fs: Volume)
    requires fs.Valid() && Clean(fs) && fs.disk.reliable && Accurate(AllocOf(fs))
    requires Holds(fs.geo, fs.disk.sectors) && Table(fs.geo, fs.disk.sectors) == Fat(fs)
    ensures RightCounts(fs.geo, fs.disk.sectors)
  {
    hide Table, LoadFsInfo, FreeClusters, Volume.Valid, Geometry.Valid;
    InfoOnMedium(fs);
  }

  lemma InfoOnMedium(fs: Volume)
    requires fs.Valid() && Clean(fs) && fs.disk.reliable
    ensures fs.geo.fsInfo ==> fs.geo.volBase + 1 < |fs.disk.sectors|
    ensures MountedCounts(fs.geo, fs.disk.sectors) ==
      if fs.geo.fsInfo then (fs.freeClst, fs.lastClst) else (0xFFFF_FFFF, 0xFFFF_FFFF)
    ensures fs.geo.nFatEnt < 0x1000_0000
  {
    hide LoadFsInfo;
    if fs.geo.fsInfo { InfoRange(fs.geo); }
  }

  lemma HistoryLength(ms: seq<Model>, ops: seq<Op>, replies: seq<Reply>)
    requires History(ms, ops, replies)
    ensures |ms| == |ops| + 1
  {
  }

  /** A right free count stays right through a history. */
  lemma {:induction false} CountedThroughout(ms: seq<Model>, ops: seq<Op>, replies: seq<Reply>, k: nat)
    requires History(ms, ops, replies) && k <= |ops| && ms[0].space.counted
    ensures ms[k].space.counted
  {
    if k > 0 {
      CountedThroughout(ms, ops, replies, k - 1);
      assert AnswersAt(ms, ops, replies, k - 1);
    }
  }

  lemma SyncedIsClean(f: File)
    requires f.Valid() && f.err == FrOk && Kept(f) && !f.modified && !f.lost
    ensures Clean(f.fs)
  {
  }

  lemma RestingFacts(g: Geometry, sectors: seq<Sector>, ds: u32, ofs: nat, p: seq<nat>, c: seq<byte>)
    requires Resting(g, sectors, ds, ofs, p, c)
    ensures g.Valid() && Holds(g, sectors) && Stored(g, sectors, ds, ofs, p, c) && EntryRoom(g, ds, ofs)
    ensures EntryApart(g, Table(g, sectors), p, ds)
  {
  }

  /** Syncs; after success the medium holds the file, and its boot sector and free count are as before. */
  method Settle(f: File, tm: u32, ghost d0: seq<Sector>) returns (res: FResult)
    requires f.Valid() && f.fs.Valid() && f.err == FrOk && f.Base() && f.Buffered() && Kept(f) && !f.lost
    requires f.fs.geo.volBase < |d0| == |f.fs.img| && f.fs.img[f.fs.geo.volBase] == d0[f.fs.geo.volBase]
    modifies f, f.fs, f.fs.win, f.fs.disk
    ensures res == FrOk || res == FrDiskErr
    ensures f.fs.disk.reliable ==> res == FrOk
    ensures f.fs.geo.volBase < |d0|
    ensures res == FrOk ==> Resting(f.fs.geo, f.fs.disk.sectors, f.dirSect, f.dirOfs, old(f.chain), old(f.Data()))
    ensures res == FrOk ==>
      |f.fs.disk.sectors| == |d0| && f.fs.disk.sectors[f.fs.geo.volBase] == d0[f.fs.geo.volBase]
    ensures res == FrOk && f.fs.disk.reliable && old(Accurate(AllocOf(f.fs))) ==>
      RightCounts(f.fs.geo, f.fs.disk.sectors)
  {
    hide Resting, Stored, File.Valid, File.Allocated, File.Base, File.Buffered, File.Data, Geometry.Valid,
         Volume.Valid, Table, Kept, OnMedium, Clean, Accurate, EntryRoom, EntryApart, FreeClusters, SameBesides,
         RightCounts;
    ViewFacts(f);
    EntrySector(f.fs, f.dirSect, f.dirOfs);
    BootTracked(f.fs.geo);
    ghost var counted := Accurate(AllocOf(f.fs));
    res := Sync(f, tm);
    if res == FrOk {
      SyncedIsClean(f);
      CleanWindow(f.fs);
      RestsAgain(f, d0);
      if counted && f.fs.disk.reliable {
        RestingFacts(f.fs.geo, f.fs.disk.sectors, f.dirSect, f.dirOfs, f.chain, f.Data());
        CountsOnMedium(f.fs);
      }
    }
  }

  lemma CleanWindow(fs: Volume)
    requires Clean(fs)
    ensures !fs.wflag
  {
  }

  /** Opens a file, makes the calls and syncs. Gives up when a sync in between reported a failure: it may have
      cleared the mark of a modified file. */
  method Work(fs: Volume, ds: u32, ofs: nat, ops: seq<Op>, tm: u32, ghost p: seq<nat>, ghost c: seq<byte>)
    returns (res: FResult, replies: seq<Reply>, ghost ms: seq<Model>, ghost q: seq<nat>)
    requires fs.Valid() && Clean(fs) && Resting(fs.geo, fs.img, ds, ofs, p, c) && fs.geo.volBase < |fs.img|
    requires forall i :: 0 <= i < |ops| && ops[i].DoWrite? ==> |ops[i].w| <= 0xFFFF_FFFF
    modifies fs, fs.win, fs.disk
    ensures res == FrOk || res == FrDiskErr || res == FrIntErr
    ensures fs.disk.reliable ==> res != FrDiskErr
    ensures fs.disk.reliable && NoOnes(old(Fat(fs))) ==> res == FrOk
    ensures res == FrOk ==> History(ms, ops, replies) && |ms| == |ops| + 1 && ms[0].data == c && ms[0].pos == 0
    ensures res == FrOk ==> Resting(fs.geo, fs.disk.sectors, ds, ofs, q, ms[|ops|].data)
    ensures res == FrOk ==>
      |fs.disk.sectors| == |old(fs.img)| && fs.disk.sectors[fs.geo.volBase] == old(fs.img)[fs.geo.volBase]
    ensures res == FrOk && fs.disk.reliable && old(Accurate(AllocOf(fs))) ==> RightCounts(fs.geo, fs.disk.sectors)
  {
    hide Resting, Stored, Spared, History, File.Valid, File.Allocated, View, Clean, File.Base, File.Buffered,
         File.Data, Geometry.Valid, Volume.Valid, Table, Kept, OnMedium, Accurate, EntryRoom, EntryApart,
         FreeClusters, NoOnes, SameBesides, RightCounts, Answers;
    replies, ms, q := [], [], [];
    ghost var d0, counted := fs.img, Accurate(AllocOf(fs));
    RestingFacts(fs.geo, fs.img, ds, ofs, p, c);
    var f;
    res, f := Open(fs, true, true, ds, ofs, p, c);
    if res != FrOk { return; }
    ViewFacts(f);
    ghost var t := Fat(fs);
    var done;
    done, replies, ms := Play(f, ops);
    if f.err != FrOk { return f.err, replies, ms, q; }
    if NotSynced in replies { return FrDiskErr, replies, ms, q; }
    BootSectorKept(true, fs.geo, ds, ofs, p, t, d0, f.chain, Fat(fs), fs.img);
    assert ops[..done] == ops;
    HistoryLength(ms, ops, replies);
    if counted { CountedThroughout(ms, ops, replies, |ops|); }
    ViewFacts(f);
    q := f.chain;
    res := Settle(f, tm, d0);
  }

  lemma StartsRight(fs: Volume, sectors: seq<Sector>)
    requires fs.Valid() && fs.img == sectors && (fs.geo.fsInfo ==> fs.geo.volBase + 1 < |sectors|)
    requires (fs.freeClst, fs.lastClst) == MountedCounts(fs.geo, sectors)
    ensures RightCounts(fs.geo, sectors) ==> Accurate(AllocOf(fs))
  {
    hide Table, LoadFsInfo, FreeClusters, Volume.Valid, Geometry.Valid;
  }

  /** Mounts the medium, opens the file, makes the calls, syncs, mounts the medium anew and opens the file
      again. Unless a call reported a failure on the way, the file opened last holds what the calls left of `c`.
      On a reliable medium whose FAT does not hold the reserved value 1 nothing fails, and a free count that
      was right at the first mount is right after the second. */
  method Lifetime(d: Disk, bsect: u32, ds: u32, ofs: nat, ops: seq<Op>, tm: u32, ghost g: Geometry,
                  ghost p: seq<nat>, ghost c: seq<byte>)
    returns (res: FResult, f: File?, replies: seq<Reply>, ghost ms: seq<Model>)
    requires Mountable(d, bsect) && bsect < |d.sectors|
    requires MountFat(ReadBootSector(d.sectors[bsect]), bsect, true) == Some(g) && Resting(g, d.sectors, ds, ofs, p, c)
    requires forall i :: 0 <= i < |ops| && ops[i].DoWrite? ==> |ops[i].w| <= 0xFFFF_FFFF
    modifies d
    ensures res == FrOk <==> f != null
    ensures f != null ==> fresh(f) && f.Valid() && f.err == FrOk && f.Base() && f.Buffered()
    ensures f != null ==> History(ms, ops, replies) && ms[0].data == c && ms[0].pos == 0
    ensures f != null ==> f.Data() == ms[|ops|].data && f.fptr == 0
    ensures d.reliable ==> res == FrOk || res == FrIntErr
    ensures d.reliable && old(NoOnes(Table(g, d.sectors))) ==> res == FrOk
    ensures f != null && d.reliable && old(RightCounts(g, d.sectors)) ==> f.fs.Valid() && Accurate(AllocOf(f.fs))
  {
    hide MountFat, ReadBootSector, Resting, Stored, History, File.Base, File.Buffered, File.Data, File.Valid,
         Geometry.Valid, Volume.Valid, Table, Kept, RightCounts, MountedCounts, Accurate, WellLaid, TrueEnd,
         EntryRoom, EntryApart;
    f, replies, ms := null, [], [];
    ghost var d0 := d.sectors;
    InfoIsOptional(ReadBootSector(d.sectors[bsect]), bsect);
    var fs;
    res, fs := Mount(d, bsect);
    if res != FrOk { return; }
    SameMount(ReadBootSector(d0[bsect]), bsect, g, fs.geo);
    Found(g, fs, d0, ds, ofs, p, c);
    StartsRight(fs, d0);
    ghost var q;
    res, replies, ms, q := Work(fs, ds, ofs, ops, tm, p, c);
    if res != FrOk { return; }
    var again;
    res, again := Mount(d, bsect);
    if res != FrOk { return; }
    SameMount(ReadBootSector(d0[bsect]), bsect, fs.geo, again.geo);
    Found(fs.geo, again, d.sectors, ds, ofs, q, ms[|ops|].data);
    RestingFacts(again.geo, again.img, ds, ofs, q, ms[|ops|].data);
    StartsRight(again, d.sectors);
    res, f := Open(again, true, true, ds, ofs, q, ms[|ops|].data);
  }

  /** On a reliable medium whose FAT is a set of disjoint chains every call succeeds, and it stays such a set,
      with the chain of the file replaced by what it is afterwards. */
  method PlaySoundly(f: File, ops: seq<Op>, ghost cs: set<seq<nat>>) returns (replies: seq<Reply>, ghost ms: seq<Model>)
    requires f.Valid() && f.err == FrOk && f.fs.Valid() && f.fs.disk.reliable
    requires Forest(Fat(f.fs), cs) && (f.chain == [] || f.chain in cs)
    requires forall i :: 0 <= i < |ops| && ops[i].DoWrite? ==> |ops[i].w| <= 0xFFFF_FFFF
    modifies f, f.buf, f.fs`wflag, f.fs`winSect, f.fs`img, f.fs`freeClst
    modifies f.fs`lastClst, f.fs`fsiDirty, f.fs.win, f.fs.disk
    ensures f.Valid() && f.err == FrOk && f.fs.Valid()
    ensures History(ms, ops, replies) && ms[0] == old(View(f)) && ms[|ops|] == View(f) && NotSynced !in replies
    ensures Forest(Fat(f.fs), cs - {old(f.chain)} + if f.chain == [] then {} else {f.chain})
    ensures old(f.fs.Mirrored()) ==> f.fs.Mirrored()
  {
    hide Spared, File.Valid, File.Allocated, File.Base, File.Buffered, File.Data, Volume.Valid, Table, View, Answers,
         Kept, Forest, NoOnes, Volume.Mirrored, WellFormed, EntryRoom, EntryApart;
    ghost var p, t, img := f.chain, Fat(f.fs), f.fs.img;
    ForestNoOnes(t, cs);
    var done;
    done, replies, ms := Play(f, ops);
    assert ops[..done] == ops;
    ViewFacts(f);
    RunKeepsForest(f.fs.geo, f.dirSect, f.dirOfs, p, t, img, f.chain, Fat(f.fs), f.fs.img, cs);
  }

  lemma ForestNoOnes(t: seq<u32>, cs: set<seq<nat>>)
    requires Forest(t, cs)
    ensures NoOnes(t)
  {
    forall c | 2 <= c < |t| ensures t[c] != 1 { ForestHasNoOnes(t, cs, c); }
  }

  /** The cursor stands inside the last cluster of the file. */
  ghost predicate InLastCluster(f: File)
    requires f.Valid() && f.err == FrOk
    reads f, f.buf, f.fs, f.fs.disk, f.fs.win
  {
    0 < f.fptr < |f.Data()| && Blocks(f.fptr, ClusterBytes(f.fs.geo)) == |f.chain|
  }

  /** A way into the lost store: a stored file is open, its medium becomes write-protected, and it is truncated
      inside its last cluster. The truncation succeeds, the first sync fails, the second reports success, and
      the medium does not hold the file. */
  method TruncateAndLose(f: File, tm: u32) returns (cut: FResult, first: FResult, second: FResult)
    requires f.Valid() && Untouched(f) && f.fs.disk.locked && OnMedium(f) && InLastCluster(f)
    modifies f`sclust, f`chain, f`objsize, f`dirty, f`modified, f`lost, f`err
    modifies f.fs`wflag, f.fs`winSect, f.fs`img, f.fs`freeClst, f.fs`fsiDirty, f.fs.win, f.fs.disk
    ensures f.Valid() && f.err == FrOk && f.Data() == old(f.Data()[..f.fptr])
    ensures cut == FrOk && first == FrDiskErr && second == FrOk
    ensures f.fs.disk.sectors == old(f.fs.disk.sectors) && !OnMedium(f)
  {
    hide File.Base, File.Buffered, File.Data, File.Cursor, File.Allocated, Volume.Valid, Geometry.Valid, Table,
         Content, EntryRoom, EntryApart, Clusters, Blocks, PowerOfTwo, CutAt, OutsideFile, OnMedium, IsChain, Placed,
         Fits, LdDword;
    ViewFacts(f);
    BlocksAreClusters(f.fs.geo, f.fptr);
    SizeOnMedium(f);
    ghost var p := f.chain;
    cut := Truncate(f);
    SameLength(f.chain, p);
    first, second := LostStore(f, tm);
  }

  lemma SameLength(p: seq<nat>, q: seq<nat>)
    requires p <= q && |p| == |q|
    ensures p == q
  {
  }

  lemma SizeOnMedium(f: File)
    requires f.Base() && f.Buffered() && OnMedium(f)
    ensures f.dirSect < |f.fs.disk.sectors| && f.dirOfs + ENTRY_SIZE <= SECTOR_SIZE
    ensures LdDword(f.fs.disk.sectors[f.dirSect][f.dirOfs..f.dirOfs + ENTRY_SIZE], 28) == |f.Data()|
  {
  }

  /** Two open files of one volume that do not get in each other's way: disjoint chains, and directory entries
      outside both and apart from each other. */
  ghost predicate Beside(f: File, o: File)
    requires f.fs.Valid()
    reads f`chain, o`chain, f.fs, f.fs.disk, f.fs.win
  {
    && Disjoint(o.chain, f.chain) && !InChain(f.fs.geo, o.chain, f.dirSect)
    && EntryBeside(f.fs.geo, Fat(f.fs), f.chain, f.dirSect, f.dirOfs, o.dirSect, o.dirOfs)
  }

  /** Calls on one file leave another open file as it is, whether or not they succeed: it shows the same content
      at the same cursor, and it stays valid unless its buffer showed a sector that is no longer its own and that
      the calls have rewritten. */
  method PlayBeside(f: File, o: File, ops: seq<Op>) returns (done: nat, replies: seq<Reply>, ghost ms: seq<Model>)
    requires f != o && f.fs == o.fs && f.buf != o.buf
    requires f.Valid() && f.err == FrOk && o.Valid() && o.err == FrOk && f.fs.Valid() && Beside(f, o)
    requires forall i :: 0 <= i < |ops| && ops[i].DoWrite? ==> |ops[i].w| <= 0xFFFF_FFFF
    modifies f, f.buf, f.fs`wflag, f.fs`winSect, f.fs`img, f.fs`freeClst
    modifies f.fs`lastClst, f.fs`fsiDirty, f.fs.win, f.fs.disk
    ensures f.Valid() && o.err == FrOk && f.fs.Valid() && Beside(f, o)
    ensures o.Salvaged(old(o.Data())) && o.fptr == old(o.fptr) && o.chain == old(o.chain) && o.objsize == old(o.objsize)
    ensures o.sect == 0 || InChain(f.fs.geo, o.chain, o.sect) ==> o.Valid()
    ensures o.sect == 0 || 0 < o.sect < |f.fs.img| == |old(f.fs.img)|
    ensures o.Valid() <==> o.sect == 0 || f.fs.img[o.sect] == old(f.fs.img)[o.sect]
    ensures o.Valid() ==> o.Data() == old(o.Data())
    ensures done <= |ops| && (f.err == FrOk ==> done == |ops|)
    ensures History(ms, ops[..done], replies) && ms[0] == old(View(f))
    ensures f.err == FrOk ==> ms[done] == View(f)
  {
    hide Spared, History, File.Base, File.Buffered, File.Data, Geometry.Valid, Volume.Valid, Table, View, Consistent,
         EntryBeside, Geometry.InData, IsChain, InChain, File.Allocated, EntryRoom, EntryApart, Disjoint, NoOnes,
         FreeClusters, Kept, WellFormed, Stored, Volume.Mirrored;
    Parts(o);
    ViewFacts(f);
    ghost var g, p, t, img, was := f.fs.geo, f.chain, Fat(f.fs), f.fs.img, f.fs.winSect;
    done, replies, ms := Play(f, ops);
    ghost var ok := f.err != FrDiskErr;
    ConsistentBeside(ok, g, f.dirSect, f.dirOfs, p, t, img, f.chain, Fat(f.fs), f.fs.img, o.chain, o.sclust, o.objsize,
                     was, o.dirSect, o.dirOfs, o.dirty, o.sect, o.buf[..], f.fs.winSect);
    if o.sect == 0 || f.fs.img[o.sect] == img[o.sect] { Whole(o); } else if o.Valid() { Parts(o); }
  }
}
