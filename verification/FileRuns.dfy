/** Whole runs of `f_read`, `f_write`, `f_lseek`, `f_truncate` and `f_sync` on an open file against a byte
    sequence with a cursor, and what such a run means for the rest of the volume. */
module FileRuns {
  import opened Bytes
  import opened Layout
  import opened Window
  import opened FatTable
  import opened FatAccess
  import opened Chains
  import opened AllocSpec
  import opened Allocator
  import opened FileView
  import opened FileObject
  import opened Truncation
  import opened Durability

  /** The space a file can use: bytes per cluster, clusters of its chain, free clusters of the volume, whether
      the stored free count is 0, and whether that count is right or unknown. */
  datatype Space = Space(unit: nat, chain: nat, free: nat, stuck: bool, counted: bool)

  /** A file as its user sees it. */
  datatype Model = Model(data: seq<byte>, pos: nat, readable: bool, writable: bool, space: Space)

  datatype Op = DoRead(count: u32) | DoWrite(w: seq<byte>) | DoSeek(offset: u32) | DoTruncate | DoSync(tm: u32)

  /** What a call reports: the bytes read, the number of bytes written, success, a failed sync, or that the
      file was not opened for this. */
  datatype Reply = Bytes(data: seq<byte>) | Count(n: nat) | Success | NotSynced | Denied

  function Min(a: nat, b: nat): nat {
    if a < b then a else b
  }

  /** How many clusters of `unit` bytes hold `n` bytes. */
  function Blocks(n: nat, unit: nat): nat
    requires unit > 0
  {
    if n == 0 then 0 else (n - 1) / unit + 1
  }

  /** The bytes the chain can hold without growing. */
  function Room(s: Space): nat {
    s.chain * s.unit
  }

  /** The size a file can grow to when the free count is right. */
  function Capacity(s: Space): nat {
    Min(0xFFFF_FFFF, (s.chain + s.free) * s.unit)
  }

  /** The driver sees no free cluster. */
  predicate Full(s: Space) {
    s.free == 0 || s.stuck
  }

  predicate WellFormed(m: Model) {
    && m.pos <= |m.data| <= 0xFFFF_FFFF && m.space.unit > 0 && |m.data| <= Room(m.space)
    && (m.space.counted && m.space.stuck ==> m.space.free == 0)
  }

  /** What no call changes: the mode, the space of chain and free clusters together, a right free count. */
  predicate SameVolume(m: Model, m': Model) {
    && m'.readable == m.readable && m'.writable == m.writable
    && m'.space.unit == m.space.unit
    && m'.space.chain + m'.space.free == m.space.chain + m.space.free
    && (m.space.counted ==> m'.space.counted)
  }

  /** The chain grew to hold the cursor, and no further. */
  predicate GrownTo(m: Model, m': Model)
    requires m.space.unit > 0
  {
    m'.space.chain == Max(m.space.chain, Blocks(m'.pos, m.space.unit))
  }

  /** Where the cursor stopped early: on a full volume, behind the last byte the chain can hold. */
  predicate RanOut(m': Model) {
    m'.pos == Room(m'.space) && Full(m'.space)
  }

  predicate ReadAnswers(m: Model, count: u32, reply: Reply, m': Model) {
    if !m.readable then reply == Denied && m' == m else
      m.pos <= |m.data| &&
      var n := Min(count, |m.data| - m.pos);
      m' == m.(pos := m.pos + n) && reply == Bytes(m.data[m.pos..m.pos + n])
  }

  /** A write is short only at the 4 GiB limit or when the chain is used up and no cluster is left. */
  predicate WriteAnswers(m: Model, w: seq<byte>, reply: Reply, m': Model) {
    if !m.writable then reply == Denied && m' == m else
      && m.pos <= |m.data| && m.space.unit > 0
      && reply.Count? && reply.n <= |w|
      && m'.data == Splice(m.data, m.pos, w[..reply.n]) && m'.pos == m.pos + reply.n
      && GrownTo(m, m')
      && (reply.n == |w| || m'.pos == 0xFFFF_FFFF || RanOut(m'))
  }

  /** A seek stops early only when the chain is used up and no cluster is left; past the end it may expose
      any bytes. */
  predicate SeekAnswers(m: Model, offset: u32, reply: Reply, m': Model) {
    var target := if offset > |m.data| && !m.writable then |m.data| else offset;
    && m.space.unit > 0 && reply == Success && m'.pos <= target && m.data <= m'.data
    && |m'.data| == Max(|m.data|, m'.pos)
    && GrownTo(m, m')
    && (m'.pos == target || (m.writable && target > |m.data| && RanOut(m')))
  }

  predicate TruncateAnswers(m: Model, reply: Reply, m': Model) {
    if !m.writable then reply == Denied && m' == m else
      && m.pos <= |m.data| && m.space.unit > 0
      && reply == Success && m'.data == m.data[..m.pos] && m'.pos == m.pos
      && m'.space.chain == if m.pos < |m.data| then Blocks(m.pos, m.space.unit) else m.space.chain
  }

  /** A call answers as the byte sequence would. */
  predicate Answers(m: Model, op: Op, reply: Reply, m': Model) {
    WellFormed(m) && WellFormed(m') && SameVolume(m, m') &&
    match op
    case DoRead(count) => ReadAnswers(m, count, reply, m')
    case DoWrite(w) => WriteAnswers(m, w, reply, m')
    case DoSeek(offset) => SeekAnswers(m, offset, reply, m')
    case DoTruncate => TruncateAnswers(m, reply, m')
    case DoSync(_) => (reply == Success || reply == NotSynced) && m' == m
  }

  ghost predicate AnswersAt(ms: seq<Model>, ops: seq<Op>, replies: seq<Reply>, i: nat)
    requires i < |ops| == |replies| && |ms| == |ops| + 1
  {
    Answers(ms[i], ops[i], replies[i], ms[i + 1])
  }

  /** `ms` is a history of the abstract file in which every call answered as it must. */
  ghost predicate History(ms: seq<Model>, ops: seq<Op>, replies: seq<Reply>) {
    && |ms| == |ops| + 1 && |replies| == |ops|
    && forall i :: 0 <= i < |ops| ==> AnswersAt(ms, ops, replies, i)
  }

  ghost function SpaceOf(f: File): Space
    requires f.fs.Valid()
    reads f, f.fs, f.fs.disk, f.fs.win
  {
    Space(ClusterBytes(f.fs.geo), |f.chain|, FreeClusters(Fat(f.fs)), f.fs.freeClst == 0, Accurate(AllocOf(f.fs)))
  }

  /** Content, cursor, mode and space of an open file. */
  ghost function View(f: File): Model
    requires f.Valid() && f.err == FrOk
    reads f, f.buf, f.fs, f.fs.disk, f.fs.win
  {
    Model(f.Data(), f.fptr, f.readable, f.writable, SpaceOf(f))
  }

  /** What a run on the file with chain `p`, now `p'`, and directory entry at `ofs` in sector `ds` does
      to the rest of the volume: every cluster it took was free, no FAT entry of another chain changed (after
      success no other at all, and the clusters it gave back are free), and outside the first FAT only its
      directory entry and sectors of the file or of free clusters changed. */
  ghost predicate Spared(ok: bool, g: Geometry, ds: int, ofs: nat, p: seq<nat>, t: seq<u32>, img: seq<Sector>,
                         p': seq<nat>, t': seq<u32>, img': seq<Sector>) {
    && |t'| == |t| && |img'| == |img|
    && (forall c :: c in p' && c !in p ==> c < |t| && t[c] == 0)
    && (forall c :: 0 <= c < |t| && c !in p && c !in p' && (ok || t[c] != 0) ==> t'[c] == t[c])
    && (ok ==> forall c :: 0 <= c < |t| && c in p && c !in p' ==> t'[c] == 0)
    && (forall s :: 0 <= s < |img| && !g.InFat1(s) && s != ds && !OwnSector(g, p, t, s) ==> img'[s] == img[s])
    && 0 <= ds < |img| && SameBesides(img[ds], img'[ds], ofs)
  }

  /** A sector of a cluster of the file, or of one that was free. */
  predicate OwnSector(g: Geometry, p: seq<nat>, t: seq<u32>, s: int) {
    && g.csize > 0 && g.InData(s)
    && var c := g.SectorToCluster(s); c in p || (0 <= c < |t| && t[c] == 0)
  }

  lemma SparedRefl(g: Geometry, ds: int, ofs: nat, p: seq<nat>, t: seq<u32>, img: seq<Sector>)
    requires 0 <= ds < |img| && ofs + ENTRY_SIZE <= SECTOR_SIZE
    ensures Spared(true, g, ds, ofs, p, t, img, p, t, img)
  {
  }

  lemma SparedWeaken(g: Geometry, ds: int, ofs: nat, p: seq<nat>, t: seq<u32>, img: seq<Sector>,
                     p': seq<nat>, t': seq<u32>, img': seq<Sector>)
    requires Spared(true, g, ds, ofs, p, t, img, p', t', img')
    ensures Spared(false, g, ds, ofs, p, t, img, p', t', img')
  {
  }

  lemma SparedTrans(ok: bool, g: Geometry, ds: int, ofs: nat, p: seq<nat>, t: seq<u32>, img: seq<Sector>,
                    p1: seq<nat>, t1: seq<u32>, img1: seq<Sector>, p2: seq<nat>, t2: seq<u32>, img2: seq<Sector>)
    requires Spared(true, g, ds, ofs, p, t, img, p1, t1, img1) && Spared(ok, g, ds, ofs, p1, t1, img1, p2, t2, img2)
    ensures Spared(ok, g, ds, ofs, p, t, img, p2, t2, img2)
  {
    forall s | 0 <= s < |img| && !g.InFat1(s) && s != ds && !OwnSector(g, p, t, s)
      ensures img2[s] == img[s]
    {
      assert !OwnSector(g, p1, t1, s);
    }
  }

  lemma ConfinedIsSpared(ok: bool, g: Geometry, ds: int, ofs: nat, p: seq<nat>, t: seq<u32>, img: seq<Sector>,
                         p': seq<nat>, t': seq<u32>, img': seq<Sector>)
    requires Confined(ok, g, p, t, img, p', t', img')
    requires |img| >= g.End() && EntryRoom(g, ds, ofs) && EntryApart(g, t, p, ds) && g.Valid()
    ensures Spared(ok, g, ds, ofs, p, t, img, p', t', img')
  {
    forall c | c in p ensures c in p' {
      var k :| 0 <= k < |p| && p[k] == c;
      assert p'[k] == c;
    }
    forall s | 0 <= s < |img| && InChain(g, p', s)
      ensures OwnSector(g, p, t, s)
    {
    }
  }

  lemma CutIsSpared(ok: bool, g: Geometry, ds: int, ofs: nat, p: seq<nat>, t: seq<u32>, img: seq<Sector>,
                    p': seq<nat>, t': seq<u32>, img': seq<Sector>)
    requires |t'| == |t| && p' <= p && OutsideFile(g, p, img, img')
    requires |img| >= g.End() && EntryRoom(g, ds, ofs) && EntryApart(g, t, p, ds) && g.Valid()
    requires forall c :: 0 <= c < |t| && c !in p ==> t'[c] == t[c]
    requires ok ==> Rechained(t, t', p, p')
    ensures Spared(ok, g, ds, ofs, p, t, img, p', t', img')
  {
    forall c | c in p' ensures c in p {
      var k :| 0 <= k < |p'| && p'[k] == c;
      assert p[k] == c;
    }
    forall s | 0 <= s < |img| && InChain(g, p, s)
      ensures OwnSector(g, p, t, s)
    {
    }
  }

  /** A successful run brings no reserved value 1 into the FAT. */
  lemma SparedNoOnes(g: Geometry, ds: int, ofs: nat, p: seq<nat>, t: seq<u32>, img: seq<Sector>,
                     p': seq<nat>, t': seq<u32>, img': seq<Sector>)
    requires Spared(true, g, ds, ofs, p, t, img, p', t', img') && IsChainOrNone(t', p')
    ensures NoOnes(t) ==> NoOnes(t')
  {
    forall c | c in p' ensures 2 <= c < |t'| && t'[c] >= 2 { OnChain(t', p', c); }
  }

  lemma SparedRechains(g: Geometry, ds: int, ofs: nat, p: seq<nat>, t: seq<u32>, img: seq<Sector>,
                       p': seq<nat>, t': seq<u32>, img': seq<Sector>)
    requires Spared(true, g, ds, ofs, p, t, img, p', t', img')
    ensures Rechained(t, t', p, p')
  {
  }

  /** Bytes and clusters: the two ways to count the space of a chain. */
  lemma BlocksAreClusters(g: Geometry, n: nat)
    requires PowerOfTwo(g.csize)
    ensures ClusterBytes(g) > 0 && Blocks(n, ClusterBytes(g)) == Clusters(g, n)
  {
    if n > 0 { ClusterBytesIndex(g, n - 1); }
  }

  lemma FitsIsRoom(g: Geometry, p: seq<nat>, n: nat)
    requires PowerOfTwo(g.csize)
    ensures Fits(g, p, n) <==> n <= |p| * ClusterBytes(g)
  {
    if n > 0 {
      ClusterBytesIndex(g, n - 1);
      hide PowerOfTwo, ClusterIndex, ClusterBytes;
      QuotientBelow(n - 1, |p|, ClusterBytes(g));
    }
  }

  lemma QuotientBelow(x: nat, k: nat, c: nat)
    requires c > 0
    ensures x / c < k <==> x < k * c
  {
    var q := x / c;
    assert q * c <= x < q * c + c;
    if q < k {
      assert q + 1 <= k;
      TimesMonotone(q + 1, k, c);
    } else {
      TimesMonotone(k, q, c);
    }
  }

  /** A file that is no longer than its chain, and not a byte more would fit: it ends with its chain. */
  lemma RoomIsUsedUp(g: Geometry, p: seq<nat>, n: nat)
    requires PowerOfTwo(g.csize) && Fits(g, p, n) && !Fits(g, p, n + 1)
    ensures n == |p| * ClusterBytes(g)
  {
    FitsIsRoom(g, p, n);
    FitsIsRoom(g, p, n + 1);
  }

  lemma ValidVolume(f: File)
    requires f.Valid()
    ensures f.fs.Valid()
  {
  }

  lemma ViewFacts(f: File)
    requires f.Valid() && f.err == FrOk
    ensures f.fs.Valid() && PowerOfTwo(f.fs.geo.csize) && f.Base() && f.Buffered() && f.Cursor()
    ensures f.fptr <= f.objsize == |f.Data()| && Fits(f.fs.geo, f.chain, f.objsize) && Fits(f.fs.geo, f.chain, f.fptr)
    ensures IsChainOrNone(Fat(f.fs), f.chain) && (f.dirty ==> f.modified)
    ensures |f.fs.img| >= f.fs.geo.End() && f.fs.geo.Valid() && f.dirSect < |f.fs.img|
    ensures f.dirOfs + ENTRY_SIZE <= SECTOR_SIZE
    ensures EntryRoom(f.fs.geo, f.dirSect, f.dirOfs) && EntryApart(f.fs.geo, Fat(f.fs), f.chain, f.dirSect)
    ensures View(f) == Model(f.Data(), f.fptr, f.readable, f.writable, SpaceOf(f))
    ensures SpaceOf(f) == Space(ClusterBytes(f.fs.geo), |f.chain|, FreeClusters(Fat(f.fs)), f.fs.freeClst == 0,
                                Accurate(AllocOf(f.fs)))
    ensures WellFormed(View(f))
  {
    FitsMonotone(f);
    BlocksAreClusters(f.fs.geo, 0);
    FitsIsRoom(f.fs.geo, f.chain, f.objsize);
  }

  /** A call that at most wrote the buffer back. */
  lemma OnlyChainSpares(ok: bool, g: Geometry, ds: int, ofs: nat, p: seq<nat>, t: seq<u32>, img: seq<Sector>,
                        img': seq<Sector>)
    requires OnlyChainSectors(g, p, img, img') && |img| >= g.End() && g.Valid()
    requires EntryRoom(g, ds, ofs) && EntryApart(g, t, p, ds)
    ensures Spared(ok, g, ds, ofs, p, t, img, p, t, img')
  {
    hide OnlyChainSectors, EntryRoom, EntryApart, Spared, Confined;
    OnlyChainConfined(g, p, t, img, img');
    ConfinedIsSpared(true, g, ds, ofs, p, t, img, p, t, img');
    SparedWeaken(g, ds, ofs, p, t, img, p, t, img');
  }

  /** `f_read`, and what it spares. */
  method ReadSparing(f: File, count: u32) returns (res: FResult, data: seq<byte>)
    requires f.Valid() && f.err == FrOk
    modifies f, f.buf, f.fs`wflag, f.fs`winSect, f.fs`img, f.fs`freeClst
    modifies f.fs`lastClst, f.fs`fsiDirty, f.fs.win, f.fs.disk
    ensures f.Valid() && f.fs.Valid()
    ensures f.fs.winSect == old(f.fs.winSect) || !f.fs.geo.InData(f.fs.winSect)
    ensures f.err == FrOk || f.err == FrDiskErr
    ensures f.err == FrOk ==> f.Base() && f.Buffered() && (res == FrDenied <==> !f.readable)
    ensures f.chain == old(f.chain) && Fat(f.fs) == old(Fat(f.fs)) && f.fs.freeClst == old(f.fs.freeClst)
    ensures f.fs.lastClst == old(f.fs.lastClst)
    ensures f.err == FrOk ==> f.Data() == old(f.Data()) && old(f.fptr) <= f.fptr <= |f.Data()|
    ensures f.err == FrOk && f.readable ==>
      && f.fptr == old(f.fptr) + (if count > |f.Data()| - old(f.fptr) then |f.Data()| - old(f.fptr) else count)
      && data == f.Data()[old(f.fptr)..f.fptr]
    ensures f.err == FrOk && !f.readable ==> f.fptr == old(f.fptr)
    ensures Spared(f.err != FrDiskErr, f.fs.geo, f.dirSect, f.dirOfs, old(f.chain), old(Fat(f.fs)), old(f.fs.img),
                   f.chain, Fat(f.fs), f.fs.img)
    ensures old(Kept(f)) ==> Kept(f)
    ensures f.lost == old(f.lost)
    ensures f.fs.disk.reliable ==> f.err == FrOk
    ensures f.fs.disk.reliable && old(f.fs.Mirrored()) ==> f.fs.Mirrored()
  {
    hide File.Valid, File.Allocated, Kept, SpaceOf, File.Base, File.Buffered, File.Cursor, Fits, Clusters,
         File.Data, File.Eff, View, WellFormed, Confined, Spared, FreeClusters, NoOnes, Volume.Mirrored, Volume.Valid,
         Table, Stored, Geometry.InData, IsChain, OnlyChainSectors, EntryRoom, EntryApart, Geometry.Valid, PowerOfTwo;
    ViewFacts(f);
    ghost var p, t, img := f.chain, Fat(f.fs), f.fs.img;
    res, data := f.Read(count);
    ValidVolume(f);
    OnlyChainSpares(f.err != FrDiskErr, f.fs.geo, f.dirSect, f.dirOfs, p, t, img, f.fs.img);
    if f.err == FrOk { ViewFacts(f); }
    StillKept(f);
  }

  /** `f_read` answers as the byte sequence. */
  method PlayRead(f: File, count: u32) returns (reply: Reply)
    requires f.Valid() && f.err == FrOk
    modifies f, f.buf, f.fs`wflag, f.fs`winSect, f.fs`img, f.fs`freeClst
    modifies f.fs`lastClst, f.fs`fsiDirty, f.fs.win, f.fs.disk
    ensures f.Valid() && f.fs.Valid()
    ensures f.fs.winSect == old(f.fs.winSect) || !f.fs.geo.InData(f.fs.winSect) || f.fs.winSect == f.dirSect
    ensures f.err == FrOk ==> Answers(old(View(f)), DoRead(count), reply, View(f))
    ensures f.err == FrOk || f.err == FrDiskErr || f.err == FrIntErr
    ensures f.err == FrIntErr ==> !NoOnes(old(Fat(f.fs)))
    ensures Spared(f.err != FrDiskErr, f.fs.geo, f.dirSect, f.dirOfs, old(f.chain), old(Fat(f.fs)), old(f.fs.img),
                   f.chain, Fat(f.fs), f.fs.img)
    ensures old(Kept(f)) ==> Kept(f)
    ensures f.fs.disk.reliable ==> f.err != FrDiskErr && (f.lost ==> old(f.lost))
    ensures reply != NotSynced
    ensures f.lost == old(f.lost)
    ensures f.fs.disk.reliable && old(f.fs.Mirrored()) ==> f.fs.Mirrored()
  {
    hide File.Valid, Kept, Answers, ReadAnswers, File.Base, File.Buffered, File.Cursor, File.Data, View, WellFormed,
         Spared, FreeClusters, NoOnes, Volume.Mirrored, Volume.Valid, Table, ClusterBytes, Geometry.InData, IsChain,
         EntryRoom, EntryApart, Geometry.Valid;
    ViewFacts(f);
    ghost var p, t, img, m := f.chain, Fat(f.fs), f.fs.img, View(f);
    var res, data := ReadSparing(f, count);
    reply := if res == FrDenied then Denied else Bytes(data);
    if f.err == FrOk {
      ViewFacts(f);
      ReadReplies(m, View(f), count, data);
      ReadIsAnswer(m, count, reply, View(f));
    }
  }

  /** `f_write`, and what it spares. */
  method WriteSparing(f: File, w: seq<byte>) returns (res: FResult, n: nat)
    requires f.Valid() && f.err == FrOk
    requires |w| <= 0xFFFF_FFFF
    modifies f, f.buf, f.fs`wflag, f.fs`winSect, f.fs`img, f.fs`freeClst
    modifies f.fs`lastClst, f.fs`fsiDirty, f.fs.win, f.fs.disk
    ensures f.Valid() && f.fs.Valid()
    ensures f.fs.winSect == old(f.fs.winSect) || !f.fs.geo.InData(f.fs.winSect)
    ensures f.err == FrOk || f.err == FrDiskErr || f.err == FrIntErr
    ensures f.err == FrIntErr ==> !NoOnes(old(Fat(f.fs)))
    ensures f.err == FrOk ==> f.Base() && f.Buffered() && (res == FrDenied <==> !f.writable)
    ensures f.err == FrOk && f.writable ==>
      && n <= |w| && f.fptr == old(f.fptr) + n && old(f.fptr) <= |old(f.Data())|
      && f.Data() == Splice(old(f.Data()), old(f.fptr), w[..n])
      && PowerOfTwo(f.fs.geo.csize) && |f.chain| == Max(|old(f.chain)|, Clusters(f.fs.geo, f.fptr))
      && (n == |w| || f.fptr == 0xFFFF_FFFF ||
          (!Fits(f.fs.geo, f.chain, f.fptr + 1) && (f.fs.freeClst == 0 || FreeClusters(Fat(f.fs)) == 0)))
      && KeepsCount(old(AllocOf(f.fs)), AllocOf(f.fs))
    ensures !f.writable ==>
      && f.err == FrOk && f.fptr == old(f.fptr) && f.chain == old(f.chain) && f.Data() == old(f.Data())
      && f.fs.img == old(f.fs.img) && f.fs.freeClst == old(f.fs.freeClst)
    ensures Spared(f.err != FrDiskErr, f.fs.geo, f.dirSect, f.dirOfs, old(f.chain), old(Fat(f.fs)), old(f.fs.img),
                   f.chain, Fat(f.fs), f.fs.img)
    ensures old(Kept(f)) ==> Kept(f)
    ensures f.lost == old(f.lost)
    ensures f.fs.disk.reliable ==> f.err != FrDiskErr
    ensures f.fs.disk.reliable && old(f.fs.Mirrored()) ==> f.fs.Mirrored()
  {
    hide File.Valid, File.Allocated, Kept, File.Base, File.Buffered, File.Cursor, File.Data, File.Salvaged, View,
         WellFormed, Confined, Spared, FreeClusters, NoOnes, Volume.Mirrored, Volume.Valid, Table, Fits, Clusters,
         Stored, PowerOfTwo, File.Eff, Geometry.InData, IsChain, Splice, EntryRoom, EntryApart, Geometry.Valid,
         SpaceOf;
    ViewFacts(f);
    ghost var p, t, img := f.chain, Fat(f.fs), f.fs.img;
    res, n := f.Write(w);
    ValidVolume(f);
    ConfinedIsSpared(f.err != FrDiskErr, f.fs.geo, f.dirSect, f.dirOfs, p, t, img, f.chain, Fat(f.fs), f.fs.img);
    if f.err == FrOk { ViewFacts(f); }
    StillKept(f);
  }

  /** `f_write` answers as the byte sequence. */
  method PlayWrite(f: File, w: seq<byte>) returns (reply: Reply)
    requires f.Valid() && f.err == FrOk
    requires |w| <= 0xFFFF_FFFF
    modifies f, f.buf, f.fs`wflag, f.fs`winSect, f.fs`img, f.fs`freeClst
    modifies f.fs`lastClst, f.fs`fsiDirty, f.fs.win, f.fs.disk
    ensures f.Valid() && f.fs.Valid()
    ensures f.fs.winSect == old(f.fs.winSect) || !f.fs.geo.InData(f.fs.winSect) || f.fs.winSect == f.dirSect
    ensures f.err == FrOk ==> Answers(old(View(f)), DoWrite(w), reply, View(f))
    ensures f.err == FrOk || f.err == FrDiskErr || f.err == FrIntErr
    ensures f.err == FrIntErr ==> !NoOnes(old(Fat(f.fs)))
    ensures Spared(f.err != FrDiskErr, f.fs.geo, f.dirSect, f.dirOfs, old(f.chain), old(Fat(f.fs)), old(f.fs.img),
                   f.chain, Fat(f.fs), f.fs.img)
    ensures old(Kept(f)) ==> Kept(f)
    ensures f.fs.disk.reliable ==> f.err != FrDiskErr && (f.lost ==> old(f.lost))
    ensures reply != NotSynced
    ensures f.lost == old(f.lost)
    ensures f.fs.disk.reliable && old(f.fs.Mirrored()) ==> f.fs.Mirrored()
  {
    hide File.Valid, File.Allocated, Kept, Room, File.Base, File.Buffered, File.Cursor, File.Data, View, WellFormed,
         Spared, FreeClusters, NoOnes, Volume.Mirrored, Volume.Valid, Table, ClusterBytes, Fits, Clusters, Blocks,
         PowerOfTwo, Geometry.Valid, Geometry.InData, IsChain, Splice, EntryRoom, EntryApart, SpaceOf;
    ViewFacts(f);
    ghost var p, t, img := f.chain, Fat(f.fs), f.fs.img;
    var res, n := WriteSparing(f, w);
    reply := if res == FrDenied then Denied else Count(n);
    if f.err == FrOk {
      ViewFacts(f);
      SpaceFacts(f, p, t, img);
      WhereItEnds(f.fs.geo, f.chain, f.fptr);
    }
  }

  /** `f_lseek`, and what it spares. */
  method SeekSparing(f: File, offset: u32)
    requires f.Valid() && f.err == FrOk
    modifies f, f.buf, f.fs`wflag, f.fs`winSect, f.fs`img, f.fs`freeClst
    modifies f.fs`lastClst, f.fs`fsiDirty, f.fs.win, f.fs.disk
    ensures f.Valid() && f.fs.Valid()
    ensures f.fs.winSect == old(f.fs.winSect) || !f.fs.geo.InData(f.fs.winSect)
    ensures f.err == FrOk || f.err == FrDiskErr || f.err == FrIntErr
    ensures f.err == FrIntErr ==> !NoOnes(old(Fat(f.fs)))
    ensures f.err == FrOk ==> PowerOfTwo(f.fs.geo.csize) && f.Base() && f.Buffered()
    ensures f.err == FrOk ==>
      var target := if offset > |old(f.Data())| && !f.writable then |old(f.Data())| else offset;
      && f.fptr <= target && PowerOfTwo(f.fs.geo.csize) && old(f.Data()) <= f.Data()
      && |f.Data()| == Max(|old(f.Data())|, f.fptr) && |f.chain| == Max(|old(f.chain)|, Clusters(f.fs.geo, f.fptr))
      && (f.fptr < target ==>
            f.writable && target > |old(f.Data())| && !Fits(f.fs.geo, f.chain, f.fptr + 1) &&
            (f.fs.freeClst == 0 || FreeClusters(Fat(f.fs)) == 0))
      && KeepsCount(old(AllocOf(f.fs)), AllocOf(f.fs))
    ensures Spared(f.err != FrDiskErr, f.fs.geo, f.dirSect, f.dirOfs, old(f.chain), old(Fat(f.fs)), old(f.fs.img),
                   f.chain, Fat(f.fs), f.fs.img)
    ensures old(Kept(f)) ==> Kept(f)
    ensures f.lost == old(f.lost)
    ensures f.fs.disk.reliable ==> f.err != FrDiskErr
    ensures f.fs.disk.reliable && old(f.fs.Mirrored()) ==> f.fs.Mirrored()
  {
    hide File.Valid, File.Allocated, File.Salvaged, Kept, SpaceOf, Room, File.Base, File.Buffered, File.Cursor,
         File.Data, View, WellFormed, Confined, Spared, FreeClusters, NoOnes, Volume.Mirrored, Volume.Valid, Table,
         Fits, Clusters, ClusterBytes, Blocks, Stored, PowerOfTwo, File.Eff, Geometry.InData, IsChain, Splice,
         EntryRoom, EntryApart, Geometry.Valid, KeepsCount, AllocOf, IsChainOrNone, OnlyChainSectors, GrownTo, RanOut;
    ViewFacts(f);
    ghost var p, t, img := f.chain, Fat(f.fs), f.fs.img;
    var res := f.Seek(offset);
    ValidVolume(f);
    ConfinedIsSpared(f.err != FrDiskErr, f.fs.geo, f.dirSect, f.dirOfs, p, t, img, f.chain, Fat(f.fs), f.fs.img);
    if f.err == FrOk { ViewFacts(f); }
    SeekKeeps(f);
  }

  /** A seek that did not extend the file keeps what the last sync stored. */
  twostate lemma SeekKeeps(f: File)
    requires old(f.Valid()) && f.Valid() && old(f.err) == FrOk && old(f.Base() && f.Buffered())
    requires old(f.dirty) ==> old(f.modified)
    requires f.err == FrOk ==>
      && PowerOfTwo(f.fs.geo.csize) && Fits(f.fs.geo, old(f.chain), old(f.objsize)) && f.Base() && f.Buffered()
      && |old(f.Data())| == old(f.objsize) && |f.Data()| == f.objsize
      && f.objsize == Max(old(f.objsize), f.fptr) && |f.chain| == Max(|old(f.chain)|, Clusters(f.fs.geo, f.fptr))
      && old(f.chain) <= f.chain && old(f.Data()) <= f.Data() && f.lost == old(f.lost)
      && (f.chain == old(f.chain) ==>
            (!old(f.dirty) ==> f.fs.img == old(f.fs.img)) && (f.fs.wflag ==> old(f.fs.wflag)) &&
            f.fs.fsiDirty == old(f.fs.fsiDirty))
      && (f.objsize > old(f.objsize) ==> f.modified) && (old(f.modified) ==> f.modified)
    ensures old(Kept(f)) ==> Kept(f)
  {
    hide File.Valid, File.Base, File.Buffered, File.Data, Kept, Fits, Clusters, PowerOfTwo;
    if f.err == FrOk && !f.modified {
      SameContent(old(f.Data()), f.Data());
      SameChain(f.fs.geo, old(f.chain), f.chain, f.fptr, old(f.objsize));
    }
    StillKept(f);
  }

  /** `f_lseek` answers as the byte sequence. */
  method PlaySeek(f: File, offset: u32) returns (reply: Reply)
    requires f.Valid() && f.err == FrOk
    modifies f, f.buf, f.fs`wflag, f.fs`winSect, f.fs`img, f.fs`freeClst
    modifies f.fs`lastClst, f.fs`fsiDirty, f.fs.win, f.fs.disk
    ensures f.Valid() && f.fs.Valid()
    ensures f.fs.winSect == old(f.fs.winSect) || !f.fs.geo.InData(f.fs.winSect) || f.fs.winSect == f.dirSect
    ensures f.err == FrOk ==> Answers(old(View(f)), DoSeek(offset), reply, View(f))
    ensures f.err == FrOk || f.err == FrDiskErr || f.err == FrIntErr
    ensures f.err == FrIntErr ==> !NoOnes(old(Fat(f.fs)))
    ensures Spared(f.err != FrDiskErr, f.fs.geo, f.dirSect, f.dirOfs, old(f.chain), old(Fat(f.fs)), old(f.fs.img),
                   f.chain, Fat(f.fs), f.fs.img)
    ensures old(Kept(f)) ==> Kept(f)
    ensures f.fs.disk.reliable ==> f.err != FrDiskErr && (f.lost ==> old(f.lost))
    ensures reply != NotSynced
    ensures f.lost == old(f.lost)
    ensures f.fs.disk.reliable && old(f.fs.Mirrored()) ==> f.fs.Mirrored()
  {
    hide File.Valid, File.Allocated, Kept, SeekAnswers, File.Base, File.Buffered, File.Cursor, File.Data, View,
         WellFormed, Spared, FreeClusters, NoOnes, Volume.Mirrored, Volume.Valid, Table, ClusterBytes, Geometry.InData,
         IsChain, Fits, Clusters, PowerOfTwo, Geometry.Valid, EntryRoom, EntryApart, SpaceOf;
    ViewFacts(f);
    ghost var p, t, img, m := f.chain, Fat(f.fs), f.fs.img, View(f);
    SeekSparing(f, offset);
    reply := Success;
    if f.err == FrOk {
      ViewFacts(f);
      SeekReplies(m, View(f), offset, f.fs.geo, p, f.chain);
      SpaceFacts(f, p, t, img);
    }
  }

  /** `f_truncate`, and what it spares. */
  method TruncateSparing(f: File) returns (res: FResult)
    requires f.Valid() && f.err == FrOk
    modifies f, f.buf, f.fs`wflag, f.fs`winSect, f.fs`img, f.fs`freeClst
    modifies f.fs`lastClst, f.fs`fsiDirty, f.fs.win, f.fs.disk
    ensures f.Valid() && f.fs.Valid()
    ensures f.fs.winSect == old(f.fs.winSect) || !f.fs.geo.InData(f.fs.winSect)
    ensures f.err == FrOk || f.err == FrDiskErr
    ensures f.err == FrOk ==> f.Base() && f.Buffered() && (res == FrDenied <==> !f.writable)
    ensures f.fptr == old(f.fptr)
    ensures f.err == FrOk && f.writable ==>
      && f.Data() == old(f.Data())[..f.fptr] && KeepsCount(old(AllocOf(f.fs)), AllocOf(f.fs))
      && PowerOfTwo(f.fs.geo.csize)
      && |f.chain| == if f.fptr < |old(f.Data())| then Clusters(f.fs.geo, f.fptr) else |old(f.chain)|
    ensures !f.writable ==>
      f.err == FrOk && f.chain == old(f.chain) && f.Data() == old(f.Data()) && f.fs.img == old(f.fs.img) &&
      f.fs.freeClst == old(f.fs.freeClst)
    ensures Spared(f.err != FrDiskErr, f.fs.geo, f.dirSect, f.dirOfs, old(f.chain), old(Fat(f.fs)), old(f.fs.img),
                   f.chain, Fat(f.fs), f.fs.img)
    ensures old(Kept(f)) ==> Kept(f)
    ensures f.lost == old(f.lost)
    ensures f.fs.disk.reliable ==> f.err == FrOk
    ensures f.fs.disk.reliable && old(f.fs.Mirrored()) ==> f.fs.Mirrored()
  {
    hide TruncateAnswers, SpaceOf, File.Valid, File.Allocated, Kept, Room, File.Base, File.Buffered, File.Cursor,
         File.Data, File.Eff, View, WellFormed, Spared, FreeClusters, NoOnes, Volume.Mirrored, Volume.Valid, Table,
         Fits, Clusters, ClusterBytes, Blocks, Stored, PowerOfTwo, Geometry.InData, IsChain, OutsideFile, CutAt,
         EntryRoom, EntryApart, Geometry.Valid, Rechained;
    ViewFacts(f);
    ghost var p, t, img, c := f.chain, Fat(f.fs), f.fs.img, f.Data();
    res := Truncate(f);
    ValidVolume(f);
    if f.err == FrOk && res == FrOk {
      CutRechains(f.fs.geo, t, Fat(f.fs), p, |f.chain|);
      assert p[..|f.chain|] == f.chain;
    }
    CutIsSpared(f.err == FrOk && res == FrOk, f.fs.geo, f.dirSect, f.dirOfs, p, t, img, f.chain, Fat(f.fs), f.fs.img);
    if res == FrDenied { SparedRefl(f.fs.geo, f.dirSect, f.dirOfs, p, t, img); }
    assert c[..|c|] == c;
    if f.err == FrOk { ViewFacts(f); }
    StillKept(f);
  }

  /** `f_truncate` answers as the byte sequence. */
  method PlayTruncate(f: File) returns (reply: Reply)
    requires f.Valid() && f.err == FrOk
    modifies f, f.buf, f.fs`wflag, f.fs`winSect, f.fs`img, f.fs`freeClst
    modifies f.fs`lastClst, f.fs`fsiDirty, f.fs.win, f.fs.disk
    ensures f.Valid() && f.fs.Valid()
    ensures f.fs.winSect == old(f.fs.winSect) || !f.fs.geo.InData(f.fs.winSect) || f.fs.winSect == f.dirSect
    ensures f.err == FrOk ==> Answers(old(View(f)), DoTruncate, reply, View(f))
    ensures f.err == FrOk || f.err == FrDiskErr || f.err == FrIntErr
    ensures f.err == FrIntErr ==> !NoOnes(old(Fat(f.fs)))
    ensures Spared(f.err != FrDiskErr, f.fs.geo, f.dirSect, f.dirOfs, old(f.chain), old(Fat(f.fs)), old(f.fs.img),
                   f.chain, Fat(f.fs), f.fs.img)
    ensures old(Kept(f)) ==> Kept(f)
    ensures f.fs.disk.reliable ==> f.err != FrDiskErr && (f.lost ==> old(f.lost))
    ensures reply != NotSynced
    ensures f.lost == old(f.lost)
    ensures f.fs.disk.reliable && old(f.fs.Mirrored()) ==> f.fs.Mirrored()
  {
    hide Clusters, PowerOfTwo, File.Valid, Kept, TruncateAnswers, File.Base, File.Buffered, File.Cursor, File.Data,
         View, WellFormed, Spared, FreeClusters, NoOnes, Volume.Mirrored, Volume.Valid, Table, ClusterBytes,
         Geometry.InData, IsChain, EntryRoom, EntryApart, Geometry.Valid;
    ViewFacts(f);
    ghost var p, t, img, m := f.chain, Fat(f.fs), f.fs.img, View(f);
    var res := TruncateSparing(f);
    reply := if res == FrDenied then Denied else Success;
    if f.err == FrOk {
      ViewFacts(f);
      SpaceFacts(f, p, t, img);
      TruncateReplies(m, View(f), f.fs.geo);
    }
  }

  /** `f_sync` changes nothing the file shows. */
  method PlaySync(f: File, tm: u32) returns (reply: Reply)
    requires f.Valid() && f.err == FrOk
    modifies f, f.buf, f.fs`wflag, f.fs`winSect, f.fs`img, f.fs`freeClst
    modifies f.fs`lastClst, f.fs`fsiDirty, f.fs.win, f.fs.disk
    ensures f.Valid() && f.fs.Valid()
    ensures f.fs.winSect == old(f.fs.winSect) || !f.fs.geo.InData(f.fs.winSect) || f.fs.winSect == f.dirSect
    ensures f.err == FrOk ==> Answers(old(View(f)), DoSync(tm), reply, View(f))
    ensures f.err == FrOk || f.err == FrDiskErr || f.err == FrIntErr
    ensures f.err == FrIntErr ==> !NoOnes(old(Fat(f.fs)))
    ensures Spared(f.err != FrDiskErr, f.fs.geo, f.dirSect, f.dirOfs, old(f.chain), old(Fat(f.fs)), old(f.fs.img),
                   f.chain, Fat(f.fs), f.fs.img)
    ensures old(Kept(f)) ==> Kept(f)
    ensures f.fs.disk.reliable ==> f.err != FrDiskErr && (f.lost ==> old(f.lost))
    ensures f.err == FrOk && reply != NotSynced ==> (f.lost ==> old(f.lost))
    ensures f.fs.disk.reliable ==> reply != NotSynced
    ensures f.fs.disk.reliable && old(f.fs.Mirrored()) ==> f.fs.Mirrored()
  {
    hide File.Base, File.Buffered, File.Cursor, File.Data, View, WellFormed, Confined, Spared, FreeClusters, NoOnes,
         Volume.Mirrored, Volume.Valid, Table, Fits, Clusters, ClusterBytes, Blocks, Stored, PowerOfTwo, File.Eff,
         Geometry.InData, IsChain, Splice, OnlyChainSectors, OutsideFile, CutAt, EntryRoom, EntryApart,
         Geometry.Valid, SameBesides;
    ViewFacts(f);
    ghost var p, t, img, s, c := f.chain, Fat(f.fs), f.fs.img, SpaceOf(f), f.Data();
    DirtyInChain(f);
    var res := Sync(f, tm);
    SyncIsSpared(f.err != FrDiskErr, f.fs.geo, f.dirSect, f.dirOfs, p, t, img, f.fs.img, old(f.dirty), f.sect);
    reply := if res == FrOk then Success else NotSynced;
    if f.err == FrOk { ViewFacts(f); }
  }

  /** A cursor that stopped where not a byte more fits stands behind the last byte of the chain. */
  lemma WhereItEnds(g: Geometry, p: seq<nat>, n: nat)
    requires PowerOfTwo(g.csize) && Fits(g, p, n)
    ensures ClusterBytes(g) > 0 && Blocks(n, ClusterBytes(g)) == Clusters(g, n)
    ensures !Fits(g, p, n + 1) ==> forall s: Space :: s.chain == |p| && s.unit == ClusterBytes(g) ==> n == Room(s)
  {
    BlocksAreClusters(g, n);
    if !Fits(g, p, n + 1) { RoomIsUsedUp(g, p, n); }
  }

  lemma SameChain(g: Geometry, p: seq<nat>, p': seq<nat>, pos: nat, n: nat)
    requires PowerOfTwo(g.csize) && Fits(g, p, n) && pos <= n && p <= p' && |p'| == Max(|p|, Clusters(g, pos))
    ensures p' == p
  {
    ClustersMonotone(g, pos, n);
  }

  lemma SameContent(c: seq<byte>, d: seq<byte>)
    requires c <= d
    ensures |d| == |c| ==> d == c
  {
  }

  lemma ReadIsAnswer(m: Model, count: u32, reply: Reply, m': Model)
    requires WellFormed(m) && WellFormed(m') && ReadAnswers(m, count, reply, m')
    ensures Answers(m, DoRead(count), reply, m')
  {
  }

  /** The answer of a read, from what the driver did to cursor and content. */
  lemma ReadReplies(m: Model, m': Model, count: u32, data: seq<byte>)
    requires m.pos <= |m.data| && m' == m.(pos := m'.pos)
    requires m.readable ==> m'.pos == m.pos + (if count > |m.data| - m.pos then |m.data| - m.pos else count)
    requires m.readable ==> data == m.data[m.pos..m'.pos]
    requires !m.readable ==> m' == m
    ensures ReadAnswers(m, count, if m.readable then Bytes(data) else Denied, m')
  {
  }

  /** The answer of a truncation, from what the driver did to content and chain. */
  lemma TruncateReplies(m: Model, m': Model, g: Geometry)
    requires m.pos <= |m.data| && PowerOfTwo(g.csize) && m.space.unit == ClusterBytes(g)
    requires !m.writable ==> m' == m
    requires m.writable ==> m'.data == m.data[..m.pos] && m'.pos == m.pos
    requires m.writable ==> m'.space.chain == if m.pos < |m.data| then Clusters(g, m.pos) else m.space.chain
    ensures TruncateAnswers(m, if m.writable then Success else Denied, m')
  {
    BlocksAreClusters(g, m.pos);
  }

  /** The answer of a seek, from what the driver did to cursor, content and chain. */
  lemma SeekReplies(m: Model, m': Model, offset: u32, g: Geometry, p: seq<nat>, p': seq<nat>)
    requires PowerOfTwo(g.csize) && m.space.unit == m'.space.unit == ClusterBytes(g)
    requires m.space.chain == |p| && m'.space.chain == |p'| == Max(|p|, Clusters(g, m'.pos))
    requires Fits(g, p', m'.pos) && |m'.data| == Max(|m.data|, m'.pos) && m.data <= m'.data
    requires var target := if offset > |m.data| && !m.writable then |m.data| else offset;
      m'.pos <= target &&
      (m'.pos < target ==> m.writable && target > |m.data| && !Fits(g, p', m'.pos + 1) && Full(m'.space))
    ensures SeekAnswers(m, offset, Success, m')
  {
    WhereItEnds(g, p', m'.pos);
    hide PowerOfTwo, Fits, Clusters, ClusterBytes, Room, Blocks;
  }

  /** The space of a file after a call that spared the rest of the volume. */
  lemma SpaceFacts(f: File, p: seq<nat>, t: seq<u32>, img: seq<Sector>)
    requires f.Valid() && f.err == FrOk && IsChainOrNone(t, p) && |t| >= 2
    requires Spared(true, f.fs.geo, f.dirSect, f.dirOfs, p, t, img, f.chain, Fat(f.fs), f.fs.img)
    ensures SpaceOf(f) == Space(ClusterBytes(f.fs.geo), |f.chain|, FreeClusters(Fat(f.fs)), f.fs.freeClst == 0,
                                Accurate(AllocOf(f.fs)))
    ensures |f.chain| + FreeClusters(Fat(f.fs)) == |p| + FreeClusters(t)
  {
    ViewFacts(f);
    SparedRechains(f.fs.geo, f.dirSect, f.dirOfs, p, t, img, f.chain, Fat(f.fs), f.fs.img);
    RechainedConserves(t, Fat(f.fs), p, f.chain);
  }

  /** A call that neither modified the file nor touched the image keeps what the last sync stored. */
  twostate lemma StillKept(f: File)
    requires old(f.Valid()) && f.Valid() && old(f.err) == FrOk
    requires f.err == FrOk && !f.modified ==>
      && !old(f.modified) && f.lost == old(f.lost) && (f.fs.wflag ==>
        old(f.fs.wflag)) && f.fs.fsiDirty == old(f.fs.fsiDirty)
      && f.fs.img == old(f.fs.img) && f.chain == old(f.chain) && f.Data() == old(f.Data())
    ensures old(Kept(f)) ==> Kept(f)
  {
    hide Stored, File.Data;
  }

  lemma DirtyInChain(f: File)
    requires f.Valid() && f.err == FrOk
    ensures f.dirty ==> InChain(f.fs.geo, f.chain, f.sect)
  {
  }

  lemma SyncIsSpared(ok: bool, g: Geometry, ds: int, ofs: nat, p: seq<nat>, t: seq<u32>, img: seq<Sector>,
                     img': seq<Sector>,
                     dirty: bool, sect: int)
    requires dirty ==> InChain(g, p, sect)
    requires |img'| == |img| && forall s :: 0 <= s < |img| && !(dirty && s == sect) && s != ds ==> img'[s] == img[s]
    requires 0 <= ds < |img| && SameBesides(img[ds], img'[ds], ofs)
    ensures Spared(ok, g, ds, ofs, p, t, img, p, t, img')
  {
  }

  /** One call. */
  method PlayOne(f: File, op: Op) returns (reply: Reply)
    requires f.Valid() && f.err == FrOk && (op.DoWrite? ==> |op.w| <= 0xFFFF_FFFF)
    modifies f, f.buf, f.fs`wflag, f.fs`winSect, f.fs`img, f.fs`freeClst
    modifies f.fs`lastClst, f.fs`fsiDirty, f.fs.win, f.fs.disk
    ensures f.Valid() && f.fs.Valid()
    ensures f.fs.winSect == old(f.fs.winSect) || !f.fs.geo.InData(f.fs.winSect) || f.fs.winSect == f.dirSect
    ensures f.err == FrOk ==> Answers(old(View(f)), op, reply, View(f))
    ensures f.err == FrOk || f.err == FrDiskErr || f.err == FrIntErr
    ensures f.err == FrIntErr ==> !NoOnes(old(Fat(f.fs)))
    ensures Spared(f.err != FrDiskErr, f.fs.geo, f.dirSect, f.dirOfs, old(f.chain), old(Fat(f.fs)), old(f.fs.img),
                   f.chain, Fat(f.fs), f.fs.img)
    ensures old(Kept(f)) ==> Kept(f)
    ensures f.fs.disk.reliable ==> f.err != FrDiskErr && (f.lost ==> old(f.lost))
    ensures f.err == FrOk && reply != NotSynced ==> (f.lost ==> old(f.lost))
    ensures f.fs.disk.reliable ==> reply != NotSynced
    ensures f.fs.disk.reliable && old(f.fs.Mirrored()) ==> f.fs.Mirrored()
  {
    hide Answers, View, Spared, Kept, File.Base, File.Buffered, NoOnes, Volume.Mirrored, Fat, Geometry.InData;
    match op {
      case DoRead(count) => reply := PlayRead(f, count);
      case DoWrite(w) => reply := PlayWrite(f, w);
      case DoSeek(offset) => reply := PlaySeek(f, offset);
      case DoTruncate => reply := PlayTruncate(f);
      case DoSync(tm) => reply := PlaySync(f, tm);
    }
  }

  /** Any sequence of calls: until a call marks the file object as failed, the file behaves as a byte sequence
      with a cursor, and everything the run changed belongs to the file. */
  method Play(f: File, ops: seq<Op>) returns (done: nat, replies: seq<Reply>, ghost ms: seq<Model>)
    requires f.Valid() && f.err == FrOk
    requires forall i :: 0 <= i < |ops| && ops[i].DoWrite? ==> |ops[i].w| <= 0xFFFF_FFFF
    modifies f, f.buf, f.fs`wflag, f.fs`winSect, f.fs`img, f.fs`freeClst
    modifies f.fs`lastClst, f.fs`fsiDirty, f.fs.win, f.fs.disk
    ensures f.Valid() && f.fs.Valid()
    ensures f.fs.winSect == old(f.fs.winSect) || !f.fs.geo.InData(f.fs.winSect) || f.fs.winSect == f.dirSect
    ensures done <= |ops| && (f.err == FrOk ==> done == |ops|)
    ensures History(ms, ops[..done], replies) && ms[0] == old(View(f))
    ensures f.err == FrOk ==> ms[done] == View(f)
    ensures f.err == FrOk || f.err == FrDiskErr || f.err == FrIntErr
    ensures f.err == FrIntErr ==> !NoOnes(old(Fat(f.fs)))
    ensures Spared(f.err != FrDiskErr, f.fs.geo, f.dirSect, f.dirOfs, old(f.chain), old(Fat(f.fs)), old(f.fs.img),
                   f.chain, Fat(f.fs), f.fs.img)
    ensures old(Kept(f)) ==> Kept(f)
    ensures f.fs.disk.reliable ==> f.err != FrDiskErr && (f.lost ==> old(f.lost))
    ensures f.err == FrOk && NotSynced !in replies ==> (f.lost ==> old(f.lost))
    ensures f.fs.disk.reliable ==> NotSynced !in replies
    ensures f.fs.disk.reliable && NoOnes(old(Fat(f.fs))) ==> f.err == FrOk && done == |ops| && NoOnes(Fat(f.fs))
    ensures f.fs.disk.reliable && old(f.fs.Mirrored()) ==> f.fs.Mirrored()
  {
    hide File.Valid, File.Allocated, Answers, View, Spared, Kept, File.Base, File.Buffered, File.Data, History,
         Volume.Valid, EntryRoom, EntryApart, SameBesides, Stored, NoOnes, Volume.Mirrored, Fat, Geometry.InData;
    ViewFacts(f);
    ghost var p, t, img := f.chain, Fat(f.fs), f.fs.img;
    SparedRefl(f.fs.geo, f.dirSect, f.dirOfs, p, t, img);
    done, replies, ms := 0, [], [View(f)];
    HistoryStarts(View(f), ops);
    while done < |ops|
      invariant done <= |ops| && |ms| == done + 1 && f.err == FrOk && f.Valid() && f.fs.Valid()
      invariant f.fs.winSect == old(f.fs.winSect) || !f.fs.geo.InData(f.fs.winSect) || f.fs.winSect == f.dirSect
      invariant History(ms, ops[..done], replies) && ms[0] == old(View(f)) && ms[done] == View(f)
      invariant Spared(true, f.fs.geo, f.dirSect, f.dirOfs, p, t, img, f.chain, Fat(f.fs), f.fs.img)
      invariant old(Kept(f)) ==> Kept(f)
      invariant f.fs.disk.reliable ==> (f.lost ==> old(f.lost))
      invariant NotSynced !in replies ==> (f.lost ==> old(f.lost))
      invariant f.fs.disk.reliable ==> NotSynced !in replies
      invariant NoOnes(t) ==> NoOnes(Fat(f.fs))
      invariant f.fs.disk.reliable && old(f.fs.Mirrored()) ==> f.fs.Mirrored()
    {
      ghost var p1, t1, img1 := f.chain, Fat(f.fs), f.fs.img;
      var reply := PlayOne(f, ops[done]);
      SparedTrans(f.err != FrDiskErr, f.fs.geo, f.dirSect, f.dirOfs, p, t, img, p1, t1, img1, f.chain, Fat(f.fs),
                  f.fs.img);
      if f.err != FrOk { return; }
      ViewFacts(f);
      SparedNoOnes(f.fs.geo, f.dirSect, f.dirOfs, p, t, img, f.chain, Fat(f.fs), f.fs.img);
      Longer(ms, ops, replies, done, reply, View(f));
      replies, ms := replies + [reply], ms + [View(f)];
      done := done + 1;
    }
  }

  lemma HistoryStarts(m: Model, ops: seq<Op>)
    ensures History([m], ops[..0], [])
  {
  }

  lemma Longer(ms: seq<Model>, ops: seq<Op>, replies: seq<Reply>, k: nat, reply: Reply, m: Model)
    requires k < |ops| && History(ms, ops[..k], replies) && Answers(ms[k], ops[k], reply, m)
    ensures History(ms + [m], ops[..k + 1], replies + [reply])
    ensures |ms| == k + 1
  {
    hide Answers;
    var ms', ops', replies' := ms + [m], ops[..k + 1], replies + [reply];
    forall i | 0 <= i <= k
      ensures AnswersAt(ms', ops', replies', i)
    {
      if i < k { assert AnswersAt(ms, ops[..k], replies, i); }
    }
  }

  /** The abstract file that decides everything by itself: content, cursor, and the size it can grow to. */
  datatype Plain = Plain(data: seq<byte>, pos: nat, readable: bool, writable: bool, capacity: nat)

  predicate Sane(f: Plain) {
    f.pos <= |f.data| <= f.capacity <= 0xFFFF_FFFF
  }

  /** The file after a call; a sync changes nothing, and a seek ends at the end of file at the latest. */
  function After(f: Plain, op: Op): (r: Plain)
    requires Sane(f)
    ensures Sane(r)
  {
    match op
    case DoRead(count) => if f.readable then f.(pos := f.pos + Min(count, |f.data| - f.pos)) else f
    case DoWrite(w) =>
      var n := Min(|w|, f.capacity - f.pos);
      if f.writable then f.(data := Splice(f.data, f.pos, w[..n]), pos := f.pos + n) else f
    case DoSeek(offset) => f.(pos := Min(offset, |f.data|))
    case DoTruncate => if f.writable then f.(data := f.data[..f.pos]) else f
    case DoSync(_) => f
  }

  /** Its reply; a sync may also report a failure. */
  function ReplyOf(f: Plain, op: Op): Reply
    requires Sane(f)
  {
    match op
    case DoRead(count) => if f.readable then Bytes(f.data[f.pos..f.pos + Min(count, |f.data| - f.pos)]) else Denied
    case DoWrite(w) => if f.writable then Count(Min(|w|, f.capacity - f.pos)) else Denied
    case DoSeek(_) => Success
    case DoTruncate => if f.writable then Success else Denied
    case DoSync(_) => Success
  }

  function Replay(f: Plain, ops: seq<Op>): (r: Plain)
    requires Sane(f)
    ensures Sane(r)
    decreases |ops|
  {
    if ops == [] then f else After(Replay(f, ops[..|ops| - 1]), ops[|ops| - 1])
  }

  function PlainOf(m: Model): (f: Plain)
    requires WellFormed(m)
    ensures Sane(f)
  {
    RoomInCapacity(m.space);
    Plain(m.data, m.pos, m.readable, m.writable, Capacity(m.space))
  }

  lemma RoomInCapacity(s: Space)
    ensures Room(s) <= (s.chain + s.free) * s.unit
  {
    assert (s.chain + s.free) * s.unit == s.chain * s.unit + s.free * s.unit;
  }

  /** A seek stays inside the file, and either the stored free count is right or unknown, or a write stays
      inside the clusters the file already has. */
  predicate Decided(m: Model, op: Op) {
    && (op.DoSeek? && m.writable ==> op.offset <= |m.data|)
    && (op.DoWrite? && m.writable ==> m.space.counted || m.pos + |op.w| <= Min(0xFFFF_FFFF, Room(m.space)))
  }

  ghost predicate DecidedAt(ms: seq<Model>, ops: seq<Op>, i: nat)
    requires i < |ops| && |ms| == |ops| + 1
  {
    Decided(ms[i], ops[i])
  }

  /** Where a write stops: after all its bytes, or at the capacity. */
  lemma WriteStops(s: Space, s': Space, pos: nat, len: nat, n: nat)
    requires s'.unit == s.unit && s'.chain + s'.free == s.chain + s.free && s'.chain >= s.chain
    requires n <= len && pos + n <= 0xFFFF_FFFF && pos <= Room(s) && pos + n <= Room(s')
    requires n < len && pos + n < 0xFFFF_FFFF ==> pos + n == Room(s') && Full(s')
    requires (s'.stuck ==> s'.free == 0) || pos + len <= Min(0xFFFF_FFFF, Room(s))
    ensures pos <= Capacity(s) && n == Min(len, Capacity(s) - pos)
    ensures Capacity(s') == Capacity(s)
  {
    RoomInCapacity(s);
    RoomInCapacity(s');
    TimesMonotone(s.chain, s'.chain, s.unit);
  }

  lemma WriteIsExact(m: Model, w: seq<byte>, reply: Reply, m': Model)
    requires Answers(m, DoWrite(w), reply, m') && Decided(m, DoWrite(w)) && m.writable
    ensures PlainOf(m') == After(PlainOf(m), DoWrite(w)) && reply == ReplyOf(PlainOf(m), DoWrite(w))
  {
    SpliceLength(m.data, m.pos, w[..reply.n]);
    hide Capacity, Room, Blocks, Splice;
    WriteStops(m.space, m'.space, m.pos, |w|, reply.n);
  }

  lemma SpliceLength(c: seq<byte>, o: nat, w: seq<byte>)
    requires o <= |c|
    ensures |Splice(c, o, w)| == Max(|c|, o + |w|)
  {
  }

  lemma StepIsExact(m: Model, op: Op, reply: Reply, m': Model)
    requires Answers(m, op, reply, m') && Decided(m, op)
    ensures PlainOf(m') == After(PlainOf(m), op)
    ensures reply == ReplyOf(PlainOf(m), op) || (op.DoSync? && reply == NotSynced)
  {
    match op
    case DoRead(_) =>
    case DoWrite(w) => if m.writable { WriteIsExact(m, w, reply, m'); }
    case DoSeek(offset) => SameContent(m.data, m'.data);
    case DoTruncate =>
    case DoSync(_) =>
  }

  /** On a volume whose free count is right, and inside the clusters of the file on any volume, also a full one,
      the history is the one of the abstract file, reply by reply. */
  lemma {:induction false} HistoryIsReplay(ms: seq<Model>, ops: seq<Op>, replies: seq<Reply>)
    requires History(ms, ops, replies) && WellFormed(ms[0])
    requires forall i :: 0 <= i < |ops| ==> DecidedAt(ms, ops, i)
    ensures WellFormed(ms[|ops|]) && PlainOf(ms[|ops|]) == Replay(PlainOf(ms[0]), ops)
    ensures forall i :: 0 <= i < |ops| ==>
      replies[i] == ReplyOf(Replay(PlainOf(ms[0]), ops[..i]), ops[i]) || (ops[i].DoSync? && replies[i] == NotSynced)
    decreases |ops|
  {
    hide Answers, After, ReplyOf, Decided, PlainOf, WellFormed;
    if ops == [] {
      ReplayNothing(PlainOf(ms[0]));
    } else {
      var k := |ops| - 1;
      var ms', ops', replies' := ms[..|ops|], ops[..k], replies[..k];
      forall i | 0 <= i < k
        ensures AnswersAt(ms', ops', replies', i) && DecidedAt(ms', ops', i)
      {
        assert AnswersAt(ms, ops, replies, i) && DecidedAt(ms, ops, i);
      }
      HistoryIsReplay(ms', ops', replies');
      assert AnswersAt(ms, ops, replies, k) && DecidedAt(ms, ops, k);
      AnswersFormed(ms[k], ops[k], replies[k], ms[k + 1]);
      StepIsExact(ms[k], ops[k], replies[k], ms[k + 1]);
      ReplayLast(PlainOf(ms[0]), ops);
      forall i | 0 <= i < k
        ensures replies[i] == ReplyOf(Replay(PlainOf(ms[0]), ops[..i]), ops[i]) ||
                (ops[i].DoSync? && replies[i] == NotSynced)
      {
        assert ops'[..i] == ops[..i] && replies'[i] == replies[i] && ops'[i] == ops[i];
      }
    }
  }

  lemma AnswersFormed(m: Model, op: Op, reply: Reply, m': Model)
    requires Answers(m, op, reply, m')
    ensures WellFormed(m) && WellFormed(m')
  {
  }

  lemma ReplayNothing(f: Plain)
    requires Sane(f)
    ensures Replay(f, []) == f
  {
  }

  lemma ReplayLast(f: Plain, ops: seq<Op>)
    requires Sane(f) && ops != []
    ensures Replay(f, ops) == After(Replay(f, ops[..|ops| - 1]), ops[|ops| - 1])
  {
  }

  /** Before the call: a write is accepted in full exactly when it ends inside 4 GiB - 1 and inside the
      clusters of the file and the free ones together. */
  lemma WriteIsCompleteIff(m: Model, w: seq<byte>, reply: Reply, m': Model)
    requires Answers(m, DoWrite(w), reply, m') && m.writable && m.space.counted
    ensures reply == Count(|w|) <==> m.pos + |w| <= Min(0xFFFF_FFFF, (m.space.chain + m.space.free) * m.space.unit)
  {
    WriteIsExact(m, w, reply, m');
  }

  /** What was written is what a read at the same place returns. */
  lemma WriteThenRead(ms: seq<Model>, replies: seq<Reply>, w: seq<byte>, pos: u32)
    requires |w| <= 0xFFFF_FFFF && History(ms, [DoWrite(w), DoSeek(pos), DoRead(|w|)], replies)
    requires ms[0].pos == pos && ms[0].readable && replies[0] == Count(|w|)
    ensures replies[2] == Bytes(w)
  {
    var ops := [DoWrite(w), DoSeek(pos), DoRead(|w|)];
    assert AnswersAt(ms, ops, replies, 0) && AnswersAt(ms, ops, replies, 1) && AnswersAt(ms, ops, replies, 2);
    hide GrownTo, RanOut;
    assert w[..|w|] == w;
    WrittenIsThere(ms[0].data, pos, w);
    assert ms[2].data == ms[1].data && ms[2].pos == pos;
  }

  lemma WrittenIsThere(c: seq<byte>, pos: nat, w: seq<byte>)
    requires pos <= |c|
    ensures pos + |w| <= |Splice(c, pos, w)| && Splice(c, pos, w)[pos..pos + |w|] == w
  {
  }

  /** After a successful run the FAT is still a set of disjoint chains, with the chain of the file replaced by
      what it is now, if it has one. */
  lemma RunKeepsForest(g: Geometry, ds: int, ofs: nat, p: seq<nat>, t: seq<u32>, img: seq<Sector>,
                       p': seq<nat>, t': seq<u32>, img': seq<Sector>, cs: set<seq<nat>>)
    requires Spared(true, g, ds, ofs, p, t, img, p', t', img') && Forest(t, cs) && IsChainOrNone(t', p')
    requires p == [] || p in cs
    ensures Forest(t', cs - {p} + if p' == [] then {} else {p'})
  {
    SparedRechains(g, ds, ofs, p, t, img, p', t', img');
    RechainedForest(t, t', cs, p, p');
  }

  /** A file on a disjoint chain keeps its clusters and its sectors through every run on another file, even one
      that ended in an error. */
  lemma OtherChainKept(ok: bool, g: Geometry, ds: int, ofs: nat, p: seq<nat>, t: seq<u32>, img: seq<Sector>,
                       p': seq<nat>, t': seq<u32>, img': seq<Sector>, q: seq<nat>)
    requires Spared(ok, g, ds, ofs, p, t, img, p', t', img') && IsChainOrNone(t, q) && Disjoint(q, p)
    requires g.Valid() && |t| == g.nFatEnt && g.End() <= |img| && !InChain(g, q, ds)
    ensures IsChainOrNone(t', q) && Disjoint(q, p')
    ensures forall s :: 0 <= s < |img| && InChain(g, q, s) ==> img'[s] == img[s]
  {
    forall c | c in q
      ensures 2 <= c < |t| && t[c] >= 2 && c !in p'
    {
      OnChain(t, q, c);
    }
    hide IsChain;
    if q != [] { ChainFrame(t, t', q); }
    forall s | 0 <= s < |img| && InChain(g, q, s)
      ensures img'[s] == img[s]
    {
      assert !OwnSector(g, p, t, s);
    }
  }

  /** The place of a directory entry another file leaves alone: not the entry of that file, and not in its
      clusters. */
  ghost predicate EntryBeside(g: Geometry, t: seq<u32>, p: seq<nat>, ds: int, ofs: nat, eds: int, eofs: nat) {
    && EntryRoom(g, eds, eofs) && EntryApart(g, t, p, eds)
    && (eds == ds ==> eofs + ENTRY_SIZE <= ofs || ofs + ENTRY_SIZE <= eofs)
  }

  lemma OtherEntrySame(a: Sector, b: Sector, ofs: nat, eofs: nat)
    requires SameBesides(a, b, ofs) && eofs + ENTRY_SIZE <= SECTOR_SIZE
    requires eofs + ENTRY_SIZE <= ofs || ofs + ENTRY_SIZE <= eofs
    ensures b[eofs..eofs + ENTRY_SIZE] == a[eofs..eofs + ENTRY_SIZE]
  {
    var u, v := a[eofs..eofs + ENTRY_SIZE], b[eofs..eofs + ENTRY_SIZE];
    var low, low', high, high' := a[..ofs], b[..ofs], a[ofs + ENTRY_SIZE..], b[ofs + ENTRY_SIZE..];
    forall k | 0 <= k < ENTRY_SIZE
      ensures v[k] == u[k]
    {
      var j := eofs + k;
      if j < ofs {
        assert low[j] == low'[j];
      } else {
        assert high[j - (ofs + ENTRY_SIZE)] == high'[j - (ofs + ENTRY_SIZE)];
      }
    }
  }

  lemma EntryBytesKept(ok: bool, g: Geometry, ds: int, ofs: nat, p: seq<nat>, t: seq<u32>, img: seq<Sector>,
                       p': seq<nat>, t': seq<u32>, img': seq<Sector>, eds: int, eofs: nat)
    requires Spared(ok, g, ds, ofs, p, t, img, p', t', img') && g.Valid() && g.End() <= |img|
    requires EntryBeside(g, t, p, ds, ofs, eds, eofs)
    ensures 0 <= eds < |img| && img'[eds][eofs..eofs + ENTRY_SIZE] == img[eds][eofs..eofs + ENTRY_SIZE]
    ensures EntryBeside(g, t', p', ds, ofs, eds, eofs)
  {
    if eds == ds {
      OtherEntrySame(img[ds], img'[ds], ofs, eofs);
    } else {
      assert !OwnSector(g, p, t, eds);
    }
  }

  /** Another file stays as it stands in the image: directory entry, chain and content. */
  lemma OtherFileKept(ok: bool, g: Geometry, ds: int, ofs: nat, p: seq<nat>, t: seq<u32>, img: seq<Sector>,
                      p': seq<nat>, t': seq<u32>, img': seq<Sector>, q: seq<nat>, eds: int, eofs: nat, c: seq<byte>)
    requires Spared(ok, g, ds, ofs, p, t, img, p', t', img') && Disjoint(q, p) && !InChain(g, q, ds)
    requires Holds(g, img) && t == Table(g, img) && |img'| == |img| && t' == Table(g, img')
    requires EntryBeside(g, t, p, ds, ofs, eds, eofs) && Stored(g, img, eds, eofs, q, c)
    ensures Stored(g, img', eds, eofs, q, c) && Disjoint(q, p')
  {
    OtherChainKept(ok, g, ds, ofs, p, t, img, p', t', img', q);
    EntryBytesKept(ok, g, ds, ofs, p, t, img, p', t', img', eds, eofs);
    hide IsChain, Content, Table, LoadStart, LdDword, Spared, EntryBeside, EntryApart;
    ContentFrame(g, img, img', q, |c|);
  }

  /** A second open file, as its values, through a run on the first: it shows the same content, and its buffer is
      still a copy unless it showed a sector outside the chain that was rewritten. */
  lemma ConsistentBeside(ok: bool, g: Geometry, ds: int, ofs: nat, p: seq<nat>, t: seq<u32>, img: seq<Sector>,
                         p': seq<nat>, t': seq<u32>, img': seq<Sector>, q: seq<nat>, start: u32, n: nat, ws: int,
                         eds: int, eofs: nat, dirty: bool, sect: int, buf: seq<byte>, ws': int)
    requires Spared(ok, g, ds, ofs, p, t, img, p', t', img') && Disjoint(q, p) && !InChain(g, q, ds)
    requires g.Valid() && |t| == g.nFatEnt && EntryBeside(g, t, p, ds, ofs, eds, eofs)
    requires Consistent(g, t, img, q, start, n, ws, eds, eofs, dirty, sect, buf)
    requires ws' == ws || !g.InData(ws') || ws' == ds
    ensures |img'| == |img| && (sect == 0 || 0 < sect < |img|)
    ensures sect == 0 || InChain(g, q, sect) ==> Consistent(g, t', img', q, start, n, ws', eds, eofs, dirty, sect, buf)
    ensures Consistent(g, t', img', q, start, n, ws', eds, eofs, dirty, sect, buf) <==>
      sect == 0 || img'[sect] == img[sect]
    ensures Consistent(g, t', img', q, start, n, ws', eds, eofs, dirty, sect, buf) ==>
      Shown(g, t', img', q, start, n, ws', eds, eofs, dirty, sect, buf) ==
      Shown(g, t, img, q, start, n, ws, eds, eofs, dirty, sect, buf)
    ensures Shows(g, img', q, dirty, sect, buf, Shown(g, t, img, q, start, n, ws, eds, eofs, dirty, sect, buf))
    ensures Disjoint(q, p') && EntryBeside(g, t', p', ds, ofs, eds, eofs)
  {
    hide Content;
    EntryBytesKept(ok, g, ds, ofs, p, t, img, p', t', img', eds, eofs);
    OtherChainKept(ok, g, ds, ofs, p, t, img, p', t', img', q);
    EntryOnKept(ok, g, ds, ofs, p, t, img, p', t', img', q, eds);
    hide Spared, IsChain, EntryBeside;
    ContentFrame(g, Overlay(img, dirty, sect, buf), Overlay(img', dirty, sect, buf), q, n);
  }

  /** The entry of the second file stays apart from its own chain. */
  lemma EntryOnKept(ok: bool, g: Geometry, ds: int, ofs: nat, p: seq<nat>, t: seq<u32>, img: seq<Sector>,
                    p': seq<nat>, t': seq<u32>, img': seq<Sector>, q: seq<nat>, eds: int)
    requires Spared(ok, g, ds, ofs, p, t, img, p', t', img') && EntryApart(g, t, p, eds) && EntryApart(g, t, q, eds)
    ensures EntryApart(g, t', q, eds)
  {
  }
}
