/** `f_sync`, the mount of a FAT volume and the end of `f_open`: what a sync leaves on the medium, and what
    the next mount finds there. */
module Durability {
  import opened Wrappers
  import opened Bytes
  import opened Layout
  import opened Window
  import opened FatTable
  import opened FatAccess
  import opened Chains
  import opened FileView
  import opened FileObject

  /** `ld_clust`. */
  function LoadStart(e: seq<byte>, wide: bool): u32
    requires |e| == ENTRY_SIZE
  {
    LdWord(e, 26) + if wide then 0x1_0000 * LdWord(e, 20) else 0
  }

  /** Where the start cluster stands: low half in bytes 26 and 27, on FAT32 high half in bytes 20 and 21. */
  lemma StartIsInBytes(e: seq<byte>, wide: bool)
    requires |e| == ENTRY_SIZE
    ensures LoadStart(e, wide) == e[26] as int + 0x100 * e[27] as int +
      if wide then 0x1_0000 * e[20] as int + 0x100_0000 * e[21] as int else 0
  {
  }

  /** `st_clust`. */
  function StoreStart(e: seq<byte>, wide: bool, cl: u32): (r: seq<byte>)
    requires |e| == ENTRY_SIZE
    ensures |r| == ENTRY_SIZE
  {
    var lo := StWord(e, 26, cl % 0x1_0000);
    if wide then StWord(lo, 20, cl / 0x1_0000) else lo
  }

  /** The archive attribute added to an attribute byte. */
  function Archived(a: byte): byte {
    if a / 0x20 % 2 == 1 then a else a + 0x20
  }

  /** The directory entry as `f_sync` rewrites it. */
  function UpdatedEntry(e: seq<byte>, wide: bool, start: u32, size: u32, tm: u32): (r: seq<byte>)
    requires |e| == ENTRY_SIZE
    ensures |r| == ENTRY_SIZE
  {
    StWord(StDword(StDword(StoreStart(e[11 := Archived(e[11])], wide, start), 28, size), 22, tm), 18, 0)
  }

  /** The rewritten entry names the start cluster, the size and the time, has the archive bit, and
      keeps the name, the creation time and every other attribute. */
  lemma UpdatedEntryReads(e: seq<byte>, wide: bool, start: u32, size: u32, tm: u32)
    requires |e| == ENTRY_SIZE && (!wide ==> start < 0x1_0000)
    ensures var r := UpdatedEntry(e, wide, start, size, tm);
      && LoadStart(r, wide) == start && LdDword(r, 28) == size && LdDword(r, 22) == tm && LdWord(r, 18) == 0
      && r[11] / 0x20 % 2 == 1 && r[11] % 0x20 == e[11] % 0x20 && r[11] / 0x40 == e[11] / 0x40
      && r[..11] == e[..11] && r[12..18] == e[12..18]
      && (!wide ==> r[20..22] == e[20..22])
  {
    var e1 := StoreStart(e[11 := Archived(e[11])], wide, start);
    var e2 := StDword(e1, 28, size);
    var e3 := StDword(e2, 22, tm);
    StDwordLoads(e1, 28, size);
    StDwordLoads(e2, 22, tm);
    LdDwordSame(e2, UpdatedEntry(e, wide, start, size, tm), 28);
    LdDwordSame(e3, UpdatedEntry(e, wide, start, size, tm), 22);
    hide StDword, LdDword;
    assert start == start % 0x1_0000 + 0x1_0000 * (start / 0x1_0000);
  }

  /** Each field of the rewritten entry in its bytes. */
  lemma UpdatedEntryBytes(e: seq<byte>, wide: bool, start: u32, size: u32, tm: u32)
    requires |e| == ENTRY_SIZE && (!wide ==> start < 0x1_0000)
    ensures var r := UpdatedEntry(e, wide, start, size, tm);
      && r[26] as int + 0x100 * r[27] as int == start % 0x1_0000
      && (wide ==> r[20] as int + 0x100 * r[21] as int == start / 0x1_0000)
      && Number(r[28..32]) == size && Number(r[22..26]) == tm && Number(r[18..20]) == 0
  {
    hide UpdatedEntry, LdDword, LdWord, Number;
    var r := UpdatedEntry(e, wide, start, size, tm);
    UpdatedEntryReads(e, wide, start, size, tm);
    StartIsInBytes(r, wide);
    LoadsNumber(r, 28);
    LoadsNumber(r, 22);
    LoadsNumber(r, 18);
    HalvesOf(start, r[26] as int + 0x100 * r[27] as int, r[20] as int + 0x100 * r[21] as int);
  }

  lemma HalvesOf(x: u32, lo: int, hi: int)
    requires 0 <= lo < 0x1_0000 && 0 <= hi < 0x1_0000
    ensures x == lo + 0x1_0000 * hi ==> x % 0x1_0000 == lo && x / 0x1_0000 == hi
    ensures x < 0x1_0000 ==> x % 0x1_0000 == x
  {
  }

  /** The sectors alone, without any cache, hold the file with chain `p` and content `c`, and its
      directory entry at `ofs` in sector `ds`. */
  ghost predicate Stored(g: Geometry, sectors: seq<Sector>, ds: int, ofs: nat, p: seq<nat>, c: seq<byte>) {
    && Placed(g, p) && g.End() <= |sectors| && 0 <= ds < |sectors| && ofs + ENTRY_SIZE <= SECTOR_SIZE
    && Fits(g, p, |c|)
    && LoadStart(sectors[ds][ofs..ofs + ENTRY_SIZE], g.fsType == Fat32) == (if p == [] then 0 else p[0])
    && LdDword(sectors[ds][ofs..ofs + ENTRY_SIZE], 28) == |c|
    && (p != [] ==> IsChain(Table(g, sectors), p))
    && Content(g, sectors, p, |c|) == c
  }

  /** What is stored in the image of a volume is stored on the medium once the window is clean. */
  lemma CleanIsStored(fs: Volume, ds: u32, ofs: nat, p: seq<nat>, c: seq<byte>)
    requires fs.Valid() && !fs.wflag && fs.geo.Tracked(ds) && Stored(fs.geo, fs.img, ds, ofs, p, c)
    ensures Stored(fs.geo, fs.disk.sectors, ds, ofs, p, c)
  {
    MediumIsImage(fs);
    hide IsChain, Content, Table, Placed, Volume.Valid, LoadStart;
    ContentFrame(fs.geo, fs.img, fs.disk.sectors, p, |c|);
    HoldsImage(fs);
    TableFrame(fs.geo, fs.img, fs.disk.sectors);
  }

  lemma MediumIsImage(fs: Volume)
    requires fs.Valid() && !fs.wflag
    ensures |fs.disk.sectors| == |fs.img|
    ensures forall s :: 0 <= s < |fs.img| && fs.geo.Tracked(s) ==> fs.disk.sectors[s] == fs.img[s]
    ensures forall s :: fs.geo.dataBase <= s < |fs.img| ==> fs.disk.sectors[s] == fs.img[s]
    ensures forall s :: 0 <= s < |fs.img| && fs.geo.InFat1(s) ==> fs.disk.sectors[s] == fs.img[s]
  {
  }

  /** The file as its values after a dirty buffer was written to the medium: it shows the same. */
  lemma ConsistentFlushed(g: Geometry, t: seq<u32>, img: seq<Sector>, p: seq<nat>, start: u32, n: nat, ws: int, ds: int,
                          ofs: nat, sect: int, buf: seq<byte>, img': seq<Sector>, dirty': bool)
    requires Consistent(g, t, img, p, start, n, ws, ds, ofs, true, sect, buf) && |img'| == |img|
    requires forall i :: 0 <= i < |img| && i != sect ==> img'[i] == img[i]
    requires !dirty' ==> 0 <= sect < |img'| && img'[sect] == buf
    ensures Consistent(g, t, img', p, start, n, ws, ds, ofs, dirty', sect, buf)
    ensures Shown(g, t, img', p, start, n, ws, ds, ofs, dirty', sect, buf) ==
      Shown(g, t, img, p, start, n, ws, ds, ofs, true, sect, buf)
  {
    hide Covers, EntryRoom, EntryApart, Content;
    assert g.dataBase <= sect < |img|;
    assert Overlay(img', dirty', sect, buf) == Overlay(img, true, sect, buf);
  }

  /** A dirty buffer is meant for a data sector that the window does not hold. */
  lemma DirtySector(f: File)
    requires f.Allocated() && f.dirty
    ensures f.fs.Valid() && f.fs.geo.dataBase <= f.sect < |f.fs.img| && f.sect != f.fs.winSect
    ensures f.buf.Length == SECTOR_SIZE && f.buf != f.fs.win
  {
  }

  /** Writes the dirty sector buffer back. */
  method Flush(f: File) returns (res: FResult)
    requires f.Allocated() && f.fs.Valid() && (f.err == FrOk ==> f.Base() && f.Buffered())
    modifies f`dirty, f.fs`img, f.fs.disk
    ensures f.Allocated() && f.fs.Valid()
    ensures f.err == FrOk ==> f.Base() && f.Buffered() && f.Data() == old(f.Data())
    ensures res == FrOk || res == FrDiskErr
    ensures f.dirty ==> old(f.dirty) && res != FrOk
    ensures !old(f.dirty) ==> res == FrOk && f.fs.img == old(f.fs.img) && f.fs.disk.sectors == old(f.fs.disk.sectors)
    ensures |f.fs.img| == |old(f.fs.img)| && forall i :: 0 <= i < |f.fs.img| && !(old(f.dirty) && i == f.sect) ==>
      f.fs.img[i] == old(f.fs.img)[i]
    ensures old(f.dirty) ==> f.fs.geo.dataBase <= f.sect
    ensures f.fs.disk.reliable ==> res == FrOk
    ensures Fat(f.fs) == old(Fat(f.fs))
    ensures old(f.fs.Mirrored()) ==> f.fs.Mirrored()
  {
    hide File.Base, File.Buffered, File.Data, Consistent, EntryRoom, Geometry.Valid, Volume.Valid, Table,
         Volume.Mirrored, Content, Overlay, Geometry.InData;
    res := FrOk;
    if f.dirty {
      DirtySector(f);
      HoldsImage(f.fs);
      ghost var img, t, b := f.fs.img, Fat(f.fs), f.buf[..];
      if f.err == FrOk { Parts(f); }
      var ok := f.fs.WriteData(f.sect, f.buf[..]);
      DataWriteKeepsFat(f.fs.geo, img, f.fs.img, f.sect);
      if f.err == FrOk {
        ConsistentFlushed(f.fs.geo, t, img, f.chain, f.sclust, f.objsize, f.fs.winSect, f.dirSect, f.dirOfs, f.sect, b,
                          f.fs.img, !ok);
      }
      if ok { f.dirty := false; } else { res := FrDiskErr; }
      if f.err == FrOk { Whole(f); }
    }
  }

  /** The image after the entry in sector `ds` was rewritten. */
  function EntryWritten(img: seq<Sector>, ds: u32, ofs: nat, wide: bool, start: u32, size: u32,
                        tm: u32): (r: seq<Sector>)
    requires ds < |img| && ofs + ENTRY_SIZE <= SECTOR_SIZE
  {
    var e := UpdatedEntry(img[ds][ofs..ofs + ENTRY_SIZE], wide, start, size, tm);
    img[ds := img[ds][..ofs] + e + img[ds][ofs + ENTRY_SIZE..]]
  }

  /** Rewrites the directory entry in the window. */
  method WriteEntry(f: File, tm: u32)
    requires f.fs.Valid() && f.fs.winSect == f.dirSect < |f.fs.img| && f.fs.geo.Tracked(f.dirSect)
    requires f.dirOfs + ENTRY_SIZE <= SECTOR_SIZE
    modifies f.fs`wflag, f.fs`img, f.fs.win
    ensures f.fs.Valid() && f.fs.wflag
    ensures f.fs.img ==
      EntryWritten(old(f.fs.img), f.dirSect, f.dirOfs, f.fs.geo.fsType == Fat32, f.sclust, f.objsize, tm)
  {
    hide UpdatedEntry, Geometry.Valid;
    var ofs := f.dirOfs;
    var e := UpdatedEntry(f.fs.win[..][ofs..ofs + ENTRY_SIZE], f.fs.geo.fsType == Fat32, f.sclust, f.objsize, tm);
    CopyBytes(f.fs.win, ofs, e);
    f.fs.TouchWindow();
  }

  /** Rewriting the entry stores the file in the image and changes neither the FAT nor its content. */
  lemma WrittenIsStored(g: Geometry, img: seq<Sector>, ds: u32, ofs: nat, start: u32, size: u32, tm: u32, p: seq<nat>)
    requires Holds(g, img) && Placed(g, p) && g.End() <= |img| && Fits(g, p, size)
    requires ds < |img| && !g.InFat1(ds) && !InChain(g, p, ds) && ofs + ENTRY_SIZE <= SECTOR_SIZE
    requires start == if p == [] then 0 else p[0]
    requires p != [] ==> IsChain(Table(g, img), p)
    ensures var img' := EntryWritten(img, ds, ofs, g.fsType == Fat32, start, size, tm);
      && Stored(g, img', ds, ofs, p, Content(g, img, p, size))
      && Table(g, img') == Table(g, img)
      && Content(g, img', p, size) == Content(g, img, p, size)
  {
    var wide := g.fsType == Fat32;
    var img' := EntryWritten(img, ds, ofs, wide, start, size, tm);
    assert p != [] ==> 2 <= p[0] < g.nFatEnt;
    assert !wide ==> start < 0x1_0000;
    hide IsChain, Content, Table, Placed, UpdatedEntry, LoadStart, LdDword, Geometry.Valid, InChain;
    UpdatedEntryReads(img[ds][ofs..ofs + ENTRY_SIZE], wide, start, size, tm);
    assert img'[ds][ofs..ofs + ENTRY_SIZE] == UpdatedEntry(img[ds][ofs..ofs + ENTRY_SIZE], wide, start, size, tm);
    TableFrame(g, img, img');
    ContentFrame(g, img, img', p, size);
  }

  lemma EntryKeepsFat(g: Geometry, img: seq<Sector>, ds: u32, ofs: nat, wide: bool, start: u32, size: u32, tm: u32)
    requires Holds(g, img) && ds < |img| && !g.InFat1(ds) && ofs + ENTRY_SIZE <= SECTOR_SIZE
    ensures var img' := EntryWritten(img, ds, ofs, wide, start, size, tm);
      && Table(g, img') == Table(g, img)
      && |img'| == |img| && forall i :: 0 <= i < |img| && i != ds ==> img'[i] == img[i]
  {
    hide Table, UpdatedEntry;
    TableFrame(g, img, EntryWritten(img, ds, ofs, wide, start, size, tm));
  }

  /** Two sectors that may differ only in the directory entry at `ofs`. */
  predicate SameBesides(a: Sector, b: Sector, ofs: nat) {
    ofs + ENTRY_SIZE <= SECTOR_SIZE && b[..ofs] == a[..ofs] && b[ofs + ENTRY_SIZE..] == a[ofs + ENTRY_SIZE..]
  }

  lemma EntryAlone(img: seq<Sector>, ds: u32, ofs: nat, wide: bool, start: u32, size: u32, tm: u32)
    requires ds < |img| && ofs + ENTRY_SIZE <= SECTOR_SIZE
    ensures SameBesides(img[ds], EntryWritten(img, ds, ofs, wide, start, size, tm)[ds], ofs)
  {
    hide UpdatedEntry;
  }

  /** The directory entry lies where the driver reads through the window, and not in the first FAT. */
  lemma EntrySector(fs: Volume, ds: u32, ofs: nat)
    requires fs.Valid() && EntryRoom(fs.geo, ds, ofs)
    ensures ds < |fs.img| && fs.geo.Tracked(ds) && !fs.geo.InFat1(ds) && fs.geo.volBase < ds
    ensures ofs + ENTRY_SIZE <= SECTOR_SIZE
    ensures !fs.geo.InData(0xFFFF_FFFF) && (fs.geo.fsInfo ==> !fs.geo.InData(fs.geo.volBase + 1))
  {
  }

  lemma EntryNotInChain(g: Geometry, t: seq<u32>, p: seq<nat>, ds: int)
    requires EntryApart(g, t, p, ds)
    ensures !InChain(g, p, ds)
  {
  }

  /** The file as its values after its directory entry was rewritten. */
  lemma ConsistentStored(g: Geometry, img: seq<Sector>, p: seq<nat>, start: u32, n: u32, was: int, ds: u32, ofs: nat,
                         sect: int, buf: seq<byte>, ws: int, tm: u32)
    requires Holds(g, img) && g.Valid() && g.End() <= |img| && ds < |img| && !g.InFat1(ds)
    requires ofs + ENTRY_SIZE <= SECTOR_SIZE
    requires Consistent(g, Table(g, img), img, p, start, n, was, ds, ofs, false, sect, buf)
    requires ws == was || !g.InData(ws) || ws == ds
    ensures var img' := EntryWritten(img, ds, ofs, g.fsType == Fat32, start, n, tm);
      && Consistent(g, Table(g, img'), img', p, start, n, ws, ds, ofs, false, sect, buf)
      && Shown(g, Table(g, img'), img', p, start, n, ws, ds, ofs, false, sect, buf) ==
           Shown(g, Table(g, img), img, p, start, n, was, ds, ofs, false, sect, buf)
      && Stored(g, img', ds, ofs, p, Shown(g, Table(g, img'), img', p, start, n, ws, ds, ofs, false, sect, buf))
  {
    EntryNotInChain(g, Table(g, img), p, ds);
    EntryKeepsFat(g, img, ds, ofs, g.fsType == Fat32, start, n, tm);
    hide IsChain, Content, Table, UpdatedEntry, LoadStart, LdDword, Stored, EntryWritten;
    WrittenIsStored(g, img, ds, ofs, start, n, tm, p);
  }

  /** Moves to the directory entry and rewrites it in the window. */
  method RewriteEntry(f: File, tm: u32) returns (res: FResult)
    requires f.Valid() && f.fs.Valid() && !f.dirty
    modifies f.fs`wflag, f.fs`winSect, f.fs`img, f.fs.win, f.fs.disk
    ensures f.Valid() && f.fs.Valid()
    ensures f.fs.winSect == old(f.fs.winSect) || !f.fs.geo.InData(f.fs.winSect) || f.fs.winSect == f.dirSect
    ensures res == FrOk || res == FrDiskErr
    ensures f.err == FrOk ==> f.Base() && f.Buffered() && f.Data() == old(f.Data())
    ensures res == FrOk && f.err == FrOk ==> Stored(f.fs.geo, f.fs.img, f.dirSect, f.dirOfs, f.chain, f.Data())
    ensures res == FrOk ==> f.fs.wflag
    ensures res != FrOk ==> f.fs.img == old(f.fs.img)
    ensures Fat(f.fs) == old(Fat(f.fs))
    ensures |f.fs.img| == |old(f.fs.img)|
    ensures f.dirSect < |f.fs.img| && SameBesides(old(f.fs.img)[f.dirSect], f.fs.img[f.dirSect], f.dirOfs)
    ensures forall i :: 0 <= i < |f.fs.img| && i != f.dirSect ==> f.fs.img[i] == old(f.fs.img)[i]
    ensures f.fs.disk.reliable ==> res == FrOk
    ensures f.fs.disk.reliable && old(f.fs.Mirrored()) ==> f.fs.Mirrored()
    ensures f.fs.disk.locked ==> f.fs.disk.sectors == old(f.fs.disk.sectors) && (!old(f.fs.wflag) ==> res == FrOk)
  {
    hide File.Base, File.Buffered, File.Data, Consistent, IsChain, Geometry.Valid, Volume.Valid, Table,
         Volume.Mirrored, Content, EntryWritten, Stored, EntryRoom, Geometry.InData, Geometry.Tracked;
    HoldsImage(f.fs);
    EntrySector(f.fs, f.dirSect, f.dirOfs);
    ghost var img, t, was := f.fs.img, Fat(f.fs), f.fs.winSect;
    if f.err == FrOk { Parts(f); }
    res := f.fs.MoveWindow(f.dirSect);
    if res == FrOk {
      EntryKeepsFat(f.fs.geo, img, f.dirSect, f.dirOfs, f.fs.geo.fsType == Fat32, f.sclust, f.objsize, tm);
      EntryAlone(img, f.dirSect, f.dirOfs, f.fs.geo.fsType == Fat32, f.sclust, f.objsize, tm);
      WriteEntry(f, tm);
    }
    if f.err == FrOk {
      if res == FrOk {
        ConsistentStored(f.fs.geo, img, f.chain, f.sclust, f.objsize, was, f.dirSect, f.dirOfs, f.sect, f.buf[..],
                         f.fs.winSect, tm);
      } else {
        ConsistentMoved(f.fs.geo, t, img, f.chain, f.sclust, f.objsize, was, f.dirSect, f.dirOfs, f.dirty, f.sect,
                        f.buf[..], f.fs.winSect);
      }
      Whole(f);
    }
  }

  /** The medium alone holds what the open file shows. */
  ghost predicate OnMedium(f: File)
    requires f.Base() && f.Buffered()
    reads f, f.buf, f.fs, f.fs.disk, f.fs.win
  {
    Stored(f.fs.geo, f.fs.disk.sectors, f.dirSect, f.dirOfs, f.chain, f.Data())
  }

  /** Nothing waits to be written: neither the window nor the counts. */
  ghost predicate Clean(fs: Volume)
    reads fs, fs.disk
  {
    !fs.wflag && (fs.disk.reliable && fs.geo.fsInfo ==> !fs.fsiDirty)
  }

  /** An unmodified file stands in the image under its directory entry, and nothing waits to be written unless
      the last sync failed to flush it. */
  ghost predicate Kept(f: File)
    requires f.Valid()
    reads f, f.buf, f.fs, f.fs.disk, f.fs.win
  {
    f.err == FrOk && !f.modified ==>
      Stored(f.fs.geo, f.fs.img, f.dirSect, f.dirOfs, f.chain, f.Data()) && (!f.lost ==> Clean(f.fs))
  }

  /** Rewrites the directory entry and flushes everything. The mark of a modified file is cleared even when
      the flush fails. */
  method StoreEntry(f: File, tm: u32) returns (res: FResult)
    requires f.Valid() && f.fs.Valid() && !f.dirty && f.modified
    modifies f`modified, f`lost, f.fs`wflag, f.fs`winSect, f.fs`img, f.fs`fsiDirty, f.fs.win, f.fs.disk
    ensures f.Valid() && f.fs.Valid()
    ensures f.fs.winSect == old(f.fs.winSect) || !f.fs.geo.InData(f.fs.winSect) || f.fs.winSect == f.dirSect
    ensures res == FrOk || res == FrDiskErr
    ensures f.err == FrOk ==> f.Base() && f.Buffered() && f.Data() == old(f.Data())
    ensures res == FrOk ==> !f.modified && !f.lost && Clean(f.fs)
    ensures res != FrOk ==> f.modified || f.lost
    ensures res == FrOk && f.err == FrOk ==> OnMedium(f)
    ensures Kept(f)
    ensures Fat(f.fs) == old(Fat(f.fs))
    ensures |f.fs.img| == |old(f.fs.img)|
    ensures f.dirSect < |f.fs.img| && SameBesides(old(f.fs.img)[f.dirSect], f.fs.img[f.dirSect], f.dirOfs)
    ensures forall i :: 0 <= i < |f.fs.img| && i != f.dirSect ==> f.fs.img[i] == old(f.fs.img)[i]
    ensures f.fs.disk.reliable ==> res == FrOk
    ensures f.fs.disk.reliable && old(f.fs.Mirrored()) ==> f.fs.Mirrored()
    ensures f.fs.disk.locked ==> f.fs.disk.sectors == old(f.fs.disk.sectors)
    ensures f.fs.disk.locked && !old(f.fs.wflag) ==> res == FrDiskErr && !f.modified
  {
    hide File.Base, File.Buffered, File.Data, Consistent, IsChain, Geometry.Valid, Volume.Valid, Table,
         Volume.Mirrored, Content, Stored, EntryRoom, Geometry.InData, Geometry.Tracked;
    EntrySector(f.fs, f.dirSect, f.dirOfs);
    res := RewriteEntry(f, tm);
    if res == FrOk {
      ghost var was := f.fs.winSect;
      if f.err == FrOk { Parts(f); }
      res := f.fs.SyncFs();
      f.modified := false;
      f.lost := res != FrOk;
      if f.err == FrOk {
        ConsistentMoved(f.fs.geo, Fat(f.fs), f.fs.img, f.chain, f.sclust, f.objsize, was, f.dirSect, f.dirOfs, f.dirty,
                        f.sect, f.buf[..], f.fs.winSect);
        Whole(f);
        if res == FrOk { CleanIsStored(f.fs, f.dirSect, f.dirOfs, f.chain, f.Data()); }
      }
    }
  }

  /** `f_sync`. On a file marked as modified success means that the medium alone holds it. On any other file
      nothing happens and success is reported, so the medium holds it exactly if it did before: after the
      last successful sync, but not necessarily after one that failed when it had cleared the mark. */
  method Sync(f: File, tm: u32) returns (res: FResult)
    requires f.Valid()
    modifies f`dirty, f`modified, f`lost, f.fs`wflag, f.fs`winSect, f.fs`img, f.fs`fsiDirty, f.fs.win, f.fs.disk
    ensures f.Valid() && f.fs.Valid()
    ensures f.fs.winSect == old(f.fs.winSect) || !f.fs.geo.InData(f.fs.winSect) || f.fs.winSect == f.dirSect
    ensures res == FrOk || res == FrDiskErr
    ensures f.err == FrOk ==> f.Base() && f.Buffered() && f.Data() == old(f.Data())
    ensures !old(f.modified) ==>
      && res == FrOk && !f.modified && f.dirty == old(f.dirty) && f.lost == old(f.lost)
      && f.fs.wflag == old(f.fs.wflag) && f.fs.fsiDirty == old(f.fs.fsiDirty)
      && f.fs.img == old(f.fs.img) && f.fs.disk.sectors == old(f.fs.disk.sectors)
    ensures old(f.modified) && res == FrOk ==> !f.modified && !f.dirty && !f.lost && Clean(f.fs)
    ensures old(f.modified) && res != FrOk ==> f.modified || f.lost
    ensures old(Kept(f)) ==> Kept(f)
    ensures !old(f.modified) && f.err == FrOk ==> (OnMedium(f) <==> old(OnMedium(f)))
    ensures res == FrOk && f.err == FrOk && (old(f.modified) || (old(Kept(f)) && !old(f.lost))) ==> OnMedium(f)
    ensures Fat(f.fs) == old(Fat(f.fs))
    ensures |f.fs.img| == |old(f.fs.img)|
    ensures f.dirSect < |f.fs.img| && SameBesides(old(f.fs.img)[f.dirSect], f.fs.img[f.dirSect], f.dirOfs)
    ensures forall i :: 0 <= i < |f.fs.img| && !(old(f.dirty) && i == f.sect) && i != f.dirSect ==>
      f.fs.img[i] == old(f.fs.img)[i]
    ensures old(f.dirty) ==> f.fs.geo.dataBase <= f.sect
    ensures f.fs.disk.reliable ==> res == FrOk
    ensures f.fs.disk.reliable && old(f.fs.Mirrored()) ==> f.fs.Mirrored()
    ensures f.fs.disk.locked && old(f.modified) && !old(f.dirty) && !old(f.fs.wflag) ==>
      res == FrDiskErr && !f.modified && f.fs.disk.sectors == old(f.fs.disk.sectors)
  {
    hide File.Base, File.Buffered, File.Data, IsChain, Geometry.Valid, Volume.Valid, Table, Volume.Mirrored, Content,
         Stored, EntryRoom, Geometry.InData;
    SyncFacts(f);
    res := FrOk;
    if f.modified {
      res := Flush(f);
      if res != FrOk { return; }
      res := StoreEntry(f, tm);
    }
  }

  lemma SyncFacts(f: File)
    requires f.Valid()
    ensures f.fs.Valid() && EntryRoom(f.fs.geo, f.dirSect, f.dirOfs)
    ensures f.dirty ==> f.fs.geo.dataBase <= f.sect
    ensures f.err == FrOk && Kept(f) && !f.modified && !f.lost ==> OnMedium(f)
  {
    EntrySector(f.fs, f.dirSect, f.dirOfs);
    if f.err == FrOk && Kept(f) && !f.modified && !f.lost {
      CleanIsStored(f.fs, f.dirSect, f.dirOfs, f.chain, f.Data());
    }
  }

  /** What the cleared mark costs: on a medium that became write-protected, a sync of a modified file fails,
      a second one reports success, and the medium is what it was. Unless it already named this size, it
      does not hold the file. */
  method LostStore(f: File, tm: u32) returns (first: FResult, second: FResult)
    requires f.Valid() && f.err == FrOk && f.modified && !f.dirty && !f.fs.wflag && f.fs.disk.locked
    modifies f`dirty, f`modified, f`lost, f.fs`wflag, f.fs`winSect, f.fs`img, f.fs`fsiDirty, f.fs.win, f.fs.disk
    ensures f.Valid() && f.err == FrOk && f.Base() && f.Buffered() && f.Data() == old(f.Data())
    ensures first == FrDiskErr && second == FrOk && f.lost
    ensures f.fs.disk.sectors == old(f.fs.disk.sectors)
    ensures f.dirSect < |f.fs.disk.sectors| && f.dirOfs + ENTRY_SIZE <= SECTOR_SIZE
    ensures LdDword(f.fs.disk.sectors[f.dirSect][f.dirOfs..f.dirOfs + ENTRY_SIZE], 28) != |f.Data()| ==> !OnMedium(f)
  {
    hide File.Base, File.Buffered, File.Data, File.Cursor, IsChain, Geometry.Valid, Table, Content, LoadStart,
         LdDword;
    SyncFacts(f);
    first := Sync(f, tm);
    second := Sync(f, tm);
    EntrySector(f.fs, f.dirSect, f.dirOfs);
  }

  /** The end of `f_open`: reads start cluster and size from the directory entry in the window. */
  method Open(fs: Volume, r: bool, w: bool, ds: u32, ofs: nat, ghost p: seq<nat>, ghost c: seq<byte>)
    returns (res: FResult, f: File?)
    requires fs.Valid() && Stored(fs.geo, fs.img, ds, ofs, p, c)
    requires EntryRoom(fs.geo, ds, ofs) && EntryApart(fs.geo, Fat(fs), p, ds)
    modifies fs`wflag, fs`winSect, fs.win, fs.disk
    ensures fs.Valid() && (fs.wflag ==> old(fs.wflag))
    ensures res == FrOk || res == FrDiskErr
    ensures res == FrOk <==> f != null
    ensures f != null ==>
      fresh(f) && fresh(f.buf) && f.fs == fs && f.Valid() && f.err == FrOk && f.Base() && f.Buffered()
    ensures f != null ==> f.Data() == c && f.chain == p && f.fptr == 0 && f.readable == r && f.writable == w
    ensures f != null ==> f.dirSect == ds && f.dirOfs == ofs && f.sect == 0
    ensures ds < |fs.img| && ofs + ENTRY_SIZE <= SECTOR_SIZE
    ensures f != null ==>
      && f.sclust as int == fs.img[ds][ofs + 26] as int + 0x100 * fs.img[ds][ofs + 27] as int
         + (if fs.geo.fsType == Fat32
            then 0x1_0000 * fs.img[ds][ofs + 20] as int + 0x100_0000 * fs.img[ds][ofs + 21] as int
            else 0)
      && f.objsize == Number(fs.img[ds][ofs + 28..ofs + 32])
    ensures f != null && old(Clean(fs)) ==> Kept(f) && !f.lost && !f.modified
    ensures fs.disk.reliable ==> res == FrOk
    ensures fs.disk.reliable && old(fs.Mirrored()) ==> fs.Mirrored()
  {
    hide IsChain, Geometry.Valid, Volume.Valid, Table, Volume.Mirrored, InChain, Content, LoadStart, LdDword,
         EntryRoom, EntryApart, Number;
    EntrySector(fs, ds, ofs);
    EntryNotInChain(fs.geo, Fat(fs), p, ds);
    f := null;
    res := fs.MoveWindow(ds);
    if res == FrOk {
      var e := fs.win[..][ofs..ofs + ENTRY_SIZE];
      StartIsInBytes(e, fs.geo.fsType == Fat32);
      LoadsNumber(e, 28);
      assert e[28..32] == fs.img[ds][ofs + 28..ofs + 32];
      f := new File(fs, r, w, ds, ofs, LoadStart(e, fs.geo.fsType == Fat32), LdDword(e, 28), p);
    }
  }

  /** What a mount relies on without checking it: sector numbers that fit 32 bits and the medium, and an
      FSInfo sector that is not part of the FAT. */
  predicate Mountable(d: Disk, bsect: u32)
    reads d
  {
    |d.sectors| <= 0xFFFF_FFFF &&
    (bsect < |d.sectors| && MountFat(ReadBootSector(d.sectors[bsect]), bsect, true).Some? ==>
       var b := ReadBootSector(d.sectors[bsect]);
       WellLaid(b, bsect, true) && TrueEnd(b, bsect) <= |d.sectors|)
  }

  /** The counts a mount of the medium starts from. */
  function MountedCounts(g: Geometry, sectors: seq<Sector>): (u32, u32)
    requires g.fsInfo ==> g.volBase + 1 < |sectors|
  {
    if g.fsInfo then LoadFsInfo(sectors[g.volBase + 1]) else (0xFFFF_FFFF, 0xFFFF_FFFF)
  }

  /** The FAT branch of `mount_volume`, from the boot sector `find_volume` settled on: what it takes from the
      medium, for every volume it accepts. The window `win` ends up on sector `ws`. */
  method LoadLayout(d: Disk, bsect: u32)
    returns (res: FResult, g: Option<Geometry>, free: u32, last: u32, win: array<byte>, ws: u32)
    ensures fresh(win) && win.Length == SECTOR_SIZE
    ensures ws == 0xFFFF_FFFF || (ws < |d.sectors| && win[..] == d.sectors[ws])
    ensures res == FrOk || res == FrDiskErr || res == FrNoFilesystem
    ensures res != FrDiskErr ==> bsect < |d.sectors|
    ensures res == FrOk <==> g.Some?
    ensures g.Some? ==> MountFat(ReadBootSector(d.sectors[bsect]), bsect, g.value.fsInfo) == g
    ensures g.Some? && g.value.fsInfo ==>
      Wrap32(bsect + 1) < |d.sectors| && (free, last) == LoadFsInfo(d.sectors[Wrap32(bsect + 1)])
    ensures g.Some? && !g.value.fsInfo ==> (free, last) == (0xFFFF_FFFF, 0xFFFF_FFFF)
    ensures res == FrNoFilesystem ==> MountFat(ReadBootSector(d.sectors[bsect]), bsect, true).None?
    ensures bsect < |d.sectors| && d.reliable ==>
      (res == FrOk <==> MountFat(ReadBootSector(d.sectors[bsect]), bsect, true).Some?)
    ensures g.Some? && d.reliable && Wrap32(bsect + 1) < |d.sectors| ==>
      MountFat(ReadBootSector(d.sectors[bsect]), bsect, true) == g
    ensures g.Some? && g.value.Valid() ==>
      && g.value.volBase == bsect && Describable(g.value) && Describes(d.sectors[bsect], g.value)
      && (g.value.fsInfo ==> g.value.fsType == Fat32 && Number(d.sectors[bsect][48..50]) == 1)
    ensures res != FrDiskErr ==> forall h: Geometry ::
      h.volBase == bsect && !h.fsInfo && Describable(h) && Describes(d.sectors[bsect], h) ==>
      g.Some? && g.value.(fsInfo := false) == h
  {
    hide MountFat, ReadBootSector, LoadFsInfo, Describable, Describes, Geometry.Valid;
    g, free, last, ws := None, 0xFFFF_FFFF, 0xFFFF_FFFF, 0xFFFF_FFFF;
    win := new byte[SECTOR_SIZE](_ => 0);
    var ok := d.Read(bsect, win);
    if !ok { return FrDiskErr, g, free, last, win, ws; }
    ws := bsect;
    var b := ReadBootSector(win[..]);
    var m := MountFat(b, bsect, true);
    InfoIsOptional(b, bsect);
    DescribedIsMounted(d.sectors[bsect], bsect);
    if m.None? { return FrNoFilesystem, g, free, last, win, ws; }
    var info := false;
    if m.value.fsInfo {
      info := d.Read(Wrap32(bsect + 1), win);
      ws := 0xFFFF_FFFF;
      if info {
        ws := Wrap32(bsect + 1);
        var counts := LoadFsInfo(win[..]);
        free, last := counts.0, counts.1;
      }
    }
    g := MountFat(b, bsect, info || !m.value.fsInfo);
    MountedIsDescribed(d.sectors[bsect], bsect, g.value);
    res := FrOk;
  }

  lemma MountedIsDescribed(s: Sector, bsect: u32, g: Geometry)
    requires MountFat(ReadBootSector(s), bsect, g.fsInfo) == Some(g)
    ensures g.volBase == bsect
    ensures g.Valid() ==>
      Describable(g) && Describes(s, g) && (g.fsInfo ==> g.fsType == Fat32 && Number(s[48..50]) == 1)
  {
    hide MountFat, ReadBootSector, Describable, Describes, Geometry.Valid, Number;
    InfoIsOptional(ReadBootSector(s), bsect);
    MountedBase(ReadBootSector(s), bsect);
    MountsWhatIsDescribed(s, g, g.fsInfo);
  }

  lemma DescribedIsMounted(s: Sector, bsect: u32)
    ensures forall h: Geometry :: h.volBase == bsect && !h.fsInfo && Describable(h) && Describes(s, h) ==>
      MountFat(ReadBootSector(s), bsect, false) == Some(h)
  {
    hide MountFat, ReadBootSector, Describable, Describes, Geometry.Valid, Number;
    forall h: Geometry | h.volBase == bsect && !h.fsInfo && Describable(h) && Describes(s, h)
      ensures MountFat(ReadBootSector(s), bsect, false) == Some(h)
    {
      MountsWhatIsDescribed(s, h, false);
    }
  }

  /** Mounting a volume that is well laid out and fits the medium. */
  method Mount(d: Disk, bsect: u32) returns (res: FResult, fs: Volume?)
    requires Mountable(d, bsect)
    ensures res == FrOk <==> fs != null
    ensures fs != null ==> fresh(fs) && fresh(fs.win) && fs.disk == d && fs.Valid() && !fs.wflag && !fs.fsiDirty
    ensures fs != null ==> fs.img == d.sectors && bsect < |d.sectors| && (fs.geo.fsInfo ==> bsect + 1 < |d.sectors|)
    ensures fs != null ==> MountFat(ReadBootSector(d.sectors[bsect]), bsect, fs.geo.fsInfo) == Some(fs.geo)
    ensures fs != null ==> fs.geo.volBase == bsect && (fs.freeClst, fs.lastClst) == MountedCounts(fs.geo, d.sectors)
    ensures fs != null ==>
      && Describable(fs.geo) && Describes(d.sectors[bsect], fs.geo)
      && (d.reliable ==>
            (fs.geo.fsInfo <==> fs.geo.fsType == Fat32 && Number(d.sectors[bsect][48..50]) == 1))
    ensures fs != null && fs.geo.fsInfo && Signed(d.sectors[bsect + 1]) ==>
      && fs.freeClst == Number(d.sectors[bsect + 1][488..492])
      && fs.lastClst == Number(d.sectors[bsect + 1][492..496])
    ensures res == FrNoFilesystem ==>
      bsect < |d.sectors| && MountFat(ReadBootSector(d.sectors[bsect]), bsect, true).None?
    ensures bsect < |d.sectors| && d.reliable ==>
      (res == FrOk <==> MountFat(ReadBootSector(d.sectors[bsect]), bsect, true).Some?)
    ensures fs != null && d.reliable ==> MountFat(ReadBootSector(d.sectors[bsect]), bsect, true) == Some(fs.geo)
  {
    hide MountFat, ReadBootSector, LoadFsInfo, Geometry.Valid, Volume.Valid, WellLaid, TrueEnd, Describable, Describes,
         Number, Signed;
    fs := null;
    var g, free, last, win, ws;
    res, g, free, last, win, ws := LoadLayout(d, bsect);
    if g.Some? {
      var b := ReadBootSector(d.sectors[bsect]);
      InfoIsOptional(b, bsect);
      MountedLayout(b, bsect, |d.sectors|);
      MountsWhatIsDescribed(d.sectors[bsect], g.value, true);
      if g.value.fsInfo { InfoIsInBytes(d.sectors[bsect + 1]); }
      fs := new Volume(g.value, d, win, ws, free, last);
    }
  }

  lemma MountedLayout(b: BootSector, bsect: u32, n: nat)
    requires MountFat(b, bsect, true).Some? && WellLaid(b, bsect, true) && TrueEnd(b, bsect) <= n <= 0xFFFF_FFFF
    ensures var g := MountFat(b, bsect, true).value;
      && g.Valid() && g.(fsInfo := false).Valid() && g.End() <= n && g.(fsInfo := false).End() <= n
      && g.volBase == bsect && bsect + 1 < n && Wrap32(bsect + 1) == bsect + 1
  {
    hide MountFat, WellLaid, TrueEnd, Geometry.Valid, Geometry.End;
    MountedIsValidIff(b, bsect, true);
    MountedBase(b, bsect);
    ValidWithoutInfo(MountFat(b, bsect, true).value);
  }

  lemma MountedBase(b: BootSector, bsect: u32)
    requires MountFat(b, bsect, true).Some?
    ensures MountFat(b, bsect, true).value.volBase == bsect
  {
    hide SystemSectors, FatSize, TotalSectors, NeededFatBytes, Wrap32;
  }

  lemma ValidWithoutInfo(g: Geometry)
    requires g.Valid()
    ensures g.(fsInfo := false).Valid() && g.(fsInfo := false).End() == g.End() && g.volBase + 1 < g.End()
  {
  }
}
