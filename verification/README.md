# Proofs about Luma3DS

Luma3DS is custom firmware for a handheld console. This project models the parts of it that are
algorithms rather than hardware glue, and proves what they promise. `dafny verify dfyconfig.toml`
checks everything.

**The FAT driver** (`arm9/source/fatfs/ff.c`, in the compiled configuration: 512-byte sectors, long
names in UTF-8, one sector buffer per file) is modelled in layers, each proved against the one below.

- `Bytes`: little-endian numbers in byte strings. The formats below are stated in bytes as well as in the
  terms of the driver.
- `Layout`: what a boot sector says about a volume, and which accepted volumes are well laid out.
- `Window`: the disk, which may fail, and the one-sector write-back window over it. `Volume.img` is
  what a reader sees in each sector.
- `FatTable`, `FatAccess`: FAT12, FAT16 and FAT32 entries as bytes of the first FAT, refined to a table
  of numbers.
- `Chains`, `AllocSpec`, `Allocator`, `FreeCount`: the table as a set of disjoint chains, the allocator
  as a function of table, free count and last allocation, and the allocator over the window.
- `FileView`, `FileObject`, `Truncation`, `Durability`: a file as a byte sequence laid out over its
  chain, and read, write, seek, truncate, sync, mount and open over the sector buffer. `Confined` says what
  an operation may change: clusters that were free, and sectors of the file.
- `FileRuns`, `Lifetimes`: whole sequences of calls against a byte sequence with a cursor, what they mean
  for the other files of the volume, and what the next mount finds.
- `LongNames`, `Unicode`, `NameText`, `Wildcards`: long names in directory entries, UTF-8 names at the
  interface, and the wildcard matcher.

Methods report disk errors through their result, as the driver does. What an error leaves true is part
of each contract. On a `Reliable` medium errors do not occur, and on a `Locked` one every write fails.

**The other parts**

- `Lzss`: the backward decompressor that overwrites its own input (`arm9/source/firm.c`).
- `Aes`, `Batches`, `CtrNand`: counter arithmetic, batches and the encrypted NAND
  (`arm9/source/crypto.c`; sections 6.2 and 6.5 of NIST SP 800-38A). The block cipher is a parameter.
- `Mailbox`: the protocol between the two processors (`arm9/source/screen.c`, `arm11/source/main.c`) as
  interleaved single memory accesses. The mailbox starts as 0, an operation (`arm11/source/start.s:34`).
- `Mmu`: making a page table read-write-execute (`k11_extension/source/mmu.c`; section B4.7 of
  ARM DDI 0100I).
- `Sessions`: the sorted session table (`k11_extension/source/ipc.c`).
- `Search`: Boyer-Moore-Horspool search (`arm9/source/memory.c`).

## Findings

Where a promise fails, the code is modelled as it is, and the exact condition is proved.

- The mount does its sector arithmetic in 32 bits without a check: a volume whose sizes wrap is accepted
  with overlapping regions (`Layout.MountedIsValidIff`, `Layout.WrappedVolumeAccepted`). With one
  reserved sector a maintained FSInfo sector falls on the first FAT sector (`Layout.OneReservedAccepted`).
- A sync clears the mark of a modified file even when the final flush failed
  (`arm9/source/fatfs/ff.c:4197-4198`). The next sync, and so a repeated close, then reports success without
  writing anything (`Durability.Sync`, `Durability.LostStore`, `Lifetimes.TruncateAndLose`).
- The free-space scan of FAT16 and FAT32 volumes also counts the two reserved entries
  (`FreeCount.CountedIsFreeIff`).
- A wrong stored free count of 0 makes the allocator report a full disk without looking
  (`AllocSpec.CreateIsExhaustive`).
- The result of the write to the second FAT is ignored, so a flush can report success and leave the copies
  different (`Window.CopiesDivergeIff`).
- A wildcard run of 256 or more `?` is taken for a `*` (`Wildcards.UnderstoodIff`), and a pattern with
  more than four runs never matches.
- The UTF-8 decoder accepts some overlong forms (`Unicode.OverlongAccepted`, `Unicode.ShortestFormIff`). A
  name whose UTF-8 form is longer than 255 bytes cannot be listed (`NameText.ReopensIff`,
  `NameText.LongNameNotListed`).
- The NAND counter wraps every 4 GiB, so a range does not read back from another start beyond that border
  (`CtrNand.ReadBackIff`). Writes always go to the NAND; when reads come from the SD card they return what
  the card holds, whatever was written (`CtrNand.Nand.WriteThenRead`).
- A mailbox that started as ARM11_READY could lose the first request (`Mailbox.SafeIff`). A call after
  PREPARE_ARM11_FOR_FIRMLAUNCH waits for ever (`Mailbox.NeverStuckIff`).
- Supersections keep their APX bit, so read-only ones stay read-only although the walker reports them
  writable (`Mmu.SupersectionWritableIff`).
- A full session table refuses removals too, so it stays as it is for ever (`Sessions.RunsKeepTable`);
  removing or looking up an unregistered session acts on its neighbour (`Sessions.RemoveIsExactIff`,
  `Sessions.LookupIsExactIff`).

## Model

| member | source | states |
|---|---|---|
| Layout.PowerOfTwoIsBitTest | arm9/source/fatfs/ff.c:3523 | the cluster sizes the mount accepts are exactly the nonzero bytes with one bit set |
| Layout.FatRangeTest | arm9/source/fatfs/ff.c:1065-1066 | the unsigned comparison in the flush is a range test for the first FAT, and the mirrored sector lies in the second copy |
| Layout.Geometry.ClusterToSector | arm9/source/fatfs/ff.c:1144-1152 | a valid cluster number gives a sector range inside the data region |
| Layout.ClustersInOrder | arm9/source/fatfs/ff.c:1144-1152 | cluster 2 stands at the start of the data region, each further one right behind the one before it, and the last ends with the volume |
| Layout.SectorOfCluster | arm9/source/fatfs/ff.c:1144-1152 | sector `i` of cluster `c` lies in the volume and belongs to `c` and no other cluster: distinct clusters have disjoint sector ranges |
| Layout.EntryInsideFat | arm9/source/fatfs/ff.c:1161-1234 | all bytes of every FAT entry lie inside one FAT copy |
| Layout.MountedIsValidIff | arm9/source/fatfs/ff.c:3512-3570 | a volume the mount accepts has its regions in order and disjoint, a FAT large enough and cluster numbers in range, exactly when its true end, summed without wrap-around, fits 32 bits and it is not a FAT32 volume with one reserved sector whose boot sector asks for FSInfo and whose next sector can be read |
| Layout.MountsWhatIsDescribed | arm9/source/fatfs/ff.c:3512-3584 | the sound layouts a mount takes from a sector are exactly those its bytes describe: each field at its offset, the FAT size and the sector count in their 16-bit field or, where that is 0, in the 32-bit one, the sub-type by the cluster count, FSInfo when a FAT32 volume asks for it |
| Layout.DescribedMounts | arm9/source/fatfs/ff.c:3512-3570 | every sound layout whose numbers fit the fields of a boot sector can be mounted from one |
| Layout.WrappedVolumeAccepted | arm9/source/fatfs/ff.c:3519-3561 | a boot sector whose FAT size wraps at 32 bits is accepted although its FAT covers the data region |
| Layout.OneReservedAccepted | arm9/source/fatfs/ff.c:3566-3584 | a FAT32 boot sector with one reserved sector is accepted and its FSInfo sector is the first FAT sector |
| Layout.EndMarkIsEnd | arm9/source/fatfs/ff.c:1600 | the end mark, cut to the entry width, is never a cluster number |
| Window.Volume.SyncWindow | arm9/source/fatfs/ff.c:1055-1073 | flushes the window to its sector and the second FAT as a function of the outcomes of the two writes; keeps what readers see; a reliable disk keeps the two copies equal |
| Window.CopiesDivergeIff | arm9/source/fatfs/ff.c:1061-1067 | a flush reports success and leaves the FAT copies different exactly when the window holds a FAT sector, its write succeeds, and the write to the second copy fails and leaves other bytes there |
| Window.ChangedSectorDiverges | arm9/source/fatfs/ff.c:1061-1067 | where a failed write leaves the old bytes, that is exactly when the FAT sector had changed |
| Window.Volume.MoveWindow | arm9/source/fatfs/ff.c:1077-1098 | the window shows the image of the sector asked for; dirty content is flushed first; a failure leaves the old or no sector in it |
| Window.Volume.SyncFs | arm9/source/fatfs/ff.c:1108-1135 | leaves nothing dirty and writes the free count and last allocation to FSInfo when they are maintained and changed |
| Window.FsInfoReadsBack | arm9/source/fatfs/ff.c:3566-3584 | the counts a sync writes are the ones a mount loads |
| Window.InfoIsInBytes | arm9/source/fatfs/ff.c:3572-3583 | a mount takes free count and last allocation from bytes 488 to 495 of a sector with the three signatures, and otherwise calls both unknown |
| Window.InfoWritten | arm9/source/fatfs/ff.c:1117-1127 | a sync writes the signatures and the two counts to these bytes |
| Window.MirrorLag | arm9/source/fatfs/ff.c:1055-1073 | the second FAT differs from what the driver reads at most in the sector held dirty in the window, and not at all after a flush |
| FatTable.PutTable | arm9/source/fatfs/ff.c:1239-1288 | storing an entry makes it read as the value cut to 12, 16 or 28 bits and leaves every other entry as it was, for the three sub-types, with FAT12 entries that share bytes and straddle sectors |
| FatTable.EntryIsBitField | arm9/source/fatfs/ff.c:1161-1234 | for all three sub-types entry `c` is the field of 12, 16 or 32 bits at that multiple of `c` in the whole FAT read as one little-endian number, on FAT32 without its top four bits |
| FatTable.FatSizeIsExact | arm9/source/fatfs/ff.c:3553-3561 | the bytes a mount demands of a FAT are those its entries fill, rounded up |
| FatTable.Put32KeepsTopBits | arm9/source/fatfs/ff.c:1273-1285 | a FAT32 store keeps the top four bits of the entry |
| FatTable.PutImageOutside | arm9/source/fatfs/ff.c:1239-1288 | storing an entry touches no sector outside the first FAT |
| FatTable.TornPutTable | arm9/source/fatfs/ff.c:1252-1265 | a FAT12 store interrupted between its two bytes damages no other entry |
| FatTable.TableFrame | arm9/source/fatfs/ff.c:1161-1234 | the FAT as a table depends on the first FAT only |
| FatAccess.GetFat | arm9/source/fatfs/ff.c:1161-1234 | through the window: the entry of the table, 1 for a number out of range, the error mark only on a disk error |
| FatAccess.PutFat | arm9/source/fatfs/ff.c:1239-1288 | through the window: the table with one entry replaced; an error leaves all other entries and everything outside the FAT alone |
| Chains.ChainIsAcyclic | arm9/source/fatfs/ff.c:1429-1517 | a chain that ends visits no cluster twice |
| Chains.ChainIsUnique | arm9/source/fatfs/ff.c:1429-1517 | the first cluster determines the whole chain |
| Chains.ForestHasNoOnes | arm9/source/fatfs/ff.c:1573-1599 | a FAT that is a set of disjoint chains holds no reserved value 1 |
| Chains.NewChainForest | arm9/source/fatfs/ff.c:1524-1618 | a formerly free cluster becomes a chain of its own and the others stay as they are |
| Chains.StretchForest | arm9/source/fatfs/ff.c:1524-1618 | appending a formerly free cluster replaces exactly one chain by its extension |
| Chains.ClearChainForest | arm9/source/fatfs/ff.c:1429-1517 | freeing a whole chain removes that chain and nothing else |
| Chains.CutChainForest | arm9/source/fatfs/ff.c:1429-1517 | cutting a chain behind its first `k` clusters frees exactly the rest |
| Chains.RechainedForest | arm9/source/fatfs/ff.c:1429-1618 | replacing one chain by another, either possibly empty, with formerly free clusters joining and the others freed keeps the FAT a set of disjoint chains |
| Chains.RechainedConserves | arm9/source/fatfs/ff.c:1429-1618 | what the chain gains in clusters is exactly what the free space loses |
| AllocSpec.SearchFinds | arm9/source/fatfs/ff.c:1573-1599 | the wrapping search returns the nearest free cluster after the start, and 0 only when every cluster is in use |
| AllocSpec.PickIsNearest | arm9/source/fatfs/ff.c:1573-1599 | the cluster taken is the one right behind the chain end if that is free, and otherwise the first free one behind the last allocation or, when that is unknown, behind the chain end, in wrapping order |
| AllocSpec.CreateIsExhaustive | arm9/source/fatfs/ff.c:1524-1618 | without reserved values, "no free cluster" is reported exactly when the stored count is 0 or the FAT has no zero entry; with an accurate or unknown count exactly in the latter case |
| AllocSpec.CreateAllocates | arm9/source/fatfs/ff.c:1524-1618 | a successful allocation takes one free cluster, links it, lowers the number of free clusters by one and keeps the count accurate |
| AllocSpec.CreateKeepsCount | arm9/source/fatfs/ff.c:1524-1618 | an accurate count stays accurate over every call, whatever the FAT holds |
| AllocSpec.CreateOnChain | arm9/source/fatfs/ff.c:1524-1618 | called on a cluster inside a chain it returns the next one; on the last one it extends the chain by a free cluster |
| AllocSpec.FreeFromKeeps | arm9/source/fatfs/ff.c:1429-1517 | on any FAT, cyclic ones included, only visited entries are cleared and an accurate count stays accurate |
| AllocSpec.RemoveFreesSuffix | arm9/source/fatfs/ff.c:1429-1517 | removing a chain from its `k`-th cluster on frees exactly that suffix and ends the kept part |
| AllocSpec.CallKeepsSound | arm9/source/fatfs/ff.c:1429-1618 | every call keeps the FAT a set of disjoint chains with an accurate free count |
| AllocSpec.RunsKeepSound | arm9/source/fatfs/ff.c:1429-1618 | so does every run of calls, in every state it passes through |
| Allocator.CreateChain | arm9/source/fatfs/ff.c:1524-1618 | over the window: the outcome and state of the specification; a disk error changes no entry that was in use except the chain end |
| Allocator.RemoveChain | arm9/source/fatfs/ff.c:1429-1517 | over the window: ends on every FAT with the outcome of the specification; a disk error changes only entries on the walked path |
| FreeCount.CountedIsFreeIff | arm9/source/fatfs/ff.c:4839-4893 | the scan counts exactly the free clusters if and only if the volume is FAT12 or its two reserved entries are not zero |
| FreeCount.GetFree | arm9/source/fatfs/ff.c:4816-4903 | returns the stored count when it is known, otherwise the result of the scan, and remembers it |
| FreeCount.GetFreeIsExact | arm9/source/fatfs/ff.c:4816-4903 | the answer is the number of free clusters under that condition |
| FileView.SectorAtInjective | arm9/source/fatfs/ff.c:3914-4004 | two bytes of a file share a sector exactly when they share a 512-byte block |
| FileView.WriteInSector | arm9/source/fatfs/ff.c:4014-4126 | replacing bytes of one sector writes exactly those bytes of the file |
| FileView.DirectBytes | arm9/source/fatfs/ff.c:3960-3978 | a transfer of whole sectors inside one cluster moves consecutive bytes of the file |
| FileView.ContentIsClusters | arm9/source/fatfs/ff.c:3914-4004 | a file is the bytes of its clusters in the order of its chain, up to its size |
| FileView.BytePlace | arm9/source/fatfs/ff.c:1144-1152 | byte `o` of sector `i` of the `j`-th cluster of a file stands at `dataBase + csize * (p[j] - 2) + i` |
| FileObject.File.constructor | arm9/source/fatfs/ff.c:3855-3871 | an opened file shows the bytes of its chain, with the cursor at 0 |
| FileObject.DataIsClusters | arm9/source/fatfs/ff.c:3914-4004 | what an open file shows is the bytes of its clusters in the order of its chain, up to its size |
| FileObject.DataByte | arm9/source/fatfs/ff.c:1144-1152 | each byte an open file shows stands in the sector the layout gives for it |
| FileObject.File.Read | arm9/source/fatfs/ff.c:3914-4004 | returns exactly the bytes at the cursor, as many as asked for and left; content and FAT stay; a disk error is remembered in the file object |
| FileObject.File.Write | arm9/source/fatfs/ff.c:4014-4126 | replaces or extends the content at the cursor by the accepted prefix; short only at 4 GiB - 1, or when the chain is used up to its last byte and no cluster is left; allocates no more clusters than the cursor needs, all of them free ones; touches nothing outside the file; keeps the free count accurate; fails only with a disk error, or on a FAT that held the reserved value 1 before the call; after a disk error the bytes before the cursor, among them those written so far, are still shown |
| FileObject.File.Seek | arm9/source/fatfs/ff.c:4433-4588 | moves the cursor to the target, clipped at the end when read-only, extending the file in write mode; stops early only where the chain is used up and no cluster is left; allocates no more than needed; the old content stays a prefix; fails only as a write does |
| FileObject.File.FlushBuffer | arm9/source/fatfs/ff.c:4149-4152 | writing the dirty buffer back changes nothing the file shows, whether or not it succeeds |
| Truncation.Truncate | arm9/source/fatfs/ff.c:4912-4953 | keeps the bytes before the cursor, frees exactly the clusters behind them, keeps the free count accurate and leaves everything outside the old chain alone |
| Truncation.CutKeepsForest | arm9/source/fatfs/ff.c:4925-4937 | a truncation keeps the FAT a set of disjoint chains |
| Durability.UpdatedEntryReads | arm9/source/fatfs/ff.c:4190-4195 | the rewritten directory entry reads back start cluster, size and time, has the archive bit, and keeps its other fields |
| Durability.UpdatedEntryBytes | arm9/source/fatfs/ff.c:4190-4195 | the halves of the start cluster stand in bytes 26 and 27 and, on FAT32, 20 and 21; size, time and access date in bytes 28 to 31, 22 to 25, and 18 and 19 |
| Durability.Sync | arm9/source/fatfs/ff.c:4135-4205 | on a file marked as modified, success means that the medium alone, without caches, holds the file under its directory entry; on any other file nothing happens and success is reported, so the medium holds the file exactly if it did before, which is the case unless an earlier sync failed after it had cleared the mark; a failure changes nothing the open file shows |
| Durability.LostStore | arm9/source/fatfs/ff.c:4197-4198 | on a medium that became write-protected a sync of a modified file fails, the next one reports success, and the medium is unchanged: it does not hold a file whose size changed |
| Durability.Open | arm9/source/fatfs/ff.c:3855-3871 | opening the entry of a stored file takes start cluster and size from their bytes and gives its chain and its content |
| Durability.Mount | arm9/source/fatfs/ff.c:3444-3589 | on volumes whose regions lie in order on the medium: accepts exactly the boot sectors described in `Layout`, takes the layout from the bytes of the boot sector and the counts from those of FSInfo when it is maintained, and starts with nothing dirty |
| Durability.LoadLayout | arm9/source/fatfs/ff.c:3512-3584 | on any medium and any boot sector, wrapping sizes included: which volumes are accepted, and the layout and counts taken from them; a sound layout is the one the bytes of the sector describe; refusal is for a boot sector outside `Layout` only, and any other failure is a disk error |
| FileRuns.Play | arm9/source/fatfs/ff.c:3914-4953 | any sequence of reads, writes, seeks, truncations and syncs, on a handle opened in any mode, answers as a byte sequence with a cursor would, until a call marks the handle as failed, which on a reliable medium without the reserved value 1 never happens; what it changes belongs to the file, its directory entry or free clusters; chain and free clusters together stay the same in number, and an accurate free count stays accurate; unless a sync replied a failure, no call loses the mark of a modified file |
| FileRuns.HistoryIsReplay | arm9/source/fatfs/ff.c:3914-4953 | with an accurate or unknown free count, and with any count for writes inside the clusters of the file, also on a full volume, content, cursor and every reply are those of a deterministic file with a capacity |
| FileRuns.WriteIsCompleteIff | arm9/source/fatfs/ff.c:4014-4126 | with an accurate or unknown count a write is accepted in full exactly when it ends before 4 GiB and inside the clusters of the chain and the free ones |
| FileRuns.WriteThenRead | arm9/source/fatfs/ff.c:3914-4588 | a write accepted in full, a seek back and a read of as many bytes: the read replies with the bytes written |
| FileRuns.OtherFileKept | arm9/source/fatfs/ff.c:3914-4953 | a file on a disjoint chain keeps its directory entry, its chain and its bytes through every run on another file, even a failed one, also when both entries share a sector |
| FileRuns.RunKeepsForest | arm9/source/fatfs/ff.c:3914-4953 | after a successful run the FAT is still a set of disjoint chains, with the chain of the file replaced by what it is now |
| Lifetimes.Lifetime | arm9/source/fatfs/ff.c:3444-4205 | mount, open, any calls, sync, mount anew from the boot sector, open: unless a call or sync on the way reported a failure, the file holds what the calls left; on a reliable medium without the reserved value 1 nothing fails, and a free count that was right is right after the second mount |
| Lifetimes.PlaySoundly | arm9/source/fatfs/ff.c:3914-4953 | on a reliable medium whose FAT is a set of disjoint chains every sequence of calls succeeds and leaves such a set, with the chain of the file replaced |
| Lifetimes.TruncateAndLose | arm9/source/fatfs/ff.c:4912-4953 | on a medium that became write-protected a stored file truncated inside its last cluster is lost: the truncation and the second sync report success, the first sync fails, and the medium keeps the old file |
| Lifetimes.PlayBeside | arm9/source/fatfs/ff.c:3914-4953 | any calls on one open file leave another open file of the volume showing its content at its cursor; it stays valid exactly unless its buffer showed a sector that the calls have rewritten, which a sector of its own chain never is |
| Wildcards.PatternMatch | arm9/source/fatfs/ff.c:2793-2837 | true exactly when the pattern has no more wildcard runs than the recursion limit and the name matches it as the matcher packs it; the early stop loses nothing |
| Wildcards.EffectiveMeans | arm9/source/fatfs/ff.c:2815-2824 | a pattern without a run of 256 `?`s means what `?` and `*` mean |
| Wildcards.UnderstoodIff | arm9/source/fatfs/ff.c:2815-2824 | for all names the packed pattern means what was written exactly when no run has 256 `?`s or more |
| Wildcards.FindMatches | arm9/source/fatfs/ff.c:4729-4745 | sound for such patterns, and complete when there are at most four wildcard runs; never true with more |
| LongNames.Put | arm9/source/fatfs/ff.c:1959-1984 | an entry holds its part of the name, then the terminator, then filler, and the last-entry flag exactly when the name ends in it |
| LongNames.PartBytes | arm9/source/fatfs/ff.c:1959-1984 | the same by bytes: number and flag, attributes, checksum, cluster field, and the characters in bytes 1 to 10, 14 to 25 and 28 to 31 |
| LongNames.Pick | arm9/source/fatfs/ff.c:1921-1950 | accepts an entry exactly when its cluster field is 0, its filler is right and it fits the buffer, and then copies its part and a missing terminator |
| LongNames.Register | arm9/source/fatfs/ff.c:2524-2539 | stores ceil(length / 13) parts, the last one first, and only the first one stored carries the last-entry flag |
| LongNames.Read | arm9/source/fatfs/ff.c:2306-2378 | reading in order reports a long name exactly when a complete falling row of accepted parts, the first of them flagged, with the checksum of the short entry stands directly before it; where the parts are those of a name it captures exactly that name and its terminator, also behind deleted entries and parts of other names |
| LongNames.SumIsChecksum | arm9/source/fatfs/ff.c:2051-2065 | the checksum is the one of the specification: turned by one bit and added to, byte by byte |
| LongNames.FileByBytes | arm9/source/fatfs/ff.c:2319-2360 | which entries the reader takes for files, by first byte and attributes |
| LongNames.StoreAndRead | arm9/source/fatfs/ff.c:1921-1984 | every name of 1 to 255 units survives being stored and read back, whatever deleted entries and orphaned parts lie in front and whatever follows |
| Unicode.PutIsUtf8 | arm9/source/fatfs/ff.c:824-855 | every character is stored as its UTF-8 bytes when they fit, and not at all otherwise |
| Unicode.Utf8Spells | arm9/source/fatfs/ff.c:824-855 | the bytes of a character: a first byte that announces their number, trailing bytes, together its bits, and no more than it needs |
| Unicode.Utf16Spells | arm9/source/fatfs/ff.c:736-801 | the units of a character spell it, and the driver holds a surrogate pair as one number, the high one first |
| Unicode.EncodingExamples | arm9/source/fatfs/ff.c:736-855 | the examples of RFC 3629 and RFC 2781, and the ends of the surrogate range |
| Unicode.DecodeUtf8 | arm9/source/fatfs/ff.c:736-801 | the UTF-8 bytes of a character decode to it, whatever follows, and exactly they are consumed |
| Unicode.ShortestFormIff | arm9/source/fatfs/ff.c:754-776 | an accepted sequence is what the encoder writes exactly when it does not begin with E0 and a byte below A0, or F0 and a byte below 90 |
| Unicode.AcceptedIsScalar | arm9/source/fatfs/ff.c:736-783 | whatever is accepted spells one character, unless it is the terminator |
| Unicode.OverlongAccepted | arm9/source/fatfs/ff.c:773 | the three bytes E0 82 80 are accepted as U+0080 |
| NameText.ListName | arm9/source/fatfs/ff.c:2672-2688 | a stored name is listed exactly when its units are a text whose UTF-8 bytes fit 255 bytes, and then as these bytes; broken surrogates are not listed |
| NameText.CreateName | arm9/source/fatfs/ff.c:2861-2899 | for any bytes: the characters read up to a separator or control character give the name, without trailing spaces and dots; it is refused where the bytes are malformed, a character is illegal, or there are too many units |
| NameText.CharacterSets | arm9/source/fatfs/ff.c:2868-2869 | the characters that end a segment and those a name may not contain, as text |
| NameText.ReopensIff | arm9/source/fatfs/ff.c:2672-2899 | a listed name denotes the same name again exactly when it fits the buffer, has only permitted characters and does not end in a space or dot |
| NameText.LongNameNotListed | arm9/source/fatfs/ff.c:2672-2688 | a name of 86 euro signs has 86 units but 258 bytes, and is not listed |
| NameText.ListThenCreate | arm9/source/fatfs/ff.c:2672-2899 | listing a name and passing the bytes back computes that outcome |
| Lzss.CopyMatch | arm9/source/firm.c:337-352 | a match copies byte by byte from the output already written, its own bytes included |
| Lzss.RepeatCopies | arm9/source/firm.c:346-352 | every copied byte equals the one `offset + 3` places behind it, also in an overlapping copy |
| Lzss.Decompress | arm9/source/firm.c:303-367 | in place, the result is what decoding an untouched copy of the section gives; memory below the output and above the section is unchanged |
| Lzss.SerializeDecodes | arm9/source/firm.c:303-367 | a stream written for a token list, group by group, decodes to what the tokens stand for |
| Lzss.DecompressSection | arm9/source/firm.c:303-367 | a token list laid out backwards with its footer, anywhere in memory with room for the output, decompresses in place to what the tokens stand for |
| Lzss.SerializeParses | arm9/source/firm.c:328-362 | parsing a serialized token list gives the list back |
| Lzss.MatchIsInBytes | arm9/source/firm.c:337-345 | the two bytes of a match as one number: length less 3 in the upper four bits, offset in the lower twelve |
| Lzss.FlagIsBit | arm9/source/firm.c:326-362 | the flags of a group from the highest bit down |
| Lzss.FooterIsInBytes | arm9/source/firm.c:321-324 | the footer by its bytes |
| Aes.AdvanceCounter | arm9/source/crypto.c:157-182 | in every byte and word order the counter advances by the value modulo 2^128 |
| Aes.ValueOfBytes | arm9/source/crypto.c:157-182 | the number a counter stands for is that of its sixteen bytes, big-endian in the order of the NAND counter, with the words turned or swapped in the others |
| Aes.ReorderedKeeps | arm9/source/crypto.c:184-204 | changing the order of an initial vector keeps its number and can be undone |
| Aes.ChangeMode | arm9/source/crypto.c:184-204 | reorders the words in place |
| Aes.XorBit | arm9/source/crypto.c:239-286 | the exclusive or, bit by bit |
| Batches.CtrPass | arm9/source/crypto.c:239-286 | in counter mode block `i` is combined with the cipher of base + i modulo 2^128 |
| Batches.CbcPass | arm9/source/crypto.c:239-286 | in CBC decryption each block needs only the block before it |
| Batches.PassSplit | arm9/source/crypto.c:239-286 | one pass over two parts is a pass over each, with the register carried over |
| Batches.PassInverse | arm9/source/crypto.c:239-286 | counter mode undoes itself, and CBC decryption undoes CBC encryption |
| Batches.RunBatch | arm9/source/crypto.c:206-237 | the engine's output is one pass over the input, for an output that starts at or below the input or lies wholly above it |
| Batches.SaveIv | arm9/source/crypto.c:255-271 | the saved block is the register the next batch loads |
| Batches.Process | arm9/source/crypto.c:239-286 | for every length, mode and order, batches of 0xFFFF blocks equal one pass over the input as it was, in place or into a region below or apart from it |
| CtrNand.CountersAgreeIff | arm9/source/crypto.c:374-375 | counting on to the same block from two sectors gives the same counter exactly when both sectors lie in the same 4 GiB stretch |
| CtrNand.BaseCounterValue | arm9/source/crypto.c:374-375 | the counter of a sector is the NAND counter plus 32 for every sector since the last multiple of 4 GiB, modulo 2^128 |
| CtrNand.Nand.Read | arm9/source/crypto.c:370-391 | combines block `j` of what the selected device holds with the encrypted number NAND counter + 32 * (partition sector modulo 4 GiB) + `j` modulo 2^128; the SD card is read `emuOffset` further on; inside a reliable device it succeeds |
| CtrNand.Nand.Write | arm9/source/crypto.c:393-418 | stores the blocks combined with the same numbers, in one encrypted pass in chunks of 0x4000 bytes, always on the NAND; a failure leaves other sectors alone; inside a reliable device it succeeds |
| CtrNand.Nand.WriteThenRead | arm9/source/crypto.c:370-418 | writing one range and reading another returns the data wherever the two overlap, if they start in the same 4 GiB stretch of the NAND, and what the SD card holds when reads go there |
| CtrNand.ReadBack | arm9/source/crypto.c:370-418 | what a read and a write have in common reads back, if both start in the same stretch |
| CtrNand.ReadBackIff | arm9/source/crypto.c:370-418 | for two overlapping ranges: for all ciphers, data and card contents the common part reads back exactly when reads go to the NAND and both ranges start in the same 4 GiB stretch |
| Mailbox.Arm9Keeps | arm9/source/screen.c:58-101 | every ARM9 step keeps the ownership invariant of mailbox and parameter block |
| Mailbox.Arm11Keeps | arm11/source/main.c:220-259 | every ARM11 step keeps it |
| Mailbox.RunsAreSafe | arm9/source/screen.c:58-155 | in every interleaving that starts with another value than ARM11_READY, the executed operations are a prefix of those invoked, each once and with its own parameters, and no call returns before its operation ran |
| Mailbox.SafeIff | arm9/source/screen.c:58-63 | all runs are safe exactly when the mailbox does not start as ARM11_READY |
| Mailbox.StepsAreBounded | arm9/source/screen.c:58-63 | apart from idle polling, every step of either side brings the end of all calls nearer |
| Mailbox.NeverStuckIff | arm11/source/main.c:220-259 | no run gets stuck before every call has returned exactly when PREPARE_ARM11_FOR_FIRMLAUNCH is the last call or none |
| Mailbox.StuckIsAbandoned | arm11/source/main.c:251-256 | both sides wait for ever in one way only: ARM11 has left, and the call after the final one waits for it |
| Mailbox.StuckRun | arm11/source/main.c:251-256 | whenever a call follows the final one there is such a run |
| Mmu.L1RwxKeeps | k11_extension/source/mmu.c:32-68 | rewriting an L1 entry keeps its kind and address and is idempotent; of a section only XN, AP and APX change, of a supersection only XN and AP |
| Mmu.L2RwxKeeps | k11_extension/source/mmu.c:70-100 | rewriting an L2 entry keeps its kind and address and is idempotent; only XN, AP and APX change |
| Mmu.RewriteL1 | k11_extension/source/mmu.c:32-68 | the whole rewriting, with L2 tables shared between L1 entries, is the word-by-word one |
| Mmu.RewriteL2 | k11_extension/source/mmu.c:70-100 | rewrites the 256 words of one L2 table and no other word |
| Mmu.RewrittenTranslates | k11_extension/source/mmu.c:32-238 | every address below 0x40000000 keeps its physical address; mapped ones get user permission 7, unmapped ones stay unmapped with 0 |
| Mmu.RewrittenBits | k11_extension/source/mmu.c:32-100 | in the whole rewriting no word outside the tables changes, and of the words of the tables only these bits |
| Mmu.PhysicalParts | k11_extension/source/mmu.c:102-170 | a physical address has its upper bits from the entry that maps it and its lower 20, 24, 16 or 12 bits from the virtual address |
| Mmu.PermissionBits | k11_extension/source/mmu.c:172-238 | the user permission by the bits of the entry |
| Mmu.KindsByBits | k11_extension/source/mmu.c:7-30 | the kinds of entries by their low bits and bit 18 |
| Mmu.TableAddress | k11_extension/source/mmu.c:44 | the L2 table of a coarse entry stands 1 GiB below the address in its bits 10 to 30 |
| Mmu.RewrittenTwice | k11_extension/source/mmu.c:32-100 | rewriting twice is rewriting once |
| Mmu.SupersectionWritableIff | k11_extension/source/mmu.c:57-63 | a supersection becomes writable on the hardware exactly when its APX bit was clear, while the walker reports 7 in either case |
| Sessions.SessionTable.FindClosestSlot | k11_extension/source/ipc.c:39-61 | the binary search finds the number of smaller entries |
| Sessions.SessionTable.Add | k11_extension/source/ipc.c:100-135 | the table with the session, and of its name what twelve characters keep, put at its slot; unchanged when full or present |
| Sessions.SessionTable.Remove | k11_extension/source/ipc.c:137-164 | the table without the entry at the slot; unchanged when full or past the end |
| Sessions.SessionTable.Lookup | k11_extension/source/ipc.c:63-79 | the entry at the slot if its session is hooked |
| Sessions.AddedMembers | k11_extension/source/ipc.c:100-135 | adding keeps the order and adds exactly the session unless the table is full |
| Sessions.RemoveIsExactIff | k11_extension/source/ipc.c:137-164 | a removal takes out its own session and nothing else exactly when the session is registered or above all others, or, in a full table, not registered |
| Sessions.RemoveUndoesAdd | k11_extension/source/ipc.c:100-164 | removing undoes adding |
| Sessions.LookupIsExactIff | k11_extension/source/ipc.c:63-79 | a lookup answers with another session's entry exactly when the session is not registered and a hooked one follows it |
| Sessions.RunsKeepTable | k11_extension/source/ipc.c:100-164 | over every run the table stays sorted and bounded, and once full it never changes again |
| Sessions.OrderlyRunIsExact | k11_extension/source/ipc.c:100-164 | as long as the table does not fill up and only registered sessions are removed, it is the sorted list of exactly the sessions the calls stand for, each with its name |
| Search.SkipIsNearest | arm9/source/memory.c:40-43 | the distance leads to the last earlier place of the character in the pattern, or the whole length |
| Search.JumpIsSafe | arm9/source/memory.c:45-53 | no jump passes over an occurrence |
| Search.Find | arm9/source/memory.c:34-56 | the leftmost occurrence, or nothing exactly when there is none |

## Left out

- Durability.Mount: starts from the boot sector that was found; the search of the partition table is not modelled. It asks for the checks the code omits (`Layout.WellLaid`) and for a volume that fits the medium; `Durability.LoadLayout`, the reading of boot sector and FSInfo, does not.
- Lifetimes.PlayBeside: does not go on with a file whose buffer shows a rewritten sector that its own truncation gave back; the driver keeps that copy until the buffer moves.
- Durability.Open: only the end of the open call, from the located directory entry on; finding or creating the entry, and the mode that moves to the end of the file, are not modelled.
- FileObject.File.Seek: says nothing about the bytes a seek past the end of file exposes, because the code leaves them as the clusters hold them.
- FileObject.File.Write: a call that fails with a disk error leaves the content from the cursor on unspecified.
- LongNames.Put: asks for a name without the value 0xFFFF, which the format uses as filler and the code does not refuse.
- LongNames.Read: the captured name is stated where no file and no end mark comes before its parts; otherwise only the entry found is.
- NameText.CreateName: the 8.3 name derived from the long one is not modelled.
- NameText.ListName: the fallback to the 8.3 name when the long one cannot be listed is not modelled.
- Wildcards.PatternMatch: works on decoded, case-folded characters; the case table is not part of this model.
- Lzss.Decompress: asks that the three pointers of the section lie in memory, that the stream is well formed and that the output never runs over unread input; the code checks none of this. Its check for a null pointer is omitted.
- Copying a module around the decompressor, and its header fields, are not modelled.
- Batches.RunBatch: the engine takes and gives one block at a time; its two queues are not modelled.
- CtrNand.Nand.Read: the buffer after a failed read is unspecified, and the transfer must be smaller than 4 GiB, as any buffer is.
- Mailbox.RunsAreSafe: assumes that memory accesses of the two processors take effect in one order; the jump after the final operation is one last answer.
- Search.Find: asks for a pattern of at least one byte that is not longer than the text, because the code does not check this.
- exFAT, GPT, formatting, fast seek, volume labels, file locking, string functions and the reentrancy code of the driver are compiled out.
- Directory creation, removal and renaming, and directory clusters as such, would repeat the allocator and window results.
- Several open handles on the same file are left to the caller by the code.
- Hardware registers, device drivers, firmware patching, menus, drawing, configuration files and kernel hooks depend on hardware or binaries that are not part of this model.
