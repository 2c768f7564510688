/** The FAT branch of `mount_volume`: what the boot sector says about the layout of a
    volume, which volumes are accepted, and what acceptance guarantees. */
module Layout {
  import opened Bytes
  import opened Wrappers

  datatype FsType = Fat12 | Fat16 | Fat32

  const MAX_FAT12 := 0xFF5
  const MAX_FAT16 := 0xFFF5
  const MAX_FAT32 := 0x0FFF_FFF5

  /** The nonzero bytes `c` with `c & (c - 1) == 0`. */
  predicate PowerOfTwo(c: int) {
    c == 1 || c == 2 || c == 4 || c == 8 || c == 16 || c == 32 || c == 64 || c == 128
  }

  lemma PowerOfTwoIsBitTest(c: byte)
    ensures PowerOfTwo(c) <==> c != 0 && (c as bv8) & ((c as bv8) - 1) == 0
  {
    var b := c as bv8;
    assert b != 0 && b & (b - 1) == 0 <==>
      b == 1 || b == 2 || b == 4 || b == 8 || b == 16 || b == 32 || b == 64 || b == 128;
  }

  /** The layout fields of a mounted volume (`FATFS`). */
  datatype Geometry = Geometry(
    fsType: FsType,
    nFats: nat,      // number of FAT copies
    csize: nat,      // sectors per cluster
    nFatEnt: nat,    // number of clusters + 2
    fsize: nat,      // sectors per FAT copy
    nRootDir: nat,   // entries of the static root directory
    volBase: nat,
    fatBase: nat,
    dirBase: nat,    // first root sector, or the root cluster on FAT32
    dataBase: nat,
    fsInfo: bool)    // an FSInfo sector at volBase + 1 is maintained
  {
    /** Largest cluster count that keeps the sub-type. */
    function MaxClusters(): nat {
      match fsType
      case Fat12 => MAX_FAT12
      case Fat16 => MAX_FAT16
      case Fat32 => MAX_FAT32
    }

    /** Bytes of one FAT copy that hold entries. */
    function EntryBytes(): nat {
      match fsType
      case Fat12 => nFatEnt * 3 / 2 + nFatEnt % 2
      case Fat16 => nFatEnt * 2
      case Fat32 => nFatEnt * 4
    }

    /** Sectors of all FAT copies together. */
    function FatSectors(): nat {
      if nFats == 2 then 2 * fsize else fsize
    }

    /** First sector after the last cluster. */
    function End(): int {
      dataBase + csize * (nFatEnt - 2)
    }

    /** The regions of the volume are in order and disjoint, and the FAT is large enough. */
    ghost predicate Valid() {
      && PowerOfTwo(csize)
      && (nFats == 1 || nFats == 2)
      && 3 <= nFatEnt <= MaxClusters() + 2
      && volBase < fatBase
      && (fsInfo ==> fsType == Fat32 && volBase + 1 < fatBase)
      && fatBase + FatSectors() + nRootDir / 16 == dataBase
      && (fsType != Fat32 ==> dirBase == fatBase + FatSectors() && nRootDir > 0)
      && EntryBytes() <= fsize * SECTOR_SIZE
      && dataBase < End() <= 0x1_0000_0000
    }

    predicate InFat1(s: int) {
      fatBase <= s < fatBase + fsize
    }

    predicate InFat2(s: int) {
      nFats == 2 && fatBase + fsize <= s < fatBase + 2 * fsize
    }

    /** The sectors the driver reads through; the second FAT and FSInfo are only ever written. */
    predicate Tracked(s: int) {
      !InFat2(s) && !(fsInfo && s == volBase + 1)
    }

    /** A sector of some cluster. */
    predicate InData(s: int) {
      dataBase <= s < End()
    }

    /** `clst2sect`: 0 for an invalid cluster number. */
    function ClusterToSector(c: int): (s: int)
      requires Valid()
      ensures 2 <= c < nFatEnt ==> dataBase <= s && s + csize <= End()
    {
      if 2 <= c < nFatEnt then
        ClusterSpan(csize, c - 2, nFatEnt - 2);
        dataBase + csize * (c - 2)
      else 0
    }

    /** The cluster a data sector belongs to. */
    function SectorToCluster(s: int): int
      requires csize > 0
    {
      2 + (s - dataBase) / csize
    }
  }

  /** The unsigned comparison of `sync_window` is a range test. */
  lemma FatRangeTest(g: Geometry, s: u32)
    requires g.Valid()
    ensures Wrap32(s - g.fatBase) < g.fsize <==> g.InFat1(s)
    ensures g.InFat1(s) && g.nFats == 2 ==> g.InFat2(s + g.fsize) && s + g.fsize < g.dataBase
    ensures g.dataBase < g.End()
  {
    ClusterSpan(g.csize, 0, g.nFatEnt - 2);
    if s < g.fatBase {
      assert Wrap32(s - g.fatBase) == s - g.fatBase + 0x1_0000_0000;
    }
  }

  lemma ClusterSpan(csize: nat, k: int, n: int)
    requires 0 <= k < n
    ensures 0 <= csize * k && csize * k + csize <= csize * n
  {
    TimesGap(csize, k, n);
  }

  /** Division by a cluster size undoes multiplication by it. */
  lemma DivisionOfSpan(csize: int, k: int, i: int)
    requires PowerOfTwo(csize) && 0 <= i < csize
    ensures (csize * k + i) / csize == k
    ensures (csize * k + i) % csize == i
  {
    if csize == 1 {
    } else if csize == 2 {
    } else if csize == 4 {
    } else if csize == 8 {
    } else if csize == 16 {
    } else if csize == 32 {
    } else if csize == 64 {
    } else {
      assert csize == 128;
    }
  }

  /** Sector `i` of cluster `c` belongs to cluster `c` and to no other: distinct clusters
      occupy disjoint sector ranges, all inside the data region. */
  lemma SectorOfCluster(g: Geometry, c: int, i: int)
    requires g.Valid() && 2 <= c < g.nFatEnt && 0 <= i < g.csize
    ensures g.dataBase <= g.ClusterToSector(c) + i < g.End()
    ensures g.SectorToCluster(g.ClusterToSector(c) + i) == c
    ensures (g.ClusterToSector(c) + i - g.dataBase) % g.csize == i
  {
    ClusterSpan(g.csize, c - 2, g.nFatEnt - 2);
    DivisionOfSpan(g.csize, c - 2, i);
  }

  /** The clusters stand one after the other, the first one, number 2, at the start of the data region. */
  lemma ClustersInOrder(g: Geometry, c: int)
    requires g.Valid() && 2 <= c < g.nFatEnt
    ensures g.ClusterToSector(2) == g.dataBase
    ensures c + 1 < g.nFatEnt ==> g.ClusterToSector(c + 1) == g.ClusterToSector(c) + g.csize
    ensures c + 1 == g.nFatEnt ==> g.End() == g.ClusterToSector(c) + g.csize
  {
    ClusterSpan(g.csize, 0, g.nFatEnt - 2);
    NextMultiple(g.csize, c - 2);
  }

  lemma NextMultiple(csize: nat, k: int)
    ensures csize * (k + 1) == csize * k + csize
    ensures csize * 0 == 0
  {
  }

  /** Every byte of entry `c` lies inside one FAT copy. */
  lemma EntryInsideFat(g: Geometry, c: nat)
    requires g.Valid() && c < g.nFatEnt
    ensures g.fsType == Fat12 ==> c + c / 2 + 1 < g.fsize * SECTOR_SIZE
    ensures g.fsType == Fat16 ==> c * 2 + 1 < g.fsize * SECTOR_SIZE
    ensures g.fsType == Fat32 ==> c * 4 + 3 < g.fsize * SECTOR_SIZE
  {
  }

  /** The fields of the boot sector that `mount_volume` reads. */
  datatype BootSector = BootSector(
    bytesPerSector: u16, fatSize16: u16, fatSize32: u32, numFats: byte, sectorsPerCluster: byte,
    rootEntries: u16, totalSectors16: u16, totalSectors32: u32, reserved: u16,
    version32: u16, rootCluster32: u32, fsInfo32: u16)

  function ReadBootSector(s: Sector): BootSector {
    BootSector(LdWord(s, 11), LdWord(s, 22), LdDword(s, 36), s[16], s[13],
               LdWord(s, 17), LdWord(s, 19), LdDword(s, 32), LdWord(s, 14),
               LdWord(s, 42), LdDword(s, 44), LdWord(s, 48))
  }

  function FatSize(b: BootSector): u32 {
    if b.fatSize16 == 0 then b.fatSize32 else b.fatSize16
  }

  function TotalSectors(b: BootSector): u32 {
    if b.totalSectors16 == 0 then b.totalSectors32 else b.totalSectors16
  }

  /** Sectors before the data region, as the 32-bit arithmetic of the driver computes them. */
  function SystemSectors(b: BootSector): u32 {
    Wrap32(b.reserved + Wrap32(FatSize(b) * b.numFats) + b.rootEntries / 16)
  }

  function SubType(nclst: nat): Option<FsType> {
    if nclst <= MAX_FAT12 then Some(Fat12)
    else if nclst <= MAX_FAT16 then Some(Fat16)
    else if nclst <= MAX_FAT32 then Some(Fat32)
    else None
  }

  /** The bytes the entries need, as the driver computes them. */
  function NeededFatBytes(t: FsType, n: nat): u32 {
    match t
    case Fat32 => Wrap32(n * 4)
    case Fat16 => Wrap32(n * 2)
    case Fat12 => Wrap32(Wrap32(n * 3) / 2 + n % 2)
  }

  /** `mount_volume` on a boot sector found at `bsect`; `infoReadable` is the outcome of
      loading the sector after it. None stands for FR_NO_FILESYSTEM. */
  function MountFat(b: BootSector, bsect: u32, infoReadable: bool): Option<Geometry> {
    if b.bytesPerSector != SECTOR_SIZE then None
    else if b.numFats != 1 && b.numFats != 2 then None
    else if !PowerOfTwo(b.sectorsPerCluster) then None
    else if b.rootEntries % 16 != 0 then None
    else if b.reserved == 0 then None
    else
      var tsect, sysect := TotalSectors(b), SystemSectors(b);
      if tsect < sysect then None
      else
        var nclst := (tsect - sysect) / b.sectorsPerCluster;
        if nclst == 0 || SubType(nclst).None? then None
        else
          var fmt := SubType(nclst).value;
          if fmt == Fat32 && (b.version32 != 0 || b.rootEntries != 0) then None
          else if fmt != Fat32 && b.rootEntries == 0 then None
          else if FatSize(b) < Wrap32(NeededFatBytes(fmt, nclst + 2) + 511) / SECTOR_SIZE then None
          else
            var fatBase := Wrap32(bsect + b.reserved);
            Some(Geometry(fmt, b.numFats, b.sectorsPerCluster, nclst + 2, FatSize(b), b.rootEntries,
                          bsect, fatBase,
                          if fmt == Fat32 then b.rootCluster32
                          else Wrap32(fatBase + Wrap32(FatSize(b) * b.numFats)),
                          Wrap32(bsect + sysect),
                          fmt == Fat32 && b.fsInfo32 == 1 && infoReadable))
  }

  /** The last sector the volume uses, computed without wrap-around. */
  function TrueEnd(b: BootSector, bsect: u32): int
    requires b.sectorsPerCluster > 0
  {
    bsect + b.reserved + FatSize(b) * b.numFats + b.rootEntries / 16
      + b.sectorsPerCluster * ((TotalSectors(b) - SystemSectors(b)) / b.sectorsPerCluster)
  }

  function ClusterCount(b: BootSector): int
    requires b.sectorsPerCluster > 0
  {
    (TotalSectors(b) - SystemSectors(b)) / b.sectorsPerCluster
  }

  /** FAT32 asks for an FSInfo sector next to the boot sector. */
  predicate WantsInfo(b: BootSector) {
    b.sectorsPerCluster > 0 && ClusterCount(b) > 0 && SubType(ClusterCount(b)) == Some(Fat32) && b.fsInfo32 == 1
  }

  /** What the mount does not check: the sector numbers fit 32 bits, and an FSInfo sector it is going to
      maintain is not the first FAT sector. */
  predicate WellLaid(b: BootSector, bsect: u32, infoReadable: bool) {
    && b.sectorsPerCluster > 0
    && TrueEnd(b, bsect) <= 0x1_0000_0000
    && !(WantsInfo(b) && infoReadable && b.reserved == 1)
  }

  /** An accepted volume is well laid out exactly when those checks would have passed. */
  lemma MountedIsValidIff(b: BootSector, bsect: u32, infoReadable: bool)
    requires MountFat(b, bsect, infoReadable).Some?
    ensures MountFat(b, bsect, infoReadable).value.Valid() <==> WellLaid(b, bsect, infoReadable)
    ensures WellLaid(b, bsect, infoReadable) ==> MountFat(b, bsect, infoReadable).value.End() == TrueEnd(b, bsect)
  {
    hide MountFat, SystemSectors, FatSize, TotalSectors, Wrap32, PowerOfTwo;
    var g := MountFat(b, bsect, infoReadable).value;
    AcceptedFields(b, g, bsect, infoReadable);
    AcceptedSize(b, g, bsect, infoReadable);
    var fat := FatSize(b) * b.numFats;
    SumIsExact(bsect, b.reserved, fat, b.rootEntries / 16);
    ClusterSpan(g.csize, 0, g.nFatEnt - 2);
    var span := g.csize * (g.nFatEnt - 2);
    assert TrueEnd(b, bsect) == bsect + b.reserved + fat + b.rootEntries / 16 + span;
    assert g.End() == g.dataBase + span;
  }

  /** An unreadable FSInfo sector is only not maintained. */
  lemma InfoIsOptional(b: BootSector, bsect: u32)
    ensures MountFat(b, bsect, false) ==
      if MountFat(b, bsect, true).None? then None else Some(MountFat(b, bsect, true).value.(fsInfo := false))
  {
    hide SystemSectors, FatSize, TotalSectors, Wrap32, NeededFatBytes;
  }

  lemma AcceptedFields(b: BootSector, g: Geometry, bsect: u32, infoReadable: bool)
    requires MountFat(b, bsect, infoReadable) == Some(g)
    ensures b.reserved > 0 && 0 <= FatSize(b) * b.numFats < 0x2_0000_0000
    ensures g.csize == b.sectorsPerCluster && g.nFats == b.numFats && g.FatSectors() == FatSize(b) * b.numFats
    ensures g.nFats == 1 || g.nFats == 2
    ensures g.volBase == bsect && g.fatBase == Wrap32(bsect + b.reserved)
    ensures g.nRootDir == b.rootEntries && (g.fsType != Fat32 ==> g.nRootDir > 0)
    ensures g.dataBase == Wrap32(bsect + Wrap32(b.reserved + Wrap32(FatSize(b) * b.numFats) + b.rootEntries / 16))
    ensures g.fsType != Fat32 ==> g.dirBase == Wrap32(g.fatBase + Wrap32(FatSize(b) * b.numFats))
    ensures g.fsInfo <==> WantsInfo(b) && infoReadable
    ensures g.fsInfo ==> g.fsType == Fat32
  {
  }

  /** The chain of 32-bit additions gives an ordered layout only if none of them wrapped. */
  lemma SumIsExact(bsect: u32, reserved: u16, fat: nat, root: nat)
    requires reserved > 0 && fat < 0x2_0000_0000 && root < 0x1000
    ensures var fatBase := Wrap32(bsect + reserved);
      var dataBase := Wrap32(bsect + Wrap32(reserved + Wrap32(fat) + root));
      var fits := bsect + reserved + fat + root < 0x1_0000_0000;
      && (bsect < fatBase && fatBase + fat + root == dataBase <==> fits)
      && (fits ==>
            fatBase == bsect + reserved && dataBase == fatBase + fat + root &&
            Wrap32(fatBase + Wrap32(fat)) == fatBase + fat)
  {
    hide Wrap32;
    var f := Wrap32(fat);
    var s := Wrap32(reserved + f + root);
    WrapCases(bsect + reserved);
    WrapCases(fat);
    WrapCases(reserved + f + root);
    WrapCases(bsect + s);
    WrapCases(Wrap32(bsect + reserved) + f);
  }

  lemma WrapCases(x: nat)
    requires x < 0x3_0000_0000
    ensures Wrap32(x) ==
      if x < 0x1_0000_0000 then x else if x < 0x2_0000_0000 then x - 0x1_0000_0000 else x - 0x2_0000_0000
  {
  }

  lemma AcceptedSize(b: BootSector, g: Geometry, bsect: u32, infoReadable: bool)
    requires MountFat(b, bsect, infoReadable) == Some(g)
    ensures 3 <= g.nFatEnt <= g.MaxClusters() + 2
    ensures g.EntryBytes() <= g.fsize * SECTOR_SIZE
    ensures g.nFatEnt - 2 == (TotalSectors(b) - SystemSectors(b)) / b.sectorsPerCluster
    ensures PowerOfTwo(g.csize)
  {
    var nclst := (TotalSectors(b) - SystemSectors(b)) / b.sectorsPerCluster;
    assert nclst > 0 by { DivisionIsNat(TotalSectors(b) - SystemSectors(b), b.sectorsPerCluster); }
    NeededIsExact(g, nclst + 2);
  }

  lemma DivisionIsNat(x: nat, d: int)
    requires d > 0
    ensures x / d >= 0
  {
  }

  lemma NeededIsExact(g: Geometry, n: nat)
    requires n == g.nFatEnt <= g.MaxClusters() + 2
    ensures NeededFatBytes(g.fsType, n) == g.EntryBytes() <= 0x4000_0000
    ensures g.fsize >= Wrap32(NeededFatBytes(g.fsType, n) + 511) / SECTOR_SIZE <==>
      g.EntryBytes() <= g.fsize * SECTOR_SIZE
  {
    hide Wrap32;
    match g.fsType {
      case Fat12 =>
        WrapSmall(n * 3);
        WrapSmall(n * 3 / 2 + n % 2);
      case Fat16 => WrapSmall(n * 2);
      case Fat32 => WrapSmall(n * 4);
    }
    RoundsUp(g.fsize, g.EntryBytes());
  }

  lemma RoundsUp(sectors: nat, bytes: nat)
    requires bytes <= 0x4000_0000
    ensures sectors >= Wrap32(bytes + 511) / SECTOR_SIZE <==> bytes <= sectors * SECTOR_SIZE
  {
    hide Wrap32;
    WrapSmall(bytes + 511);
  }

  /** A layout a mount accepts: sound, with the root directory its sub-type asks for, of 32 bytes for each entry
      between the FAT copies and the clusters, and the sub-type its cluster count asks for (section "FAT Type
      Determination" of the FAT specification, with the limits of the driver). */
  ghost predicate Describable(g: Geometry) {
    && g.Valid() && g.nRootDir % 16 == 0 && (g.fsType == Fat32 ==> g.nRootDir == 0)
    && (g.fsType != Fat32 ==> g.dirBase == g.fatBase + g.nFats * g.fsize)
    && SECTOR_SIZE * (g.dataBase - g.fatBase - g.nFats * g.fsize) == 32 * g.nRootDir
    && match g.fsType
       case Fat12 => g.nFatEnt - 2 <= 4085
       case Fat16 => 4085 < g.nFatEnt - 2 <= 65525
       case Fat32 => 65525 < g.nFatEnt - 2 <= 268435445
  }

  /** The fields of a boot sector stand for the layout. The 32-bit FAT size and sector count are used where the
      16-bit ones are 0; sectors behind the last whole cluster are not used. */
  ghost predicate StandsFor(b: BootSector, g: Geometry) {
    && b.bytesPerSector == SECTOR_SIZE && b.numFats == g.nFats && b.sectorsPerCluster == g.csize
    && b.reserved == g.fatBase - g.volBase && b.rootEntries == g.nRootDir
    && (if b.fatSize16 != 0 then b.fatSize16 == g.fsize else b.fatSize32 == g.fsize)
    && (var total: int := if b.totalSectors16 != 0 then b.totalSectors16 as int else b.totalSectors32 as int;
        g.End() - g.volBase <= total < g.End() - g.volBase + g.csize)
    && (g.fsType == Fat32 ==> b.version32 == 0 && b.rootCluster32 == g.dirBase)
  }

  /** The bytes of a sector describe the layout, each field at its place in the sector. */
  ghost predicate Describes(s: Sector, g: Geometry) {
    && Number(s[11..13]) == SECTOR_SIZE && s[16] as int == g.nFats && s[13] as int == g.csize
    && Number(s[14..16]) == g.fatBase - g.volBase && Number(s[17..19]) == g.nRootDir
    && (if Number(s[22..24]) != 0 then Number(s[22..24]) == g.fsize else Number(s[36..40]) == g.fsize)
    && (var total := if Number(s[19..21]) != 0 then Number(s[19..21]) else Number(s[32..36]);
        g.End() - g.volBase <= total < g.End() - g.volBase + g.csize)
    && (g.fsType == Fat32 ==> Number(s[42..44]) == 0 && Number(s[44..48]) == g.dirBase)
  }

  lemma FieldsOfBytes(s: Sector, g: Geometry)
    ensures Describes(s, g) <==> StandsFor(ReadBootSector(s), g)
    ensures ReadBootSector(s).fsInfo32 == Number(s[48..50])
  {
    hide Number, LdWord, LdDword, Geometry.End;
    LoadsNumber(s, 11);
    LoadsNumber(s, 14);
    LoadsNumber(s, 17);
    LoadsNumber(s, 19);
    LoadsNumber(s, 22);
    LoadsNumber(s, 32);
    LoadsNumber(s, 36);
    LoadsNumber(s, 42);
    LoadsNumber(s, 44);
    LoadsNumber(s, 48);
  }

  /** The layouts a mount takes from a sector are exactly those its bytes describe; FSInfo is maintained when a
      FAT32 volume asks for it and its sector is readable. */
  lemma MountsWhatIsDescribed(s: Sector, g: Geometry, infoReadable: bool)
    requires g.volBase < 0x1_0000_0000
    ensures MountFat(ReadBootSector(s), g.volBase, infoReadable) == Some(g) && g.Valid() <==>
      && Describable(g) && Describes(s, g)
      && (g.fsInfo <==> g.fsType == Fat32 && Number(s[48..50]) == 1 && infoReadable)
  {
    hide Describes, Number, MountFat, Describable;
    FieldsOfBytes(s, g);
    var b := ReadBootSector(s);
    hide ReadBootSector;
    if MountFat(b, g.volBase, infoReadable) == Some(g) && g.Valid() { MountedStandsFor(b, g, infoReadable); }
    if Describable(g) && StandsFor(b, g) && (g.fsInfo <==> g.fsType == Fat32 && b.fsInfo32 == 1 && infoReadable) {
      StandsForMounts(b, g, infoReadable);
    }
  }

  lemma MountedStandsFor(b: BootSector, g: Geometry, infoReadable: bool)
    requires g.volBase < 0x1_0000_0000 && g.Valid() && MountFat(b, g.volBase, infoReadable) == Some(g)
    ensures Describable(g) && StandsFor(b, g)
    ensures g.fsInfo <==> g.fsType == Fat32 && b.fsInfo32 == 1 && infoReadable
  {
    hide MountFat, PowerOfTwo, Wrap32, SystemSectors, Geometry.Valid;
    AcceptedTests(b, g, infoReadable);
    AcceptedFields(b, g, g.volBase, infoReadable);
    AcceptedSize(b, g, g.volBase, infoReadable);
    NothingWrapped(b, g);
    RootRegion(g);
    WholeClusters(TotalSectors(b) - SystemSectors(b), g.csize);
  }

  /** In a sound layout none of the sums wrapped. */
  lemma NothingWrapped(b: BootSector, g: Geometry)
    requires g.Valid() && g.volBase < 0x1_0000_0000 && b.reserved > 0 && 0 <= FatSize(b) * b.numFats < 0x2_0000_0000
    requires g.nRootDir == b.rootEntries && g.FatSectors() == FatSize(b) * b.numFats
    requires g.fatBase == Wrap32(g.volBase + b.reserved)
    requires g.dataBase == Wrap32(g.volBase + Wrap32(b.reserved + Wrap32(FatSize(b) * b.numFats) + b.rootEntries / 16))
    ensures g.fatBase - g.volBase == b.reserved && SystemSectors(b) == g.dataBase - g.volBase
  {
    hide PowerOfTwo, Wrap32, FatSize, TotalSectors, SystemSectors;
    SumIsExact(g.volBase, b.reserved, FatSize(b) * b.numFats, b.rootEntries / 16);
    SystemIsExact(b, FatSize(b) * b.numFats);
  }

  lemma RootRegion(g: Geometry)
    requires g.Valid() && g.nRootDir % 16 == 0
    ensures g.fsType != Fat32 ==> g.dirBase == g.fatBase + g.nFats * g.fsize
    ensures SECTOR_SIZE * (g.dataBase - g.fatBase - g.nFats * g.fsize) == 32 * g.nRootDir
  {
  }

  /** What the single tests of an accepted mount say. */
  lemma AcceptedTests(b: BootSector, g: Geometry, infoReadable: bool)
    requires g.volBase < 0x1_0000_0000 && MountFat(b, g.volBase, infoReadable) == Some(g)
    ensures b.bytesPerSector == SECTOR_SIZE && b.rootEntries % 16 == 0 && SystemSectors(b) <= TotalSectors(b)
    ensures g.fsize == FatSize(b) && SubType(g.nFatEnt - 2) == Some(g.fsType)
    ensures g.fsType == Fat32 ==> b.version32 == 0 && b.rootEntries == 0 && b.rootCluster32 == g.dirBase
    ensures g.fsInfo <==> g.fsType == Fat32 && b.fsInfo32 == 1 && infoReadable
  {
    hide SystemSectors, FatSize, TotalSectors, Wrap32, NeededFatBytes, PowerOfTwo;
  }

  lemma SystemIsExact(b: BootSector, fat: nat)
    requires fat == FatSize(b) * b.numFats && b.reserved + fat + b.rootEntries / 16 < 0x1_0000_0000
    ensures SystemSectors(b) == b.reserved + fat + b.rootEntries / 16
    ensures Wrap32(fat) == fat
  {
    hide Wrap32;
    WrapSmall(fat);
    WrapSmall(b.reserved + fat + b.rootEntries / 16);
  }

  lemma WholeClusters(x: nat, csize: int)
    requires csize > 0
    ensures csize * (x / csize) <= x < csize * (x / csize) + csize
  {
  }

  /** Every boot sector that stands for an acceptable layout is mounted as that layout. */
  lemma StandsForMounts(b: BootSector, g: Geometry, infoReadable: bool)
    requires g.volBase < 0x1_0000_0000 && Describable(g) && StandsFor(b, g)
    requires g.fsInfo <==> g.fsType == Fat32 && b.fsInfo32 == 1 && infoReadable
    ensures g.Valid() && MountFat(b, g.volBase, infoReadable) == Some(g)
  {
    hide MountFat, SystemSectors, NeededFatBytes, Wrap32, PowerOfTwo;
    ClusterSpan(g.csize, 0, g.nFatEnt - 2);
    assert FatSize(b) == g.fsize && g.fsize * g.nFats == g.FatSectors();
    NeededIsExact(g, g.nFatEnt);
    SystemIsExact(b, g.FatSectors());
    ClustersOf(TotalSectors(b) - SystemSectors(b), g.csize, g.nFatEnt - 2);
    WrapSmall(g.fatBase);
    WrapSmall(g.dataBase);
    if g.fsType != Fat32 { WrapSmall(g.fatBase + g.FatSectors()); }
    MountSteps(b, g, infoReadable);
  }

  lemma ClustersOf(x: nat, csize: int, n: nat)
    requires PowerOfTwo(csize) && csize * n <= x < csize * n + csize
    ensures x / csize == n
  {
    DivisionOfSpan(csize, n, x - csize * n);
  }

  lemma MountSteps(b: BootSector, g: Geometry, infoReadable: bool)
    requires Describable(g) && StandsFor(b, g) && g.volBase < 0x1_0000_0000
    requires g.fsInfo <==> g.fsType == Fat32 && b.fsInfo32 == 1 && infoReadable
    requires SystemSectors(b) == g.dataBase - g.volBase <= TotalSectors(b)
    requires FatSize(b) == g.fsize && Wrap32(g.fsize * g.nFats) == g.FatSectors()
    requires (TotalSectors(b) - SystemSectors(b)) / g.csize == g.nFatEnt - 2
    requires g.fsize >= Wrap32(NeededFatBytes(g.fsType, g.nFatEnt) + 511) / SECTOR_SIZE
    requires Wrap32(g.fatBase) == g.fatBase && Wrap32(g.dataBase) == g.dataBase
    requires g.fsType != Fat32 ==> Wrap32(g.fatBase + g.FatSectors()) == g.fatBase + g.FatSectors()
    ensures MountFat(b, g.volBase, infoReadable) == Some(g)
  {
    hide Wrap32, SystemSectors, NeededFatBytes, TotalSectors, FatSize;
  }

  lemma WrapSmall(x: int)
    requires 0 <= x < 0x1_0000_0000
    ensures Wrap32(x) == x
  {
  }

  /** Every such layout whose numbers fit the boot sector is described by one, so it can be mounted. */
  lemma DescribedMounts(g: Geometry)
    requires Describable(g) && g.volBase < 0x1_0000_0000
    requires g.fatBase - g.volBase < 0x1_0000 && g.nRootDir < 0x1_0000 && g.fsize < 0x1_0000_0000
    requires g.End() - g.volBase < 0x1_0000_0000 && g.dirBase < 0x1_0000_0000
    ensures exists b: BootSector :: StandsFor(b, g) && MountFat(b, g.volBase, true) == Some(g)
  {
    ClusterSpan(g.csize, 0, g.nFatEnt - 2);
    var b := BootSector(SECTOR_SIZE, 0, g.fsize, g.nFats, g.csize, g.nRootDir, 0, g.End() - g.volBase,
                        g.fatBase - g.volBase, 0, if g.fsType == Fat32 then g.dirBase else 0,
                        if g.fsInfo then 1 else 0);
    StandsForMounts(b, g, true);
  }

  /** A volume whose FAT size times two wraps to a small number is accepted although its
      first FAT copy covers the data region. */
  lemma WrappedVolumeAccepted()
    ensures exists b: BootSector, bsect: u32 ::
      MountFat(b, bsect, false).Some? && !MountFat(b, bsect, false).value.Valid()
  {
    var b := BootSector(512, 0, 0x8000_0001, 2, 1, 16, 100, 0, 1, 0, 0, 0);
    assert SystemSectors(b) == 4;
    var g := MountFat(b, 0, false);
    assert g.Some?;
    assert g.value.fatBase + g.value.FatSectors() > g.value.dataBase;
  }

  /** A FAT32 volume of 70000 clusters with one reserved sector that asks for an FSInfo sector. */
  function OneReserved(): BootSector {
    BootSector(512, 0, 600, 1, 1, 0, 0, 70601, 1, 0, 2, 1)
  }

  /** It is accepted, no number wraps, and its FSInfo sector is the first one of its FAT. */
  lemma OneReservedAccepted()
    ensures TrueEnd(OneReserved(), 0) <= 0x1_0000_0000 && !WellLaid(OneReserved(), 0, true)
    ensures var m := MountFat(OneReserved(), 0, true);
      m.Some? && m.value.fsInfo && m.value.InFat1(m.value.volBase + 1) && !m.value.Valid()
  {
    assert SystemSectors(OneReserved()) == 601 && ClusterCount(OneReserved()) == 70000;
  }

  /** The mark `0xFFFFFFFF`, cut to the entry width, is never a cluster number. */
  lemma EndMarkIsEnd(g: Geometry)
    requires g.Valid()
    ensures Mask(g, 0xFFFF_FFFF) >= g.nFatEnt
  {
  }

  /** The part of a value that an entry of this sub-type holds. */
  function Mask(g: Geometry, v: u32): u32 {
    match g.fsType
    case Fat12 => v % 0x1000
    case Fat16 => v % 0x1_0000
    case Fat32 => v % 0x1000_0000
  }
}
