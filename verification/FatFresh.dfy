/**
 Well-formed volumes to start from: one freshly formatted, one whose only file has a chain of two
 clusters, and one whose only file is empty.
 */
module FatFresh {
  import opened Machine
  import opened Wrappers
  import opened FatLayout
  import opened FatWalk
  import opened FatVolume
  import opened FatChains
  import opened FatFiles
  import opened FatRefinement
  import opened FatForeign
  import opened FatGuards

  /** Clusters of one sector; the table's sector is 1, the root directory is cluster 2 at sector 2. */
  function FreshGeometry(limit: UInt32): Geometry {
    Geometry(1, 2, 512, 2, limit)
  }

  function WithTableAndRoot(n: nat, table: Sector, root: Sector, at: nat): (disk: Disk)
    requires n >= FAT_ENTRIES
    ensures |disk| == n
  {
    var blank: Sector := Zeros(512);
    seq<Sector>(n, i => if i == 1 then table else if i == at then root else blank)
  }

  /** Only the root's cluster is allocated, and the directory is empty. */
  function FreshDisk(n: nat): Disk
    requires n >= FAT_ENTRIES
  {
    WithTableAndRoot(n, Allocated(Zeros(512), 2), Zeros(512), 2)
  }

  lemma FreshVolumesFit(n: nat, limit: UInt32)
    requires FAT_ENTRIES <= n <= TWO_TO_THE_32
    ensures var g := FreshGeometry(limit); g.Fits(n) && g.Root() == 2 && g.PerCluster() == 1
  {
    var g := FreshGeometry(limit);
    assert g.Plain(2) == 2 && g.Plain(127) == 127;
    SectorsDoNotWrap(g, n, 2, 2);
  }

  lemma NothingLinks(c: nat)
    requires c < FAT_ENTRIES
    ensures FatLink(Zeros(512), c) == 0
  {
  }

  lemma NothingEntered(i: nat)
    requires i < DIR_ENTRIES
    ensures IsUnused(Zeros(512), i)
  {
  }

  lemma FreshVolumesAreWellFormed(n: nat, limit: UInt32)
    requires FAT_ENTRIES <= n <= TWO_TO_THE_32
    ensures var g, d := FreshGeometry(limit), FreshDisk(n);
            && WellFormed(g, d) && |FreeClusters(Fat(g, d))| != 0
            && forall i: nat :: i < DIR_ENTRIES ==> Slots(g, d)[i] == Empty
  {
    var g, d := FreshGeometry(limit), FreshDisk(n);
    FreshVolumesFit(n, limit);
    assert Fat(g, d) == Allocated(Zeros(512), 2) && Dir(g, d) == Zeros(512);
    AllocatingChangesOneLink(Zeros(512), 2);
    NothingLinks(3);
    assert 3 in FreeClusters(Fat(g, d));
    forall i: nat | i < DIR_ENTRIES ensures IsUnused(Dir(g, d), i) && ClustersOf(g, d, i) == [] {
      NothingEntered(i);
    }
    forall i: nat | i < DIR_ENTRIES ensures Slots(g, d)[i] == Empty {
      assert Slots(g, d)[i] == SlotOf(g, d, i);
    }
  }

  /** A file of 512 bytes fills its cluster; what is then appended to it takes the place of what it held. */
  lemma FullFilesExist(
    n: nat, limit: UInt32, beyond: Links, name: Bytes, bytes: Bytes, data: Bytes, slot: nat, full: Disk)
    requires FAT_ENTRIES <= n <= TWO_TO_THE_32 && IsVisible(name) && |bytes| == 512
    requires data != [] && |data| < TWO_TO_THE_32 && slot == 0
    requires full == Apply(FreshDisk(n), WriteTrace(FreshGeometry(limit), FreshDisk(n), name, bytes))
    ensures var g := FreshGeometry(limit);
            && WellFormed(g, full) && Slots(g, full)[slot] == File(name, bytes) && !CanAppend(Abs(g, full), name, data)
            && var d, k := Apply(full, AppendTrace(g, full, beyond, name, data)), Least(|data|, 512);
               ReadText(g, d, beyond, name, 513) == Some(data[..k] + bytes[k..])
  {
    var g, d := FreshGeometry(limit), FreshDisk(n);
    FreshVolumesAreWellFormed(n, limit);
    WriteRefines(g, d, name, bytes);
    OneFullSector(g, full, slot, name, data, bytes);
    FullFilesAreReadBackOverwritten(g, full, beyond, name, data, slot, bytes);
  }

  // ----- a chain of two -----

  function Linking(fat: Sector, c: nat, to: UInt32): Sector
    requires c < FAT_ENTRIES
  {
    Patch(fat, 4 * c, Bytes32(to))
  }

  lemma LinkingChangesOneLink(fat: Sector, c: nat, to: UInt32, i: nat)
    requires c < FAT_ENTRIES && i < FAT_ENTRIES && to < LINK_MODULUS
    ensures FatLink(Linking(fat, c, to), i) == if i == c then to else FatLink(fat, i)
  {
    PatchedWord(fat, 4 * c, to);
    SmallRemainder(to);
  }

  lemma SmallRemainder(x: nat)
    requires x < LINK_MODULUS
    ensures x % LINK_MODULUS == x
  {
  }

  /** The file's clusters are 3, then 4. */
  function ChainTable(): Sector {
    Linking(Linking(Linking(Zeros(512), 2, END_OF_CHAIN), 3, 4), 4, END_OF_CHAIN)
  }

  function ChainDisk(n: nat, name: Bytes, size: UInt32): Disk
    requires n >= FAT_ENTRIES && |name| == 11
  {
    WithTableAndRoot(n, ChainTable(), WithEntry(Zeros(512), 0, name, 3, size), 2)
  }

  lemma ChainTableLinks()
    ensures FatLink(ChainTable(), 2) == END_OF_CHAIN
    ensures FatLink(ChainTable(), 3) == 4 && FatLink(ChainTable(), 4) == END_OF_CHAIN
  {
    var one := Linking(Zeros(512), 2, END_OF_CHAIN);
    var two := Linking(one, 3, 4);
    LinkingChangesOneLink(Zeros(512), 2, END_OF_CHAIN, 2);
    LinkingChangesOneLink(one, 3, 4, 2);
    LinkingChangesOneLink(one, 3, 4, 3);
    LinkingChangesOneLink(two, 4, END_OF_CHAIN, 2);
    LinkingChangesOneLink(two, 4, END_OF_CHAIN, 3);
    LinkingChangesOneLink(two, 4, END_OF_CHAIN, 4);
  }

  lemma TwoLinks(fat: Sector, first: UInt32, second: UInt32, fuel: nat)
    requires 2 <= first < FAT_ENTRIES && 2 <= second < FAT_ENTRIES && fuel >= 2
    requires FatLink(fat, first) == second && FatLink(fat, second) == END_OF_CHAIN
    ensures ChainFrom(fat, first, fuel) == Some([first, second])
  {
    assert ChainFrom(fat, second, fuel - 1) == Some([second]);
    assert [first] + [second] == [first, second];
  }

  /** A volume whose file has two clusters is well formed, and has room for as long as the second is not full. */
  lemma ChainedVolumesAreWellFormed(n: nat, limit: UInt32, name: Bytes, size: UInt32, slot: nat)
    requires FAT_ENTRIES <= n <= TWO_TO_THE_32 && limit > 0 && IsVisible(name) && 512 < size <= 1024 && slot == 0
    ensures var g, d := FreshGeometry(limit), ChainDisk(n, name, size);
            && WellFormed(g, d) && ClustersOf(g, d, slot) == [3, 4]
            && Slots(g, d)[slot].File? && |Slots(g, d)[slot].bytes| == size
  {
    var g, d, cs := FreshGeometry(limit), ChainDisk(n, name, size), [3, 4];
    FreshVolumesFit(n, limit);
    assert Fat(g, d) == ChainTable() && Dir(g, d) == WithEntry(Zeros(512), slot, name, 3, size);
    ChainTableLinks();
    forall i: nat | i < DIR_ENTRIES ensures OnlyEntry(g, d, size, cs, slot, i) {
      ChainEntries(g, d, name, size, cs, slot, i);
    }
    TwoSectorsCover(g, |cs|, size);
    OneFileIsWellFormed(g, d, size, cs, slot);
  }

  lemma TwoSectorsCover(g: Geometry, n: nat, size: nat)
    requires g.PerCluster() == 1 && n == 2 && 512 < size <= 1024
    ensures Covers(g, n, size)
  {
    SpanIsAMultiple(g, n - 1, 512);
    SpanIsAMultiple(g, n, 512);
  }

  /** Entry `slot` is a file with these clusters, the others are unused. */
  ghost predicate OnlyEntry(g: Geometry, d: Disk, size: UInt32, cs: seq<UInt32>, slot: nat, i: nat)
    requires i < DIR_ENTRIES
  {
    var e := EntryAt(Dir(g, d), i);
    if i == slot then IsFile(e) && ClustersOf(g, d, i) == cs && SizeOf(e) == size
    else Unused(e) && ClustersOf(g, d, i) == []
  }

  lemma ChainEntries(g: Geometry, d: Disk, name: Bytes, size: UInt32, cs: seq<UInt32>, slot: nat, i: nat)
    requires g.maxValidClusters > 0 && IsVisible(name) && slot < DIR_ENTRIES && i < DIR_ENTRIES && cs == [3, 4]
    requires Fat(g, d) == ChainTable() && Dir(g, d) == WithEntry(Zeros(512), slot, name, 3, size)
    ensures OnlyEntry(g, d, size, cs, slot, i)
  {
    WithEntryAt(Zeros(512), slot, name, 3, size, i);
    if i == slot {
      ChainTableLinks();
      TwoLinks(ChainTable(), 3, 4, g.maxValidClusters + 1);
      NewEntriesAreFiles(name, 3, size);
    } else {
      NothingEntered(i);
    }
  }

  lemma OneFileIsWellFormed(g: Geometry, d: Disk, size: UInt32, cs: seq<UInt32>, slot: nat)
    requires g.Fits(|d|) && (g.rootCluster < FAT_ENTRIES ==> FatLink(Fat(g, d), g.rootCluster) != 0)
    requires slot == 0 && forall i: nat :: i < DIR_ENTRIES ==> OnlyEntry(g, d, size, cs, slot, i)
    requires cs != [] && g.rootCluster !in cs && Covers(g, |cs|, size)
    ensures WellFormed(g, d) && ClustersOf(g, d, slot) == cs
    ensures Slots(g, d)[slot].File? && |Slots(g, d)[slot].bytes| == size
  {
    forall i: nat | i < DIR_ENTRIES ensures EntryOk(g, EntryAt(Dir(g, d), i), ClustersOf(g, d, i)) {
      assert OnlyEntry(g, d, size, cs, slot, i);
    }
    forall i: nat, j: nat, x | i < j < DIR_ENTRIES && x in ClustersOf(g, d, i) ensures x !in ClustersOf(g, d, j) {
      assert OnlyEntry(g, d, size, cs, slot, j);
    }
    assert UnusedBehind(Dir(g, d)) by {
      forall i: nat, j: nat | i < j < DIR_ENTRIES && IsUnused(Dir(g, d), i) ensures IsUnused(Dir(g, d), j) {
        assert OnlyEntry(g, d, size, cs, slot, j);
      }
    }
    assert OnlyEntry(g, d, size, cs, slot, slot);
    assert Slots(g, d)[slot] == SlotOf(g, d, slot);
    FileInSlot(g, d, slot);
  }

  // ----- an empty file -----

  /** The same layout with the data area at sector `start`, behind the table at sector 1. */
  function GeometryAt(start: UInt32, limit: UInt32): Geometry {
    Geometry(1, start, 512, 2, limit)
  }

  /** The root directory is the first cluster of the data area; its only file has neither bytes nor clusters. */
  function EmptyFileDisk(n: nat, start: UInt32, name: Bytes): Disk
    requires n >= FAT_ENTRIES && |name| == 11
  {
    WithTableAndRoot(n, Allocated(Zeros(512), 2), WithEntry(Zeros(512), 0, name, 0, 0), start)
  }

  lemma GeometriesFit(n: nat, start: UInt32, limit: UInt32)
    requires FAT_ENTRIES < n <= TWO_TO_THE_32 && (start == 2 || start == 3)
    ensures var g := GeometryAt(start, limit);
            g.Fits(n) && g.Root() == start && g.PerCluster() == 1 && g.SectorOf(0) == start - 2
  {
    var g := GeometryAt(start, limit);
    assert g.Plain(2) == start && g.Plain(127) == start + 125;
    SectorsDoNotWrap(g, n, 2, 2);
    ClusterZeroIsBeforeTheData(g, n);
  }

  lemma EmptyFilesAreWellFormed(n: nat, start: UInt32, limit: UInt32, name: Bytes, slot: nat)
    requires FAT_ENTRIES < n <= TWO_TO_THE_32 && (start == 2 || start == 3) && IsVisible(name) && slot == 0
    ensures var g, d := GeometryAt(start, limit), EmptyFileDisk(n, start, name);
            && WellFormed(g, d) && Slots(g, d)[slot] == Foreign(NewEntry(name, 0, 0), [])
            && slot == FirstNamed(Slots(g, d), name, 0) && FatLink(Fat(g, d), 0) == 0
  {
    var g, d, e := GeometryAt(start, limit), EmptyFileDisk(n, start, name), NewEntry(name, 0, 0);
    GeometriesFit(n, start, limit);
    assert Fat(g, d) == Allocated(Zeros(512), 2) && Dir(g, d) == WithEntry(Zeros(512), slot, name, 0, 0);
    assert FatLink(Fat(g, d), 2) != 0 && FatLink(Fat(g, d), 0) == 0 by {
      AllocatingChangesOneLink(Zeros(512), 2);
      NothingLinks(0);
    }
    NewEmptyFiles(name, e);
    forall i: nat | i < DIR_ENTRIES ensures EmptyEntry(Dir(g, d), e, slot, i) {
      EmptyEntries(name, e, slot, i);
    }
    OneEmptyFile(g, d, e, slot);
    assert IsNamed(Foreign(e, []), name);
  }

  /** Such an entry is in use, owns nothing, and is no more than its name. */
  lemma {:induction false} NewEmptyFiles(name: Bytes, e: Entry)
    requires IsVisible(name) && e == NewEntry(name, 0, 0)
    ensures Live(e) && !Unused(e) && !Owns(e) && NameOf(e) == name
  {
    NewEntryReadsBack(name, 0, 0);
    assert NameOf(e)[0] == Mark(e);
  }

  predicate EmptyEntry(dir: Sector, e: Entry, slot: nat, i: nat)
    requires i < DIR_ENTRIES
  {
    if i == slot then EntryAt(dir, i) == e else IsUnused(dir, i)
  }

  lemma {:induction false} EmptyEntries(name: Bytes, e: Entry, slot: nat, i: nat)
    requires |name| == 11 && e == NewEntry(name, 0, 0) && slot < DIR_ENTRIES && i < DIR_ENTRIES
    ensures EmptyEntry(WithEntry(Zeros(512), slot, name, 0, 0), e, slot, i)
  {
    WithEntryAt(Zeros(512), slot, name, 0, 0, i);
    NothingEntered(i);
  }

  lemma {:induction false} OneEmptyFile(g: Geometry, d: Disk, e: Entry, slot: nat)
    requires g.Fits(|d|) && (g.rootCluster < FAT_ENTRIES ==> FatLink(Fat(g, d), g.rootCluster) != 0)
    requires slot == 0 && Live(e) && !Unused(e) && !Owns(e)
    requires forall i: nat :: i < DIR_ENTRIES ==> EmptyEntry(Dir(g, d), e, slot, i)
    ensures WellFormed(g, d) && Slots(g, d)[slot] == Foreign(e, [])
  {
    forall i: nat | i < DIR_ENTRIES ensures !Owns(EntryAt(Dir(g, d), i)) && ClustersOf(g, d, i) == [] {
      assert EmptyEntry(Dir(g, d), e, slot, i);
    }
    assert UnusedBehind(Dir(g, d)) by {
      forall j: nat | 0 < j < DIR_ENTRIES ensures IsUnused(Dir(g, d), j) {
        assert EmptyEntry(Dir(g, d), e, slot, j);
      }
    }
    assert EmptyEntry(Dir(g, d), e, slot, slot);
    assert Slots(g, d)[slot] == SlotOf(g, d, slot);
  }

  /**
   Whatever is appended to the empty file goes into sector `start` - 2: the boot sector, or the table,
   whose entries then are the text. The file is still not found.
   */
  lemma {:induction false} EmptyFilesGoAstray(
    n: nat, start: UInt32, limit: UInt32, beyond: Links, name: Bytes, data: Bytes, slot: nat, d: Disk, m: nat)
    requires FAT_ENTRIES < n <= TWO_TO_THE_32 && (start == 2 || start == 3) && IsVisible(name) && slot == 0
    requires data != [] && |data| < TWO_TO_THE_32 && m == Fitting(0, data)
    requires var g, disk := GeometryAt(start, limit), EmptyFileDisk(n, start, name);
             d == Apply(disk, AppendTrace(g, disk, beyond, name, data))
    ensures var g := GeometryAt(start, limit);
            && SectorAt(d, start - 2)[..m] == data[..m]
            && (start == 3 ==> forall c: nat :: 4 * c + 4 <= m ==> FatEntry(Fat(g, d), c) == Word32(data, 4 * c))
            && forall max: nat :: max >= 17 ==> ReadText(g, d, beyond, name, max) == Some(NOT_FOUND)
  {
    var g, disk := GeometryAt(start, limit), EmptyFileDisk(n, start, name);
    GeometriesFit(n, start, limit);
    EmptyFilesAreWellFormed(n, start, limit, name, slot);
    EmptyFilesGrowAstray(g, disk, beyond, name, data, slot, m, d);
    LyingAstray(g, disk, d, beyond, slot, name, m, data);
    if start == 3 {
      forall c: nat | 4 * c + 4 <= m ensures FatEntry(Fat(g, d), c) == Word32(data, 4 * c) {
        TextLandsOnTheTable(g, disk, d, beyond, slot, name, m, data, c);
      }
    }
  }

  lemma {:induction false} EmptyFilesGrowAstray(
    g: Geometry, disk: Disk, beyond: Links, name: Bytes, data: Bytes, slot: nat, m: nat, d: Disk)
    requires WellFormed(g, disk) && IsVisible(name) && IsRequest(name, data) && data != []
    requires slot == FirstNamed(Slots(g, disk), name, 0) < DIR_ENTRIES
    requires Slots(g, disk)[slot] == Foreign(NewEntry(name, 0, 0), []) && FatLink(Fat(g, disk), 0) == 0
    requires g.SectorOf(0) < |disk| && g.SectorOf(0) != g.Root() && m == Fitting(0, data)
    requires d == Apply(disk, AppendTrace(g, disk, beyond, name, data))
    ensures Astray(g, disk, d, beyond, slot, name, 0, m, data)
  {
    assert EntryCluster(Dir(g, disk), slot) == 0 && EntrySize(Dir(g, disk), slot) == 0 by {
      assert Slots(g, disk)[slot] == SlotOf(g, disk, slot);
      NewEntryReadsBack(name, 0, 0);
    }
    AppendsWithoutClustersGoAstray(g, disk, beyond, name, data, slot, 0, m, d);
  }

  lemma {:induction false} LyingAstray(
    g: Geometry, disk: Disk, d: Disk, beyond: Links, slot: nat, name: Bytes, m: nat, data: Bytes)
    requires slot < DIR_ENTRIES && m == Fitting(0, data) && Astray(g, disk, d, beyond, slot, name, 0, m, data)
    ensures SectorAt(d, g.SectorOf(0))[..m] == data[..m]
    ensures forall max: nat :: max >= 17 ==> ReadText(g, d, beyond, name, max) == Some(NOT_FOUND)
  {
    assert Lengthened(SectorAt(disk, g.SectorOf(0)), 0, data)[..m] == data[..m];
  }
}
