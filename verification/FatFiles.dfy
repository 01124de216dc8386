/**
 What a well-formed volume means: sixteen directory slots, each empty, a named file that owns a chain
 of clusters, or something foreign: a label, a long-name entry, a folder, a file without clusters.
 */
module FatFiles {
  import opened Machine
  import opened Wrappers
  import opened FatLayout
  import opened FatVolume
  import opened FatChains

  /** A foreign entry is its 32 bytes and the contents of the chain it owns, if it owns one. */
  datatype Slot = Empty | File(name: Bytes, bytes: Bytes) | Foreign(entry: Entry, contents: Bytes)

  /** Directory slots in order, how many clusters can still be allocated, and how large they are. */
  datatype State = State(slots: seq<Slot>, free: nat, clusterSize: nat)

  /** Whether the searches, which look at the eleven bytes alone, take the slot for that name. */
  predicate IsNamed(slot: Slot, name: Bytes) {
    match slot
    case Empty => false
    case File(n, _) => n == name
    case Foreign(e, _) => NameOf(e) == name
  }

  // ----- what an entry is -----

  /** Volume labels and long-name entries carry this attribute; their cluster field means nothing. */
  predicate IsLabel(e: Entry) {
    AttributesOf(e) / 8 % 2 == 1
  }

  predicate IsFolder(e: Entry) {
    AttributesOf(e) / 16 % 2 == 1
  }

  predicate Owns(e: Entry) {
    Live(e) && !IsLabel(e) && ClusterOf(e) != 0
  }

  predicate IsFile(e: Entry) {
    Owns(e) && !IsFolder(e)
  }

  /** The chain an entry owns; empty when it owns none, or a broken one. */
  function Clusters(g: Geometry, fat: Sector, e: Entry): seq<UInt32> {
    var chain := ChainFrom(fat, ClusterOf(e), g.maxValidClusters + 1);
    if Owns(e) && chain.Some? then chain.value else []
  }

  function ClustersOf(g: Geometry, disk: Disk, i: nat): seq<UInt32>
    requires i < DIR_ENTRIES
  {
    Clusters(g, Fat(g, disk), EntryAt(Dir(g, disk), i))
  }

  function SlotFor(e: Entry, contents: Bytes): Slot {
    if !Live(e) then Empty
    else if IsFile(e) then File(NameOf(e), Cut(contents, SizeOf(e)))
    else Foreign(e, contents)
  }

  function SlotOf(g: Geometry, disk: Disk, i: nat): Slot
    requires i < DIR_ENTRIES
  {
    SlotFor(EntryAt(Dir(g, disk), i), Joined(g, disk, ClustersOf(g, disk, i)))
  }

  function Slots(g: Geometry, disk: Disk): (s: seq<Slot>)
    ensures |s| == DIR_ENTRIES && forall i: nat :: i < DIR_ENTRIES ==> s[i] == SlotOf(g, disk, i)
  {
    seq(DIR_ENTRIES, i requires 0 <= i < DIR_ENTRIES => SlotOf(g, disk, i))
  }

  function Abs(g: Geometry, disk: Disk): State {
    State(Slots(g, disk), |FreeClusters(Fat(g, disk))|, 512 * g.PerCluster())
  }

  // ----- well-formed volumes -----

  /** `n` clusters are just enough for `size` bytes; one is enough for none. */
  predicate Covers(g: Geometry, n: nat, size: nat) {
    n > 0 && size <= Span(g, n) && (n == 1 || Span(g, n - 1) < size)
  }

  /** What an entry owns is a whole chain without the root's cluster, and just long enough for a file. */
  predicate EntryOk(g: Geometry, e: Entry, cs: seq<UInt32>) {
    Owns(e) ==> cs != [] && g.rootCluster !in cs && (IsFile(e) ==> Covers(g, |cs|, SizeOf(e)))
  }

  /** No two entries share a cluster. */
  ghost predicate OwnersApart(g: Geometry, disk: Disk) {
    forall i: nat, j: nat, x :: i < j < DIR_ENTRIES && x in ClustersOf(g, disk, i) ==> x !in ClustersOf(g, disk, j)
  }

  /** Behind the first unused entry all are unused. */
  ghost predicate UnusedBehind(dir: Sector) {
    forall i: nat, j: nat :: i < j < DIR_ENTRIES && IsUnused(dir, i) ==> IsUnused(dir, j)
  }

  /** Every entry that owns clusters owns a chain of its own, and the root's cluster is not free. */
  ghost predicate WellFormed(g: Geometry, disk: Disk) {
    && g.Fits(|disk|)
    && (g.rootCluster < FAT_ENTRIES ==> FatLink(Fat(g, disk), g.rootCluster) != 0)
    && (forall i: nat :: i < DIR_ENTRIES ==> EntryOk(g, EntryAt(Dir(g, disk), i), ClustersOf(g, disk, i)))
    && OwnersApart(g, disk) && UnusedBehind(Dir(g, disk))
  }

  ghost predicate IsOwned(g: Geometry, disk: Disk, x: nat) {
    exists i: nat :: i < DIR_ENTRIES && x in ClustersOf(g, disk, i)
  }

  /** Allocated, but neither the root's nor any entry's. */
  ghost function Orphans(g: Geometry, disk: Disk): set<nat> {
    set c: nat | 2 <= c < FAT_ENTRIES && FatLink(Fat(g, disk), c) != 0 && c != g.rootCluster && !IsOwned(g, disk, c)
  }

  /** A cluster an operation may fill: allocated as a chain of its own, not the root's, and no entry's. */
  ghost predicate Reserved(g: Geometry, disk: Disk, c: nat) {
    && 2 <= c < FAT_ENTRIES && c != g.rootCluster && !IsOwned(g, disk, c)
    && FatLink(Fat(g, disk), c) == END_OF_CHAIN
  }

  /** A name that a directory entry can carry without being taken for unused or deleted. */
  predicate IsVisible(name: Bytes) {
    |name| == 11 && name[0] != 0 && name[0] != DELETED
  }

  // ----- what well-formed volumes have -----

  lemma RootIsElsewhere(g: Geometry, disk: Disk)
    requires WellFormed(g, disk)
    ensures g.Root() < |disk| && g.fatStart < |disk| && g.Root() != g.fatStart && g.PerCluster() > 0
  {
    RootIsOnDisk(g, |disk|);
  }

  /** The clusters of an entry: allocated, clear of table and root, and the last is where the walk ends. */
  lemma OwnedClusters(g: Geometry, disk: Disk, i: nat, x: UInt32)
    requires WellFormed(g, disk) && i < DIR_ENTRIES && x in ClustersOf(g, disk, i)
    ensures 2 <= x < FAT_ENTRIES && FatLink(Fat(g, disk), x) != 0 && x != g.rootCluster
    ensures g.SectorOf(x) < |disk| && !InCluster(g, x, g.Root()) && !InCluster(g, x, g.fatStart)
  {
    var e := EntryAt(Dir(g, disk), i);
    ChainsAreLinked(Fat(g, disk), ClusterOf(e), g.maxValidClusters + 1);
    assert EntryOk(g, e, ClustersOf(g, disk, i));
    ClustersAreApart(g, |disk|, x, g.rootCluster);
  }

  lemma ReservedSector(g: Geometry, disk: Disk, c: nat)
    requires g.Fits(|disk|) && Reserved(g, disk, c)
    ensures g.SectorOf(c) < |disk| && g.SectorOf(c) != g.Root() && g.SectorOf(c) != g.fatStart
    ensures !InCluster(g, c, g.Root()) && !InCluster(g, c, g.fatStart)
  {
    ClustersAreApart(g, |disk|, c, g.rootCluster);
    ClusterRange(g, |disk|, c);
    RootIsOnDisk(g, |disk|);
  }

  /** No cluster of an entry holds the first sector of a cluster that is not that entry's. */
  lemma OthersAreElsewhere(g: Geometry, disk: Disk, i: nat, c: nat)
    requires WellFormed(g, disk) && i < DIR_ENTRIES && 2 <= c < FAT_ENTRIES && c !in ClustersOf(g, disk, i)
    ensures forall x :: x in ClustersOf(g, disk, i) ==> !InCluster(g, x, g.SectorOf(c))
  {
    forall x | x in ClustersOf(g, disk, i) ensures !InCluster(g, x, g.SectorOf(c)) {
      OwnedClusters(g, disk, i, x);
      ClustersAreApart(g, |disk|, x, c);
    }
  }

  /** A sector that is in none of its clusters does not show in an entry. */
  lemma SlotUnchanged(g: Geometry, disk: Disk, i: nat, lba: nat, content: Sector)
    requires i < DIR_ENTRIES && lba != g.Root() && lba != g.fatStart
    requires forall x :: x in ClustersOf(g, disk, i) ==> !InCluster(g, x, lba)
    ensures var d := Put(disk, lba, content);
            ClustersOf(g, d, i) == ClustersOf(g, disk, i) && SlotOf(g, d, i) == SlotOf(g, disk, i)
  {
    JoinedUnchanged(g, disk, ClustersOf(g, disk, i), lba, content);
  }

  lemma SlotsAreEqual(g: Geometry, disk: Disk, other: Disk)
    requires forall i: nat :: i < DIR_ENTRIES ==> SlotOf(g, other, i) == SlotOf(g, disk, i)
    ensures Slots(g, other) == Slots(g, disk)
  {
  }

  lemma OneSlotDiffers(g: Geometry, disk: Disk, other: Disk, slot: nat, s: Slot)
    requires slot < DIR_ENTRIES && SlotOf(g, other, slot) == s
    requires forall i: nat :: i < DIR_ENTRIES && i != slot ==> SlotOf(g, other, i) == SlotOf(g, disk, i)
    ensures Slots(g, other) == Slots(g, disk)[slot := s]
  {
  }

  /** The form of a volume is the form of its table and of what its entries own. */
  lemma SameForm(g: Geometry, disk: Disk, d: Disk)
    requires WellFormed(g, disk) && |d| == |disk| && Dir(g, d) == Dir(g, disk)
    requires g.rootCluster < FAT_ENTRIES ==> FatLink(Fat(g, d), g.rootCluster) != 0
    requires forall i: nat :: i < DIR_ENTRIES ==> ClustersOf(g, d, i) == ClustersOf(g, disk, i)
    ensures WellFormed(g, d)
    ensures forall x :: IsOwned(g, d, x) <==> IsOwned(g, disk, x)
  {
    forall i: nat | i < DIR_ENTRIES ensures EntryOk(g, EntryAt(Dir(g, d), i), ClustersOf(g, d, i)) {
      assert EntryOk(g, EntryAt(Dir(g, disk), i), ClustersOf(g, disk, i));
    }
    assert OwnersApart(g, d) by {
      forall i: nat, j: nat, x | i < j < DIR_ENTRIES && x in ClustersOf(g, d, i) ensures x !in ClustersOf(g, d, j) {
        assert x in ClustersOf(g, disk, i) && x !in ClustersOf(g, disk, j);
      }
    }
    forall x ensures IsOwned(g, d, x) <==> IsOwned(g, disk, x) {
      if IsOwned(g, d, x) {
        var i: nat :| i < DIR_ENTRIES && x in ClustersOf(g, d, i);
        assert x in ClustersOf(g, disk, i);
      }
      if IsOwned(g, disk, x) {
        var i: nat :| i < DIR_ENTRIES && x in ClustersOf(g, disk, i);
        assert x in ClustersOf(g, d, i);
      }
    }
  }
}
