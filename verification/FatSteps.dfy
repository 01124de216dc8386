/**
 What each single sector write of an operation does to a well-formed volume. Every step keeps the
 volume well formed and, but for the step that makes the operation visible, every slot.
 */
module FatSteps {
  import opened Machine
  import opened Wrappers
  import opened FatLayout
  import opened FatVolume
  import opened FatChains
  import opened FatFiles

  // ----- writing a new file -----

  /** A free cluster is in no chain, and marking it changes none. */
  lemma AllocationKeepsChains(g: Geometry, disk: Disk, c: nat, i: nat)
    requires WellFormed(g, disk) && 2 <= c < FAT_ENTRIES && FatLink(Fat(g, disk), c) == 0 && i < DIR_ENTRIES
    ensures var d := Put(disk, g.fatStart, Allocated(Fat(g, disk), c));
            && Dir(g, d) == Dir(g, disk) && Fat(g, d) == Allocated(Fat(g, disk), c)
            && c !in ClustersOf(g, disk, i)
            && ClustersOf(g, d, i) == ClustersOf(g, disk, i) && SlotOf(g, d, i) == SlotOf(g, disk, i)
  {
    RootIsElsewhere(g, disk);
    var fat, e := Fat(g, disk), EntryAt(Dir(g, disk), i);
    var cs, nf := ClustersOf(g, disk, i), Allocated(fat, c);
    var content := nf;
    forall x | x in cs ensures x != c && !InCluster(g, x, g.fatStart) {
      OwnedClusters(g, disk, i, x);
    }
    assert Clusters(g, nf, e) == cs by {
      AllocatingChangesOneLink(fat, c);
      if Owns(e) {
        assert EntryOk(g, e, cs);
        ChainsAgree(fat, nf, ClusterOf(e), g.maxValidClusters + 1);
      }
    }
    JoinedUnchanged(g, disk, cs, g.fatStart, nf);
  }

  /** First write: a free cluster is marked as the end of a chain. */
  lemma AllocateStep(g: Geometry, disk: Disk, c: nat)
    requires WellFormed(g, disk) && 2 <= c < FAT_ENTRIES && FatLink(Fat(g, disk), c) == 0
    ensures var d := Put(disk, g.fatStart, Allocated(Fat(g, disk), c));
            && WellFormed(g, d) && Dir(g, d) == Dir(g, disk) && Reserved(g, d, c)
            && Slots(g, d) == Slots(g, disk)
            && FreeClusters(Fat(g, d)) == FreeClusters(Fat(g, disk)) - {c}
            && Orphans(g, d) == Orphans(g, disk) + {c}
  {
    RootIsElsewhere(g, disk);
    var d := Put(disk, g.fatStart, Allocated(Fat(g, disk), c));
    AllocatingChangesOneLink(Fat(g, disk), c);
    forall i: nat | i < DIR_ENTRIES
      ensures ClustersOf(g, d, i) == ClustersOf(g, disk, i) && SlotOf(g, d, i) == SlotOf(g, disk, i)
      ensures c !in ClustersOf(g, disk, i)
    {
      AllocationKeepsChains(g, disk, c, i);
    }
    SameForm(g, disk, d);
    SlotsAreEqual(g, disk, d);
    assert !IsOwned(g, disk, c);
  }

  /** A write into a sector that is neither the table's nor the root's and shows in no slot. */
  lemma HiddenStep(g: Geometry, disk: Disk, lba: nat, content: Sector)
    requires WellFormed(g, disk) && lba != g.Root() && lba != g.fatStart
    requires forall i: nat :: i < DIR_ENTRIES ==> SlotOf(g, Put(disk, lba, content), i) == SlotOf(g, disk, i)
    ensures var d := Put(disk, lba, content);
            && WellFormed(g, d) && Dir(g, d) == Dir(g, disk) && Fat(g, d) == Fat(g, disk)
            && Slots(g, d) == Slots(g, disk) && Orphans(g, d) == Orphans(g, disk)
            && (forall i: nat :: i < DIR_ENTRIES ==> ClustersOf(g, d, i) == ClustersOf(g, disk, i))
            && (forall x :: IsOwned(g, d, x) <==> IsOwned(g, disk, x))
  {
    var d := Put(disk, lba, content);
    SameForm(g, disk, d);
    SlotsAreEqual(g, disk, d);
  }

  /** Second write: the reserved cluster is filled. */
  lemma FillStep(g: Geometry, disk: Disk, c: nat, content: Sector)
    requires WellFormed(g, disk) && Reserved(g, disk, c)
    ensures var d := Put(disk, g.SectorOf(c), content);
            && WellFormed(g, d) && Dir(g, d) == Dir(g, disk) && Fat(g, d) == Fat(g, disk) && Reserved(g, d, c)
            && Slots(g, d) == Slots(g, disk) && Orphans(g, d) == Orphans(g, disk)
            && SectorAt(d, g.SectorOf(c)) == content
  {
    ReservedSector(g, disk, c);
    forall i: nat | i < DIR_ENTRIES ensures SlotOf(g, Put(disk, g.SectorOf(c), content), i) == SlotOf(g, disk, i) {
      assert c !in ClustersOf(g, disk, i);
      OthersAreElsewhere(g, disk, i, c);
      SlotUnchanged(g, disk, i, g.SectorOf(c), content);
    }
    HiddenStep(g, disk, g.SectorOf(c), content);
  }

  /** `nd` is `dir` but for one entry, which is now `e`. */
  ghost predicate Replaced(dir: Sector, nd: Sector, slot: nat, e: Entry) {
    && slot < DIR_ENTRIES && EntryAt(nd, slot) == e
    && forall j: nat :: j < DIR_ENTRIES && j != slot ==> EntryAt(nd, j) == EntryAt(dir, j)
  }

  /** Writing the directory leaves the table, and everything about the other entries. */
  lemma OthersAreKept(g: Geometry, disk: Disk, nd: Sector, slot: nat, e: Entry, i: nat)
    requires WellFormed(g, disk) && Replaced(Dir(g, disk), nd, slot, e) && i < DIR_ENTRIES && i != slot
    ensures var d := Put(disk, g.Root(), nd);
            && Dir(g, d) == nd && Fat(g, d) == Fat(g, disk)
            && ClustersOf(g, d, i) == ClustersOf(g, disk, i) && SlotOf(g, d, i) == SlotOf(g, disk, i)
  {
    RootIsElsewhere(g, disk);
    var cs := ClustersOf(g, disk, i);
    forall x | x in cs ensures !InCluster(g, x, g.Root()) {
      OwnedClusters(g, disk, i, x);
    }
    JoinedUnchanged(g, disk, cs, g.Root(), nd);
  }

  /** The clusters of the new entry, by the table alone, are no other entry's. */
  ghost predicate IsApart(g: Geometry, disk: Disk, slot: nat, cs: seq<UInt32>) {
    forall i: nat, x :: i < DIR_ENTRIES && i != slot && x in cs ==> x !in ClustersOf(g, disk, i)
  }

  /** The volume after one entry was replaced is well formed when the new entry fits in. */
  lemma ReplacedForm(g: Geometry, disk: Disk, nd: Sector, slot: nat, e: Entry)
    requires WellFormed(g, disk) && Replaced(Dir(g, disk), nd, slot, e) && UnusedBehind(nd)
    requires EntryOk(g, e, Clusters(g, Fat(g, disk), e)) && IsApart(g, disk, slot, Clusters(g, Fat(g, disk), e))
    ensures WellFormed(g, Put(disk, g.Root(), nd))
  {
    RootIsElsewhere(g, disk);
    var d, cs := Put(disk, g.Root(), nd), Clusters(g, Fat(g, disk), e);
    assert Dir(g, d) == nd && Fat(g, d) == Fat(g, disk) && ClustersOf(g, d, slot) == cs;
    forall i: nat | i < DIR_ENTRIES ensures EntryOk(g, EntryAt(Dir(g, d), i), ClustersOf(g, d, i)) {
      if i != slot {
        OthersAreKept(g, disk, nd, slot, e, i);
        assert EntryOk(g, EntryAt(Dir(g, disk), i), ClustersOf(g, disk, i));
      }
    }
    forall i: nat, j: nat, x | i < j < DIR_ENTRIES && x in ClustersOf(g, d, i) ensures x !in ClustersOf(g, d, j) {
      if i == slot {
        OthersAreKept(g, disk, nd, slot, e, j);
        assert x in cs;
      } else if j == slot {
        OthersAreKept(g, disk, nd, slot, e, i);
        assert x in ClustersOf(g, disk, i);
      } else {
        OthersAreKept(g, disk, nd, slot, e, i);
        OthersAreKept(g, disk, nd, slot, e, j);
        assert x in ClustersOf(g, disk, i);
      }
    }
  }

  /** Its slots are the old ones but for that entry's. */
  lemma ReplacedSlots(g: Geometry, disk: Disk, nd: Sector, slot: nat, e: Entry)
    requires WellFormed(g, disk) && Replaced(Dir(g, disk), nd, slot, e)
    requires forall x :: x in Clusters(g, Fat(g, disk), e) ==> !InCluster(g, x, g.Root())
    ensures var d, cs := Put(disk, g.Root(), nd), Clusters(g, Fat(g, disk), e);
            Slots(g, d) == Slots(g, disk)[slot := SlotFor(e, Joined(g, disk, cs))]
  {
    RootIsElsewhere(g, disk);
    var d, cs := Put(disk, g.Root(), nd), Clusters(g, Fat(g, disk), e);
    JoinedUnchanged(g, disk, cs, g.Root(), nd);
    forall i: nat | i < DIR_ENTRIES && i != slot ensures SlotOf(g, d, i) == SlotOf(g, disk, i) {
      OthersAreKept(g, disk, nd, slot, e, i);
    }
    OneSlotDiffers(g, disk, d, slot, SlotFor(e, Joined(g, disk, cs)));
  }

  lemma {:induction false} EmptySlotIsFirst(dir: Sector, i: nat)
    requires i <= DIR_ENTRIES
    ensures var s := EmptySlot(dir, i);
            && (s < DIR_ENTRIES ==> !IsLive(dir, s))
            && forall j: nat :: i <= j < s ==> IsLive(dir, j)
    decreases DIR_ENTRIES - i
  {
    if i < DIR_ENTRIES && IsLive(dir, i) {
      EmptySlotIsFirst(dir, i + 1);
    }
  }

  lemma {:induction false} EmptySlotIsNotBehind(dir: Sector, from: nat, i: nat)
    requires from <= i < DIR_ENTRIES && !IsLive(dir, i)
    ensures EmptySlot(dir, from) <= i
    decreases i - from
  {
    if IsLive(dir, from) {
      EmptySlotIsNotBehind(dir, from + 1, i);
    }
  }

  /** Filling the first empty slot leaves no gap of unused entries. */
  lemma UnusedStayBehind(dir: Sector, nd: Sector, slot: nat, e: Entry)
    requires Replaced(dir, nd, slot, e) && !Unused(e) && slot == EmptySlot(dir, 0) && UnusedBehind(dir)
    ensures UnusedBehind(nd)
  {
    forall i: nat, j: nat | i < j < DIR_ENTRIES && IsUnused(nd, i) ensures IsUnused(nd, j) {
      assert i != slot && EntryAt(nd, i) == EntryAt(dir, i);
      assert IsUnused(dir, i);
      EmptySlotIsNotBehind(dir, 0, i);
      assert IsUnused(dir, j) && EntryAt(nd, j) == EntryAt(dir, j);
    }
  }

  /** The chain of a new entry for a reserved cluster. */
  lemma ReservedChain(g: Geometry, disk: Disk, c: nat, e: Entry)
    requires Reserved(g, disk, c) && Owns(e) && ClusterOf(e) == c
    ensures Clusters(g, Fat(g, disk), e) == [c]
  {
    assert ChainFrom(Fat(g, disk), c, g.maxValidClusters + 1) == Some([c]);
  }

  /** Third write: the entry appears in the first empty slot and owns the reserved cluster. */
  lemma EnterStep(g: Geometry, disk: Disk, nd: Sector, slot: nat, e: Entry, c: nat)
    requires WellFormed(g, disk) && Reserved(g, disk, c) && IsFile(e) && ClusterOf(e) == c
    requires Replaced(Dir(g, disk), nd, slot, e) && slot == EmptySlot(Dir(g, disk), 0)
    ensures var d := Put(disk, g.Root(), nd);
            && Fat(g, d) == Fat(g, disk) && Dir(g, d) == nd && ClustersOf(g, d, slot) == [c]
            && Slots(g, d) == Slots(g, disk)[slot := File(NameOf(e), Cut(ClusterBytes(g, disk, c), SizeOf(e)))]
            && (WellFormed(g, d) <==> SizeOf(e) <= 512 * g.PerCluster())
            && Orphans(g, d) <= Orphans(g, disk) - {c}
  {
    RootIsElsewhere(g, disk);
    ReservedSector(g, disk, c);
    ReservedChain(g, disk, c, e);
    assert WellFormed(g, Put(disk, g.Root(), nd)) <==> SizeOf(e) <= 512 * g.PerCluster() by {
      EnterForm(g, disk, nd, slot, e, c);
    }
    ReplacedSlots(g, disk, nd, slot, e);
    assert Joined(g, disk, [c]) == ClusterBytes(g, disk, c) by {
      JoinedOne(g, disk, c);
    }
    EmptySlotIsFirst(Dir(g, disk), 0);
    EnterAddsOwner(g, disk, nd, slot, e, c);
  }

  lemma JoinedOne(g: Geometry, disk: Disk, c: UInt32)
    ensures Joined(g, disk, [c]) == ClusterBytes(g, disk, c)
  {
    assert [c][..0] == [] && Joined(g, disk, []) == [];
  }

  /** A new entry fits in when its one cluster holds its size. */
  lemma EnterForm(g: Geometry, disk: Disk, nd: Sector, slot: nat, e: Entry, c: nat)
    requires WellFormed(g, disk) && Reserved(g, disk, c) && IsFile(e) && ClusterOf(e) == c
    requires Replaced(Dir(g, disk), nd, slot, e) && slot == EmptySlot(Dir(g, disk), 0)
    ensures WellFormed(g, Put(disk, g.Root(), nd)) <==> SizeOf(e) <= 512 * g.PerCluster()
  {
    RootIsElsewhere(g, disk);
    ReservedChain(g, disk, c, e);
    var d := Put(disk, g.Root(), nd);
    assert Span(g, 1) == Span(g, 0) + 512 * g.PerCluster() == 512 * g.PerCluster();
    if SizeOf(e) <= Span(g, 1) {
      UnusedStayBehind(Dir(g, disk), nd, slot, e);
      assert IsApart(g, disk, slot, [c]);
      ReplacedForm(g, disk, nd, slot, e);
    } else {
      assert WellFormed(g, d) ==> EntryOk(g, EntryAt(Dir(g, d), slot), ClustersOf(g, d, slot));
    }
  }

  lemma EnterAddsOwner(g: Geometry, disk: Disk, nd: Sector, slot: nat, e: Entry, c: nat)
    requires WellFormed(g, disk) && Reserved(g, disk, c) && Owns(e) && ClusterOf(e) == c
    requires Replaced(Dir(g, disk), nd, slot, e) && !IsLive(Dir(g, disk), slot)
    ensures Orphans(g, Put(disk, g.Root(), nd)) <= Orphans(g, disk) - {c}
  {
    RootIsElsewhere(g, disk);
    ReservedChain(g, disk, c, e);
    var d := Put(disk, g.Root(), nd);
    forall x | IsOwned(g, disk, x) ensures IsOwned(g, d, x) {
      var i: nat :| i < DIR_ENTRIES && x in ClustersOf(g, disk, i);
      OthersAreKept(g, disk, nd, slot, e, i);
      assert x in ClustersOf(g, d, i);
    }
    assert c in ClustersOf(g, d, slot);
    assert IsOwned(g, d, c);
  }

  /** Third write under a name that begins with the mark of deletion: no slot changes. */
  lemma HideStep(g: Geometry, disk: Disk, nd: Sector, slot: nat, e: Entry)
    requires WellFormed(g, disk) && Replaced(Dir(g, disk), nd, slot, e) && Mark(e) == DELETED
    requires slot == EmptySlot(Dir(g, disk), 0)
    ensures var d := Put(disk, g.Root(), nd); WellFormed(g, d) && Slots(g, d) == Slots(g, disk)
  {
    EmptySlotIsFirst(Dir(g, disk), 0);
    UnusedStayBehind(Dir(g, disk), nd, slot, e);
    ReplacedForm(g, disk, nd, slot, e);
    ReplacedSlots(g, disk, nd, slot, e);
    assert Slots(g, disk)[slot] == Empty;
  }

  // ----- extending a file -----

  /** First write of an append: what it changes of the file's contents. */
  lemma OverwriteStep(g: Geometry, disk: Disk, slot: nat, front: seq<UInt32>, last: UInt32, content: Sector)
    requires WellFormed(g, disk) && slot < DIR_ENTRIES && ClustersOf(g, disk, slot) == front + [last]
    ensures g.PerCluster() > 0 && g.SectorOf(last) < |disk| && g.SectorOf(last) != g.Root()
    ensures var d := Put(disk, g.SectorOf(last), content);
            && WellFormed(g, d) && Dir(g, d) == Dir(g, disk) && Fat(g, d) == Fat(g, disk)
            && Orphans(g, d) == Orphans(g, disk) && ClustersOf(g, d, slot) == ClustersOf(g, disk, slot)
            && (forall i: nat :: i < DIR_ENTRIES && i != slot ==> SlotOf(g, d, i) == SlotOf(g, disk, i))
            && Joined(g, d, front + [last]) == Joined(g, disk, front) + (content + Slack(g, disk, last))
            && Joined(g, disk, front + [last]) ==
               Joined(g, disk, front) + (SectorAt(disk, g.SectorOf(last)) + Slack(g, disk, last))
  {
    RootIsElsewhere(g, disk);
    var cs, lba := front + [last], g.SectorOf(last);
    assert last in cs;
    OwnedClusters(g, disk, slot, last);
    LastIsElsewhere(g, disk, slot, front, last);
    JoinedAfter(g, disk, front, last, content);
    var d := Put(disk, lba, content);
    forall i: nat | i < DIR_ENTRIES && i != slot ensures SlotOf(g, d, i) == SlotOf(g, disk, i) {
      assert last !in ClustersOf(g, disk, i);
      OthersAreElsewhere(g, disk, i, last);
      SlotUnchanged(g, disk, i, lba, content);
    }
    SameForm(g, disk, d);
  }

  lemma LastIsElsewhere(g: Geometry, disk: Disk, slot: nat, front: seq<UInt32>, last: UInt32)
    requires WellFormed(g, disk) && slot < DIR_ENTRIES && ClustersOf(g, disk, slot) == front + [last]
    ensures forall c :: c in front ==> !InCluster(g, c, g.SectorOf(last))
  {
    var cs, e := front + [last], EntryAt(Dir(g, disk), slot);
    ChainsAreDistinct(Fat(g, disk), ClusterOf(e), g.maxValidClusters + 1);
    assert cs[|front|] == last && last in cs;
    OwnedClusters(g, disk, slot, last);
    forall c | c in front ensures !InCluster(g, c, g.SectorOf(last)) {
      var i :| 0 <= i < |front| && front[i] == c;
      assert cs[i] == c && c in cs;
      OwnedClusters(g, disk, slot, c);
      ClustersAreApart(g, |disk|, c, last);
    }
  }

  /** Second write of an append: the file's size. */
  lemma ResizeStep(g: Geometry, disk: Disk, nd: Sector, slot: nat, size: UInt32)
    requires WellFormed(g, disk) && slot < DIR_ENTRIES && IsFile(EntryAt(Dir(g, disk), slot))
    requires Replaced(Dir(g, disk), nd, slot, Resized(EntryAt(Dir(g, disk), slot), size))
    ensures var d, cs := Put(disk, g.Root(), nd), ClustersOf(g, disk, slot);
            && Fat(g, d) == Fat(g, disk) && Orphans(g, d) == Orphans(g, disk) && ClustersOf(g, d, slot) == cs
            && (WellFormed(g, d) <==> Covers(g, |cs|, size))
            && Slots(g, d) == Slots(g, disk)[slot :=
                 File(EntryName(Dir(g, disk), slot), Cut(Joined(g, disk, cs), size))]
  {
    RootIsElsewhere(g, disk);
    var dir, d := Dir(g, disk), Put(disk, g.Root(), nd);
    var e := EntryAt(dir, slot);
    var r, cs := Resized(e, size), ClustersOf(g, disk, slot);
    ResizedReadsBack(e, size);
    assert Clusters(g, Fat(g, disk), r) == cs;
    forall x | x in cs ensures !InCluster(g, x, g.Root()) {
      OwnedClusters(g, disk, slot, x);
    }
    assert EntryOk(g, e, cs);
    if Covers(g, |cs|, size) {
      ResizedUnusedBehind(dir, nd, slot, size);
      OwnClustersAreApart(g, disk, slot);
      ReplacedForm(g, disk, nd, slot, r);
    } else {
      assert WellFormed(g, d) ==> EntryOk(g, EntryAt(Dir(g, d), slot), ClustersOf(g, d, slot));
    }
    ReplacedSlots(g, disk, nd, slot, r);
    ResizeKeepsOwners(g, disk, nd, slot, size);
  }

  lemma OwnClustersAreApart(g: Geometry, disk: Disk, slot: nat)
    requires WellFormed(g, disk) && slot < DIR_ENTRIES
    ensures IsApart(g, disk, slot, ClustersOf(g, disk, slot))
  {
    forall i: nat, x | i < DIR_ENTRIES && i != slot && x in ClustersOf(g, disk, slot)
      ensures x !in ClustersOf(g, disk, i)
    {
      if i < slot && x in ClustersOf(g, disk, i) {
        assert false;
      }
    }
  }

  lemma ResizedUnusedBehind(dir: Sector, nd: Sector, slot: nat, size: UInt32)
    requires slot < DIR_ENTRIES && Replaced(dir, nd, slot, Resized(EntryAt(dir, slot), size)) && UnusedBehind(dir)
    ensures UnusedBehind(nd)
  {
    ResizedReadsBack(EntryAt(dir, slot), size);
    forall i: nat | i < DIR_ENTRIES ensures IsUnused(nd, i) == IsUnused(dir, i) {
      assert i != slot ==> EntryAt(nd, i) == EntryAt(dir, i);
    }
  }

  lemma ResizeKeepsOwners(g: Geometry, disk: Disk, nd: Sector, slot: nat, size: UInt32)
    requires WellFormed(g, disk) && slot < DIR_ENTRIES
    requires Replaced(Dir(g, disk), nd, slot, Resized(EntryAt(Dir(g, disk), slot), size))
    ensures Orphans(g, Put(disk, g.Root(), nd)) == Orphans(g, disk)
  {
    RootIsElsewhere(g, disk);
    var d, e := Put(disk, g.Root(), nd), EntryAt(Dir(g, disk), slot);
    ResizedReadsBack(e, size);
    forall i: nat | i < DIR_ENTRIES ensures ClustersOf(g, d, i) == ClustersOf(g, disk, i) {
      if i != slot {
        OthersAreKept(g, disk, nd, slot, Resized(e, size), i);
      }
    }
    forall x ensures IsOwned(g, d, x) <==> IsOwned(g, disk, x) {
      if IsOwned(g, d, x) {
        var i: nat :| i < DIR_ENTRIES && x in ClustersOf(g, d, i);
        assert x in ClustersOf(g, disk, i);
      }
      if IsOwned(g, disk, x) {
        var i: nat :| i < DIR_ENTRIES && x in ClustersOf(g, disk, i);
        assert x in ClustersOf(g, d, i);
      }
    }
  }
}
