/**
 What appending does when the first entry of that name is foreign: a folder, a label, or a file without
 clusters, an empty one say. The walk starts at whatever the entry's cluster field holds.
 */
module FatForeign {
  import opened Machine
  import opened Wrappers
  import opened FatLayout
  import opened FatWalk
  import opened FatVolume
  import opened FatFiles
  import opened FatRefinement
  import opened FatSteps

  // ----- the two writes -----

  /** A directory that is its own target: the data goes into it, and then the size it has by then grows. */
  function Rewritten(dir: Sector, slot: nat, data: Bytes): Sector
    requires slot < DIR_ENTRIES
  {
    var size := EntrySize(dir, slot);
    var first := Lengthened(dir, size, data);
    WithSize(first, slot, Wrap32(EntrySize(first, slot) + Fitting(size, data)))
  }

  /** What an append leaves whose walk ends on cluster `c`, wherever that is. */
  lemma {:induction false} FoundAndExtended(
    g: Geometry, disk: Disk, beyond: Links, slot: nat, c: UInt32, data: Bytes, one: Disk, two: Disk, size: UInt32,
    n: nat, again: UInt32, grown: UInt32)
    requires slot < DIR_ENTRIES && g.fatStart < |disk| && g.SectorOf(c) < |disk|
    requires Walked(g, Fat(g, disk), beyond, EntryCluster(Dir(g, disk), slot)) == Some(c)
    requires size == EntrySize(Dir(g, disk), slot) && n == Fitting(size, data)
    requires one == Put(disk, g.SectorOf(c), Lengthened(SectorAt(disk, g.SectorOf(c)), size, data))
    requires again == EntrySize(Dir(g, one), slot) && grown == Wrap32(again + n)
    requires two == Put(one, g.Root(), WithSize(Dir(g, one), slot, grown))
    ensures Apply(disk, FoundTrace(g, disk, beyond, slot, data)) == two
  {
    var w := Write(g.SectorOf(c), Lengthened(SectorAt(disk, g.SectorOf(c)), size, data));
    var v, trace := Write(g.Root(), WithSize(Dir(g, one), slot, grown)), FoundTrace(g, disk, beyond, slot, data);
    assert trace == [w, v] by {
      ExtendingAnywhere(g, disk, slot, c, data, one, size, n, again, grown, w, v);
    }
    TwoWritesApplied(disk, trace, w, v);
  }

  lemma {:induction false} ExtendingAnywhere(
    g: Geometry, disk: Disk, slot: nat, c: UInt32, data: Bytes, one: Disk, size: UInt32, n: nat, again: UInt32,
    grown: UInt32, w: Write, v: Write)
    requires slot < DIR_ENTRIES && g.SectorOf(c) < |disk| && n == Fitting(size, data)
    requires w == Write(g.SectorOf(c), Lengthened(SectorAt(disk, g.SectorOf(c)), size, data))
    requires one == Put(disk, w.lba, w.content)
    requires again == EntrySize(Dir(g, one), slot) && grown == Wrap32(again + n)
    requires v == Write(g.Root(), WithSize(Dir(g, one), slot, grown))
    ensures ExtendTrace(g, disk, slot, c, size, data) == [w, v]
  {
    ApplyOne(disk, w);
    GrowingTrace(g, one, slot, n, again, grown);
  }

  lemma {:induction false} GrowingTrace(g: Geometry, one: Disk, slot: nat, n: nat, again: UInt32, grown: UInt32)
    requires slot < DIR_ENTRIES && again == EntrySize(Dir(g, one), slot) && grown == Wrap32(again + n)
    ensures ResizeTrace(g, one, slot, n) == [Write(g.Root(), WithSize(Dir(g, one), slot, grown))]
  {
  }

  lemma {:induction false} Growing(size: UInt32, n: nat)
    requires 0 < n <= 512
    ensures Wrap32(size + n) != size
  {
    if size + n < TWO_TO_THE_32 {
      SmallStays32(size + n);
    } else {
      RemainderIs(size + n, TWO_TO_THE_32, 1, size + n - TWO_TO_THE_32);
    }
  }

  // ----- when it does no harm -----

  ghost predicate ShowsTheSame(g: Geometry, disk: Disk, nd: Sector) {
    WellFormed(g, Put(disk, g.Root(), nd)) && Slots(g, Put(disk, g.Root(), nd)) == Slots(g, disk)
  }

  /**
   Nothing is written, because the walk gives up or its end is not on the device; or the data happens to
   fall into the directory itself and leaves the same there.
   */
  ghost predicate LeavesItAlone(g: Geometry, disk: Disk, beyond: Links, slot: nat, data: Bytes)
    requires slot < DIR_ENTRIES
  {
    match Walked(g, Fat(g, disk), beyond, EntryCluster(Dir(g, disk), slot))
    case None => true
    case Some(c) =>
      || g.SectorOf(c) >= |disk|
      || (g.SectorOf(c) == g.Root() && ShowsTheSame(g, disk, Rewritten(Dir(g, disk), slot, data)))
  }

  lemma {:induction false} ForeignAppendsAreExact(
    g: Geometry, disk: Disk, beyond: Links, data: Bytes, slot: nat, d: Disk)
    requires WellFormed(g, disk) && slot < DIR_ENTRIES && Slots(g, disk)[slot].Foreign? && data != []
    requires d == Apply(disk, FoundTrace(g, disk, beyond, slot, data))
    ensures WellFormed(g, d) && Abs(g, d) == Abs(g, disk) <==> LeavesItAlone(g, disk, beyond, slot, data)
  {
    assert g.Root() < |disk| && g.fatStart < |disk| && g.Root() != g.fatStart by {
      RootIsElsewhere(g, disk);
    }
    var last := Walked(g, Fat(g, disk), beyond, EntryCluster(Dir(g, disk), slot));
    if last.Some? && g.SectorOf(last.value) < |disk| {
      WrittenAnywhere(g, disk, beyond, data, slot, d, last.value);
    }
  }

  lemma {:induction false} WrittenAnywhere(
    g: Geometry, disk: Disk, beyond: Links, data: Bytes, slot: nat, d: Disk, c: UInt32)
    requires g.Root() < |disk| && g.fatStart < |disk| && g.Root() != g.fatStart && g.SectorOf(c) < |disk|
    requires slot < DIR_ENTRIES && Slots(g, disk)[slot].Foreign? && data != []
    requires Walked(g, Fat(g, disk), beyond, EntryCluster(Dir(g, disk), slot)) == Some(c)
    requires d == Apply(disk, FoundTrace(g, disk, beyond, slot, data))
    ensures g.SectorOf(c) != g.Root() ==> Slots(g, d)[slot] != Slots(g, disk)[slot]
    ensures g.SectorOf(c) == g.Root() ==>
              d == Put(disk, g.Root(), Rewritten(Dir(g, disk), slot, data)) && Fat(g, d) == Fat(g, disk)
  {
    var size := EntrySize(Dir(g, disk), slot);
    var n, one := Fitting(size, data), Put(disk, g.SectorOf(c), Lengthened(SectorAt(disk, g.SectorOf(c)), size, data));
    var again := EntrySize(Dir(g, one), slot);
    var grown := Wrap32(again + n);
    var two := Put(one, g.Root(), WithSize(Dir(g, one), slot, grown));
    FoundAndExtended(g, disk, beyond, slot, c, data, one, two, size, n, again, grown);
    if g.SectorOf(c) == g.Root() {
      InTheDirectory(g, disk, one, two, slot, data, size, n, again, grown);
    } else {
      OutsideTheDirectory(g, disk, one, two, slot, n, again, grown);
    }
  }

  lemma {:induction false} OutsideTheDirectory(
    g: Geometry, disk: Disk, one: Disk, two: Disk, slot: nat, n: nat, again: UInt32, grown: UInt32)
    requires g.Root() < |disk| == |one| && slot < DIR_ENTRIES && Slots(g, disk)[slot].Foreign? && 0 < n <= 512
    requires Dir(g, one) == Dir(g, disk) && again == EntrySize(Dir(g, one), slot) && grown == Wrap32(again + n)
    requires two == Put(one, g.Root(), WithSize(Dir(g, one), slot, grown))
    ensures Slots(g, two)[slot] != Slots(g, disk)[slot]
  {
    Growing(again, n);
    GrownEntriesDiffer(g, disk, two, slot, grown);
  }

  lemma {:induction false} InTheDirectory(
    g: Geometry, disk: Disk, one: Disk, two: Disk, slot: nat, data: Bytes, size: UInt32, n: nat, again: UInt32,
    grown: UInt32)
    requires slot < DIR_ENTRIES && g.Root() < |disk| && g.Root() != g.fatStart
    requires size == EntrySize(Dir(g, disk), slot) && n == Fitting(size, data)
    requires one == Put(disk, g.Root(), Lengthened(Dir(g, disk), size, data))
    requires again == EntrySize(Dir(g, one), slot) && grown == Wrap32(again + n)
    requires two == Put(one, g.Root(), WithSize(Dir(g, one), slot, grown))
    ensures two == Put(disk, g.Root(), Rewritten(Dir(g, disk), slot, data)) && Fat(g, two) == Fat(g, disk)
  {
    assert Rewritten(Dir(g, disk), slot, data) == WithSize(Dir(g, one), slot, grown);
    PutTwice(disk, g.Root(), Lengthened(Dir(g, disk), size, data), Rewritten(Dir(g, disk), slot, data));
  }

  lemma {:induction false} PutTwice(disk: Disk, lba: nat, first: Sector, second: Sector)
    ensures Put(Put(disk, lba, first), lba, second) == Put(disk, lba, second)
  {
  }

  /** An entry that has grown is not the foreign entry it was. */
  lemma {:induction false} GrownEntriesDiffer(g: Geometry, disk: Disk, d: Disk, slot: nat, grown: UInt32)
    requires slot < DIR_ENTRIES && Slots(g, disk)[slot].Foreign? && grown != EntrySize(Dir(g, disk), slot)
    requires Dir(g, d) == WithSize(Dir(g, disk), slot, grown)
    ensures Slots(g, d)[slot] != Slots(g, disk)[slot]
  {
    var e := EntryAt(Dir(g, disk), slot);
    WithSizeAt(Dir(g, disk), slot, grown, slot);
    ResizedReadsBack(e, grown);
    assert Slots(g, disk)[slot] == SlotOf(g, disk, slot) && Slots(g, d)[slot] == SlotOf(g, d, slot);
  }

  // ----- files without clusters -----

  /** Cluster 0 is where two clusters before the data area would be. */
  lemma {:induction false} ClusterZeroIsBeforeTheData(g: Geometry, n: nat)
    requires g.Fits(n)
    ensures g.SectorOf(0) == Wrap32(g.dataStart - 2 * g.PerCluster())
    ensures g.dataStart >= 2 * g.PerCluster() ==> g.SectorOf(0) == g.dataStart - 2 * g.PerCluster() < n
  {
    var per := g.PerCluster();
    RemainderIs(-2, TWO_TO_THE_32, -1, TWO_TO_THE_32 - 2);
    assert (TWO_TO_THE_32 - 2) * per == TWO_TO_THE_32 * (per - 1) + (TWO_TO_THE_32 - 2 * per);
    RemainderIs((TWO_TO_THE_32 - 2) * per, TWO_TO_THE_32, per - 1, TWO_TO_THE_32 - 2 * per);
    var sum := g.dataStart + (TWO_TO_THE_32 - 2 * per);
    if g.dataStart >= 2 * per {
      RemainderIs(sum, TWO_TO_THE_32, 1, g.dataStart - 2 * per);
      SmallStays32(g.dataStart - 2 * per);
      SectorsDoNotWrap(g, n, g.rootCluster, g.rootCluster);
    } else {
      SmallStays32(sum);
      RemainderIs(g.dataStart - 2 * per, TWO_TO_THE_32, -1, sum);
    }
  }

  /** The same directory but for a size: a read stops where it did. */
  lemma {:induction false} ResizedSearch(dir: Sector, nd: Sector, slot: nat, size: UInt32, name: Bytes, i: nat)
    requires slot < DIR_ENTRIES && Replaced(dir, nd, slot, Resized(EntryAt(dir, slot), size)) && i <= DIR_ENTRIES
    ensures ReadSlot(nd, name, i) == ReadSlot(dir, name, i)
    decreases DIR_ENTRIES - i
  {
    if i < DIR_ENTRIES {
      ResizedReadsBack(EntryAt(dir, slot), size);
      assert i != slot ==> EntryAt(nd, i) == EntryAt(dir, i);
      ResizedSearch(dir, nd, slot, size, name, i + 1);
    }
  }

  /** What the append of data leaves: it lies before the data area, and the entry's size covers nothing. */
  ghost predicate Astray(
    g: Geometry, disk: Disk, d: Disk, beyond: Links, slot: nat, name: Bytes, size: UInt32, n: nat, data: Bytes)
    requires slot < DIR_ENTRIES
  {
    && |d| == |disk|
    && SectorAt(d, g.SectorOf(0)) == Lengthened(SectorAt(disk, g.SectorOf(0)), size, data)
    && (forall lba: nat :: lba != g.SectorOf(0) && lba != g.Root() ==> SectorAt(d, lba) == SectorAt(disk, lba))
    && Replaced(Dir(g, disk), Dir(g, d), slot, Resized(EntryAt(Dir(g, disk), slot), Wrap32(size + n)))
    && forall max: nat :: max >= 17 ==> ReadText(g, d, beyond, name, max) == Some(NOT_FOUND)
  }

  /**
   An append to a file without clusters writes the data into the sector two clusters before the data
   area, whatever that sector is for, and the file grows without getting a cluster: it is still not found.
   */
  lemma {:induction false} AppendsWithoutClustersGoAstray(
    g: Geometry, disk: Disk, beyond: Links, name: Bytes, data: Bytes, slot: nat, size: UInt32, n: nat, d: Disk)
    requires WellFormed(g, disk) && IsVisible(name) && IsRequest(name, data) && data != []
    requires slot == FirstNamed(Slots(g, disk), name, 0) < DIR_ENTRIES && EntryCluster(Dir(g, disk), slot) == 0
    requires !(2 <= FatLink(Fat(g, disk), 0) < FIRST_END_MARK)
    requires g.SectorOf(0) < |disk| && g.SectorOf(0) != g.Root()
    requires size == EntrySize(Dir(g, disk), slot) && n == Fitting(size, data)
    requires d == Apply(disk, AppendTrace(g, disk, beyond, name, data))
    ensures Astray(g, disk, d, beyond, slot, name, size, n, data)
  {
    assert d == Apply(disk, FoundTrace(g, disk, beyond, slot, data)) by {
      AppendsToWhatIsFound(g, disk, beyond, name, data, slot);
    }
    assert g.Root() < |disk| && g.fatStart < |disk| by {
      RootIsElsewhere(g, disk);
    }
    assert ReadSlot(Dir(g, disk), name, 0) == slot by {
      ReadSlotsAgree(g, disk, name, 0);
    }
    var one := Put(disk, g.SectorOf(0), Lengthened(SectorAt(disk, g.SectorOf(0)), size, data));
    var grown := Wrap32(size + n);
    var two := Put(one, g.Root(), WithSize(Dir(g, one), slot, grown));
    FoundAndExtended(g, disk, beyond, slot, 0, data, one, two, size, n, size, grown);
    StillNotFound(g, disk, one, two, beyond, slot, name, grown);
  }

  lemma {:induction false} StillNotFound(
    g: Geometry, disk: Disk, one: Disk, two: Disk, beyond: Links, slot: nat, name: Bytes, grown: UInt32)
    requires g.Root() < |disk| == |one| && slot < DIR_ENTRIES && Dir(g, one) == Dir(g, disk)
    requires ReadSlot(Dir(g, disk), name, 0) == slot && EntryCluster(Dir(g, disk), slot) == 0
    requires two == Put(one, g.Root(), WithSize(Dir(g, one), slot, grown))
    ensures Replaced(Dir(g, disk), Dir(g, two), slot, Resized(EntryAt(Dir(g, disk), slot), grown))
    ensures forall max: nat :: max >= 17 ==> ReadText(g, two, beyond, name, max) == Some(NOT_FOUND)
  {
    var dir, nd := Dir(g, disk), Dir(g, two);
    assert nd == WithSize(dir, slot, grown);
    assert Replaced(dir, nd, slot, Resized(EntryAt(dir, slot), grown)) by {
      SizeIsReplaced(dir, slot, grown);
    }
    assert ReadSlot(nd, name, 0) == slot by {
      ResizedSearch(dir, nd, slot, grown, name, 0);
    }
    assert EntryCluster(nd, slot) == 0 by {
      ResizedReadsBack(EntryAt(dir, slot), grown);
    }
    FoundWithoutClusters(g, two, beyond, slot, name);
  }

  lemma {:induction false} FoundWithoutClusters(g: Geometry, d: Disk, beyond: Links, slot: nat, name: Bytes)
    requires g.Root() < |d| && slot < DIR_ENTRIES
    requires ReadSlot(Dir(g, d), name, 0) == slot && EntryCluster(Dir(g, d), slot) == 0
    ensures forall max: nat :: max >= 17 ==> ReadText(g, d, beyond, name, max) == Some(NOT_FOUND)
  {
  }

  /** Where the allocation table is two clusters before the data area, its entries become the data. */
  lemma {:induction false} TextLandsOnTheTable(
    g: Geometry, disk: Disk, d: Disk, beyond: Links, slot: nat, name: Bytes, n: nat, data: Bytes, c: nat)
    requires slot < DIR_ENTRIES && n == Fitting(0, data) && g.SectorOf(0) == g.fatStart
    requires Astray(g, disk, d, beyond, slot, name, 0, n, data) && 4 * c + 4 <= n
    ensures FatEntry(Fat(g, d), c) == Word32(data, 4 * c)
  {
    assert Fat(g, d)[..n] == data[..n];
    var at := 4 * c;
    assert forall k :: at <= k < at + 4 ==> Fat(g, d)[k] == Fat(g, d)[..n][k] == data[..n][k] == data[k];
  }
}
