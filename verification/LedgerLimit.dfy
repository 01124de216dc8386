/**
 Where LEDGER.LOG ends: the driver never gives it a second cluster. Once the persisted lines are longer
 than its cluster it cannot hold them, and on clusters of one sector it holds them exactly up to there.
 */
module LedgerLimit {
  import opened Machine
  import opened Wrappers
  import opened FatLayout
  import FatWalk
  import opened FatVolume
  import opened FatChains
  import opened FatFiles
  import opened FatSteps
  import opened FatRefinement
  import opened FatForeign
  import opened LedgerRing
  import opened Watcher
  import opened LedgerFile
  import opened LedgerFaults

  /**
   The first entry of the name, `slot`, has at most one cluster, and the walk that an append to it makes
   ends on neither table nor directory. The volume need not be well formed.
   */
  ghost predicate Confined(g: Geometry, d: Disk, beyond: FatWalk.Links, name: Bytes, slot: nat) {
    && g.Root() < |d| && g.fatStart < |d| && g.Root() != g.fatStart
    && slot < DIR_ENTRIES && AppendSlot(Dir(g, d), name, 0) == slot && |ClustersOf(g, d, slot)| <= 1
    && match Walked(g, Fat(g, d), beyond, EntryCluster(Dir(g, d), slot))
       case None => true
       case Some(c) => g.SectorOf(c) != g.Root() && g.SectorOf(c) != g.fatStart
  }

  // ----- it stays confined -----

  lemma {:induction false} AppendsStayConfined(
    g: Geometry, d: Disk, beyond: FatWalk.Links, name: Bytes, slot: nat, data: Bytes)
    requires Confined(g, d, beyond, name, slot) && IsRequest(name, data)
    ensures Confined(g, Apply(d, AppendTrace(g, d, beyond, name, data)), beyond, name, slot)
  {
    assert AppendTrace(g, d, beyond, name, data) == FoundTrace(g, d, beyond, slot, data);
    var last := Walked(g, Fat(g, d), beyond, EntryCluster(Dir(g, d), slot));
    if last.Some? && g.SectorOf(last.value) < |d| {
      ExtensionsStayConfined(g, d, beyond, name, slot, data, last.value);
    }
  }

  lemma {:induction false} ExtensionsStayConfined(
    g: Geometry, d: Disk, beyond: FatWalk.Links, name: Bytes, slot: nat, data: Bytes, c: UInt32)
    requires Confined(g, d, beyond, name, slot) && g.SectorOf(c) < |d|
    requires Walked(g, Fat(g, d), beyond, EntryCluster(Dir(g, d), slot)) == Some(c)
    ensures Confined(g, Apply(d, FoundTrace(g, d, beyond, slot, data)), beyond, name, slot)
  {
    var size := EntrySize(Dir(g, d), slot);
    var n, one := Fitting(size, data), Put(d, g.SectorOf(c), Lengthened(SectorAt(d, g.SectorOf(c)), size, data));
    var again := EntrySize(Dir(g, one), slot);
    var grown := Wrap32(again + n);
    var two := Put(one, g.Root(), WithSize(Dir(g, one), slot, grown));
    FoundAndExtended(g, d, beyond, slot, c, data, one, two, size, n, again, grown);
    GrownAndConfined(g, d, two, beyond, name, slot, grown);
  }

  lemma {:induction false} GrownAndConfined(
    g: Geometry, d: Disk, two: Disk, beyond: FatWalk.Links, name: Bytes, slot: nat, grown: UInt32)
    requires Confined(g, d, beyond, name, slot) && |two| == |d| && Fat(g, two) == Fat(g, d)
    requires Dir(g, two) == WithSize(Dir(g, d), slot, grown)
    ensures Confined(g, two, beyond, name, slot)
  {
    var dir, nd, from := Dir(g, d), Dir(g, two), 0;
    SizeIsReplaced(dir, slot, grown);
    assert AppendSlot(nd, name, from) == AppendSlot(dir, name, from) by {
      ResizedAppendSearch(dir, nd, slot, grown, name, from);
    }
    GrownChain(g, Fat(g, d), EntryAt(dir, slot), EntryAt(nd, slot), grown);
  }

  lemma {:induction false} GrownChain(g: Geometry, fat: Sector, e: Entry, r: Entry, grown: UInt32)
    requires r == Resized(e, grown)
    ensures Clusters(g, fat, r) == Clusters(g, fat, e) && ClusterOf(r) == ClusterOf(e)
  {
    ResizedReadsBack(e, grown);
  }

  /** The same directory but for a size: an append goes where it did. */
  lemma {:induction false} ResizedAppendSearch(dir: Sector, nd: Sector, slot: nat, size: UInt32, name: Bytes, i: nat)
    requires slot < DIR_ENTRIES && Replaced(dir, nd, slot, Resized(EntryAt(dir, slot), size)) && i <= DIR_ENTRIES
    ensures AppendSlot(nd, name, i) == AppendSlot(dir, name, i)
    decreases DIR_ENTRIES - i
  {
    if i < DIR_ENTRIES {
      ResizedReadsBack(EntryAt(dir, slot), size);
      assert i != slot ==> EntryAt(nd, i) == EntryAt(dir, i);
      ResizedAppendSearch(dir, nd, slot, size, name, i + 1);
    }
  }

  lemma {:induction false} RunsStayConfined(
    g: Geometry, d: Disk, beyond: FatWalk.Links, name: Bytes, slot: nat, ops: seq<Operation>)
    requires Confined(g, d, beyond, name, slot) && AppendsTo(name, ops)
    ensures Confined(g, RunOnDisk(g, d, beyond, ops).0, beyond, name, slot)
    decreases |ops|
  {
    if ops != [] {
      assert ops[0] in ops;
      AppendsStayConfined(g, d, beyond, name, slot, ops[0].data);
      RunsStayConfined(g, Apply(d, TraceOf(g, d, beyond, ops[0])), beyond, name, slot, ops[1..]);
    }
  }

  // ----- it starts confined -----

  lemma {:induction false} ShortLedgersAreConfined(
    g: Geometry, d: Disk, beyond: FatWalk.Links, name: Bytes, held: Bytes)
    requires WellFormed(g, d) && IsVisible(name) && LedgerHolds(Abs(g, d), name, held) && |held| <= 512
    ensures Confined(g, d, beyond, name, FirstNamed(Slots(g, d), name, 0))
  {
    var slot := FirstNamed(Slots(g, d), name, 0);
    RootIsElsewhere(g, d);
    AppendSlotsAgree(g, d, name);
    FileInSlot(g, d, slot);
    WalkEndsOnTheFile(g, d, beyond, slot);
    var cs := ClustersOf(g, d, slot);
    OwnedClusters(g, d, slot, cs[|cs| - 1]);
    OneClusterCovers(g, |cs|, |held|);
    ClusterRange(g, |d|, cs[|cs| - 1]);
  }

  lemma OneClusterCovers(g: Geometry, n: nat, size: nat)
    requires Covers(g, n, size) && size <= 512 && g.PerCluster() > 0
    ensures n == 1
  {
  }

  /** The first append of a sync creates the ledger where there was none. */
  lemma {:induction false} FirstAppendConfines(
    g: Geometry, d: Disk, beyond: FatWalk.Links, name: Bytes, held: Bytes, ops: seq<Operation>)
    returns (slot: nat)
    requires WellFormed(g, d) && IsVisible(name) && LedgerReady(Abs(g, d), name, held) && |held| <= 512
    requires AppendsTo(name, ops) && ops != [] && |ops[0].data| <= CONTEXT_MAX
    ensures Confined(g, RunOnDisk(g, d, beyond, ops).0, beyond, name, slot)
  {
    if LedgerHolds(Abs(g, d), name, held) {
      slot := FirstNamed(Slots(g, d), name, 0);
      ShortLedgersAreConfined(g, d, beyond, name, held);
      RunsStayConfined(g, d, beyond, name, slot, ops);
    } else {
      assert ops[0] in ops;
      var data, one := ops[0].data, Apply(d, TraceOf(g, d, beyond, ops[0]));
      AppendCreatesTheLedger(Abs(g, d), name, data);
      AppendRefines(g, d, beyond, name, data);
      slot := FirstNamed(Slots(g, one), name, 0);
      ShortLedgersAreConfined(g, one, beyond, name, data);
      RunsStayConfined(g, one, beyond, name, slot, ops[1..]);
    }
  }

  // ----- whole runs -----

  /** After any run that has persisted something, however much, the ledger has one cluster. */
  lemma {:induction false} LedgersStayConfined(
    g: Geometry, disk: Disk, beyond: FatWalk.Links, name: Bytes, held: Bytes, steps: seq<Step>)
    returns (slot: nat)
    requires IsVisible(name) && WellFormed(g, disk) && LedgerReady(Abs(g, disk), name, held) && ShortSteps(steps)
    requires |held| <= 512 && Run(steps).saved != []
    ensures Confined(g, DiskAfter(g, disk, beyond, name, steps), beyond, name, slot)
    decreases |steps|
  {
    var front, step := steps[..|steps| - 1], steps[|steps| - 1];
    var h := Run(front);
    RunsKeepContextsShort(front);
    var before, pending := DiskAfter(g, disk, beyond, name, front), Pending(h.ring, h.ring.cursor);
    if h.saved != [] {
      slot := LedgersStayConfined(g, disk, beyond, name, held, front);
      if step.Sync? {
        LedgerAppendsTo(name, pending);
        RunsStayConfined(g, before, beyond, name, slot, LedgerAppends(name, pending));
      }
    } else {
      LedgerHoldsWhatWasPersisted(g, disk, beyond, name, held, front);
      LedgerAppendsTo(name, pending);
      assert pending != [] && pending[0] in pending;
      slot := FirstAppendConfines(g, before, beyond, name, held, LedgerAppends(name, pending));
    }
  }

  /** A confined ledger holds no more than its cluster. */
  lemma {:induction false} ConfinedLedgersAreShort(
    g: Geometry, d: Disk, beyond: FatWalk.Links, name: Bytes, slot: nat, bytes: Bytes)
    requires IsVisible(name) && Confined(g, d, beyond, name, slot) && LedgerHolds(Abs(g, d), name, bytes)
    ensures |bytes| <= 512 * g.PerCluster()
  {
    AppendSlotsAgree(g, d, name);
    var cs := ClustersOf(g, d, slot);
    assert Slots(g, d)[slot] == SlotOf(g, d, slot);
    assert |Joined(g, d, cs)| == Span(g, |cs|);
    SpanIsAMultiple(g, |cs|, 512 * g.PerCluster());
  }

  /** Lines that are longer than a cluster are never what the ledger holds, whatever became of them. */
  lemma {:induction false} LongLedgersAreLost(
    g: Geometry, disk: Disk, beyond: FatWalk.Links, name: Bytes, held: Bytes, steps: seq<Step>)
    requires IsVisible(name) && WellFormed(g, disk) && LedgerReady(Abs(g, disk), name, held) && ShortSteps(steps)
    requires |held| <= 512 && |held| + |Lines(Run(steps).saved)| > 512 * g.PerCluster()
    ensures var d := DiskAfter(g, disk, beyond, name, steps);
            !LedgerHolds(Abs(g, d), name, held + Lines(Run(steps).saved))
  {
    var d, all := DiskAfter(g, disk, beyond, name, steps), held + Lines(Run(steps).saved);
    RootIsElsewhere(g, disk);
    if LedgerHolds(Abs(g, d), name, all) {
      var slot := LedgersStayConfined(g, disk, beyond, name, held, steps);
      ConfinedLedgersAreShort(g, d, beyond, name, slot, all);
    }
  }

  /**
   Main theorem: on clusters of one sector, after any run that has persisted something, the ledger holds
   what it held and one line per persisted event exactly when all of that fits the sector.
   */
  lemma {:induction false} LedgerHoldsExactlyOneSector(
    g: Geometry, disk: Disk, beyond: FatWalk.Links, name: Bytes, held: Bytes, steps: seq<Step>)
    requires IsVisible(name) && WellFormed(g, disk) && LedgerReady(Abs(g, disk), name, held) && ShortSteps(steps)
    requires g.PerCluster() == 1 && |held| <= 512 && Run(steps).saved != []
    ensures var d := DiskAfter(g, disk, beyond, name, steps);
            LedgerHolds(Abs(g, d), name, held + Lines(Run(steps).saved))
            <==> |held| + |Lines(Run(steps).saved)| <= 512
  {
    if |held| + |Lines(Run(steps).saved)| <= 512 {
      LedgerHoldsWhatWasPersisted(g, disk, beyond, name, held, steps);
    } else {
      LongLedgersAreLost(g, disk, beyond, name, held, steps);
    }
  }
}
