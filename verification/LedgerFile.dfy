/**
 What LEDGER.LOG holds after any run of logging and synchronising: one line for each persisted event,
 in order, as long as the volume has room and the lines fit one sector.
 */
module LedgerFile {
  import opened Machine
  import opened FatLayout
  import FatWalk
  import opened FatVolume
  import opened FatFiles
  import opened FatRefinement
  import FatFresh
  import opened LedgerRing
  import opened Watcher

  function Lines(events: seq<Event>): Bytes {
    if events == [] then [] else events[0].context + NEWLINE + Lines(events[1..])
  }

  lemma {:induction false} LinesOfConcat(a: seq<Event>, b: seq<Event>)
    ensures Lines(a + b) == Lines(a) + Lines(b)
  {
    if a == [] {
      assert a + b == b;
    } else {
      assert (a + b)[1..] == a[1..] + b;
      LinesOfConcat(a[1..], b);
    }
  }

  /** The first file of that name is the ledger and holds exactly `bytes`. */
  predicate LedgerHolds(s: State, name: Bytes, bytes: Bytes) {
    var slot := FirstNamed(s.slots, name, 0);
    slot < |s.slots| && s.slots[slot] == File(name, bytes) && s.clusterSize >= 512
  }

  /** There is no ledger yet, and there is room to create one. */
  predicate LedgerMissing(s: State, name: Bytes) {
    && FirstNamed(s.slots, name, 0) == |s.slots| && s.free > 0 && FirstEmpty(s.slots, 0) < |s.slots|
    && s.clusterSize >= 512
  }

  /** A freshly formatted volume has no ledger and room for one. */
  lemma FreshVolumesAwaitTheLedger(n: nat, limit: UInt32, name: Bytes)
    requires FAT_ENTRIES <= n <= TWO_TO_THE_32
    ensures LedgerMissing(Abs(FatFresh.FreshGeometry(limit), FatFresh.FreshDisk(n)), name)
  {
    var g, d := FatFresh.FreshGeometry(limit), FatFresh.FreshDisk(n);
    FatFresh.FreshVolumesAreWellFormed(n, limit);
    EmptySlotsHaveNoName(Slots(g, d), name, 0);
  }

  lemma {:induction false} EmptySlotsHaveNoName(slots: seq<Slot>, name: Bytes, i: nat)
    requires i <= |slots| && forall j :: 0 <= j < |slots| ==> slots[j].Empty?
    ensures FirstNamed(slots, name, i) == |slots|
    decreases |slots| - i
  {
    if i < |slots| {
      EmptySlotsHaveNoName(slots, name, i + 1);
    }
  }

  lemma {:induction false} NamedSlotStays(slots: seq<Slot>, name: Bytes, i: nat, bytes: Bytes)
    requires i <= |slots|
    ensures var r := FirstNamed(slots, name, i);
            r < |slots| ==> FirstNamed(slots[r := File(name, bytes)], name, i) == r
    decreases |slots| - i
  {
    if i < |slots| && !IsNamed(slots[i], name) {
      NamedSlotStays(slots, name, i + 1, bytes);
    }
  }

  lemma AppendExtendsTheLedger(s: State, name: Bytes, held: Bytes, data: Bytes)
    requires IsVisible(name) && LedgerHolds(s, name, held) && |held| + |data| <= 512
    ensures CanAppend(s, name, data) && LedgerHolds(Appended(s, name, data), name, held + data)
  {
    NamedSlotStays(s.slots, name, 0, held + data);
    if data == [] {
      assert held + data == held;
    } else {
      RemainderIs(|held|, s.clusterSize, 0, |held|);
      assert data[..Fitting(|held|, data)] == data;
    }
  }

  lemma AppendCreatesTheLedger(s: State, name: Bytes, data: Bytes)
    requires IsVisible(name) && LedgerMissing(s, name) && |data| <= 512
    ensures CanAppend(s, name, data) && LedgerHolds(Appended(s, name, data), name, data)
  {
    NewNameIsFound(s.slots, name, 0, data);
  }

  /** Persisting `events` adds their lines to a ledger that has room for them. */
  lemma {:induction false} LinesAreAppended(s: State, name: Bytes, held: Bytes, events: seq<Event>)
    requires IsVisible(name) && LedgerHolds(s, name, held) && ShortContexts(events) && |held| + |Lines(events)| <= 512
    ensures forall op :: op in LedgerAppends(name, events) ==> IsOperation(op)
    ensures CanRun(s, LedgerAppends(name, events))
    ensures LedgerHolds(RunOnSlots(s, LedgerAppends(name, events)).0, name, held + Lines(events))
    decreases |events|
  {
    LedgerAppendsAreOperations(name, events);
    if events == [] {
      assert held + [] == held;
    } else {
      var e, rest := events[0], events[1..];
      AppendExtendsTheLedger(s, name, held, e.context);
      var t := Appended(s, name, e.context);
      AppendExtendsTheLedger(t, name, held + e.context, NEWLINE);
      LinesAreAppended(Appended(t, name, NEWLINE), name, held + e.context + NEWLINE, rest);
      assert held + e.context + NEWLINE + Lines(rest) == held + Lines(events);
      TwoSteps(s, name, e, rest);
    }
  }

  lemma TwoSteps(s: State, name: Bytes, e: Event, rest: seq<Event>)
    requires IsVisible(name) && ShortContexts([e] + rest)
    requires forall op :: op in LedgerAppends(name, rest) ==> IsOperation(op)
    requires var t := Appended(s, name, e.context);
             CanAppend(s, name, e.context) && CanAppend(t, name, NEWLINE)
             && CanRun(Appended(t, name, NEWLINE), LedgerAppends(name, rest))
    ensures forall op :: op in LedgerAppends(name, [e] + rest) ==> IsOperation(op)
    ensures CanRun(s, LedgerAppends(name, [e] + rest))
    ensures RunOnSlots(s, LedgerAppends(name, [e] + rest)).0 ==
            RunOnSlots(Appended(Appended(s, name, e.context), name, NEWLINE), LedgerAppends(name, rest)).0
  {
    assert ([e] + rest)[1..] == rest;
    LedgerAppendsAreOperations(name, [e] + rest);
    var ops := LedgerAppends(name, [e] + rest);
    assert ops[1..][1..] == LedgerAppends(name, rest);
    assert ops[0] == Extend(name, e.context) && ops[1..][0] == Extend(name, NEWLINE);
  }

  /** Persisting to a volume without a ledger: the first line creates it. */
  lemma LedgerIsCreated(s: State, name: Bytes, events: seq<Event>)
    requires IsVisible(name) && LedgerMissing(s, name) && events != [] && ShortContexts(events)
             && |Lines(events)| <= 512
    ensures forall op :: op in LedgerAppends(name, events) ==> IsOperation(op)
    ensures CanRun(s, LedgerAppends(name, events))
    ensures LedgerHolds(RunOnSlots(s, LedgerAppends(name, events)).0, name, Lines(events))
  {
    var e, rest := events[0], events[1..];
    assert events == [e] + rest && e in events;
    AppendCreatesTheLedger(s, name, e.context);
    var t := Appended(s, name, e.context);
    AppendExtendsTheLedger(t, name, e.context, NEWLINE);
    LinesAreAppended(Appended(t, name, NEWLINE), name, e.context + NEWLINE, rest);
    TwoSteps(s, name, e, rest);
  }

  // ----- whole runs, down to the disk -----

  predicate ShortSteps(steps: seq<Step>) {
    forall step :: step in steps && step.Log? ==> |step.e.context| <= CONTEXT_MAX
  }

  lemma {:induction false} RunsKeepContextsShort(steps: seq<Step>)
    requires ShortSteps(steps)
    ensures ShortContexts(Run(steps).ring.events) && ShortContexts(Run(steps).saved)
    ensures ShortContexts(Pending(Run(steps).ring, Run(steps).ring.cursor))
    decreases |steps|
  {
    if steps != [] {
      var front, step := steps[..|steps| - 1], steps[|steps| - 1];
      assert step in steps;
      RunsKeepContextsShort(front);
      if step.Log? {
        var r := Run(front).ring;
        assert ShortContexts(r.events[r.head := step.e]);
      }
    }
    PendingContextsAreShort(Run(steps).ring, Run(steps).ring.cursor);
  }

  /** The volume after a run in which no device read fails: only syncs write to it. */
  function DiskAfter(g: Geometry, disk: Disk, beyond: FatWalk.Links, name: Bytes, steps: seq<Step>): Disk
    requires IsVisible(name) && ShortSteps(steps)
    decreases |steps|
  {
    if steps == [] then disk
    else
      var front := steps[..|steps| - 1];
      RunsKeepContextsShort(front);
      var before := DiskAfter(g, disk, beyond, name, front);
      if steps[|steps| - 1].Log? then before
      else Persisted(g, before, beyond, name, Pending(Run(front).ring, Run(front).ring.cursor))
  }

  /** What a run may start from: a ledger that holds `held`, or none and room for one. */
  predicate LedgerReady(s: State, name: Bytes, held: Bytes) {
    LedgerHolds(s, name, held) || (held == [] && LedgerMissing(s, name))
  }

  ghost predicate LedgerMatches(start: State, s: State, name: Bytes, held: Bytes, saved: seq<Event>) {
    if saved == [] then s == start else LedgerHolds(s, name, held + Lines(saved))
  }

  /**
   Main theorem: on a well-formed volume, after every run whose persisted lines fit one sector behind
   what the ledger held, it holds one line more per persisted event, and nothing else; by
   `PersistsAPrefix` those are the receipts of a prefix of everything logged.
   */
  lemma {:induction false} LedgerHoldsWhatWasPersisted(
    g: Geometry, disk: Disk, beyond: FatWalk.Links, name: Bytes, held: Bytes, steps: seq<Step>)
    requires IsVisible(name) && WellFormed(g, disk) && LedgerReady(Abs(g, disk), name, held) && ShortSteps(steps)
    requires |held| + |Lines(Run(steps).saved)| <= 512
    ensures var d := DiskAfter(g, disk, beyond, name, steps);
            WellFormed(g, d) && LedgerMatches(Abs(g, disk), Abs(g, d), name, held, Run(steps).saved)
    decreases |steps|
  {
    if steps != [] {
      var front, step := steps[..|steps| - 1], steps[|steps| - 1];
      var h := Run(front);
      RunsKeepContextsShort(front);
      var pending := Pending(h.ring, h.ring.cursor);
      LinesOfConcat(h.saved, pending);
      LedgerHoldsWhatWasPersisted(g, disk, beyond, name, held, front);
      if step.Sync? {
        var before := DiskAfter(g, disk, beyond, name, front);
        var after := Persisted(g, before, beyond, name, pending);
        SyncExtendsTheLedger(g, Abs(g, disk), before, beyond, name, held, h.saved, pending, after);
      }
    }
  }

  lemma {:induction false} SyncExtendsTheLedger(
    g: Geometry, start: State, before: Disk, beyond: FatWalk.Links, name: Bytes, held: Bytes, saved: seq<Event>,
    pending: seq<Event>, d: Disk)
    requires IsVisible(name) && WellFormed(g, before) && LedgerReady(start, name, held)
             && LedgerMatches(start, Abs(g, before), name, held, saved)
    requires ShortContexts(pending) && |held| + |Lines(saved + pending)| <= 512
    requires d == Persisted(g, before, beyond, name, pending)
    ensures WellFormed(g, d) && LedgerMatches(start, Abs(g, d), name, held, saved + pending)
  {
    if pending == [] {
      assert saved + pending == saved && d == before;
    } else {
      var soFar, all := held + Lines(saved), held + Lines(saved + pending);
      LinesFollow(held, saved, pending, soFar, all);
      StillReady(start, Abs(g, before), name, held, saved, soFar);
      LinesReachTheDisk(g, before, beyond, name, soFar, pending, all);
    }
  }

  lemma {:induction false} LinesFollow(held: Bytes, saved: seq<Event>, pending: seq<Event>, soFar: Bytes, all: Bytes)
    requires soFar == held + Lines(saved) && all == held + Lines(saved + pending)
    ensures soFar + Lines(pending) == all
  {
    LinesOfConcat(saved, pending);
    Together(held, Lines(saved), Lines(pending));
  }

  lemma Together(a: Bytes, b: Bytes, c: Bytes)
    ensures (a + b) + c == a + (b + c)
  {
  }

  lemma {:induction false} StillReady(
    start: State, s: State, name: Bytes, held: Bytes, saved: seq<Event>, soFar: Bytes)
    requires LedgerReady(start, name, held) && LedgerMatches(start, s, name, held, saved)
    requires soFar == held + Lines(saved)
    ensures LedgerReady(s, name, soFar)
  {
    assert held + [] == held;
  }

  lemma {:induction false} LinesReachTheDisk(
    g: Geometry, before: Disk, beyond: FatWalk.Links, name: Bytes, held: Bytes, pending: seq<Event>, all: Bytes)
    requires IsVisible(name) && WellFormed(g, before) && LedgerReady(Abs(g, before), name, held)
    requires pending != [] && ShortContexts(pending) && all == held + Lines(pending) && |all| <= 512
    ensures var d := Persisted(g, before, beyond, name, pending);
            WellFormed(g, d) && LedgerHolds(Abs(g, d), name, all)
  {
    ReadyLedgersGrow(Abs(g, before), name, held, pending);
    RunsRefine(g, before, beyond, LedgerAppends(name, pending));
  }

  lemma {:induction false} ReadyLedgersGrow(s: State, name: Bytes, held: Bytes, events: seq<Event>)
    requires IsVisible(name) && LedgerReady(s, name, held)
    requires events != [] && ShortContexts(events) && |held| + |Lines(events)| <= 512
    ensures forall op :: op in LedgerAppends(name, events) ==> IsOperation(op)
    ensures CanRun(s, LedgerAppends(name, events))
    ensures LedgerHolds(RunOnSlots(s, LedgerAppends(name, events)).0, name, held + Lines(events))
  {
    if LedgerHolds(s, name, held) {
      LinesAreAppended(s, name, held, events);
    } else {
      assert held + Lines(events) == Lines(events);
      LedgerIsCreated(s, name, events);
    }
  }
}
