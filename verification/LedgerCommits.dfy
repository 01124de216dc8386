/**
 From what is committed to what LEDGER.LOG says: a line for each receipt that was committed with a
 running clock, in order, and nothing for any other event.
 */
module LedgerCommits {
  import opened Machine
  import opened FatLayout
  import FatWalk
  import opened FatVolume
  import opened FatFiles
  import opened LedgerRing
  import opened LedgerText
  import opened Watcher
  import opened LedgerFile

  /** What is asked of the watcher: a receipt, an event of another kind, or a sync. */
  datatype Act =
    | Commit(now: UInt64, hash: UInt64, volume: Int32)
    | Other(now: UInt64, kind: Kind, process: UInt32, context: Bytes)
    | Flush

  predicate OthersAreNoCommits(acts: seq<Act>) {
    forall act :: act in acts && act.Other? ==> act.kind != LedgerCommit
  }

  /** The same as a step of the ring, as `CommitLedger`, `LogEvent` and `SyncToDisk` carry it out. */
  function StepOf(act: Act): Step {
    match act
    case Commit(now, hash, volume) => Log(Event(now, LedgerCommit, 0, Receipt(hash, volume)))
    case Other(now, kind, process, context) => Log(Event(now, kind, process, KeptContext(context)))
    case Flush => Sync
  }

  function StepsOf(acts: seq<Act>): (steps: seq<Step>)
    ensures |steps| == |acts|
  {
    if acts == [] then [] else StepsOf(acts[..|acts| - 1]) + [StepOf(acts[|acts| - 1])]
  }

  /** The lines that the ledger owes to what was asked. */
  function CommittedLines(acts: seq<Act>): Bytes {
    if acts == [] then []
    else
      var last := acts[|acts| - 1];
      CommittedLines(acts[..|acts| - 1])
      + if last.Commit? && last.now != 0 then Receipt(last.hash, last.volume) + [10] else []
  }

  lemma {:induction false} ActsAreShort(acts: seq<Act>)
    ensures ShortSteps(StepsOf(acts))
  {
    if acts != [] {
      var last := acts[|acts| - 1];
      ActsAreShort(acts[..|acts| - 1]);
      if last.Commit? {
        ReceiptsReadBack(last.hash, last.volume);
      }
    }
  }

  /** The file is called LEDGER.LOG, and a context is kept up to the 63 characters that its slot has room for. */
  lemma NamesAndRoom(context: Bytes)
    ensures |LEDGER_FILE| == 10 && forall i :: 0 <= i < 10 ==> LEDGER_FILE[i] == "LEDGER.LOG"[i] as int
    ensures KeptContext(context) == if |context| <= 63 then context else context[..63]
  {
  }

  /** Everything logged, receipts and others, comes to these lines. */
  lemma {:induction false} LoggedLines(acts: seq<Act>)
    requires OthersAreNoCommits(acts)
    ensures Lines(Receipts(Run(StepsOf(acts)).logged)) == CommittedLines(acts)
    decreases |acts|
  {
    if acts != [] {
      var front, last := acts[..|acts| - 1], acts[|acts| - 1];
      assert StepsOf(acts)[..|acts| - 1] == StepsOf(front);
      LoggedLines(front);
      if !last.Flush? {
        var logged, e := Run(StepsOf(front)).logged, StepOf(last).e;
        ReceiptsOfConcat(logged, [e]);
        LinesOfConcat(Receipts(logged), Receipts([e]));
        assert last in acts;
        OneLine(last, e);
      }
    }
  }

  lemma {:induction false} OneLine(act: Act, e: Event)
    requires !act.Flush? && StepOf(act) == Log(e) && OthersAreNoCommits([act])
    ensures Lines(Receipts([e])) ==
            if act.Commit? && act.now != 0 then Receipt(act.hash, act.volume) + [10] else []
  {
    assert act in [act];
    assert Receipts([e]) == if Persistent(e) then [e] else [];
    assert Lines([e]) == e.context + NEWLINE;
  }

  /** While no sync has come upon 64 events, a sync persists all there is. */
  lemma {:induction false} SyncsPersistAll(steps: seq<Step>)
    requires steps != [] && steps[|steps| - 1].Sync? && KeepsUp(steps[..|steps| - 1])
    ensures Run(steps).saved == Receipts(Run(steps).logged)
  {
    PersistsAPrefix(steps);
    PersistsAPrefix(steps[..|steps| - 1]);
    assert Reached(steps) == LogsIn(steps);
    assert Run(steps).logged[..LogsIn(steps)] == Run(steps).logged;
  }

  /** Fewer than 64 events in all are few enough. */
  lemma {:induction false} FewEventsKeepUp(steps: seq<Step>)
    requires LogsIn(steps) < 64
    ensures KeepsUp(steps)
    decreases |steps|
  {
    if steps != [] {
      FewEventsKeepUp(steps[..|steps| - 1]);
    }
  }

  /**
   Main theorem: after a sync the ledger is what it held and one line for each receipt committed with a
   running clock, in order; no other event leaves anything in it.
   */
  lemma {:induction false} CommitsReachTheLedger(
    g: Geometry, disk: Disk, beyond: FatWalk.Links, name: Bytes, held: Bytes, acts: seq<Act>)
    requires IsVisible(name) && WellFormed(g, disk) && LedgerReady(Abs(g, disk), name, held)
    requires OthersAreNoCommits(acts) && acts != [] && acts[|acts| - 1].Flush?
    requires KeepsUp(StepsOf(acts[..|acts| - 1])) && |held| + |CommittedLines(acts)| <= 512
    ensures ShortSteps(StepsOf(acts))
    ensures var d, lines := DiskAfter(g, disk, beyond, name, StepsOf(acts)), CommittedLines(acts);
            && WellFormed(g, d)
            && if lines == [] then Abs(g, d) == Abs(g, disk) else LedgerHolds(Abs(g, d), name, held + lines)
  {
    var steps := StepsOf(acts);
    assert steps[..|steps| - 1] == StepsOf(acts[..|acts| - 1]);
    ActsAreShort(acts);
    LoggedLines(acts);
    SyncsPersistAll(steps);
    LedgerHoldsWhatWasPersisted(g, disk, beyond, name, held, steps);
    NoEventsNoLines(Run(steps).saved);
  }

  lemma NoEventsNoLines(events: seq<Event>)
    ensures events == [] <==> Lines(events) == []
  {
  }
}
