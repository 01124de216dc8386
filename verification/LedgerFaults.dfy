/**
 What LEDGER.LOG holds when device reads fail: an append that is cut short leaves it with or without
 its text, and the next one goes on, so that whole pieces of lines are missing but no piece is cut,
 repeated or out of order, and the volume stays well formed.
 */
module LedgerFaults {
  import opened FatLayout
  import FatWalk
  import opened FatVolume
  import opened FatFiles
  import opened FatRefinement
  import opened LedgerRing
  import opened Watcher
  import opened LedgerFile

  /** The ledger holds `bytes`; it may be missing where that is nothing. */
  predicate LedgerIs(s: State, name: Bytes, bytes: Bytes) {
    var slot := FirstNamed(s.slots, name, 0);
    s.clusterSize >= 512 && if slot == |s.slots| then bytes == [] else s.slots[slot] == File(name, bytes)
  }

  /** `kept` is what these appends add when some of them add nothing. */
  ghost predicate Remains(kept: Bytes, appends: seq<Operation>)
    requires forall op :: op in appends ==> op.Extend?
    decreases |appends|
  {
    if appends == [] then kept == []
    else
      assert appends[0] in appends;
      Remains(kept, appends[1..])
      || exists rest :: kept == appends[0].data + rest && Remains(rest, appends[1..])
  }

  function Total(appends: seq<Operation>): nat
    requires forall op :: op in appends ==> op.Extend?
  {
    if appends == [] then 0
    else
      assert appends[0] in appends;
      |appends[0].data| + Total(appends[1..])
  }

  ghost predicate AppendsTo(name: Bytes, ops: seq<Operation>) {
    forall op :: op in ops ==> op.Extend? && op.name == name && IsOperation(op)
  }

  lemma {:induction false} LedgerAppendsTo(name: Bytes, events: seq<Event>)
    requires IsVisible(name) && ShortContexts(events)
    ensures AppendsTo(name, LedgerAppends(name, events)) && Total(LedgerAppends(name, events)) == |Lines(events)|
    decreases |events|
  {
    if events != [] {
      var ops, rest := LedgerAppends(name, events), LedgerAppends(name, events[1..]);
      assert events[0] in events;
      LedgerAppendsTo(name, events[1..]);
      assert ops[1..] == [Extend(name, NEWLINE)] + rest && ops[1..][1..] == rest;
    }
  }

  lemma {:induction false} NoMoreThanAll(kept: Bytes, appends: seq<Operation>)
    requires (forall op :: op in appends ==> op.Extend?) && Remains(kept, appends)
    ensures |kept| <= Total(appends)
    decreases |appends|
  {
    if appends != [] {
      assert appends[0] in appends;
      if Remains(kept, appends[1..]) {
        NoMoreThanAll(kept, appends[1..]);
      } else {
        var rest :| kept == appends[0].data + rest && Remains(rest, appends[1..]);
        NoMoreThanAll(rest, appends[1..]);
      }
    }
  }

  lemma {:induction false} RemainsOfConcat(k: Bytes, l: Bytes, a: seq<Operation>, b: seq<Operation>)
    requires (forall op :: op in a ==> op.Extend?) && (forall op :: op in b ==> op.Extend?)
    requires Remains(k, a) && Remains(l, b)
    ensures Remains(k + l, a + b)
    decreases |a|
  {
    if a == [] {
      assert k + l == l && a + b == b;
    } else {
      assert (a + b)[1..] == a[1..] + b && a[0] in a;
      if Remains(k, a[1..]) {
        RemainsOfConcat(k, l, a[1..], b);
      } else {
        var rest :| k == a[0].data + rest && Remains(rest, a[1..]);
        RemainsOfConcat(rest, l, a[1..], b);
        Together(a[0].data, rest, l);
      }
    }
  }

  // ----- one append -----

  /** With room in its sector, an append adds all of its text; without a ledger it may fail to create one. */
  lemma {:induction false} AppendAddsAllOrNothing(s: State, name: Bytes, held: Bytes, data: Bytes)
    requires IsVisible(name) && LedgerIs(s, name, held) && |held| + |data| <= 512
    ensures CanAppend(s, name, data)
    ensures LedgerIs(Appended(s, name, data), name, held) || LedgerIs(Appended(s, name, data), name, held + data)
  {
    if FirstNamed(s.slots, name, 0) < |s.slots| {
      AppendExtendsTheLedger(s, name, held, data);
    } else {
      assert held + data == data;
      NewNameIsFound(s.slots, name, 0, data);
    }
  }

  lemma {:induction false} StoppedAppends(
    g: Geometry, disk: Disk, beyond: FatWalk.Links, op: Operation, held: Bytes, d: Disk)
    requires WellFormed(g, disk) && IsOperation(op) && op.Extend? && LedgerIs(Abs(g, disk), op.name, held)
    requires |held| + |op.data| <= 512 && Stopped(disk, TraceOf(g, disk, beyond, op), d)
    ensures WellFormed(g, d)
    ensures LedgerIs(Abs(g, d), op.name, held) || LedgerIs(Abs(g, d), op.name, held + op.data)
  {
    var s, t := Abs(g, disk), Appended(Abs(g, disk), op.name, op.data);
    AppendAddsAllOrNothing(s, op.name, held, op.data);
    var done: nat :| done <= |TraceOf(g, disk, beyond, op)| && d == Apply(disk, TraceOf(g, disk, beyond, op)[..done]);
    CrashesAreAtomic(g, disk, beyond, op, done);
    assert t.clusterSize == s.clusterSize == Abs(g, d).clusterSize;
  }

  // ----- runs of appends -----

  /** Main theorem: interrupted appends leave a well-formed volume and whole pieces, in order. */
  lemma {:induction false} InterruptedAppends(
    g: Geometry, disk: Disk, beyond: FatWalk.Links, name: Bytes, held: Bytes, ops: seq<Operation>, last: Disk)
    returns (kept: Bytes)
    requires WellFormed(g, disk) && LedgerIs(Abs(g, disk), name, held) && IsVisible(name) && AppendsTo(name, ops)
    requires |held| + Total(ops) <= 512 && PartlyRun(g, disk, beyond, ops, last)
    ensures WellFormed(g, last) && Remains(kept, ops) && LedgerIs(Abs(g, last), name, held + kept)
    decreases |ops|
  {
    if ops == [] {
      kept := [];
      assert held + kept == held;
    } else {
      var op, rest := ops[0], ops[1..];
      assert op in ops && AppendsTo(name, rest);
      var d :| Stopped(disk, TraceOf(g, disk, beyond, op), d) && PartlyRun(g, d, beyond, rest, last);
      StoppedAppends(g, disk, beyond, op, held, d);
      if LedgerIs(Abs(g, d), name, held) {
        kept := InterruptedAppends(g, d, beyond, name, held, rest, last);
      } else {
        var more := InterruptedAppends(g, d, beyond, name, held + op.data, rest, last);
        kept := op.data + more;
        Together(held, op.data, more);
      }
    }
  }

  // ----- whole runs -----

  /** A volume after a run in which any device read may fail: each sync leaves what its appends came to. */
  ghost predicate PartlyAfter(g: Geometry, disk: Disk, beyond: FatWalk.Links, name: Bytes, steps: seq<Step>, d: Disk)
    requires IsVisible(name) && ShortSteps(steps)
    decreases |steps|
  {
    if steps == [] then d == disk
    else
      var front := steps[..|steps| - 1];
      RunsKeepContextsShort(front);
      if steps[|steps| - 1].Log? then PartlyAfter(g, disk, beyond, name, front, d)
      else
        exists before ::
          && PartlyAfter(g, disk, beyond, name, front, before)
          && PartlyPersisted(g, before, beyond, name, Pending(Run(front).ring, Run(front).ring.cursor), d)
  }

  /**
   Main theorem: whatever reads fail in a run whose lines fit one sector behind what the ledger held,
   the volume stays well formed and the ledger holds that and what remains of the lines.
   */
  lemma {:induction false} FaultsLoseOnlyWholePieces(
    g: Geometry, disk: Disk, beyond: FatWalk.Links, name: Bytes, held: Bytes, steps: seq<Step>, d: Disk)
    returns (kept: Bytes)
    requires IsVisible(name) && WellFormed(g, disk) && LedgerIs(Abs(g, disk), name, held) && ShortSteps(steps)
    requires |held| + |Lines(Run(steps).saved)| <= 512 && PartlyAfter(g, disk, beyond, name, steps, d)
    ensures WellFormed(g, d) && LedgerIs(Abs(g, d), name, held + kept)
    ensures AppendsTo(name, LedgerAppends(name, Run(steps).saved))
    ensures Remains(kept, LedgerAppends(name, Run(steps).saved))
    decreases |steps|
  {
    RunsKeepContextsShort(steps);
    LedgerAppendsTo(name, Run(steps).saved);
    if steps == [] {
      kept := [];
      assert held + kept == held;
    } else {
      var front, step := steps[..|steps| - 1], steps[|steps| - 1];
      var h := Run(front);
      RunsKeepContextsShort(front);
      if step.Log? {
        kept := FaultsLoseOnlyWholePieces(g, disk, beyond, name, held, front, d);
      } else {
        var pending := Pending(h.ring, h.ring.cursor);
        var before :| PartlyAfter(g, disk, beyond, name, front, before)
                      && PartlyPersisted(g, before, beyond, name, pending, d);
        LinesOfConcat(h.saved, pending);
        var soFar := FaultsLoseOnlyWholePieces(g, disk, beyond, name, held, front, before);
        kept := SyncLosesOnlyWholePieces(g, before, beyond, name, held, h.saved, soFar, pending, d);
      }
    }
  }

  lemma {:induction false} SyncLosesOnlyWholePieces(
    g: Geometry, before: Disk, beyond: FatWalk.Links, name: Bytes, held: Bytes, saved: seq<Event>, soFar: Bytes,
    pending: seq<Event>, d: Disk)
    returns (kept: Bytes)
    requires IsVisible(name) && WellFormed(g, before) && LedgerIs(Abs(g, before), name, held + soFar)
    requires ShortContexts(saved) && ShortContexts(pending) && |held| + |Lines(saved)| + |Lines(pending)| <= 512
    requires AppendsTo(name, LedgerAppends(name, saved)) && Remains(soFar, LedgerAppends(name, saved))
    requires PartlyPersisted(g, before, beyond, name, pending, d)
    ensures WellFormed(g, d) && LedgerIs(Abs(g, d), name, held + kept)
    ensures AppendsTo(name, LedgerAppends(name, saved + pending))
    ensures Remains(kept, LedgerAppends(name, saved + pending))
  {
    var first, ops := LedgerAppends(name, saved), LedgerAppends(name, pending);
    LedgerAppendsTo(name, saved);
    LedgerAppendsTo(name, pending);
    NoMoreThanAll(soFar, first);
    var more := InterruptedAppends(g, before, beyond, name, held + soFar, ops, d);
    kept := soFar + more;
    Together(held, soFar, more);
    RemainsOfConcat(soFar, more, first, ops);
    AppendsOfConcat(name, saved, pending);
  }

  lemma {:induction false} AppendsOfConcat(name: Bytes, a: seq<Event>, b: seq<Event>)
    ensures LedgerAppends(name, a + b) == LedgerAppends(name, a) + LedgerAppends(name, b)
  {
    if a == [] {
      assert a + b == b;
    } else {
      assert (a + b)[1..] == a[1..] + b;
      AppendsOfConcat(name, a[1..], b);
    }
  }
}
