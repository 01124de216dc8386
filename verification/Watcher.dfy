/** The watcher: events logged into the ring, ledger receipts committed, and the ring synchronised to disk. */
module Watcher {
  import opened Machine
  import opened FatLayout
  import FatWalk
  import opened FatVolume
  import opened FatFiles
  import opened FatRefinement
  import opened FatNames
  import opened FatDriver
  import opened LedgerRing
  import opened LedgerText

  const CONTEXT_MAX: nat := 63
  /** "LEDGER.LOG" */
  const LEDGER_FILE: Bytes := [76, 69, 68, 71, 69, 82, 46, 76, 79, 71]
  const NEWLINE: Bytes := [10]

  /** What of a context string a slot keeps. */
  function KeptContext(context: Bytes): Bytes {
    context[..Least(|context|, CONTEXT_MAX)]
  }

  /** The appends that persist these events: the text of each, then a newline. */
  function LedgerAppends(name: Bytes, events: seq<Event>): seq<Operation> {
    if events == [] then []
    else [Extend(name, events[0].context), Extend(name, NEWLINE)] + LedgerAppends(name, events[1..])
  }

  predicate ShortContexts(events: seq<Event>) {
    forall e :: e in events ==> |e.context| <= CONTEXT_MAX
  }

  lemma {:induction false} LedgerAppendsAreOperations(name: Bytes, events: seq<Event>)
    requires IsVisible(name) && ShortContexts(events)
    ensures forall op :: op in LedgerAppends(name, events) ==> IsOperation(op)
    decreases |events|
  {
    if events != [] {
      LedgerAppendsAreOperations(name, events[1..]);
      assert events[0] in events;
    }
  }

  /** The volume after all of those appends. */
  function Persisted(g: Geometry, disk: Disk, beyond: FatWalk.Links, name: Bytes, events: seq<Event>): Disk
    requires IsVisible(name) && ShortContexts(events)
  {
    LedgerAppendsAreOperations(name, events);
    RunOnDisk(g, disk, beyond, LedgerAppends(name, events)).0
  }

  /** A volume after all of those appends, any of which may have stopped early. */
  ghost predicate PartlyPersisted(
    g: Geometry, disk: Disk, beyond: FatWalk.Links, name: Bytes, events: seq<Event>, last: Disk)
    requires IsVisible(name) && ShortContexts(events)
  {
    LedgerAppendsAreOperations(name, events);
    PartlyRun(g, disk, beyond, LedgerAppends(name, events), last)
  }

  /** The ledger's name as the directory stores it. */
  function LedgerName(file: Bytes): (name: Bytes)
    requires IsFileName(file)
    ensures IsVisible(name)
  {
    FormattedNamesAreVisible(file);
    FatName(file)
  }

  class Recorder {
    const events: array<Event>
    var head: nat
    var tail: nat
    var count: nat
    var cursor: nat

    ghost predicate Valid()
      reads this, events
    {
      events.Length == SLOTS && View().Valid() && ShortContexts(events[..])
    }

    ghost function View(): Ring
      reads this, events
    {
      Ring(events[..], head, tail, count, cursor)
    }

    constructor ()
      ensures Valid() && View() == LedgerRing.Empty() && fresh(events)
    {
      events := new Event[SLOTS](_ => EMPTY_SLOT);
      head, tail, count, cursor := 0, 0, 0, 0;
    }

    /** `now` is the reading of the system timer. */
    method LogEvent(now: UInt64, kind: Kind, process: UInt32, context: Bytes)
      requires Valid()
      modifies this, events
      ensures Valid() && View() == old(View()).Logged(Event(now, kind, process, KeptContext(context)))
    {
      ghost var before := events[..];
      var copied: Bytes := [];
      var i := 0;
      while i < |context| && i < CONTEXT_MAX
        invariant i <= |context| && i <= CONTEXT_MAX && copied == context[..i]
      {
        copied := copied + [context[i]];
        i := i + 1;
      }
      events[head] := Event(now, kind, process, copied);
      assert events[..] == before[head := Event(now, kind, process, KeptContext(context))];
      head := (head + 1) % SLOTS;
      if count < SLOTS {
        count := count + 1;
      } else {
        var oldTail := tail;
        tail := (tail + 1) % SLOTS;
        if cursor == oldTail {
          cursor := tail;
        }
      }
    }

    /** A receipt is built in a 64-byte context and logged whole. */
    method CommitLedger(now: UInt64, hash: UInt64, volume: Int32)
      requires Valid()
      modifies this, events
      ensures Valid() && View() == old(View()).Logged(Event(now, LedgerCommit, 0, Receipt(hash, volume)))
    {
      var context := BuildReceipt(hash, volume);
      ReceiptsReadBack(hash, volume);
      assert KeptContext(Receipt(hash, volume)) == Receipt(hash, volume);
      LogEvent(now, LedgerCommit, 0, context);
    }

    /** Flush the receipts between the cursor and the head to the ledger file, then move the cursor to the head. */
    method SyncToDisk(files: Driver)
      requires Valid() && files.Valid()
      modifies this`cursor, files`disk, files`served, files.diskBuffer, files.writeBuffer
      ensures Valid() && View() == old(View()).Synced()
      ensures files.served >= old(files.served)
      ensures IsFileName(LEDGER_FILE)
      ensures Flushed(files.geometry, old(files.disk), files.disk, files.beyond, LEDGER_FILE, old(View()),
                      NoFaults(files.faults, old(files.served), files.served))
    {
      ghost var r := View();
      if cursor == head {
        NothingFlushed(files.geometry, files.disk, files.beyond, LEDGER_FILE, r);
        return;
      }
      Flush(files, LEDGER_FILE);
      cursor := head;
      assert View() == r.Synced();
    }

    method Flush(files: Driver, file: Bytes)
      requires Valid() && files.Valid() && IsFileName(file)
      modifies files`disk, files`served, files.diskBuffer, files.writeBuffer
      ensures files.served >= old(files.served)
      ensures Flushed(files.geometry, old(files.disk), files.disk, files.beyond, file, View(),
                      NoFaults(files.faults, old(files.served), files.served))
    {
      ghost var r := View();
      ghost var name := LedgerName(file);
      PendingContextsAreShort(r, cursor);
      var current: nat := cursor;
      ghost var left := Distance(head, current);
      while current != head
        invariant current < SLOTS && files.served >= old(files.served)
        invariant left == Distance(head, current)
        invariant ShortContexts(Pending(r, current)) && ShortContexts(Pending(r, r.cursor))
        invariant NoFaults(files.faults, old(files.served), files.served) ==>
                    Persisted(files.geometry, old(files.disk), files.beyond, name, Pending(r, r.cursor)) ==
                    Persisted(files.geometry, files.disk, files.beyond, name, Pending(r, current))
        invariant forall d ::
                    PartlyPersisted(files.geometry, files.disk, files.beyond, name, Pending(r, current), d) ==>
                    PartlyPersisted(files.geometry, old(files.disk), files.beyond, name, Pending(r, r.cursor), d)
        modifies files`disk, files`served, files.diskBuffer, files.writeBuffer
        decreases left
      {
        left := left - 1;
        PendingOnce(r, current);
        if events[current].timestamp != 0 && events[current].kind == LedgerCommit {
          AppendEvent(files, file, events[current], Pending(r, (current + 1) % SLOTS));
        } else {
          assert Pending(r, current) == Pending(r, (current + 1) % SLOTS);
        }
        current := (current + 1) % SLOTS;
      }
    }
  }

  /**
   The pending receipts of `r` went to the file one by one and nothing else did, as far as each append
   came: all the way where no read failed.
   */
  ghost predicate Flushed(
    g: Geometry, before: Disk, after: Disk, beyond: FatWalk.Links, file: Bytes, r: Ring, noFaults: bool)
    requires IsFileName(file) && r.Valid()
  {
    var pending := Pending(r, r.cursor);
    && ShortContexts(pending)
    && PartlyPersisted(g, before, beyond, LedgerName(file), pending, after)
    && (noFaults ==> after == Persisted(g, before, beyond, LedgerName(file), pending))
  }

  lemma {:induction false} NothingFlushed(g: Geometry, disk: Disk, beyond: FatWalk.Links, file: Bytes, r: Ring)
    requires IsFileName(file) && r.Valid() && r.cursor == r.head
    ensures forall noFaults :: Flushed(g, disk, disk, beyond, file, r, noFaults)
  {
    assert Pending(r, r.cursor) == [];
  }

  lemma {:induction false} PendingContextsAreShort(r: Ring, current: nat)
    requires r.Valid() && current < SLOTS && ShortContexts(r.events)
    ensures ShortContexts(Pending(r, current))
    decreases (r.head + SLOTS - current) % SLOTS
  {
    if current != r.head {
      PendingOnce(r, current);
      PendingContextsAreShort(r, (current + 1) % SLOTS);
    }
  }

  /** One append to the ledger file as a step of a run. */
  method AppendToLedger(files: Driver, file: Bytes, data: Bytes)
    requires files.Valid() && IsFileName(file) && |data| <= CONTEXT_MAX
    modifies files`disk, files`served, files.diskBuffer, files.writeBuffer
    ensures files.served >= old(files.served) && IsOperation(Extend(LedgerName(file), data))
    ensures Stopped(old(files.disk),
                    TraceOf(files.geometry, old(files.disk), files.beyond, Extend(LedgerName(file), data)), files.disk)
    ensures NoFaults(files.faults, old(files.served), files.served) ==>
              files.disk == Apply(old(files.disk),
                                  TraceOf(files.geometry, old(files.disk), files.beyond,
                                          Extend(LedgerName(file), data)))
  {
    ghost var trace := AppendTrace(files.geometry, files.disk, files.beyond, LedgerName(file), data);
    var done := files.AppendFile(file, data);
    assert trace[..|trace|] == trace;
  }

  /** The two appends of one event, seen as the first steps of a longer run. */
  method AppendEvent(files: Driver, file: Bytes, e: Event, ghost rest: seq<Event>)
    requires files.Valid() && IsFileName(file) && ShortContexts([e] + rest)
    modifies files`disk, files`served, files.diskBuffer, files.writeBuffer
    ensures files.served >= old(files.served) && ShortContexts(rest)
    ensures forall d :: PartlyPersisted(files.geometry, files.disk, files.beyond, LedgerName(file), rest, d) ==>
              PartlyPersisted(files.geometry, old(files.disk), files.beyond, LedgerName(file), [e] + rest, d)
    ensures NoFaults(files.faults, old(files.served), files.served) ==>
              Persisted(files.geometry, old(files.disk), files.beyond, LedgerName(file), [e] + rest) ==
              Persisted(files.geometry, files.disk, files.beyond, LedgerName(file), rest)
  {
    assert e in [e] + rest;
    AppendToLedger(files, file, e.context);
    ghost var between := files.disk;
    AppendToLedger(files, file, NEWLINE);
    PartlyOneByOne(files.geometry, old(files.disk), between, files.disk, files.beyond, LedgerName(file), e, rest);
    PersistedOneByOne(files.geometry, old(files.disk), files.beyond, LedgerName(file), e, rest);
  }

  lemma PersistedOneByOne(g: Geometry, disk: Disk, beyond: FatWalk.Links, name: Bytes, e: Event, rest: seq<Event>)
    requires IsVisible(name) && ShortContexts([e] + rest)
    ensures ShortContexts(rest)
    ensures var a, b := Extend(name, e.context), Extend(name, NEWLINE);
            && IsOperation(a) && IsOperation(b)
            && var d := Apply(disk, TraceOf(g, disk, beyond, a));
               Persisted(g, disk, beyond, name, [e] + rest) ==
               Persisted(g, Apply(d, TraceOf(g, d, beyond, b)), beyond, name, rest)
  {
    assert ([e] + rest)[1..] == rest;
    forall x | x in rest ensures |x.context| <= CONTEXT_MAX {
      assert x in [e] + rest;
    }
    LedgerAppendsAreOperations(name, [e] + rest);
    LedgerAppendsAreOperations(name, rest);
    RunTwo(g, disk, beyond, Extend(name, e.context), Extend(name, NEWLINE), LedgerAppends(name, rest));
  }

  lemma RunTwo(g: Geometry, disk: Disk, beyond: FatWalk.Links, a: Operation, b: Operation, rest: seq<Operation>)
    requires forall op :: op in [a, b] + rest ==> IsOperation(op)
    ensures IsOperation(a) && IsOperation(b) && forall op :: op in rest ==> IsOperation(op)
    ensures var d := Apply(disk, TraceOf(g, disk, beyond, a));
            var d' := Apply(d, TraceOf(g, d, beyond, b));
            RunOnDisk(g, disk, beyond, [a, b] + rest).0 == RunOnDisk(g, d', beyond, rest).0
  {
    var ops := [a, b] + rest;
    assert a in ops && b in ops && forall op :: op in rest ==> op in ops;
    assert ops[1..] == [b] + rest && ([b] + rest)[1..] == rest;
  }

  lemma PartlyOneByOne(
    g: Geometry, disk: Disk, one: Disk, two: Disk, beyond: FatWalk.Links, name: Bytes, e: Event, rest: seq<Event>)
    requires IsVisible(name) && ShortContexts([e] + rest)
    requires var a, b := Extend(name, e.context), Extend(name, NEWLINE);
             && IsOperation(a) && IsOperation(b)
             && Stopped(disk, TraceOf(g, disk, beyond, a), one) && Stopped(one, TraceOf(g, one, beyond, b), two)
    ensures ShortContexts(rest)
    ensures forall d :: PartlyPersisted(g, two, beyond, name, rest, d) ==>
                          PartlyPersisted(g, disk, beyond, name, [e] + rest, d)
  {
    assert ([e] + rest)[1..] == rest;
    forall x | x in rest ensures |x.context| <= CONTEXT_MAX {
      assert x in [e] + rest;
    }
    LedgerAppendsAreOperations(name, [e] + rest);
    LedgerAppendsAreOperations(name, rest);
    forall d | PartlyPersisted(g, two, beyond, name, rest, d)
      ensures PartlyPersisted(g, disk, beyond, name, [e] + rest, d)
    {
      var a, b := Extend(name, e.context), Extend(name, NEWLINE);
      PartlyTwo(g, disk, one, two, beyond, a, b, LedgerAppends(name, rest), d);
    }
  }

  lemma {:induction false} PartlyTwo(
    g: Geometry, disk: Disk, one: Disk, two: Disk, beyond: FatWalk.Links, a: Operation, b: Operation,
    rest: seq<Operation>, d: Disk)
    requires IsOperation(a) && IsOperation(b) && forall op :: op in rest ==> IsOperation(op)
    requires Stopped(disk, TraceOf(g, disk, beyond, a), one) && Stopped(one, TraceOf(g, one, beyond, b), two)
    requires PartlyRun(g, two, beyond, rest, d)
    ensures forall op :: op in [a, b] + rest ==> IsOperation(op)
    ensures PartlyRun(g, disk, beyond, [a, b] + rest, d)
  {
    var ops := [a, b] + rest;
    var tail := ops[1..];
    assert ops[0] == a && tail[0] == b && tail[1..] == rest;
    PartlyOne(g, one, two, beyond, tail, rest, d);
    PartlyOne(g, disk, one, beyond, ops, tail, d);
  }

  lemma {:induction false} PartlyOne(
    g: Geometry, disk: Disk, one: Disk, beyond: FatWalk.Links, ops: seq<Operation>, rest: seq<Operation>, d: Disk)
    requires (forall op :: op in ops ==> IsOperation(op)) && (forall op :: op in rest ==> IsOperation(op))
    requires ops != [] && rest == ops[1..] && IsOperation(ops[0])
    requires Stopped(disk, TraceOf(g, disk, beyond, ops[0]), one) && PartlyRun(g, one, beyond, rest, d)
    ensures PartlyRun(g, disk, beyond, ops, d)
  {
  }

  /** The text of a receipt, part by part into a fixed buffer. */
  method BuildReceipt(hash: UInt64, volume: Int32) returns (context: Bytes)
    ensures context == Receipt(hash, volume)
  {
    var hashText, volumeText := new Byte[17], new Byte[16];
    HexString(hash, hashText);
    var n := DecimalString(volume, volumeText);
    ReceiptsHaveNoNul(hash, volume);
    context := JoinParts(hashText[..16], volumeText[..n]);
  }

  method JoinParts(hex: Bytes, decimal: Bytes) returns (context: Bytes)
    requires |hex| == 16 && |decimal| <= 11 && 0 !in HASH_LABEL + hex + VOLUME_LABEL + decimal
    ensures context == HASH_LABEL + hex + VOLUME_LABEL + decimal
  {
    var buffer, n := new Byte[64], |decimal|;
    CopyInto(buffer, 0, HASH_LABEL);
    assert buffer[..6] == HASH_LABEL;
    CopyInto(buffer, 6, hex);
    assert buffer[..22] == HASH_LABEL + hex;
    CopyInto(buffer, 22, VOLUME_LABEL);
    assert buffer[..30] == HASH_LABEL + hex + VOLUME_LABEL;
    CopyInto(buffer, 30, decimal);
    buffer[30 + n] := 0;
    UpToTheNul(buffer[..], 30 + n);
    context := CString(buffer[..]);
  }

  /** The text that a buffer holds: what comes before its first NUL. */
  function CString(s: Bytes): Bytes {
    if s == [] || s[0] == 0 then [] else [s[0]] + CString(s[1..])
  }

  lemma {:induction false} UpToTheNul(s: Bytes, n: nat)
    requires n < |s| && s[n] == 0 && 0 !in s[..n]
    ensures CString(s) == s[..n]
  {
    if n > 0 {
      assert s[0] == s[..n][0] && s[..n] == [s[0]] + s[1..][..n - 1];
      UpToTheNul(s[1..], n - 1);
    }
  }

  method CopyInto(buffer: array<Byte>, at: nat, text: Bytes)
    requires at + |text| <= buffer.Length
    modifies buffer
    ensures buffer[..at + |text|] == old(buffer[..at]) + text
  {
    for i := 0 to |text|
      invariant buffer[..at + i] == old(buffer[..at]) + text[..i]
    {
      buffer[at + i] := text[i];
    }
  }
}
