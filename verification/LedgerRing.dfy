/**
 The watcher's 64-slot event ring and its synchronisation cursor, as values, and what is persisted
 over whole runs of logging and synchronising.
 */
module LedgerRing {
  import opened Machine
  import opened FatLayout

  const SLOTS: nat := 64

  datatype Kind = NoEvent | Keystroke | FsRead | FsWrite | ProcSpawn | LedgerCommit

  datatype Event = Event(timestamp: UInt64, kind: Kind, process: UInt32, context: Bytes)

  /** What synchronising writes out: ledger receipts in slots that were ever filled. */
  predicate Persistent(e: Event) {
    e.timestamp != 0 && e.kind == LedgerCommit
  }

  datatype Ring = Ring(events: seq<Event>, head: nat, tail: nat, count: nat, cursor: nat) {
    predicate Valid() {
      |events| == SLOTS && head < SLOTS && tail < SLOTS && count <= SLOTS && cursor < SLOTS
    }

    /** Log one event: a full ring loses its oldest, and the cursor is pushed along if it stood there. */
    function Logged(e: Event): (r: Ring)
      requires Valid()
      ensures r.Valid()
    {
      var stored := events[head := e];
      var next := (head + 1) % SLOTS;
      if count < SLOTS then Ring(stored, next, tail, count + 1, cursor)
      else
        var tail' := (tail + 1) % SLOTS;
        Ring(stored, next, tail', count, if cursor == tail then tail' else cursor)
    }

    function Synced(): Ring {
      this.(cursor := head)
    }

    /** The cursor has met the head of a full ring. */
    predicate Lapped() {
      count == SLOTS && cursor == head
    }
  }

  const EMPTY_SLOT: Event := Event(0, NoEvent, 0, [])

  function Empty(): (r: Ring)
    ensures r.Valid()
  {
    Ring(seq(SLOTS, _ => EMPTY_SLOT), 0, 0, 0, 0)
  }

  /** The persistent events from slot `current` up to the head, in ring order. */
  function Pending(r: Ring, current: nat): seq<Event>
    requires r.Valid() && current < SLOTS
    decreases (r.head + SLOTS - current) % SLOTS
  {
    if current == r.head then []
    else
      (if Persistent(r.events[current]) then [r.events[current]] else [])
      + Pending(r, (current + 1) % SLOTS)
  }

  /** How many slots a sync visits from `current` up to the head. */
  function Distance(head: nat, current: nat): (d: nat)
    requires head < SLOTS && current < SLOTS
    decreases (head + SLOTS - current) % SLOTS
  {
    if current == head then 0 else 1 + Distance(head, (current + 1) % SLOTS)
  }

  function Receipts(events: seq<Event>): seq<Event> {
    if events == [] then []
    else (if Persistent(events[0]) then [events[0]] else []) + Receipts(events[1..])
  }

  // ----- whole runs -----

  datatype Step = Log(e: Event) | Sync

  /** The ring, everything logged so far, everything persisted so far. */
  datatype History = History(ring: Ring, logged: seq<Event>, saved: seq<Event>)

  const START: History := History(Empty(), [], [])

  function Next(h: History, step: Step): History
    requires h.ring.Valid()
  {
    match step
    case Log(e) => History(h.ring.Logged(e), h.logged + [e], h.saved)
    case Sync => History(h.ring.Synced(), h.logged, h.saved + Pending(h.ring, h.ring.cursor))
  }

  /** The states of a run, the start included. */
  function Run(steps: seq<Step>): (h: History)
    ensures h.ring.Valid()
    decreases |steps|
  {
    if steps == [] then START else Next(Run(steps[..|steps| - 1]), steps[|steps| - 1])
  }

  function LogsIn(steps: seq<Step>): nat {
    if steps == [] then 0 else LogsIn(steps[..|steps| - 1]) + (if steps[|steps| - 1].Log? then 1 else 0)
  }

  /** How many events had been logged at the last sync; 0 before the first. */
  function LastSync(steps: seq<Step>): (s: nat)
    ensures s <= LogsIn(steps)
  {
    if steps == [] then 0
    else if steps[|steps| - 1].Sync? then LogsIn(steps)
    else LastSync(steps[..|steps| - 1])
  }

  /** The slots hold the last 64 events. */
  ghost predicate HoldsTheLast(slots: seq<Event>, logged: seq<Event>) {
    |slots| == SLOTS && forall i :: 0 <= i < |logged| && |logged| - SLOTS <= i ==> slots[i % SLOTS] == logged[i]
  }

  /** The state of the ring after `n` events, the last sync after `s` of them, while not lapped. */
  ghost predicate OnTrack(h: History, n: nat, s: nat) {
    && |h.logged| == n && s <= n && n - s < SLOTS && (n >= SLOTS ==> s < n)
    && h.ring.Valid()
    && h.ring.head == n % SLOTS && h.ring.cursor == s % SLOTS
    && h.ring.count == (if n < SLOTS then n else SLOTS)
    && h.ring.tail == (if n < SLOTS then 0 else n % SLOTS)
    && HoldsTheLast(h.ring.events, h.logged)
    && h.saved == Receipts(h.logged[..s])
  }

  /** Lapped: the first `m` events are all that will ever have been considered. */
  ghost predicate OffTrack(h: History, m: nat) {
    && h.ring.Valid() && h.ring.Lapped() && h.ring.tail == h.ring.head
    && m <= |h.logged| && h.saved == Receipts(h.logged[..m])
  }

  lemma {:induction false} ReceiptsOfConcat(a: seq<Event>, b: seq<Event>)
    ensures Receipts(a + b) == Receipts(a) + Receipts(b)
  {
    if a == [] {
      assert a + b == b;
    } else {
      var first := if Persistent(a[0]) then [a[0]] else [];
      assert Receipts(a + b) == first + Receipts(a[1..] + b) by {
        assert (a + b)[0] == a[0] && (a + b)[1..] == a[1..] + b;
      }
      ReceiptsOfConcat(a[1..], b);
      Associate(first, Receipts(a[1..]), Receipts(b));
    }
  }

  lemma Associate(a: seq<Event>, b: seq<Event>, c: seq<Event>)
    ensures a + (b + c) == (a + b) + c
  {
  }

  lemma StepAround(i: nat)
    ensures (i % SLOTS + 1) % SLOTS == (i + 1) % SLOTS
  {
  }

  lemma SameSlot(i: nat, j: nat)
    requires i <= j
    ensures i % SLOTS == j % SLOTS <==> (j - i) % SLOTS == 0
  {
    assert j == i + (j - i);
  }

  /** What lies between slot `i` and the head, when fewer than 64 events separate them. */
  lemma {:induction false} PendingIsUnsynced(r: Ring, logged: seq<Event>, i: nat)
    requires r.Valid() && i <= |logged| < i + SLOTS && r.head == |logged| % SLOTS
    requires forall k :: i <= k < |logged| ==> r.events[k % SLOTS] == logged[k]
    ensures Pending(r, i % SLOTS) == Receipts(logged[i..])
    decreases |logged| - i
  {
    SameSlot(i, |logged|);
    if i < |logged| {
      PendingOnce(r, i % SLOTS);
      StepAround(i);
      PendingIsUnsynced(r, logged, i + 1);
      assert logged[i..][1..] == logged[i + 1..];
    }
  }

  lemma PendingOnce(r: Ring, current: nat)
    requires r.Valid() && current < SLOTS && current != r.head
    ensures Pending(r, current) ==
            (if Persistent(r.events[current]) then [r.events[current]] else []) + Pending(r, (current + 1) % SLOTS)
  {
  }

  /** Where head and cursor stand after one event more. */
  lemma PositionsAfterLogging(n: nat, s: nat)
    requires s <= n && n - s < SLOTS && (n >= SLOTS ==> s < n)
    ensures (n % SLOTS + 1) % SLOTS == (n + 1) % SLOTS
    ensures n >= SLOTS ==> s % SLOTS != n % SLOTS
    ensures s % SLOTS == (n + 1) % SLOTS <==> n + 1 - s == SLOTS
  {
    StepAround(n);
    SameSlot(s, n);
    SameSlot(s, n + 1);
  }

  lemma SlotsAfterLogging(slots: seq<Event>, logged: seq<Event>, e: Event)
    requires HoldsTheLast(slots, logged)
    ensures HoldsTheLast(slots[|logged| % SLOTS := e], logged + [e])
  {
    var n, stored, all := |logged|, slots[|logged| % SLOTS := e], logged + [e];
    forall i | 0 <= i < |all| && |all| - SLOTS <= i ensures stored[i % SLOTS] == all[i] {
      SameSlot(i, n);
    }
  }

  lemma LoggingOnTrack(h: History, n: nat, s: nat, e: Event)
    requires OnTrack(h, n, s)
    ensures var d := Next(h, Log(e));
            if n + 1 - s < SLOTS then OnTrack(d, n + 1, s) && !d.ring.Lapped() else OffTrack(d, s)
  {
    assert (h.logged + [e])[..s] == h.logged[..s];
    SlotsAfterLogging(h.ring.events, h.logged, e);
    PositionsAfterLogging(n, s);
  }

  lemma SyncingOnTrack(h: History, n: nat, s: nat)
    requires OnTrack(h, n, s)
    ensures var d := Next(h, Sync);
            if n < SLOTS then OnTrack(d, n, n) && !d.ring.Lapped() else OffTrack(d, n)
  {
    PendingIsUnsynced(h.ring, h.logged, s);
    ReceiptsOfConcat(h.logged[..s], h.logged[s..]);
    assert h.logged[..s] + h.logged[s..] == h.logged == h.logged[..n];
  }

  /** Once lapped, always lapped, and nothing more is persisted. */
  lemma LappedIsAbsorbing(h: History, m: nat, step: Step)
    requires OffTrack(h, m)
    ensures OffTrack(Next(h, step), m) && Next(h, step).saved == h.saved
  {
    match step
    case Sync =>
    case Log(e) => assert (h.logged + [e])[..m] == h.logged[..m];
  }

  /** The run never lapped: at each of its states a full ring had between 1 and 63 unsynced events. */
  predicate KeepsUp(steps: seq<Step>) {
    var n, s := LogsIn(steps), LastSync(steps);
    && (steps == [] || KeepsUp(steps[..|steps| - 1]))
    && n - s < SLOTS && (n >= SLOTS ==> s < n)
  }

  /** How far persistence ever got: the last sync before or at the lap. */
  function Reached(steps: seq<Step>): nat {
    if KeepsUp(steps) then LastSync(steps)
    else if KeepsUp(steps[..|steps| - 1]) then LastSync(steps)
    else Reached(steps[..|steps| - 1])
  }

  /**
   Main theorem: after every run the persisted events are the receipts of a prefix of what was logged,
   in order and once each. The prefix ends at the last sync for as long as the run keeps up; from the
   first moment it does not, it never grows again.
   */
  lemma {:induction false} PersistsAPrefix(steps: seq<Step>)
    ensures var h := Run(steps);
            && |h.logged| == LogsIn(steps) && Reached(steps) <= LogsIn(steps)
            && h.saved == Receipts(h.logged[..Reached(steps)])
            && (KeepsUp(steps) <==> !h.ring.Lapped())
            && (if KeepsUp(steps) then OnTrack(h, LogsIn(steps), LastSync(steps)) else OffTrack(h, Reached(steps)))
    decreases |steps|
  {
    if steps == [] {
    } else {
      var front, step := steps[..|steps| - 1], steps[|steps| - 1];
      PersistsAPrefix(front);
      var h := Run(front);
      if KeepsUp(front) {
        StepsFromTheTrack(steps);
      } else {
        LappedIsAbsorbing(h, Reached(front), step);
        StaysBehind(steps);
      }
    }
  }

  lemma {:induction false} StepsFromTheTrack(steps: seq<Step>)
    requires steps != []
    requires var front := steps[..|steps| - 1]; KeepsUp(front) && OnTrack(Run(front), LogsIn(front), LastSync(front))
    ensures Reached(steps) == LastSync(steps) && |Run(steps).logged| == LogsIn(steps)
    ensures if KeepsUp(steps) then OnTrack(Run(steps), LogsIn(steps), LastSync(steps)) && !Run(steps).ring.Lapped()
            else OffTrack(Run(steps), LastSync(steps))
  {
    var front, step := steps[..|steps| - 1], steps[|steps| - 1];
    match step
    case Sync => SyncingOnTrack(Run(front), LogsIn(front), LastSync(front));
    case Log(e) => LoggingOnTrack(Run(front), LogsIn(front), LastSync(front), e);
  }

  lemma StaysBehind(steps: seq<Step>)
    requires steps != [] && !KeepsUp(steps[..|steps| - 1])
    ensures !KeepsUp(steps) && Reached(steps) == Reached(steps[..|steps| - 1])
  {
  }

  /** Sixty-four events, then a sync: whatever comes after, nothing more is ever persisted. */
  lemma {:induction false} TheFirstSyncOfAFullRingIsTheLast(steps: seq<Step>, more: seq<Step>)
    requires steps != [] && steps[|steps| - 1].Sync? && LogsIn(steps) >= SLOTS
    ensures Run(steps + more).saved == Run(steps).saved
    decreases |more|
  {
    PersistsAPrefix(steps);
    if more == [] {
      assert steps + more == steps;
    } else {
      var front := more[..|more| - 1];
      assert (steps + more)[..|steps + more| - 1] == steps + front;
      TheFirstSyncOfAFullRingIsTheLast(steps, front);
      FallingBehindLasts(steps, front);
      PersistsAPrefix(steps + front);
      LappedIsAbsorbing(Run(steps + front), Reached(steps + front), more[|more| - 1]);
    }
  }

  lemma {:induction false} FallingBehindLasts(steps: seq<Step>, more: seq<Step>)
    requires !KeepsUp(steps)
    ensures !KeepsUp(steps + more)
    decreases |more|
  {
    if more == [] {
      assert steps + more == steps;
    } else {
      assert (steps + more)[..|steps + more| - 1] == steps + more[..|more| - 1];
      FallingBehindLasts(steps, more[..|more| - 1]);
    }
  }
}
