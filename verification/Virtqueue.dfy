/**
 A split virtqueue of device-writable buffers as a two-party protocol, after section 2.7 of the VirtIO
 1.2 specification. The driver polls in small steps; the device takes buffers and completes them in
 any order; their steps may interleave in any way.
 */
module Virtqueue {
  import opened Machine
  import opened Wrappers

  /** One poll: the descriptor in hand and which of its three updates were made. */
  datatype Phase = Idle | Polling(id: nat, bumped: bool, filled: bool, published: bool)

  /**
   The shared rings and indices, what each party keeps for itself, and the history: every descriptor
   ever offered, taken, completed and consumed, in order.
   */
  datatype World = World(
    size: nat,
    availRing: seq<nat>, availIdx: UInt16, usedRing: seq<nat>, usedIdx: UInt16,
    lastUsed: UInt16, phase: Phase,
    lastAvail: UInt16, held: multiset<nat>, writing: Option<nat>,
    offered: seq<nat>, taken: seq<nat>, completed: seq<nat>, consumed: seq<nat>)

  datatype Step =
    // the driver
    | Read | Bump | Fill | Publish
    // the device
    | Take | WriteUsed(id: nat) | PublishUsed

  /** What section 2.7 of VirtIO 1.2 demands of a queue. */
  predicate IsSize(size: nat) {
    size <= 32768 && IsPowerOfTwo(size)
  }

  /** The ring slot of a running index: its remainder, as `SlotIsRemainder` says. */
  function Slot(i: nat, size: nat): (s: nat)
    requires size > 0
    ensures s < size
  {
    if i < size then i else Slot(i - size, size)
  }

  /** The 16-bit index after `n` increments from 0. */
  function Index(n: nat): UInt16 {
    if n == 0 then 0 else Bumped(Index(n - 1))
  }

  function Settled(p: Phase): Phase
    requires p.Polling?
  {
    if p.bumped && p.published then Idle else p
  }

  // ----- steps -----

  predicate Enabled(w: World, step: Step) {
    match step
    case Read => w.phase.Idle? && w.usedIdx != w.lastUsed
    case Bump => w.phase.Polling? && !w.phase.bumped
    case Fill => w.phase.Polling? && !w.phase.filled
    case Publish => w.phase.Polling? && w.phase.filled && !w.phase.published
    case Take => w.lastAvail != w.availIdx
    case WriteUsed(id) => w.writing.None? && id in w.held
    case PublishUsed => w.writing.Some?
  }

  predicate HasRings(w: World) {
    0 < w.size == |w.availRing| == |w.usedRing|
  }

  function Next(w: World, step: Step): (w': World)
    requires HasRings(w) && Enabled(w, step)
    ensures HasRings(w') && w'.size == w.size
  {
    match step
    case Read =>
      var id := w.usedRing[Slot(w.lastUsed, w.size)];
      w.(phase := Polling(id, false, false, false), consumed := w.consumed + [id])
    case Bump =>
      w.(lastUsed := Bumped(w.lastUsed), phase := Settled(w.phase.(bumped := true)))
    case Fill =>
      w.(availRing := w.availRing[Slot(w.availIdx, w.size) := w.phase.id], phase := w.phase.(filled := true))
    case Publish =>
      w.(availIdx := Bumped(w.availIdx), offered := w.offered + [w.availRing[Slot(w.availIdx, w.size)]],
         phase := Settled(w.phase.(published := true)))
    case Take =>
      var id := w.availRing[Slot(w.lastAvail, w.size)];
      w.(lastAvail := Bumped(w.lastAvail), held := w.held + multiset{id}, taken := w.taken + [id])
    case WriteUsed(id) =>
      w.(usedRing := w.usedRing[Slot(w.usedIdx, w.size) := id], held := w.held - multiset{id}, writing := Some(id))
    case PublishUsed =>
      w.(usedIdx := Bumped(w.usedIdx), completed := w.completed + [w.usedRing[Slot(w.usedIdx, w.size)]],
         writing := None)
  }

  /** Set-up offers every descriptor once. */
  function Start(size: nat): World
    requires size <= 32768
  {
    var all := seq(size, i => i);
    World(size, all, size, seq(size, _ => 0), 0, 0, Idle, 0, multiset{}, None, all, [], [], [])
  }

  /** The state after a run; None when some step of it was not enabled. */
  function Run(size: nat, steps: seq<Step>): (w: Option<World>)
    requires 0 < size <= 32768
    ensures w.Some? ==> HasRings(w.value)
    decreases |steps|
  {
    if steps == [] then Some(Start(size))
    else
      var front := Run(size, steps[..|steps| - 1]);
      var step := steps[|steps| - 1];
      if front.Some? && Enabled(front.value, step) then Some(Next(front.value, step)) else None
  }

  // ----- the invariant -----

  function InPoll(p: Phase): multiset<nat> {
    if p.Polling? && !p.published then multiset{p.id} else multiset{}
  }

  function InWriting(o: Option<nat>): multiset<nat> {
    if o.Some? then multiset{o.value} else multiset{}
  }

  /** Every place a descriptor can be: available, with the device, used but unread, in the poll. */
  function Places(w: World): multiset<nat>
    requires |w.taken| <= |w.offered| && |w.consumed| <= |w.completed|
  {
    multiset(w.offered[|w.taken|..]) + w.held + InWriting(w.writing)
    + multiset(w.completed[|w.consumed|..]) + InPoll(w.phase)
  }

  /** Each of the numbers below `size`, once. */
  function Everything(size: nat): (m: multiset<nat>)
    ensures |m| == size && forall d: nat :: m[d] == if d < size then 1 else 0
  {
    if size == 0 then multiset{} else Everything(size - 1) + multiset{size - 1}
  }

  /** How many completions the driver's own index has passed: a poll reads first and counts later. */
  function Passed(w: World): nat
    requires w.phase.Polling? ==> w.consumed != []
  {
    |w.consumed| - (if w.phase.Polling? && !w.phase.bumped then 1 else 0)
  }

  predicate IndicesCount(w: World) {
    && (w.phase.Polling? ==> w.consumed != [])
    && w.availIdx == Index(|w.offered|) && w.lastAvail == Index(|w.taken|)
    && w.usedIdx == Index(|w.completed|) && w.lastUsed == Index(Passed(w))
  }

  /** `ring` holds the entries `from` up to the end of the history `all`. */
  ghost predicate Holds(ring: seq<nat>, all: seq<nat>, from: nat)
    requires |ring| > 0
  {
    forall i: nat {:trigger all[i]} :: from <= i < |all| ==> ring[Slot(i, |ring|)] == all[i]
  }

  /** The rings and indices agree with the history. */
  ghost predicate Shape(w: World) {
    && IsSize(w.size) && HasRings(w)
    && w.taken <= w.offered && w.consumed <= w.completed
    && IndicesCount(w)
    && Holds(w.availRing, w.offered, |w.taken|) && Holds(w.usedRing, w.completed, |w.consumed|)
    && (w.phase.Polling? && w.phase.filled && !w.phase.published ==>
          w.availRing[Slot(|w.offered|, w.size)] == w.phase.id)
    && (w.phase.Polling? ==> !(w.phase.bumped && w.phase.published) && (w.phase.published ==> w.phase.filled))
    && (w.writing.Some? ==> w.usedRing[Slot(|w.completed|, w.size)] == w.writing.value)
  }

  /** Nothing is lost and nothing appears twice. */
  predicate Conserved(w: World) {
    && |w.taken| <= |w.offered| && |w.consumed| <= |w.completed|
    && |w.taken| == |w.completed| + |w.held| + |InWriting(w.writing)|
    && Places(w) == Everything(w.size)
  }

  /** In numbers: every window is as small as the others leave room for. */
  predicate HasRoom(w: World) {
    && |w.taken| == |w.completed| + |w.held| + |InWriting(w.writing)|
    && |w.offered| - |w.consumed| + |InPoll(w.phase)| == w.size
  }

  ghost predicate Inv(w: World) {
    Shape(w) && Conserved(w)
  }

  // ----- index arithmetic -----

  lemma {:induction false} SlotIsRemainder(i: nat, size: nat)
    requires size > 0
    ensures Slot(i, size) == i % size
  {
    if i >= size {
      SlotIsRemainder(i - size, size);
      assert i % size == (i - size) % size by {
        OneMoreTurn(i - size, size);
      }
    }
  }

  lemma OneMoreTurn(i: nat, size: nat)
    requires size > 0
    ensures (i + size) % size == i % size
  {
    var q, r := i / size, i % size;
    var q', r' := (i + size) / size, (i + size) % size;
    assert size * (q' - q - 1) == r - r';
    Multiples(size, q' - q - 1);
  }

  lemma {:induction false} PowersDivide(n: nat, m: nat)
    requires IsPowerOfTwo(n) && IsPowerOfTwo(m) && n <= m
    ensures exists k: nat :: m == n * k
  {
    if n == 1 {
      assert m == n * m;
    } else {
      PowersDivide(n / 2, m / 2);
      var k: nat :| m / 2 == n / 2 * k;
      assert m == n * k;
    }
  }

  lemma IndexRangeIsAPower()
    ensures IsPowerOfTwo(TWO_TO_THE_16)
  {
    assert IsPowerOfTwo(16);
    assert IsPowerOfTwo(256);
    assert IsPowerOfTwo(4096);
  }

  lemma {:induction false} SlotAfterTurns(i: nat, size: nat, n: nat)
    requires size > 0
    ensures Slot(i + size * n, size) == Slot(i, size)
  {
    if n > 0 {
      SlotAfterTurns(i, size, n - 1);
      assert i + size * n == i + size * (n - 1) + size;
      assert size * (n - 1) >= 0;
    }
  }

  lemma {:induction false} IndexIsRemainder(n: nat)
    ensures Index(n) == n % TWO_TO_THE_16
  {
    if n > 0 {
      IndexIsRemainder(n - 1);
      BumpedIsRemainder(n - 1);
    }
  }

  /** Wrap-around of the index leaves its slot alone. */
  lemma WrappedSlot(n: nat, size: nat)
    requires IsSize(size)
    ensures Slot(Index(n), size) == Slot(n, size)
  {
    var q, r := n / TWO_TO_THE_16, n % TWO_TO_THE_16;
    IndexRangeIsAPower();
    PowersDivide(size, TWO_TO_THE_16);
    var k: nat :| TWO_TO_THE_16 == size * k;
    IndexIsRemainder(n);
    SlotAfterWraps(r, size, k, q);
  }

  lemma {:induction false} SlotAfterWraps(r: nat, size: nat, k: nat, q: nat)
    requires size > 0 && TWO_TO_THE_16 == size * k
    ensures Slot(r + TWO_TO_THE_16 * q, size) == Slot(r, size)
  {
    if q > 0 {
      SlotAfterWraps(r, size, k, q - 1);
      SlotAfterTurns(r + TWO_TO_THE_16 * (q - 1), size, k);
    }
  }

  lemma {:induction false} DifferentSlots(i: nat, j: nat, size: nat)
    requires i < j < i + size
    ensures Slot(i, size) != Slot(j, size)
  {
    if i >= size {
      DifferentSlots(i - size, j - size, size);
    }
  }

  lemma DifferentIndices(i: nat, j: nat)
    requires i <= j < i + TWO_TO_THE_16
    ensures Index(i) == Index(j) <==> i == j
  {
    IndexIsRemainder(i);
    IndexIsRemainder(j);
  }

  lemma IndexDifference(i: nat, n: nat)
    requires n < TWO_TO_THE_16
    ensures Subtract16(Index(i + n), Index(i)) == n
  {
    IndexIsRemainder(i);
    IndexIsRemainder(i + n);
  }

  lemma TheQueueHasRoom(w: World)
    requires Conserved(w)
    ensures HasRoom(w)
  {
    assert |Places(w)| == w.size;
    assert |multiset(w.offered[|w.taken|..])| == |w.offered| - |w.taken|;
    assert |multiset(w.completed[|w.consumed|..])| == |w.completed| - |w.consumed|;
  }

  // ----- every step keeps the invariant -----

  lemma FirstLeaves(s: seq<nat>, k: nat)
    requires k < |s|
    ensures multiset(s[k..]) == multiset{s[k]} + multiset(s[k + 1..])
  {
    assert s[k..] == [s[k]] + s[k + 1..];
  }

  lemma LastJoins(s: seq<nat>, k: nat, x: nat)
    requires k <= |s|
    ensures multiset((s + [x])[k..]) == multiset(s[k..]) + multiset{x}
  {
    assert (s + [x])[k..] == s[k..] + [x];
  }

  lemma HoldsMore(ring: seq<nat>, all: seq<nat>, from: nat, x: nat)
    requires |ring| > 0 && Holds(ring, all, from) && ring[Slot(|all|, |ring|)] == x
    ensures Holds(ring, all + [x], from)
  {
  }

  /** A new entry in the slot behind the last one touches no entry still to be read. */
  lemma SlotIsFree(ring: seq<nat>, all: seq<nat>, from: nat, x: nat)
    requires |ring| > 0 && from <= |all| < from + |ring| && Holds(ring, all, from)
    ensures Holds(ring[Slot(|all|, |ring|) := x], all, from)
    ensures forall i: nat :: from <= i < |all| ==> Slot(i, |ring|) != Slot(|all|, |ring|)
  {
    forall i: nat | from <= i < |all| ensures Slot(i, |ring|) != Slot(|all|, |ring|) {
      DifferentSlots(i, |all|, |ring|);
    }
  }

  /** The entry that each step moves, by the histories. */
  lemma ReadsTheNext(w: World)
    requires Shape(w) && HasRoom(w) && Enabled(w, Read)
    ensures |w.consumed| < |w.completed| && w.usedRing[Slot(w.lastUsed, w.size)] == w.completed[|w.consumed|]
  {
    DifferentIndices(|w.consumed|, |w.completed|);
    WrappedSlot(|w.consumed|, w.size);
  }

  lemma TakesTheNext(w: World)
    requires Shape(w) && HasRoom(w) && Enabled(w, Take)
    ensures |w.taken| < |w.offered| && w.availRing[Slot(w.lastAvail, w.size)] == w.offered[|w.taken|]
  {
    DifferentIndices(|w.taken|, |w.offered|);
    WrappedSlot(|w.taken|, w.size);
  }

  lemma ReadKeepsShape(w: World)
    requires Shape(w) && HasRoom(w) && Enabled(w, Read)
    ensures Shape(Next(w, Read))
  {
    ReadsTheNext(w);
  }

  lemma BumpKeepsShape(w: World)
    requires Shape(w) && Enabled(w, Bump)
    ensures Shape(Next(w, Bump))
  {
  }

  lemma FillKeepsShape(w: World)
    requires Shape(w) && HasRoom(w) && Enabled(w, Fill)
    ensures Shape(Next(w, Fill))
  {
    WrappedSlot(|w.offered|, w.size);
    SlotIsFree(w.availRing, w.offered, |w.taken|, w.phase.id);
  }

  lemma PublishKeepsShape(w: World)
    requires Shape(w) && Enabled(w, Publish)
    ensures Shape(Next(w, Publish)) && Next(w, Publish).offered == w.offered + [w.phase.id]
  {
    WrappedSlot(|w.offered|, w.size);
    HoldsMore(w.availRing, w.offered, |w.taken|, w.phase.id);
  }

  lemma TakeKeepsShape(w: World)
    requires Shape(w) && HasRoom(w) && Enabled(w, Take)
    ensures Shape(Next(w, Take))
  {
    TakesTheNext(w);
  }

  lemma WriteUsedKeepsShape(w: World, id: nat)
    requires Shape(w) && HasRoom(w) && Enabled(w, WriteUsed(id))
    ensures Shape(Next(w, WriteUsed(id)))
  {
    WrappedSlot(|w.completed|, w.size);
    SlotIsFree(w.usedRing, w.completed, |w.consumed|, id);
  }

  lemma PublishUsedKeepsShape(w: World)
    requires Shape(w) && Enabled(w, PublishUsed)
    ensures Shape(Next(w, PublishUsed)) && Next(w, PublishUsed).completed == w.completed + [w.writing.value]
  {
    WrappedSlot(|w.completed|, w.size);
    HoldsMore(w.usedRing, w.completed, |w.consumed|, w.writing.value);
  }

  lemma ReadConserves(w: World)
    requires HasRings(w) && Conserved(w) && Enabled(w, Read)
    requires |w.consumed| < |w.completed| && w.usedRing[Slot(w.lastUsed, w.size)] == w.completed[|w.consumed|]
    ensures Conserved(Next(w, Read))
  {
    FirstLeaves(w.completed, |w.consumed|);
    assert Places(Next(w, Read)) == Places(w);
  }

  lemma PublishConserves(w: World)
    requires HasRings(w) && Conserved(w) && Enabled(w, Publish)
    requires Next(w, Publish).offered == w.offered + [w.phase.id]
    ensures Conserved(Next(w, Publish))
  {
    LastJoins(w.offered, |w.taken|, w.phase.id);
    assert Places(Next(w, Publish)) == Places(w);
  }

  lemma TakeConserves(w: World)
    requires HasRings(w) && Conserved(w) && Enabled(w, Take)
    requires |w.taken| < |w.offered| && w.availRing[Slot(w.lastAvail, w.size)] == w.offered[|w.taken|]
    ensures Conserved(Next(w, Take))
  {
    var w', k, x := Next(w, Take), |w.taken|, w.offered[|w.taken|];
    assert w'.taken == w.taken + [x] && w'.held == w.held + multiset{x};
    TakenPlaces(w, w', k, k + 1, x);
  }

  lemma TakenPlaces(w: World, w': World, k: nat, l: nat, x: nat)
    requires k == |w.taken| < |w.offered| && l == k + 1 == |w'.taken| && x == w.offered[k]
    requires |w.consumed| <= |w.completed| && w'.held == w.held + multiset{x}
    requires w'.offered == w.offered && w'.completed == w.completed && w'.consumed == w.consumed
    requires w'.writing == w.writing && w'.phase == w.phase
    ensures Places(w') == Places(w)
  {
    FirstLeaves(w.offered, k);
    OneMoves(multiset{x}, multiset(w.offered[l..]), w.held, InWriting(w.writing),
             multiset(w.completed[|w.consumed|..]), InPoll(w.phase));
  }

  lemma OneMoves(
    x: multiset<nat>, a: multiset<nat>, b: multiset<nat>, c: multiset<nat>, d: multiset<nat>, e: multiset<nat>)
    ensures (x + a) + b + c + d + e == a + (b + x) + c + d + e
  {
  }

  lemma WriteUsedConserves(w: World, id: nat)
    requires HasRings(w) && Conserved(w) && Enabled(w, WriteUsed(id))
    ensures Conserved(Next(w, WriteUsed(id)))
  {
    assert w.held == (w.held - multiset{id}) + multiset{id};
    assert Places(Next(w, WriteUsed(id))) == Places(w);
  }

  lemma PublishUsedConserves(w: World)
    requires HasRings(w) && Conserved(w) && Enabled(w, PublishUsed)
    requires Next(w, PublishUsed).completed == w.completed + [w.writing.value]
    ensures Conserved(Next(w, PublishUsed))
  {
    LastJoins(w.completed, |w.consumed|, w.writing.value);
    assert Places(Next(w, PublishUsed)) == Places(w);
  }

  lemma NothingMoves(w: World, step: Step)
    requires HasRings(w) && Conserved(w) && Enabled(w, step) && (step.Bump? || step.Fill?)
    requires w.phase.Polling? && (w.phase.published ==> w.phase.filled)
    ensures Conserved(Next(w, step))
  {
    assert InPoll(Next(w, step).phase) == InPoll(w.phase);
  }

  /** Each step moves one descriptor from one place to another, or none. */
  lemma StepsConserve(w: World, step: Step)
    requires Shape(w) && Conserved(w) && Enabled(w, step)
    ensures Conserved(Next(w, step))
  {
    TheQueueHasRoom(w);
    match step
    case Read => ReadsTheNext(w); ReadConserves(w);
    case Bump => NothingMoves(w, step);
    case Fill => NothingMoves(w, step);
    case Publish => PublishKeepsShape(w); PublishConserves(w);
    case Take => TakesTheNext(w); TakeConserves(w);
    case WriteUsed(id) => WriteUsedConserves(w, id);
    case PublishUsed => PublishUsedKeepsShape(w); PublishUsedConserves(w);
  }

  lemma StepsKeepInv(w: World, step: Step)
    requires Inv(w) && Enabled(w, step)
    ensures Inv(Next(w, step))
  {
    TheQueueHasRoom(w);
    StepsConserve(w, step);
    match step
    case Read => ReadKeepsShape(w);
    case Bump => BumpKeepsShape(w);
    case Fill => FillKeepsShape(w);
    case Publish => PublishKeepsShape(w);
    case Take => TakeKeepsShape(w);
    case WriteUsed(id) => WriteUsedKeepsShape(w, id);
    case PublishUsed => PublishUsedKeepsShape(w);
  }

  lemma {:induction false} CountingUp(size: nat)
    ensures multiset(seq(size, i => i)) == Everything(size)
  {
    if size > 0 {
      CountingUp(size - 1);
      assert seq(size, i => i) == seq(size - 1, i => i) + [size - 1];
    }
  }

  lemma StartIsSafe(size: nat)
    requires IsSize(size)
    ensures Inv(Start(size))
  {
    var w := Start(size);
    CountingUp(size);
    assert w.offered[0..] == w.offered && w.completed[0..] == [];
    IndexIsRemainder(size);
  }

  /** Main theorem: the invariant holds after every run, whatever the interleaving. */
  lemma {:induction false} RunsAreSafe(size: nat, steps: seq<Step>)
    requires IsSize(size) && Run(size, steps).Some?
    ensures Inv(Run(size, steps).value)
    decreases |steps|
  {
    if steps == [] {
      StartIsSafe(size);
    } else {
      RunsAreSafe(size, steps[..|steps| - 1]);
      StepsKeepInv(Run(size, steps[..|steps| - 1]).value, steps[|steps| - 1]);
    }
  }

  // ----- what it means -----

  function CountIn(s: seq<nat>, d: nat): nat {
    multiset(s)[d]
  }

  /** Conservation: every descriptor is in exactly one place, and nothing else is in any. */
  lemma EachDescriptorIsInOnePlace(size: nat, steps: seq<Step>, d: nat)
    requires IsSize(size) && Run(size, steps).Some?
    ensures var w := Run(size, steps).value;
            && |w.taken| <= |w.offered| && |w.consumed| <= |w.completed|
            && CountIn(w.offered[|w.taken|..], d) + w.held[d] + (if w.writing == Some(d) then 1 else 0)
               + CountIn(w.completed[|w.consumed|..], d) + InPoll(w.phase)[d]
               == if d < size then 1 else 0
  {
    RunsAreSafe(size, steps);
    RunKeepsSize(size, steps);
    var w := Run(size, steps).value;
    assert Places(w)[d] == Everything(size)[d];
  }

  lemma {:induction false} RunKeepsSize(size: nat, steps: seq<Step>)
    requires 0 < size <= 32768 && Run(size, steps).Some?
    ensures Run(size, steps).value.size == size
    decreases |steps|
  {
    if steps != [] {
      RunKeepsSize(size, steps[..|steps| - 1]);
    }
  }

  /** Delivery: what was consumed is the beginning of what was completed, in that order, each once. */
  lemma CompletionsAreConsumedInOrder(size: nat, steps: seq<Step>)
    requires IsSize(size) && Run(size, steps).Some?
    ensures var w := Run(size, steps).value;
            && w.consumed <= w.completed && w.taken <= w.offered
            && (w.phase.Idle? ==> (Enabled(w, Read) <==> w.consumed != w.completed))
            && (w.phase.Idle? && Enabled(w, Read) ==> Next(w, Read).consumed == w.completed[..|w.consumed| + 1])
  {
    RunsAreSafe(size, steps);
    if Run(size, steps).value.phase.Idle? {
      WhatIsUnreadCanBeRead(Run(size, steps).value);
    }
  }

  lemma WhatIsUnreadCanBeRead(w: World)
    requires Inv(w) && w.phase.Idle?
    ensures Enabled(w, Read) <==> w.consumed != w.completed
    ensures Enabled(w, Read) ==>
              |w.consumed| < |w.completed| && Next(w, Read).consumed == w.completed[..|w.consumed| + 1]
  {
    TheQueueHasRoom(w);
    DifferentIndices(|w.consumed|, |w.completed|);
    if Enabled(w, Read) {
      ReadsTheNext(w);
    } else {
      assert w.completed[..|w.completed|] == w.completed;
    }
  }

  /** Neither party ever writes a ring slot whose entry the other still has to read. */
  lemma NoUnreadSlotIsOverwritten(size: nat, steps: seq<Step>)
    requires IsSize(size) && Run(size, steps).Some?
    ensures var w := Run(size, steps).value;
            && (Enabled(w, Fill) ==>
                  forall i: nat :: |w.taken| <= i < |w.offered| ==> Slot(i, size) != Slot(w.availIdx, size))
            && (w.writing.None? && |w.held| > 0 ==>
                  forall i: nat :: |w.consumed| <= i < |w.completed| ==> Slot(i, size) != Slot(w.usedIdx, size))
  {
    RunsAreSafe(size, steps);
    RunKeepsSize(size, steps);
    var w := Run(size, steps).value;
    TheQueueHasRoom(w);
    WrappedSlot(|w.offered|, size);
    WrappedSlot(|w.completed|, size);
    if Enabled(w, Fill) {
      SlotIsFree(w.availRing, w.offered, |w.taken|, 0);
    }
    if w.writing.None? && |w.held| > 0 {
      SlotIsFree(w.usedRing, w.completed, |w.consumed|, 0);
    }
  }

  lemma IndicesApart(w: World)
    requires Inv(w) && w.phase.Idle?
    ensures Subtract16(w.availIdx, w.lastUsed) == w.size
  {
    TheQueueHasRoom(w);
    var c := |w.consumed|;
    assert |w.offered| == c + w.size;
    IndexDifference(c, w.size);
  }

  /** Between polls the two indices the driver owns differ by the queue size, modulo 65536. */
  lemma IndicesStayAQueueApart(size: nat, steps: seq<Step>)
    requires IsSize(size) && Run(size, steps).Some?
    ensures var w := Run(size, steps).value;
            w.phase.Idle? ==> Subtract16(w.availIdx, w.lastUsed) == size
  {
    RunsAreSafe(size, steps);
    RunKeepsSize(size, steps);
    var w := Run(size, steps).value;
    if w.phase.Idle? {
      IndicesApart(w);
    }
  }
}
