/**
 The receive queues of the network and input drivers over shared memory. The device runs between any
 two memory accesses of the driver, by a script that nothing is known of.
 */
module VirtqueueDriver {
  import opened Machine
  import opened Wrappers
  import opened Virtqueue

  /** What the device tries next; a move that makes no sense is skipped. */
  datatype Move = TryTake | TryWriteUsed(id: nat) | TryPublishUsed

  function StepOf(move: Move): Step {
    match move
    case TryTake => Take
    case TryWriteUsed(id) => WriteUsed(id)
    case TryPublishUsed => PublishUsed
  }

  /** The steps that `n` moves of a script come to: each that is enabled when its turn comes. */
  function Attempts(w: World, script: nat -> Move, from: nat, n: nat): seq<Step>
    requires HasRings(w)
    decreases n
  {
    if n == 0 then []
    else
      var step := StepOf(script(from));
      Attempt(w, step) + Attempts(Attempted(w, step), script, from + 1, n - 1)
  }

  function Attempt(w: World, step: Step): seq<Step> {
    if Enabled(w, step) then [step] else []
  }

  function Attempted(w: World, step: Step): (w': World)
    requires HasRings(w)
    ensures HasRings(w')
  {
    if Enabled(w, step) then Next(w, step) else w
  }

  lemma {:induction false} NoAttempts(before: seq<Step>, w: World, script: nat -> Move, from: nat)
    requires HasRings(w)
    ensures before + Attempts(w, script, from, 0) == before
  {
  }

  lemma {:induction false} OneMoreAttempt(
    before: seq<Step>, mid: seq<Step>, after: seq<Step>, w: World, w': World, step: Step, script: nat -> Move,
    from: nat, next: nat, n: nat)
    requires HasRings(w) && n > 0 && step == StepOf(script(from)) && w' == Attempted(w, step) && next == from + 1
    requires mid == before + Attempt(w, step) && after == mid + Attempts(w', script, next, n - 1)
    ensures after == before + Attempts(w, script, from, n)
  {
  }

  lemma RunGoesOn(size: nat, steps: seq<Step>, step: Step)
    requires IsSize(size) && Run(size, steps).Some? && Enabled(Run(size, steps).value, step)
    ensures size > 0 && Run(size, steps + [step]) == Some(Next(Run(size, steps).value, step))
  {
    assert (steps + [step])[..|steps|] == steps;
  }

  lemma TakingChanges(w: World, id: nat)
    requires HasRings(w) && Enabled(w, Take) && id == w.availRing[Slot(w.lastAvail, w.size)]
    ensures Next(w, Take) ==
            World(w.size, w.availRing, w.availIdx, w.usedRing, w.usedIdx, w.lastUsed, w.phase,
                  Bumped(w.lastAvail), w.held + multiset{id}, w.writing, w.offered, w.taken + [id], w.completed,
                  w.consumed)
  {
  }

  class Queue {
    const size: nat
    const availRing: array<nat>
    var availIdx: UInt16
    const usedRing: array<nat>
    var usedIdx: UInt16
    var lastUsedIdx: UInt16

    // the device's own state
    var lastAvail: UInt16
    var held: multiset<nat>
    var writing: Option<nat>
    const script: nat -> Move
    const pauses: nat -> nat
    var clock: nat
    var pause: nat

    ghost var phase: Phase
    ghost var offered: seq<nat>
    ghost var taken: seq<nat>
    ghost var completed: seq<nat>
    ghost var consumed: seq<nat>
    ghost var trace: seq<Step>

    ghost function View(): World
      reads this, availRing, usedRing
    {
      World(size, availRing[..], availIdx, usedRing[..], usedIdx, lastUsedIdx, phase, lastAvail, held, writing,
            offered, taken, completed, consumed)
    }

    /** The state is the one that a run of the protocol ends in. */
    ghost predicate Valid()
      reads this, availRing, usedRing
    {
      IsSize(size) && size > 0 && availRing != usedRing && Run(size, trace) == Some(View())
    }

    method SlotOf(i: UInt16) returns (slot: nat)
      requires size > 0
      ensures slot == Slot(i, size)
    {
      SlotIsRemainder(i, size);
      slot := i % size;
    }

    /** Set-up: every descriptor is offered before the device starts. */
    constructor (size: nat, script: nat -> Move, pauses: nat -> nat)
      requires IsSize(size) && size > 0
      ensures Valid() && phase.Idle? && View() == Start(size)
      ensures fresh(availRing) && fresh(usedRing)
    {
      this.size, this.script, this.pauses := size, script, pauses;
      var avail := new nat[size](_ => 0);
      for i := 0 to size
        invariant forall k :: 0 <= k < i ==> avail[k] == k
      {
        avail[i] := i;
      }
      availRing := avail;
      usedRing := new nat[size](_ => 0);
      availIdx := size;
      usedIdx, lastUsedIdx, lastAvail, held, writing, clock, pause := 0, 0, 0, multiset{}, None, 0, 0;
      phase, offered, taken, completed, consumed := Idle, seq(size, i => i), [], [], [];
      trace := [];
      new;
      assert availRing[..] == seq(size, i => i) && usedRing[..] == seq(size, _ => 0);
    }

    lemma ViewHasRings()
      requires Valid()
      ensures HasRings(View())
    {
    }

    method DeviceTakes()
      requires Valid() && Enabled(View(), Take)
      modifies this`lastAvail, this`held, this`taken, this`trace
      ensures Valid() && trace == old(trace) + [Take]
      ensures HasRings(old(View())) && View() == Next(old(View()), Take)
    {
      ghost var before := View();
      RunGoesOn(size, trace, Take);
      var slot := SlotOf(lastAvail);
      var id := availRing[slot];
      TakingChanges(before, id);
      held, lastAvail := held + multiset{id}, Bumped(lastAvail);
      taken, trace := taken + [id], trace + [Take];
      assert availRing[..] == before.availRing && usedRing[..] == before.usedRing;
    }

    method DeviceWrites(id: nat)
      requires Valid() && Enabled(View(), WriteUsed(id))
      modifies this`held, this`writing, this`trace, usedRing
      ensures Valid() && trace == old(trace) + [WriteUsed(id)]
      ensures HasRings(old(View())) && View() == Next(old(View()), WriteUsed(id))
    {
      ghost var before := View();
      RunGoesOn(size, trace, WriteUsed(id));
      var slot := SlotOf(usedIdx);
      usedRing[slot] := id;
      held, writing, trace := held - multiset{id}, Some(id), trace + [WriteUsed(id)];
      assert View() == Next(before, WriteUsed(id));
    }

    method DevicePublishes()
      requires Valid() && Enabled(View(), PublishUsed)
      modifies this`writing, this`usedIdx, this`completed, this`trace
      ensures Valid() && old(completed) <= completed && trace == old(trace) + [PublishUsed]
      ensures HasRings(old(View())) && View() == Next(old(View()), PublishUsed)
    {
      ghost var before := View();
      RunGoesOn(size, trace, PublishUsed);
      var slot := SlotOf(usedIdx);
      completed, trace := completed + [usedRing[slot]], trace + [PublishUsed];
      writing, usedIdx := None, Bumped(usedIdx);
      assert View() == Next(before, PublishUsed);
    }

    /** One move of the device, if it is enabled. */
    method DeviceMoves(move: Move)
      requires Valid()
      modifies this`lastAvail, this`held, this`writing, this`usedIdx, this`taken, this`completed, this`trace, usedRing
      ensures Valid() && old(completed) <= completed
      ensures HasRings(old(View())) && View() == Attempted(old(View()), StepOf(move))
      ensures trace == old(trace) + Attempt(old(View()), StepOf(move))
    {
      match move
      case TryTake =>
        if lastAvail != availIdx {
          DeviceTakes();
        }
      case TryWriteUsed(id) =>
        if writing.None? && id in held {
          DeviceWrites(id);
        }
      case TryPublishUsed =>
        if writing.Some? {
          DevicePublishes();
        }
    }

    /** The device makes the next `n` moves of its script; what it cannot touch is not in the frame. */
    method DeviceRuns(n: nat)
      requires Valid() && HasRings(View())
      modifies this`lastAvail, this`held, this`writing, this`usedIdx, this`taken, this`completed, this`trace, usedRing,
               this`clock
      ensures Valid() && old(completed) <= completed && clock == old(clock) + n
      ensures trace == old(trace) + Attempts(old(View()), script, old(clock), n)
      decreases n
    {
      ghost var w, before, from := View(), trace, clock;
      if n == 0 {
        NoAttempts(before, w, script, from);
        return;
      }
      ghost var step := StepOf(script(clock));
      DeviceMoves(script(clock));
      clock := clock + 1;
      ghost var w', mid, next := View(), trace, clock;
      DeviceRuns(n - 1);
      OneMoreAttempt(before, mid, trace, w, w', step, script, from, next, n);
    }

    /** A break between two accesses of the driver. */
    method Meanwhile()
      requires Valid()
      modifies this`lastAvail, this`held, this`writing, this`usedIdx, this`taken, this`completed, this`trace, usedRing,
               this`clock, this`pause
      ensures Valid() && old(completed) <= completed && old(trace) <= trace && pause == old(pause) + 1
      ensures clock == old(clock) + pauses(old(pause))
    {
      ViewHasRings();
      DeviceRuns(pauses(pause));
      pause := pause + 1;
    }

    // ----- the driver's steps -----

    method ReadUsed() returns (id: nat)
      requires Valid() && Enabled(View(), Read)
      modifies this`phase, this`consumed, this`trace
      ensures Valid() && trace == old(trace) + [Read]
      ensures old(|consumed| < |completed|) && id == completed[old(|consumed|)] && consumed == old(consumed) + [id]
      ensures phase == Polling(id, false, false, false)
    {
      ghost var before := View();
      RunsAreSafe(size, trace);
      TheQueueHasRoom(before);
      ReadsTheNext(before);
      RunGoesOn(size, trace, Read);
      var slot := SlotOf(lastUsedIdx);
      id := usedRing[slot];
      phase, consumed, trace := Polling(id, false, false, false), consumed + [id], trace + [Read];
      assert View() == Next(before, Read);
    }

    method BumpLastUsed()
      requires Valid() && Enabled(View(), Bump)
      modifies this`phase, this`lastUsedIdx, this`trace
      ensures Valid() && trace == old(trace) + [Bump] && phase == Settled(old(phase).(bumped := true))
    {
      ghost var before := View();
      RunGoesOn(size, trace, Bump);
      lastUsedIdx := Bumped(lastUsedIdx);
      phase, trace := Settled(phase.(bumped := true)), trace + [Bump];
      assert View() == Next(before, Bump);
    }

    method FillSlot(id: nat)
      requires Valid() && Enabled(View(), Fill) && id == phase.id
      modifies this`phase, this`trace, availRing
      ensures Valid() && trace == old(trace) + [Fill] && phase == old(phase).(filled := true)
    {
      ghost var before := View();
      RunGoesOn(size, trace, Fill);
      var slot := SlotOf(availIdx);
      availRing[slot] := id;
      phase, trace := phase.(filled := true), trace + [Fill];
      assert View() == Next(before, Fill);
    }

    method PublishSlot()
      requires Valid() && Enabled(View(), Publish)
      modifies this`phase, this`availIdx, this`offered, this`trace
      ensures Valid() && trace == old(trace) + [Publish] && phase == Settled(old(phase).(published := true))
      ensures offered == old(offered) + [old(phase).id]
    {
      ghost var before := View();
      RunsAreSafe(size, trace);
      PublishKeepsShape(before);
      RunGoesOn(size, trace, Publish);
      var slot := SlotOf(availIdx);
      offered, trace := offered + [availRing[slot]], trace + [Publish];
      phase := Settled(phase.(published := true));
      availIdx := Bumped(availIdx);
      assert View() == Next(before, Publish);
    }

    // ----- polls -----

    /** Compare the indices and, when they differ, read the entry the driver's own index points at. */
    method TakeUsed() returns (got: Option<nat>)
      requires Valid() && phase.Idle?
      modifies this`lastAvail, this`held, this`writing, this`usedIdx, this`taken, this`completed, this`trace, usedRing,
               this`clock, this`pause, this`phase, this`consumed
      ensures Valid() && old(trace) <= trace && old(completed) <= completed
      ensures pause == old(pause) + if got.None? then 1 else 2
      ensures old(consumed) != old(completed) ==> got.Some?
      ensures got.None? ==> phase.Idle? && consumed == old(consumed)
      ensures got.Some? ==>
                && phase == Polling(got.value, false, false, false)
                && |old(consumed)| < |completed| && got.value == completed[|old(consumed)|]
                && consumed == old(consumed) + [got.value]
    {
      LooksForUnread();
      Meanwhile();
      LooksForUnread();
      if lastUsedIdx == usedIdx {
        return None;
      }
      Meanwhile();
      LooksForUnread();
      var id := ReadUsed();
      got := Some(id);
    }

    /** Put the descriptor into the next available slot, then count it. */
    method OfferAgain(id: nat)
      requires Valid() && phase.Polling? && phase.id == id && !phase.filled && !phase.published
      modifies this`lastAvail, this`held, this`writing, this`usedIdx, this`taken, this`completed, this`trace, usedRing,
               this`clock, this`pause, this`phase, this`availIdx, this`offered, availRing
      ensures Valid() && old(trace) <= trace && old(completed) <= completed && offered == old(offered) + [id]
              && id < size && pause == old(pause) + 2
      ensures phase == if old(phase).bumped then Idle else old(phase).(filled := true, published := true)
    {
      Meanwhile();
      FillSlot(id);
      Meanwhile();
      PublishSlot();
      InRange(id);
    }

    /** And a break behind it. */
    method OfferThenBreak(id: nat)
      requires Valid() && phase.Polling? && phase.id == id && !phase.filled && !phase.published
      modifies this`lastAvail, this`held, this`writing, this`usedIdx, this`taken, this`completed, this`trace, usedRing,
               this`clock, this`pause, this`phase, this`availIdx, this`offered, availRing
      ensures Valid() && old(trace) <= trace && old(completed) <= completed && offered == old(offered) + [id]
              && id < size && pause == old(pause) + 3
      ensures phase == if old(phase).bumped then Idle else old(phase).(filled := true, published := true)
    {
      OfferAgain(id);
      Meanwhile();
    }

    /**
     What a poll does, whatever the device does meanwhile, in each of the breaks between its accesses: it
     consumes the oldest unread completion and offers its descriptor again, or there was none when it looked.
     */
    twostate predicate Polled(new got: Option<nat>)
      reads this
    {
      && old(trace) <= trace && old(completed) <= completed && pause == old(pause) + (if got.None? then 1 else 6)
      && (old(consumed) != old(completed) ==> got.Some?)
      && (got.None? ==> consumed == old(consumed) && offered == old(offered))
      && (got.Some? ==>
            && |old(consumed)| < |completed| && got.value == completed[|old(consumed)|] < size
            && consumed == old(consumed) + [got.value] && offered == old(offered) + [got.value])
    }

    /** What is left of a poll that has read `id`. */
    twostate predicate Finished(id: nat)
      reads this
    {
      && old(trace) <= trace && old(completed) <= completed && pause == old(pause) + 4
      && id < size && consumed == old(consumed) && offered == old(offered) + [id]
    }

    method CountAndOffer(id: nat)
      requires Valid() && phase == Polling(id, false, false, false)
      modifies this, availRing, usedRing
      ensures Valid() && phase.Idle? && Finished(id)
    {
      Meanwhile();
      BumpLastUsed();
      OfferThenBreak(id);
    }

    method OfferAndCount(id: nat)
      requires Valid() && phase == Polling(id, false, false, false)
      modifies this, availRing, usedRing
      ensures Valid() && phase.Idle? && Finished(id)
    {
      OfferThenBreak(id);
      BumpLastUsed();
      Meanwhile();
    }

    /** The network driver counts the completion before it offers the buffer again. */
    method PollRx() returns (got: Option<nat>)
      requires Valid() && phase.Idle?
      modifies this, availRing, usedRing
      ensures Valid() && phase.Idle? && Polled(got)
    {
      got := TakeUsed();
      if got.Some? {
        CountAndOffer(got.value);
      }
    }

    /** The input driver offers the buffer again before it counts the completion. */
    method PollInput() returns (got: Option<nat>)
      requires Valid() && phase.Idle?
      modifies this, availRing, usedRing
      ensures Valid() && phase.Idle? && Polled(got)
    {
      got := TakeUsed();
      if got.Some? {
        OfferAndCount(got.value);
      }
    }

    lemma LooksForUnread()
      requires Valid() && phase.Idle?
      ensures consumed <= completed && (usedIdx != lastUsedIdx <==> consumed != completed)
    {
      RunsAreSafe(size, trace);
      WhatIsUnreadCanBeRead(View());
    }

    /** A descriptor that was offered is a number below the queue size. */
    lemma InRange(id: nat)
      requires Valid() && id in offered
      ensures id < size
    {
      OnlyDescriptorsAreOffered(size, trace);
    }
  }

  /** Only the numbers of the queue's descriptors ever pass through it. */
  lemma {:induction false} OnlyDescriptorsAreOffered(size: nat, steps: seq<Step>)
    requires IsSize(size) && size > 0 && Run(size, steps).Some?
    ensures forall d :: d in Run(size, steps).value.offered ==> d < size
    decreases |steps|
  {
    if steps != [] {
      var front, step := steps[..|steps| - 1], steps[|steps| - 1];
      OnlyDescriptorsAreOffered(size, front);
      var w := Run(size, front).value;
      if step.Publish? {
        RunsAreSafe(size, front);
        PublishKeepsShape(w);
        EachDescriptorIsInOnePlace(size, front, w.phase.id);
      }
    }
  }
}
