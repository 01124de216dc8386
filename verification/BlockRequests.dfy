/**
 The synchronous requests of the block and GPU drivers: one chain at a time on each queue, descriptors
 from one shared counter, headers from an arena that is put back when the device has answered.
 */
module BlockRequests {
  import opened Machine
  import opened FatLayout
  import opened DmaArena
  import opened SectorDevice

  /** More than the arena memory that a block request takes, alignment included. */
  const SCRATCH: nat := 32
  /** The same for the two commands of a flush. */
  const FLUSH_SCRATCH: nat := 190

  class SyncQueue {
    const table: array<Descriptor>
    const availRing: array<nat>
    var availIdx: UInt16
    const usedRing: array<nat>
    var usedIdx: UInt16
    var lastUsedIdx: UInt16
    var lastAvail: UInt16

    ghost predicate Valid()
      reads this
    {
      table.Length == VIRTQ_SIZE && availRing.Length == VIRTQ_SIZE && usedRing.Length == VIRTQ_SIZE
      && availRing != usedRing
    }

    /** No chain is with the device and no answer waits. */
    ghost predicate Quiet()
      reads this
    {
      Valid() && lastAvail == availIdx && usedIdx == lastUsedIdx
    }

    /** Exactly the chain of `head` is with the device. */
    ghost predicate Asked(head: nat)
      reads this, availRing
    {
      && Valid() && Bumped(lastAvail) == availIdx && usedIdx == lastUsedIdx
      && availRing[lastAvail % VIRTQ_SIZE] == head
    }

    /** Exactly the answer to `head` waits to be collected. */
    ghost predicate Answered(head: nat)
      reads this, usedRing
    {
      && Valid() && lastAvail == availIdx && Bumped(lastUsedIdx) == usedIdx
      && usedRing[lastUsedIdx % VIRTQ_SIZE] == head
    }

    constructor ()
      ensures Quiet() && fresh(table) && fresh(availRing) && fresh(usedRing)
    {
      table := new Descriptor[VIRTQ_SIZE](_ => Descriptor(0, 0, 0, 0));
      availRing := new nat[VIRTQ_SIZE](_ => 0);
      usedRing := new nat[VIRTQ_SIZE](_ => 0);
      availIdx, usedIdx, lastUsedIdx, lastAvail := 0, 0, 0, 0;
    }

    method Offer(head: nat)
      requires Quiet()
      modifies this`availIdx, availRing
      ensures Asked(head)
    {
      availRing[availIdx % VIRTQ_SIZE] := head;
      availIdx := Bumped(availIdx);
    }

    /** The device takes the next chain and, having served it, reports it used. */
    method DeviceAnswers() returns (head: nat)
      requires exists h: nat :: Asked(h)
      modifies this`lastAvail, this`usedIdx, usedRing
      ensures old(Asked(head)) && Answered(head)
    {
      head := availRing[lastAvail % VIRTQ_SIZE];
      lastAvail := Bumped(lastAvail);
      usedRing[usedIdx % VIRTQ_SIZE] := head;
      usedIdx := Bumped(usedIdx);
    }

    method Collect()
      requires exists h: nat :: Answered(h)
      modifies this`lastUsedIdx
      ensures Quiet()
    {
      lastUsedIdx := Bumped(lastUsedIdx);
    }
  }

  /** Which bytes a request may change: its scratch memory and one buffer. */
  ghost predicate OnlyChanged(m: Memory, r: Memory, heap: nat, scratch: nat, buffer: nat, n: nat) {
    forall k: nat {:trigger ByteAt(r, k)} :: (k < heap || heap + scratch <= k) && (k < buffer || buffer + n <= k) ==>
      ByteAt(r, k) == ByteAt(m, k)
  }

  lemma RequestEffect(m0: Memory, m: Memory, m': Memory, d: SectorMap, d': SectorMap, o: Outcome,
                      heap: nat, kind: nat, sector: nat, buffer: nat, status: nat)
    requires kind == READ || kind == WRITE
    requires (m', d') == Transferred(kind, sector, kind == READ, buffer, status, m, d, o)
    requires OnlyChanged(m0, m, heap, SCRATCH, 0, 0) && Apart(buffer, 512, heap, SCRATCH)
    requires heap <= status < heap + SCRATCH
    ensures ByteAt(m', status) == STATUS_OK <==> o.ok
    ensures OnlyChanged(m0, m', heap, SCRATCH, buffer, if kind == READ then 512 else 0)
    ensures kind == READ ==> d' == d && (o.ok ==> Load(m', buffer, 512) == ContentOf(d, sector))
    ensures kind == WRITE ==> d' == d[sector := if o.ok then Load(m0, buffer, 512) else o.garbage]
  {
    LoadSame(m0, m, buffer, 512);
    if kind == READ {
      ReadsTransfer(sector, buffer, status, m, d, o);
    } else {
      WritesTransfer(sector, buffer, status, m, d, o);
    }
    assert Load(m', status, 1)[0] == ByteAt(m', status);
  }

  class Virtio {
    var heap: nat
    var counter: UInt16
    var memory: Memory
    const blk: SyncQueue
    const gpu: SyncQueue
    const hasBlk: bool
    const hasGpu: bool

    // the devices: sectors, what each request comes to, how long it takes
    var disk: SectorMap
    const outcomes: nat -> Outcome
    const replies: nat -> Bytes
    const delays: nat -> nat
    var served: nat

    ghost var log: seq<Transfer>
    /** The display commands in the order in which the device has read them. */
    ghost var commands: seq<Bytes>

    ghost predicate Valid()
      reads this, blk, gpu
    {
      && blk.Quiet() && gpu.Quiet() && blk != gpu
      && blk.table != gpu.table && blk.availRing != gpu.availRing && blk.usedRing != gpu.usedRing
      && blk.availRing != gpu.usedRing && blk.usedRing != gpu.availRing
      && Remembers(disk, log)
    }

    constructor (hasBlk: bool, hasGpu: bool, disk: SectorMap, memory: Memory,
                 outcomes: nat -> Outcome, replies: nat -> Bytes, delays: nat -> nat)
      ensures Valid() && log == [] && commands == [] && heap == ARENA_START && counter == 0 && served == 0
      ensures fresh(blk) && fresh(gpu) && fresh(blk.table) && fresh(blk.availRing) && fresh(blk.usedRing)
      ensures fresh(gpu.table) && fresh(gpu.availRing) && fresh(gpu.usedRing)
    {
      this.hasBlk, this.hasGpu, this.disk, this.memory := hasBlk, hasGpu, disk, memory;
      this.outcomes, this.replies, this.delays := outcomes, replies, delays;
      heap, counter, served, log, commands := ARENA_START, 0, 0, [], [];
      blk := new SyncQueue();
      gpu := new SyncQueue();
    }

    /** Raise the heap pointer past an aligned block and clear the block byte by byte. */
    method BumpAllocate(size: UInt32, align: nat) returns (addr: nat)
      requires align > 0
      modifies this`heap, this`memory
      ensures addr == RoundedUp(old(heap), align) && old(heap) <= addr < old(heap) + align
      ensures IsPowerOfTwo(align) ==> addr % align == 0
      ensures heap == addr + size
      ensures forall k: nat {:trigger ByteAt(memory, k)} ::
                ByteAt(memory, k) == if addr <= k < heap then 0 else ByteAt(old(memory), k)
    {
      RoundedUpIsAligned(heap, align);
      addr := heap;
      if addr % align != 0 {
        addr := Without(addr + align - 1, align - 1);
      }
      heap := addr + size;
      for i := 0 to size
        invariant heap == addr + size
        invariant forall k: nat {:trigger ByteAt(memory, k)} ::
                    ByteAt(memory, k) == if addr <= k < addr + i then 0 else ByteAt(old(memory), k)
      {
        memory := Store(memory, addr + i, [0]);
      }
    }

    method NextDescriptor() returns (d: nat)
      modifies this`counter
      ensures d == Taken(old(counter), 0) && counter == Bumped(old(counter))
    {
      d := counter % VIRTQ_SIZE;
      counter := Bumped(counter);
    }

    // ----- block requests -----

    /** The device serves the chain it was given. */
    method DeviceServes()
      requires exists h: nat :: blk.Asked(h)
      modifies this`memory, this`disk, this`served, blk`lastAvail, blk`usedIdx, blk.usedRing
      ensures served == old(served) + 1
      ensures exists h: nat :: old(blk.Asked(h)) && blk.Answered(h)
                && (memory, disk) == Served(blk.table[..], h, old(memory), old(disk), outcomes(old(served)))
    {
      var h := blk.DeviceAnswers();
      var (m, d) := Served(blk.table[..], h, memory, disk, outcomes(served));
      memory, disk, served := m, d, served + 1;
    }

    /** Poll until the device has answered; it does so after some delay. */
    method Await(ghost head: nat)
      requires blk.Asked(head)
      modifies this`memory, this`disk, this`served, blk`lastAvail, blk`usedIdx, blk`lastUsedIdx, blk.usedRing
      ensures blk.Quiet() && served == old(served) + 1
      ensures (memory, disk) == Served(blk.table[..], head, old(memory), old(disk), outcomes(old(served)))
    {
      var left := delays(served);
      while blk.usedIdx == blk.lastUsedIdx
        invariant blk.usedIdx == blk.lastUsedIdx ==>
                    && blk.Asked(head) && memory == old(memory) && disk == old(disk) && served == old(served)
        invariant blk.usedIdx != blk.lastUsedIdx ==>
                    && blk.Answered(head) && served == old(served) + 1
                    && (memory, disk) == Served(blk.table[..], head, old(memory), old(disk), outcomes(old(served)))
        decreases if blk.usedIdx == blk.lastUsedIdx then left + 1 else 0
      {
        if left == 0 {
          DeviceServes();
        } else {
          left := left - 1;
        }
      }
      blk.Collect();
    }

    /** Header and status byte in the arena. */
    method MakeHeader(kind: nat, sector: UInt64) returns (header: nat, status: nat)
      requires kind == READ || kind == WRITE
      modifies this`heap, this`memory
      ensures Load(memory, header, 4) == Bytes32(kind) && Load(memory, header + 8, 8) == Bytes64(sector)
      ensures old(heap) <= header && header + 16 <= status < heap <= old(heap) + SCRATCH
      ensures ByteAt(memory, status) == 0xFF
      ensures OnlyChanged(old(memory), memory, old(heap), SCRATCH, 0, 0)
    {
      header := BumpAllocate(16, 16);
      memory := Store(memory, header, Bytes32(kind));
      memory := Store(memory, header + 8, Bytes64(sector));
      ghost var m := memory;
      status := BumpAllocate(1, 1);
      memory := Store(memory, status, [0xFF]);
      LoadStored(m, header, Bytes32(kind));
      LoadStored(m, header + 8, Bytes64(sector));
    }

    /** Three linked descriptors, one entry in the available ring. */
    method OfferChain(kind: nat, header: nat, buffer: nat, status: nat)
      requires blk.Quiet() && (kind == READ || kind == WRITE)
      modifies this`counter, blk`availIdx, blk.availRing, blk.table
      ensures counter == Advanced(old(counter), 3)
      ensures blk.Asked(Taken(old(counter), 0)) && Links(blk.table[..], old(counter), kind, header, buffer, status)
    {
      ghost var first := counter;
      var d0 := NextDescriptor();
      var d1 := NextDescriptor();
      var d2 := NextDescriptor();
      assert Advanced(first, 1) == Bumped(first) && Advanced(first, 2) == Bumped(Bumped(first));
      TakenAreDistinct(first, 0, 1);
      TakenAreDistinct(first, 1, 2);
      TakenAreDistinct(first, 0, 2);
      blk.table[d0] := Descriptor(header, 16, HAS_NEXT, d1);
      blk.table[d1] := Descriptor(buffer, 512, if kind == READ then HAS_NEXT + DEVICE_WRITES else HAS_NEXT, d2);
      blk.table[d2] := Descriptor(status, 1, DEVICE_WRITES, 0);
      blk.Offer(d0);
    }

    /** One request from the header to the status byte. */
    method Request(kind: nat, sector: UInt64, buffer: nat) returns (ok: bool)
      requires blk.Quiet() && (kind == READ || kind == WRITE) && Apart(buffer, 512, heap, SCRATCH)
      modifies this`heap, this`memory, this`counter, this`disk, this`served, blk, blk.table, blk.availRing, blk.usedRing
      ensures blk.Quiet() && served == old(served) + 1 && counter == Advanced(old(counter), 3) && heap == old(heap)
      ensures ok == outcomes(old(served)).ok
      ensures OnlyChanged(old(memory), memory, heap, SCRATCH, buffer, if kind == READ then 512 else 0)
      ensures kind == READ ==> disk == old(disk) && (ok ==> Load(memory, buffer, 512) == ContentOf(disk, sector))
      ensures kind == WRITE ==>
                disk == old(disk)[sector :=
                          if ok then Load(old(memory), buffer, 512) else outcomes(old(served)).garbage]
    {
      var heapSave := heap;
      ghost var m0, d0, first, o := memory, disk, counter, outcomes(served);
      var header, status := MakeHeader(kind, sector);
      OfferChain(kind, header, buffer, status);
      ghost var m := memory;
      PreparedRequestsAreServed(blk.table[..], first, m, d0, o, kind, sector, header, buffer, status);
      Await(Taken(first, 0));
      RequestEffect(m0, m, memory, d0, disk, o, heapSave, kind, sector, buffer, status);
      ok := ByteAt(memory, status) == STATUS_OK;
      heap := heapSave;
    }

    /**
     A read: 0 when the device managed it, and then the buffer holds the last successful write to the
     sector. The arena is back where it was and no chain refers to it any more.
     */
    method ReadSector(sector: UInt64, buffer: nat) returns (result: int)
      requires Valid() && Apart(buffer, 512, heap, SCRATCH)
      modifies this, blk, blk.table, blk.availRing, blk.usedRing
      ensures Valid() && heap == old(heap) && disk == old(disk)
      ensures !hasBlk ==> result == -1 && memory == old(memory) && log == old(log) && served == old(served)
      ensures hasBlk ==>
                && served == old(served) + 1 && result == (if outcomes(old(served)).ok then 0 else -1)
                && log == old(log) + [WasRead(sector, Load(memory, buffer, 512), result == 0)]
                && OnlyChanged(old(memory), memory, heap, SCRATCH, buffer, 512)
      ensures result == 0 && LastWritten(old(log), sector).Some? ==>
                Load(memory, buffer, 512) == LastWritten(old(log), sector).value
    {
      if !hasBlk {
        return -1;
      }
      var ok := Request(READ, sector, buffer);
      ReadingIsRemembered(disk, log, sector, Load(memory, buffer, 512), ok);
      log := log + [WasRead(sector, Load(memory, buffer, 512), ok)];
      result := if ok then 0 else -1;
    }

    /** A write: 0 when the device managed it; what is in the buffer is then the sector's content. */
    method WriteSector(sector: UInt64, buffer: nat) returns (result: int)
      requires Valid() && Apart(buffer, 512, heap, SCRATCH)
      modifies this, blk, blk.table, blk.availRing, blk.usedRing
      ensures Valid() && heap == old(heap)
      ensures !hasBlk ==> result == -1 && memory == old(memory) && log == old(log) && disk == old(disk)
      ensures hasBlk ==>
                && served == old(served) + 1 && result == (if outcomes(old(served)).ok then 0 else -1)
                && log == old(log) + [Wrote(sector, old(Load(memory, buffer, 512)), result == 0)]
                && OnlyChanged(old(memory), memory, heap, SCRATCH, buffer, 0)
                && (forall s: nat :: s != sector ==> ContentOf(disk, s) == ContentOf(old(disk), s))
    {
      if !hasBlk {
        return -1;
      }
      ghost var data, o := Load(memory, buffer, 512), outcomes(served);
      WritingIsRemembered(disk, log, sector, data, o);
      var ok := Request(WRITE, sector, buffer);
      log := log + [Wrote(sector, data, ok)];
      result := if ok then 0 else -1;
    }

    // ----- display commands -----

    /** The display device reads the chain it was given and answers it. */
    method DisplayAnswers()
      requires exists h: nat :: gpu.Asked(h)
      modifies this`memory, this`commands, gpu`lastAvail, gpu`usedIdx, gpu.usedRing
      ensures exists h: nat :: old(gpu.Asked(h)) && gpu.Answered(h)
                && memory == Replied(gpu.table[..], h, old(memory), replies(counter))
                && commands == old(commands) + CommandIn(gpu.table[..], h, old(memory))
    {
      var h := gpu.DeviceAnswers();
      commands := commands + CommandIn(gpu.table[..], h, memory);
      memory := Replied(gpu.table[..], h, memory, replies(counter));
    }

    /**
     One command and its answer: the device has read the request area once, only the response area
     changes, and no chain is left with the device.
     */
    method SendGpuCommand(request: nat, n: UInt32, response: nat, k: UInt32)
      requires gpu.Quiet()
      modifies this`memory, this`counter, this`commands, gpu, gpu.table, gpu.availRing, gpu.usedRing
      ensures commands == old(commands) + [Load(old(memory), request, n)]
      ensures gpu.Quiet() && counter == Advanced(old(counter), 2)
      ensures OnlyChanged(old(memory), memory, response, k, 0, 0)
      ensures |replies(counter)| == k ==> Load(memory, response, k) == replies(counter)
    {
      ghost var first, m := counter, memory;
      var d0 := NextDescriptor();
      var d1 := NextDescriptor();
      assert Advanced(first, 1) == Bumped(first);
      TakenAreDistinct(first, 0, 1);
      gpu.table[d0] := Descriptor(request, n, HAS_NEXT, d1);
      gpu.table[d1] := Descriptor(response, k, DEVICE_WRITES, 0);
      gpu.Offer(d0);
      ghost var table := gpu.table[..];
      var left := delays(counter);
      while gpu.usedIdx == gpu.lastUsedIdx
        invariant gpu.usedIdx == gpu.lastUsedIdx ==> gpu.Asked(d0) && memory == m && commands == old(commands)
        invariant gpu.usedIdx != gpu.lastUsedIdx ==>
                    && gpu.Answered(d0) && memory == Replied(table, d0, m, replies(counter))
                    && commands == old(commands) + CommandIn(table, d0, m)
        invariant gpu.table[..] == table
        modifies this`memory, this`commands, gpu`lastAvail, gpu`usedIdx, gpu.usedRing
        decreases if gpu.usedIdx == gpu.lastUsedIdx then left + 1 else 0
      {
        if left == 0 {
          DisplayAnswers();
        } else {
          left := left - 1;
        }
      }
      gpu.Collect();
      CommandsAreRead(table, first, m, request, n, response, k);
      CommandsAnswerInPlace(table, first, m, replies(counter), request, n, response, k);
    }

    /** A request block with its contents, a response block, and the command itself. */
    method Command(payload: Bytes)
      requires gpu.Quiet() && |payload| < 1000
      modifies this`heap, this`memory, this`counter, this`commands, gpu, gpu.table, gpu.availRing, gpu.usedRing
      ensures commands == old(commands) + [payload]
      ensures gpu.Quiet() && counter == Advanced(old(counter), 2)
      ensures old(heap) <= heap <= old(heap) + |payload| + 38
      ensures OnlyChanged(old(memory), memory, old(heap), heap - old(heap), 0, 0)
    {
      var request := BumpAllocate(|payload|, 8);
      var response := BumpAllocate(24, 8);
      LoadStored(memory, request, payload);
      memory := Store(memory, request, payload);
      SendGpuCommand(request, |payload|, response, 24);
    }

    /** Transfer and flush: two commands in arena memory, which is put back after the second answer. */
    method GpuFlush(framebuffer: nat, transfer: Bytes, flush: Bytes)
      requires Valid() && |transfer| == 56 && |flush| == 48
      modifies this, gpu, gpu.table, gpu.availRing, gpu.usedRing
      ensures Valid() && heap == old(heap) && disk == old(disk) && log == old(log) && served == old(served)
      ensures OnlyChanged(old(memory), memory, heap, FLUSH_SCRATCH, 0, 0)
      ensures if !hasGpu || framebuffer == 0 then
                memory == old(memory) && counter == old(counter) && commands == old(commands)
              else
                counter == Advanced(old(counter), 4) && commands == old(commands) + [transfer, flush]
    {
      if !hasGpu || framebuffer == 0 {
        return;
      }
      var heapSave := heap;
      Command(transfer);
      Command(flush);
      heap := heapSave;
      assert Advanced(Advanced(old(counter), 2), 2) == Advanced(old(counter), 4) by {
        AdvancedTwice(old(counter), 2, 2);
      }
    }
  }
}
