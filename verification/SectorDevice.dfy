/**
 Chains of descriptors and the block device behind them: what a device that follows section 5.2 of
 the VirtIO 1.2 specification does with one request.
 */
module SectorDevice {
  import opened Machine
  import opened Wrappers
  import opened FatLayout
  import opened DmaArena

  const VIRTQ_SIZE: nat := 256
  const HAS_NEXT: nat := 1
  const DEVICE_WRITES: nat := 2

  datatype Descriptor = Descriptor(addr: nat, len: nat, flags: nat, next: nat)

  predicate Continues(d: Descriptor) {
    d.flags % 2 == 1
  }

  predicate Writable(d: Descriptor) {
    d.flags / 2 % 2 == 1
  }

  /** The chain from descriptor `d`; None when it leaves the table or does not end in `fuel` links. */
  function Chain(table: seq<Descriptor>, d: nat, fuel: nat): (r: Option<seq<nat>>)
    ensures r.Some? ==> r.value != [] && r.value[0] == d && forall i :: 0 <= i < |r.value| ==> r.value[i] < |table|
    decreases fuel
  {
    if fuel == 0 || d >= |table| then None
    else if !Continues(table[d]) then Some([d])
    else
      var rest := Chain(table, table[d].next, fuel - 1);
      if rest.None? then None else Some([d] + rest.value)
  }

  /** The shared 16-bit counter after `n` increments. */
  function Advanced(counter: UInt16, n: nat): UInt16 {
    if n == 0 then counter else Bumped(Advanced(counter, n - 1))
  }

  /** The descriptors the driver takes next, whatever its counter has come to. */
  function Taken(counter: UInt16, i: nat): (d: nat)
    ensures d < VIRTQ_SIZE
  {
    Advanced(counter, i) % VIRTQ_SIZE
  }

  lemma {:induction false} AdvancedIsRemainder(counter: UInt16, n: nat)
    ensures Advanced(counter, n) == (counter + n) % TWO_TO_THE_16
  {
    if n == 0 {
      RemainderIs(counter, TWO_TO_THE_16, 0, counter);
    } else {
      AdvancedIsRemainder(counter, n - 1);
      BumpedIsRemainder(counter + n - 1);
    }
  }

  lemma TakenAreDistinct(counter: UInt16, i: nat, j: nat)
    requires i < j < i + VIRTQ_SIZE
    ensures Taken(counter, i) != Taken(counter, j)
  {
    AdvancedIsRemainder(counter, i);
    AdvancedIsRemainder(counter, j);
    WrappedTwice(counter + i);
    WrappedTwice(counter + j);
    CloseNumbersDiffer(counter + i, counter + j);
  }

  lemma WrappedTwice(x: nat)
    ensures x % TWO_TO_THE_16 % VIRTQ_SIZE == x % VIRTQ_SIZE
  {
    var q, r := x / TWO_TO_THE_16, x % TWO_TO_THE_16;
    assert x == VIRTQ_SIZE * (256 * q) + r;
  }

  lemma CloseNumbersDiffer(a: nat, b: nat)
    requires a < b < a + VIRTQ_SIZE
    ensures a % VIRTQ_SIZE != b % VIRTQ_SIZE
  {
  }

  lemma ChainStep(table: seq<Descriptor>, d: nat, fuel: nat)
    requires d < |table| && fuel > 0
    ensures !Continues(table[d]) ==> Chain(table, d, fuel) == Some([d])
    ensures Continues(table[d]) && Chain(table, table[d].next, fuel - 1).Some? ==>
              Chain(table, d, fuel) == Some([d] + Chain(table, table[d].next, fuel - 1).value)
  {
  }

  /** A linked pair and a linked triple are chains that end, for every value of the counter. */
  lemma PairIsAChain(table: seq<Descriptor>, counter: UInt16, fuel: nat)
    requires |table| == VIRTQ_SIZE && fuel >= 2
    requires var d0, d1 := Taken(counter, 0), Taken(counter, 1);
             && Continues(table[d0]) && table[d0].next == d1 && !Continues(table[d1])
    ensures Chain(table, Taken(counter, 0), fuel) == Some([Taken(counter, 0), Taken(counter, 1)])
    ensures Taken(counter, 0) != Taken(counter, 1)
  {
    TakenAreDistinct(counter, 0, 1);
    ChainStep(table, Taken(counter, 1), fuel - 1);
    ChainStep(table, Taken(counter, 0), fuel);
    assert [Taken(counter, 0)] + [Taken(counter, 1)] == [Taken(counter, 0), Taken(counter, 1)];
  }

  lemma TripleIsAChain(table: seq<Descriptor>, counter: UInt16, fuel: nat)
    requires |table| == VIRTQ_SIZE && fuel >= 3
    requires var d0, d1, d2 := Taken(counter, 0), Taken(counter, 1), Taken(counter, 2);
             && Continues(table[d0]) && table[d0].next == d1 && Continues(table[d1]) && table[d1].next == d2
             && !Continues(table[d2])
    ensures Chain(table, Taken(counter, 0), fuel) == Some([Taken(counter, 0), Taken(counter, 1), Taken(counter, 2)])
    ensures Taken(counter, 0) != Taken(counter, 1) && Taken(counter, 1) != Taken(counter, 2)
    ensures Taken(counter, 0) != Taken(counter, 2)
  {
    TakenAreDistinct(counter, 0, 1);
    TakenAreDistinct(counter, 1, 2);
    TakenAreDistinct(counter, 0, 2);
    var a, b, c := Taken(counter, 0), Taken(counter, 1), Taken(counter, 2);
    ChainStep(table, c, fuel - 2);
    ChainStep(table, b, fuel - 1);
    assert [b] + [c] == [b, c];
    ChainStep(table, a, fuel);
    assert [a] + [b, c] == [a, b, c];
  }

  // ----- requests -----

  const READ: nat := 0
  const WRITE: nat := 1
  const STATUS_OK: Byte := 0
  const STATUS_ERROR: Byte := 1
  const STATUS_UNSUPPORTED: Byte := 2

  /** The numbers of sections 2.7.5 and 5.2.6 of the VirtIO 1.2 specification. */
  lemma StandardNumbers()
    ensures [HAS_NEXT, DEVICE_WRITES] == [1, 2] && [READ, WRITE] == [0, 1]
    ensures [STATUS_OK, STATUS_ERROR, STATUS_UNSUPPORTED] == [0, 1, 2]
  {
  }

  /** The 64-bit sector number behind the request type and a reserved word. */
  function Bytes64(n: UInt64): (b: Bytes)
    ensures |b| == 8
  {
    Bytes32(n % TWO_TO_THE_32) + Bytes32(n / TWO_TO_THE_32)
  }

  function Word64(s: Bytes, at: nat): nat
    requires at + 8 <= |s|
  {
    var lo: int, hi: int := Word32(s, at), Word32(s, at + 4);
    lo + TWO_TO_THE_32 * hi
  }

  lemma SectorNumberReadsBack(n: UInt64)
    ensures Word64(Bytes64(n), 0) == n
  {
    WordsReadBack(n % TWO_TO_THE_32, 0);
    WordsReadBack(n / TWO_TO_THE_32, 0);
    var b := Bytes64(n);
    assert b[4] == Bytes32(n / TWO_TO_THE_32)[0] && b[5] == Bytes32(n / TWO_TO_THE_32)[1];
    assert b[6] == Bytes32(n / TWO_TO_THE_32)[2] && b[7] == Bytes32(n / TWO_TO_THE_32)[3];
  }

  type SectorMap = map<nat, Sector>

  function ContentOf(disk: SectorMap, sector: nat): Sector {
    if sector in disk then disk[sector] else Zeros(512)
  }

  /** Whether the device manages a request, and what a failed transfer leaves behind. */
  datatype Outcome = Outcome(ok: bool, garbage: Sector)

  predicate IsRequestChain(table: seq<Descriptor>, chain: Option<seq<nat>>) {
    && chain.Some? && |chain.value| == 3 && (forall i :: 0 <= i < 3 ==> chain.value[i] < |table|)
    && table[chain.value[0]].len == 16 && !Writable(table[chain.value[0]])
    && table[chain.value[1]].len == 512
    && table[chain.value[2]].len == 1 && Writable(table[chain.value[2]])
  }

  function StatusOf(o: Outcome): Bytes {
    [if o.ok then STATUS_OK else STATUS_ERROR]
  }

  /** One transfer between a sector and the 512 bytes at `data`, then the status byte. */
  function Transferred(kind: nat, sector: nat, toMemory: bool, data: nat, status: nat,
                       m: Memory, disk: SectorMap, o: Outcome): (Memory, SectorMap) {
    if kind == READ && toMemory then
      (Store(Store(m, data, if o.ok then ContentOf(disk, sector) else o.garbage), status, StatusOf(o)), disk)
    else if kind == WRITE && !toMemory then
      (Store(m, status, StatusOf(o)), disk[sector := if o.ok then Load(m, data, 512) else o.garbage])
    else (Store(m, status, [STATUS_UNSUPPORTED]), disk)
  }

  /** Kind and sector, as the header holds them. */
  function RequestAt(m: Memory, header: nat): (nat, nat) {
    (Word32(Load(m, header, 4), 0), Word64(Load(m, header + 8, 8), 0))
  }

  /** One request, as the device carries it out: header, data, status. */
  function Served(table: seq<Descriptor>, head: nat, m: Memory, disk: SectorMap, o: Outcome): (Memory, SectorMap) {
    var chain := Chain(table, head, VIRTQ_SIZE);
    if !IsRequestChain(table, chain) then (m, disk)
    else
      var header, data, status := table[chain.value[0]].addr, table[chain.value[1]].addr, table[chain.value[2]].addr;
      var (kind, sector) := RequestAt(m, header);
      Transferred(kind, sector, Writable(table[chain.value[1]]), data, status, m, disk, o)
  }

  /** The three descriptors of a block request: header, data, status. */
  predicate Links(table: seq<Descriptor>, counter: UInt16, kind: nat, header: nat, data: nat, status: nat) {
    var d0, d1, d2 := Taken(counter, 0), Taken(counter, 1), Taken(counter, 2);
    && |table| == VIRTQ_SIZE
    && table[d0] == Descriptor(header, 16, HAS_NEXT, d1)
    && table[d1] == Descriptor(data, 512, if kind == READ then HAS_NEXT + DEVICE_WRITES else HAS_NEXT, d2)
    && table[d2] == Descriptor(status, 1, DEVICE_WRITES, 0)
  }

  /** The device reads the chain as the driver meant it. */
  lemma PreparedRequestsAreServed(table: seq<Descriptor>, counter: UInt16, m: Memory, disk: SectorMap, o: Outcome,
                                  kind: nat, sector: UInt64, header: nat, data: nat, status: nat)
    requires Links(table, counter, kind, header, data, status) && (kind == READ || kind == WRITE)
    requires Load(m, header, 4) == Bytes32(kind) && Load(m, header + 8, 8) == Bytes64(sector)
    ensures Served(table, Taken(counter, 0), m, disk, o) ==
            Transferred(kind, sector, kind == READ, data, status, m, disk, o)
  {
    TripleIsAChain(table, counter, VIRTQ_SIZE);
    ThreeLinksAreServed(table, Taken(counter, 0), Taken(counter, 1), Taken(counter, 2), m, disk, o,
                        kind, sector, header, data, status);
  }

  lemma ThreeLinksAreServed(table: seq<Descriptor>, d0: nat, d1: nat, d2: nat, m: Memory, disk: SectorMap, o: Outcome,
                            kind: nat, sector: UInt64, header: nat, data: nat, status: nat)
    requires Chain(table, d0, VIRTQ_SIZE) == Some([d0, d1, d2]) && d0 < |table| && d1 < |table| && d2 < |table|
    requires table[d0] == Descriptor(header, 16, HAS_NEXT, d1)
    requires table[d1] == Descriptor(data, 512, if kind == READ then HAS_NEXT + DEVICE_WRITES else HAS_NEXT, d2)
    requires table[d2] == Descriptor(status, 1, DEVICE_WRITES, 0) && (kind == READ || kind == WRITE)
    requires Load(m, header, 4) == Bytes32(kind) && Load(m, header + 8, 8) == Bytes64(sector)
    ensures Served(table, d0, m, disk, o) == Transferred(kind, sector, kind == READ, data, status, m, disk, o)
  {
    var fields := RequestAt(m, header);
    assert fields == (kind, sector) by {
      WordsReadBack(kind, 0);
      SectorNumberReadsBack(sector);
    }
    assert !Writable(table[d0]) && Writable(table[d2]) && (Writable(table[d1]) <==> kind == READ);
    ServedAlong(table, d0, d1, d2, m, disk, o);
  }

  lemma ServedAlong(table: seq<Descriptor>, d0: nat, d1: nat, d2: nat, m: Memory, disk: SectorMap, o: Outcome)
    requires Chain(table, d0, VIRTQ_SIZE) == Some([d0, d1, d2]) && d0 < |table| && d1 < |table| && d2 < |table|
    requires table[d0].len == 16 && table[d1].len == 512 && table[d2].len == 1
    requires !Writable(table[d0]) && Writable(table[d2])
    ensures var (kind, sector) := RequestAt(m, table[d0].addr);
            Served(table, d0, m, disk, o) ==
            Transferred(kind, sector, Writable(table[d1]), table[d1].addr, table[d2].addr, m, disk, o)
  {
    var chain := Chain(table, d0, VIRTQ_SIZE);
    assert chain.value[0] == d0 && chain.value[1] == d1 && chain.value[2] == d2;
    assert IsRequestChain(table, chain);
  }

  lemma ReadsTransfer(sector: nat, data: nat, status: nat, m: Memory, disk: SectorMap, o: Outcome)
    requires Apart(data, 512, status, 1)
    ensures var (m', disk') := Transferred(READ, sector, true, data, status, m, disk, o);
            && disk' == disk && Load(m', status, 1) == StatusOf(o)
            && Load(m', data, 512) == (if o.ok then ContentOf(disk, sector) else o.garbage)
            && forall k: nat {:trigger ByteAt(m', k)} ::
                 k != status && (k < data || data + 512 <= k) ==> ByteAt(m', k) == ByteAt(m, k)
  {
    var content := if o.ok then ContentOf(disk, sector) else o.garbage;
    var m1 := Store(m, data, content);
    var m2 := Store(m1, status, StatusOf(o));
    LoadStored(m, data, content);
    LoadSame(m1, m2, data, 512);
    LoadStored(m1, status, StatusOf(o));
  }

  lemma WritesTransfer(sector: nat, data: nat, status: nat, m: Memory, disk: SectorMap, o: Outcome)
    ensures var (m', disk') := Transferred(WRITE, sector, false, data, status, m, disk, o);
            && disk' == disk[sector := if o.ok then Load(m, data, 512) else o.garbage]
            && Load(m', status, 1) == StatusOf(o)
            && forall k: nat {:trigger ByteAt(m', k)} :: k != status ==> ByteAt(m', k) == ByteAt(m, k)
  {
    LoadStored(m, status, StatusOf(o));
  }

  /** What a display command comes to: the device answers into the second descriptor. */
  function Replied(table: seq<Descriptor>, head: nat, m: Memory, reply: Bytes): Memory {
    var chain := Chain(table, head, VIRTQ_SIZE);
    if chain.None? || |chain.value| != 2 || !Writable(table[chain.value[1]]) then m
    else
      var answer := table[chain.value[1]];
      Store(m, answer.addr, Cut(reply, answer.len))
  }

  /** The command that a display device finds in its chain: the bytes of the first descriptor. */
  function CommandIn(table: seq<Descriptor>, head: nat, m: Memory): seq<Bytes> {
    var chain := Chain(table, head, VIRTQ_SIZE);
    if chain.None? || |chain.value| != 2 || Writable(table[chain.value[0]]) then []
    else
      var request := table[chain.value[0]];
      [Load(m, request.addr, request.len)]
  }

  /** The two descriptors of a display command: request and response. */
  predicate LinksTwo(table: seq<Descriptor>, counter: UInt16, request: nat, n: nat, response: nat, k: nat) {
    var d0, d1 := Taken(counter, 0), Taken(counter, 1);
    && |table| == VIRTQ_SIZE
    && table[d0] == Descriptor(request, n, HAS_NEXT, d1) && table[d1] == Descriptor(response, k, DEVICE_WRITES, 0)
  }

  lemma CommandsAreReplied(table: seq<Descriptor>, counter: UInt16, m: Memory, reply: Bytes,
                           request: nat, n: nat, response: nat, k: nat)
    requires LinksTwo(table, counter, request, n, response, k)
    ensures Replied(table, Taken(counter, 0), m, reply) == Store(m, response, Cut(reply, k))
  {
    PairIsAChain(table, counter, VIRTQ_SIZE);
  }

  lemma CommandsAreRead(table: seq<Descriptor>, counter: UInt16, m: Memory,
                        request: nat, n: nat, response: nat, k: nat)
    requires LinksTwo(table, counter, request, n, response, k)
    ensures CommandIn(table, Taken(counter, 0), m) == [Load(m, request, n)]
  {
    PairIsAChain(table, counter, VIRTQ_SIZE);
  }

  lemma {:induction false} AdvancedTwice(counter: UInt16, m: nat, n: nat)
    ensures Advanced(Advanced(counter, m), n) == Advanced(counter, m + n)
  {
    if n > 0 {
      AdvancedTwice(counter, m, n - 1);
    }
  }

  /** A command changes nothing but its response area. */
  lemma CommandsAnswerInPlace(table: seq<Descriptor>, counter: UInt16, m: Memory, reply: Bytes,
                              request: nat, n: nat, response: nat, k: nat)
    requires LinksTwo(table, counter, request, n, response, k)
    ensures var r := Replied(table, Taken(counter, 0), m, reply);
            && (forall a: nat {:trigger ByteAt(r, a)} ::
                  a < response || response + k <= a ==> ByteAt(r, a) == ByteAt(m, a))
            && (|reply| == k ==> Load(r, response, k) == reply)
  {
    CommandsAreReplied(table, counter, m, reply, request, n, response, k);
    LoadStored(m, response, Cut(reply, k));
  }

  // ----- what a run of requests should mean -----

  datatype Transfer = Wrote(sector: nat, data: Sector, ok: bool) | WasRead(sector: nat, data: Sector, ok: bool)

  /** The last successful write to a sector; None when there was none, or a write failed since. */
  function LastWritten(log: seq<Transfer>, sector: nat): Option<Sector> {
    if log == [] then None
    else
      var last := log[|log| - 1];
      if last.Wrote? && last.sector == sector then (if last.ok then Some(last.data) else None)
      else LastWritten(log[..|log| - 1], sector)
  }

  ghost predicate Remembers(disk: SectorMap, log: seq<Transfer>) {
    forall s: nat :: LastWritten(log, s).Some? ==> ContentOf(disk, s) == LastWritten(log, s).value
  }

  lemma ReadingIsRemembered(disk: SectorMap, log: seq<Transfer>, sector: nat, data: Sector, ok: bool)
    requires Remembers(disk, log)
    ensures Remembers(disk, log + [WasRead(sector, data, ok)])
  {
    assert (log + [WasRead(sector, data, ok)])[..|log|] == log;
  }

  lemma WritingIsRemembered(disk: SectorMap, log: seq<Transfer>, sector: nat, data: Sector, o: Outcome)
    requires Remembers(disk, log)
    ensures Remembers(disk[sector := if o.ok then data else o.garbage], log + [Wrote(sector, data, o.ok)])
  {
    var log' := log + [Wrote(sector, data, o.ok)];
    assert log'[..|log|] == log;
    forall s: nat | LastWritten(log', s).Some?
      ensures ContentOf(disk[sector := if o.ok then data else o.garbage], s) == LastWritten(log', s).value
    {
      assert s != sector ==> LastWritten(log', s) == LastWritten(log, s);
    }
  }
}
