/** Physical memory as bytes, and the bump allocator of device-visible memory. */
module DmaArena {
  import opened Machine
  import opened FatLayout

  type Memory = nat -> Byte

  const ARENA_START: nat := 0x5000_0000

  function ByteAt(m: Memory, a: nat): Byte {
    m(a)
  }

  function Load(m: Memory, a: nat, n: nat): (b: Bytes)
    ensures |b| == n && forall i :: 0 <= i < n ==> b[i] == ByteAt(m, a + i)
  {
    seq<Byte>(n, i requires 0 <= i < n => ByteAt(m, a + i))
  }

  function Store(m: Memory, a: nat, b: Bytes): (r: Memory)
    ensures forall k: nat {:trigger ByteAt(r, k)} :: ByteAt(r, k) == if a <= k < a + |b| then b[k - a] else ByteAt(m, k)
  {
    (k: nat) => if a <= k < a + |b| then b[k - a] else m(k)
  }

  lemma LoadStored(m: Memory, a: nat, b: Bytes)
    ensures Load(Store(m, a, b), a, |b|) == b
  {
  }

  /** Two memories that agree on a range. */
  ghost predicate Same(m: Memory, r: Memory, a: nat, n: nat) {
    forall k: nat {:trigger ByteAt(r, k)} :: a <= k < a + n ==> ByteAt(r, k) == ByteAt(m, k)
  }

  lemma LoadSame(m: Memory, r: Memory, a: nat, n: nat)
    requires Same(m, r, a, n)
    ensures Load(r, a, n) == Load(m, a, n)
  {
  }

  predicate Apart(a: nat, n: nat, b: nat, k: nat) {
    a + n <= b || b + k <= a
  }

  // ----- allocation -----

  /** Clearing the bits of `align - 1`. */
  function RoundedUp(heap: nat, align: nat): nat
    requires align > 0
  {
    if heap % align == 0 then heap else Without(heap + align - 1, align - 1)
  }

  /**
   Never below the heap pointer nor a whole alignment above it; for powers of two, which is what the
   callers pass, the least multiple of the alignment.
   */
  lemma RoundedUpIsAligned(heap: nat, align: nat)
    requires align > 0
    ensures heap <= RoundedUp(heap, align) < heap + align
    ensures IsPowerOfTwo(align) ==> RoundedUp(heap, align) % align == 0
  {
    if heap % align != 0 && IsPowerOfTwo(align) {
      var top := heap + align - 1;
      WithoutLowBits(top, align);
      MultipleBelow(top, align, RoundedUp(heap, align));
    }
  }

  lemma MultipleBelow(x: nat, n: nat, y: int)
    requires n > 0 && y == x - x % n
    ensures y % n == 0
  {
    RemainderIs(y, n, x / n, 0);
  }

  /** The mask does not align to anything but powers of two: 12 asked of a heap pointer 9 gives 20. */
  lemma OtherAlignmentsAreMissed(heap: nat, align: nat)
    requires heap == 9 && align == 12
    ensures RoundedUp(heap, align) == 20 && RoundedUp(heap, align) % align != 0
  {
    assert Without(1, 0) == 1 && Without(2, 1) == 2;
    assert Without(5, 2) == 5 && Without(10, 5) == 10;
    assert Without(20, 11) == 20;
  }

  datatype Block = Block(addr: nat, size: nat)

  datatype Ask = Ask(size: nat, align: nat)

  /** The blocks that a series of allocations yields, and the heap pointer behind them. */
  function Allocations(heap: nat, asks: seq<Ask>): (seq<Block>, nat)
    requires forall a :: a in asks ==> a.align > 0
    decreases |asks|
  {
    if asks == [] then ([], heap)
    else
      RoundedUpIsAligned(heap, asks[0].align);
      var addr := RoundedUp(heap, asks[0].align);
      var (rest, end) := Allocations(addr + asks[0].size, asks[1..]);
      ([Block(addr, asks[0].size)] + rest, end)
  }

  /** All blocks are aligned, to powers of two, lie between the old and the new heap pointer and do not overlap. */
  lemma {:induction false} BlocksAreDisjoint(heap: nat, asks: seq<Ask>)
    requires forall a :: a in asks ==> a.align > 0
    ensures var (blocks, end) := Allocations(heap, asks);
            && |blocks| == |asks| && heap <= end
            && (forall i :: 0 <= i < |blocks| ==>
                  && blocks[i].size == asks[i].size
                  && (IsPowerOfTwo(asks[i].align) ==> blocks[i].addr % asks[i].align == 0)
                  && heap <= blocks[i].addr && blocks[i].addr + blocks[i].size <= end)
            && (forall i, j :: 0 <= i < j < |blocks| ==> blocks[i].addr + blocks[i].size <= blocks[j].addr)
    decreases |asks|
  {
    if asks != [] {
      var addr := RoundedUp(heap, asks[0].align);
      RoundedUpIsAligned(heap, asks[0].align);
      BlocksAreDisjoint(addr + asks[0].size, asks[1..]);
    }
  }

  // ----- the three parts of a queue -----

  function Padding(n: nat): nat {
    4096 - (16 * n + (6 + 2 * n)) % 4096
  }

  /** In the page-aligned block of a queue the used ring starts on a page of its own behind the others. */
  lemma UsedRingIsPageAligned(base: nat, n: nat)
    requires base % 4096 == 0
    ensures var avail, used := base + 16 * n, base + 16 * n + (6 + 2 * n) + Padding(n);
            && used % 4096 == 0 && avail + (6 + 2 * n) < used
            && (n == 256 ==> used == base + 8192)
  {
    var x := 16 * n + (6 + 2 * n);
    assert (x + (4096 - x % 4096)) % 4096 == 0;
  }
}
