/**
 Page tables as the processor reads them: descriptors and the three-level walk of a 39-bit address
 with 4 KB pages, after section D8.3 of the Arm Architecture Reference Manual (DDI 0487).
 */
module PageWalk {
  import opened Wrappers

  const PAGE: nat := 0x1000
  const BLOCK: nat := 0x20_0000
  const GIGABYTE: nat := 0x4000_0000
  const ADDRESS_SPACE: nat := 0x80_0000_0000
  const PHYSICAL_SPACE: nat := 0x1_0000_0000_0000

  type Table = s: seq<nat> | |s| == 512 witness seq(512, _ => 0)

  /** The five tables below the root, by physical address. */
  datatype Places = Places(user: nat, kernel: nat, mmio: nat, fb0: nat, fb1: nat)

  datatype Tables = Tables(root: Table, user: Table, kernel: Table, mmio: Table, fb0: Table, fb1: Table)

  function TableAt(p: Places, t: Tables, address: nat): Option<Table> {
    if address == p.user then Some(t.user)
    else if address == p.kernel then Some(t.kernel)
    else if address == p.mmio then Some(t.mmio)
    else if address == p.fb0 then Some(t.fb0)
    else if address == p.fb1 then Some(t.fb1)
    else None
  }

  // ----- descriptor fields -----

  /** The type bits and the lower attributes. */
  function Low(d: nat): nat {
    d % PAGE
  }

  predicate IsValid(d: nat) {
    Low(d) % 2 == 1
  }

  /** Bit 1: a table at levels 1 and 2, a page at level 3. */
  predicate HasTableBit(d: nat) {
    Low(d) / 2 % 2 == 1
  }

  function AttrIndex(d: nat): nat {
    Low(d) / 4 % 8
  }

  /** AP[1], bit 6: unprivileged access too. */
  predicate IsForEl0(d: nat) {
    Low(d) / 64 % 2 == 1
  }

  /** AP[2], bit 7. */
  predicate IsReadOnly(d: nat) {
    Low(d) / 128 % 2 == 1
  }

  predicate WasAccessed(d: nat) {
    Low(d) / 1024 % 2 == 1
  }

  /** Bits 47 down to the size of what the descriptor maps. */
  function Output(d: nat, size: nat): nat
    requires size > 0
  {
    var low := Remainder(d, PHYSICAL_SPACE);
    low - Remainder(low, size)
  }

  function Remainder(n: nat, m: nat): (r: nat)
    requires m > 0
    ensures r <= n
  {
    n % m
  }

  datatype Translation = Fault | Mapped(address: nat, attr: nat, el0: bool, readOnly: bool)

  function Leaf(d: nat, size: nat, va: nat): Translation
    requires size > 0
  {
    if !WasAccessed(d) then Fault
    else Mapped(Output(d, size) + va % size, AttrIndex(d), IsForEl0(d), IsReadOnly(d))
  }

  // ----- the walk -----

  function Walk(p: Places, t: Tables, va: nat): Translation
    requires va < ADDRESS_SPACE
  {
    var d := t.root[va / GIGABYTE];
    if !IsValid(d) then Fault
    else if !HasTableBit(d) then Leaf(d, GIGABYTE, va)
    else WalkLevel2(p, t, TableAt(p, t, Output(d, PAGE)), va)
  }

  function WalkLevel2(p: Places, t: Tables, table: Option<Table>, va: nat): Translation {
    if table.None? then Fault
    else
      var d := table.value[va / BLOCK % 512];
      if !IsValid(d) then Fault
      else if !HasTableBit(d) then Leaf(d, BLOCK, va)
      else WalkLevel3(TableAt(p, t, Output(d, PAGE)), va)
  }

  function WalkLevel3(table: Option<Table>, va: nat): Translation {
    if table.None? then Fault
    else
      var d := table.value[va / PAGE % 512];
      if !IsValid(d) || !HasTableBit(d) then Fault else Leaf(d, PAGE, va)
  }

  // ----- descriptors as the kernel builds them -----

  const DEVICE: nat := 0
  const NORMAL: nat := 1

  /** The attribute register: a byte for each memory type, the first in its lowest bits. */
  const MEMORY_ATTRIBUTES: nat := 0xFF00

  function AttributeByte(index: nat): nat {
    if index == 0 then MEMORY_ATTRIBUTES % 256 else MEMORY_ATTRIBUTES / 256 % 256
  }

  /** Registers are device memory without gathering, reordering or early answers; the rest is cached, write-back. */
  lemma MemoryTypes()
    ensures AttributeByte(DEVICE) == 0x00 && AttributeByte(NORMAL) == 0xFF
  {
  }

  /** The attribute bits of a leaf: access flag, AP[1], memory type, and the two type bits. */
  function Bits(attr: nat, el0: bool, page: bool): nat {
    1024 + (if el0 then 64 else 0) + 4 * attr + (if page then 3 else 1)
  }

  lemma BitsReadBack(address: nat, bits: nat, size: nat)
    requires (size == PAGE || size == BLOCK) && bits < PAGE && address % size == 0 && address < PHYSICAL_SPACE
    ensures Low(address + bits) == bits && Output(address + bits, size) == address
  {
    var k := address / size;
    if size == PAGE {
      PageRemainder(k, bits);
    } else {
      PageRemainder(512 * k, bits);
      BlockRemainder(k, bits);
    }
  }

  lemma PageRemainder(k: nat, bits: nat)
    requires bits < PAGE
    ensures (PAGE * k + bits) % PAGE == bits
  {
  }

  lemma BlockRemainder(k: nat, bits: nat)
    requires bits < PAGE
    ensures (BLOCK * k + bits) % BLOCK == bits
  {
  }

  /** A leaf that the kernel builds maps what its parts say. */
  lemma LeavesMap(address: nat, attr: nat, el0: bool, size: nat, va: nat)
    requires (size == PAGE || size == BLOCK) && address % size == 0 && address < PHYSICAL_SPACE && attr < 2
    ensures var d := address + Bits(attr, el0, size == PAGE);
            && IsValid(d) && (HasTableBit(d) <==> size == PAGE)
            && Leaf(d, size, va) == Mapped(address + va % size, attr, el0, false)
  {
    var bits := Bits(attr, el0, size == PAGE);
    BitsReadBack(address, bits, size);
    assert Low(address + bits) == bits;
  }

  lemma TablesPoint(address: nat)
    requires address % PAGE == 0 && address < PHYSICAL_SPACE
    ensures IsValid(address + 3) && HasTableBit(address + 3) && Output(address + 3, PAGE) == address
  {
    BitsReadBack(address, 3, PAGE);
    assert Low(address + 3) == 3;
  }
}
