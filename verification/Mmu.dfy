/** The kernel's page tables, filled by loops, and the address map they are meant to be. */
module Mmu {
  import opened Machine
  import opened Wrappers
  import opened PageWalk

  const KERNEL_BASE: nat := 0x4000_0000
  const KERNEL_BLOCKS: nat := 64
  const DMA_BASE: nat := 0x5000_0000
  const GIC_BASE: nat := 0x0800_0000
  const UART_BASE: nat := 0x0900_0000
  const VIRTIO_BASE: nat := 0x0A00_0000
  const FRAMEBUFFER_BASE: nat := 0x2000_0000
  const FRAMEBUFFER_PAGES: nat := 1024

  /** What mapping a framebuffer has set up: nothing, or so many pages from `phys` on. */
  datatype Framebuffer = Unmapped | Framebuffer(phys: nat, pages: nat)

  // ----- the intended map -----

  function RoundedDown(a: nat): nat {
    a / BLOCK * BLOCK
  }

  function RoundedUp(a: nat): nat {
    (a + BLOCK - 1) / BLOCK * BLOCK
  }

  /** Kernel memory in a two-megabyte block that the region [start, end) touches. */
  predicate InEl0Region(va: nat, start: nat, end: nat) {
    RoundedDown(start) <= va < RoundedUp(end)
  }

  predicate In(va: nat, base: nat, size: nat) {
    base <= va < base + size
  }

  function Intended(va: nat, start: nat, end: nat, fb: Framebuffer): Translation {
    if In(va, KERNEL_BASE, KERNEL_BLOCKS * BLOCK) then Mapped(va, NORMAL, InEl0Region(va, start, end), false)
    else if In(va, DMA_BASE, 2 * BLOCK) || In(va, GIC_BASE, BLOCK) || In(va, UART_BASE, BLOCK)
            || In(va, VIRTIO_BASE, 32 * PAGE) then Mapped(va, DEVICE, false, false)
    else if fb.Framebuffer? && In(va, FRAMEBUFFER_BASE, fb.pages * PAGE) then
      Mapped(fb.phys + (va - FRAMEBUFFER_BASE), NORMAL, true, false)
    else Fault
  }

  /** The same in numbers: kernel memory, the buffers of the devices, and three ranges of registers. */
  lemma TheMapInNumbers(va: nat, start: nat, end: nat)
    ensures Intended(va, start, end, Unmapped) ==
            if 0x4000_0000 <= va < 0x4800_0000 then Mapped(va, 1, InEl0Region(va, start, end), false)
            else if 0x5000_0000 <= va < 0x5040_0000 || 0x0800_0000 <= va < 0x0820_0000
                    || 0x0900_0000 <= va < 0x0920_0000 || 0x0A00_0000 <= va < 0x0A02_0000
            then Mapped(va, 0, false, false)
            else Fault
    ensures forall phys: nat, pages: nat :: 0x2000_0000 <= va < 0x2000_0000 + pages * 0x1000 <= 0x2040_0000 ==>
              Intended(va, start, end, Framebuffer(phys, pages)) == Mapped(phys + (va - 0x2000_0000), 1, true, false)
  {
  }

  // ----- the tables, entry by entry -----

  /** The first block of the region and the one behind its last. */
  function FirstBlock(start: nat): int {
    (start - KERNEL_BASE) / BLOCK
  }

  function BlockBehind(end: nat): int {
    (end - KERNEL_BASE + BLOCK - 1) / BLOCK
  }

  function RootEntry(i: nat, p: Places): nat {
    if i == 0 then p.user + 3 else if i == 1 then p.kernel + 3 else 0
  }

  function KernelEntry(i: nat, start: nat, end: nat): nat {
    var address := KERNEL_BASE + i * BLOCK;
    if i < KERNEL_BLOCKS then address + Bits(NORMAL, FirstBlock(start) <= i < BlockBehind(end), false)
    else if i == 128 || i == 129 then address + Bits(DEVICE, false, false)
    else 0
  }

  function UserEntry(i: nat, p: Places, fb: Framebuffer): nat {
    if i == 64 || i == 72 then i * BLOCK + Bits(DEVICE, false, false)
    else if i == 80 then p.mmio + 3
    else if i == 256 && fb.Framebuffer? then p.fb0 + 3
    else if i == 257 && fb.Framebuffer? then p.fb1 + 3
    else 0
  }

  function MmioEntry(i: nat): nat {
    if i < 32 then VIRTIO_BASE + i * PAGE + Bits(DEVICE, false, true) else 0
  }

  function PageEntry(n: nat, fb: Framebuffer): nat {
    if fb.Framebuffer? && n < fb.pages then With(fb.phys + n * PAGE, Bits(NORMAL, true, true)) else 0
  }

  ghost predicate Built(t: Tables, p: Places, start: nat, end: nat, fb: Framebuffer) {
    && (forall i: nat :: i < 512 ==> t.root[i] == RootEntry(i, p))
    && (forall i: nat :: i < 512 ==> t.kernel[i] == KernelEntry(i, start, end))
    && (forall i: nat :: i < 512 ==> t.user[i] == UserEntry(i, p, fb))
    && (forall i: nat :: i < 512 ==> t.mmio[i] == MmioEntry(i))
    && (forall i: nat :: i < 512 ==> t.fb0[i] == PageEntry(i, fb))
    && (forall i: nat :: i < 512 ==> t.fb1[i] == PageEntry(i + 512, fb))
  }

  predicate IsPlace(a: nat) {
    a % PAGE == 0 && a < PHYSICAL_SPACE
  }

  /** Page-aligned physical addresses, all different. */
  predicate Placed(p: Places) {
    && IsPlace(p.user) && IsPlace(p.kernel) && IsPlace(p.mmio) && IsPlace(p.fb0) && IsPlace(p.fb1)
    && p.user != p.kernel && p.user != p.mmio && p.user != p.fb0 && p.user != p.fb1
    && p.kernel != p.mmio && p.kernel != p.fb0 && p.kernel != p.fb1
    && p.mmio != p.fb0 && p.mmio != p.fb1 && p.fb0 != p.fb1
  }

  predicate Fits(fb: Framebuffer) {
    fb.Framebuffer? ==>
      fb.phys % PAGE == 0 && fb.pages <= FRAMEBUFFER_PAGES && fb.phys + fb.pages * PAGE <= PHYSICAL_SPACE
  }

  // ----- the walk meets the map -----

  lemma Splitting(va: nat)
    ensures va == va / BLOCK * BLOCK + va % BLOCK && va % BLOCK < BLOCK
    ensures va == va / PAGE * PAGE + va % PAGE && va % PAGE < PAGE
    ensures va / BLOCK == va / GIGABYTE * 512 + va / BLOCK % 512
    ensures va / PAGE == va / BLOCK * 512 + va / PAGE % 512
  {
    DivideTwice(va, BLOCK);
    DivideTwice(va, PAGE);
  }

  lemma DivideTwice(va: nat, size: nat)
    requires size == BLOCK || size == PAGE
    ensures va / (size * 512) == va / size / 512
  {
  }

  /** The block a kernel address lies in is open to EL0 exactly when the rounded region covers it. */
  lemma RegionByBlocks(va: nat, start: nat, end: nat, i: nat)
    requires KERNEL_BASE <= start <= end && i * BLOCK + KERNEL_BASE <= va < (i + 1) * BLOCK + KERNEL_BASE
    ensures FirstBlock(start) <= i < BlockBehind(end) <==> InEl0Region(va, start, end)
  {
    var s, e := start - KERNEL_BASE, end - KERNEL_BASE;
    assert start / BLOCK == s / BLOCK + 512;
    assert (end + BLOCK - 1) / BLOCK == (e + BLOCK - 1) / BLOCK + 512;
  }

  lemma KernelWalk(p: Places, t: Tables, start: nat, end: nat, fb: Framebuffer, va: nat)
    requires Placed(p) && Built(t, p, start, end, fb) && KERNEL_BASE <= start <= end
    requires KERNEL_BASE <= va < KERNEL_BASE + GIGABYTE
    ensures WalkLevel2(p, t, Some(t.kernel), va) == Intended(va, start, end, Unmapped)
  {
    var i := va / BLOCK % 512;
    assert KERNEL_BASE + i * BLOCK + va % BLOCK == va && va % BLOCK < BLOCK by {
      Splitting(va);
      assert va / GIGABYTE == 1;
    }
    assert t.kernel[i] == KernelEntry(i, start, end);
    KernelBlockMaps(t.kernel[i], start, end, i, va);
  }

  lemma KernelBlockMaps(d: nat, start: nat, end: nat, i: nat, va: nat)
    requires d == KernelEntry(i, start, end) && i < 512 && KERNEL_BASE <= start <= end
    requires va == KERNEL_BASE + i * BLOCK + va % BLOCK && va % BLOCK < BLOCK
    ensures (if !IsValid(d) then Fault else Leaf(d, BLOCK, va)) == Intended(va, start, end, Unmapped)
    ensures IsValid(d) ==> !HasTableBit(d)
  {
    if i < KERNEL_BLOCKS {
      RegionByBlocks(va, start, end, i);
      LeavesMap(KERNEL_BASE + i * BLOCK, NORMAL, InEl0Region(va, start, end), BLOCK, va);
    } else if i == 128 || i == 129 {
      LeavesMap(KERNEL_BASE + i * BLOCK, DEVICE, false, BLOCK, va);
    }
  }

  lemma MmioWalk(t: Tables, p: Places, start: nat, end: nat, fb: Framebuffer, va: nat)
    requires Built(t, p, start, end, fb) && va / BLOCK == 80
    ensures WalkLevel3(Some(t.mmio), va) ==
            if In(va, VIRTIO_BASE, 32 * PAGE) then Mapped(va, DEVICE, false, false) else Fault
  {
    Splitting(va);
    var i := va / PAGE % 512;
    assert va == VIRTIO_BASE + i * PAGE + va % PAGE;
    assert t.mmio[i] == MmioEntry(i);
    if i < 32 {
      LeavesMap(VIRTIO_BASE + i * PAGE, DEVICE, false, PAGE, va);
    }
  }

  lemma PagesAreAligned(a: nat, n: nat)
    requires a % PAGE == 0
    ensures (a + n * PAGE) % PAGE == 0
  {
    RemainderIs(a + n * PAGE, PAGE, a / PAGE + n, 0);
  }

  lemma PageSizeIsAPower()
    ensures IsPowerOfTwo(PAGE)
  {
    assert IsPowerOfTwo(16);
    assert IsPowerOfTwo(256);
  }

  /** `n` counts framebuffer pages through both tables. */
  lemma PageMaps(d: nat, n: nat, fb: Framebuffer, va: nat)
    requires Fits(fb) && d == PageEntry(n, fb) && va == FRAMEBUFFER_BASE + n * PAGE + va % PAGE
    ensures (if !IsValid(d) || !HasTableBit(d) then Fault else Leaf(d, PAGE, va)) ==
            if fb.Framebuffer? && In(va, FRAMEBUFFER_BASE, fb.pages * PAGE) then
              Mapped(fb.phys + (va - FRAMEBUFFER_BASE), NORMAL, true, false)
            else Fault
  {
    if fb.Framebuffer? && n < fb.pages {
      assert d == fb.phys + n * PAGE + Bits(NORMAL, true, true) by {
        PagesAreAligned(fb.phys, n);
        PageSizeIsAPower();
        WithIsPlus(fb.phys + n * PAGE, Bits(NORMAL, true, true), PAGE);
      }
      LeavesMap(fb.phys + n * PAGE, NORMAL, true, PAGE, va);
    }
  }

  lemma FramebufferWalk(t: Tables, p: Places, start: nat, end: nat, fb: Framebuffer, va: nat)
    requires Built(t, p, start, end, fb) && Fits(fb) && (va / BLOCK == 256 || va / BLOCK == 257)
    ensures WalkLevel3(Some(if va / BLOCK == 256 then t.fb0 else t.fb1), va) ==
            if fb.Framebuffer? && In(va, FRAMEBUFFER_BASE, fb.pages * PAGE) then
              Mapped(fb.phys + (va - FRAMEBUFFER_BASE), NORMAL, true, false)
            else Fault
  {
    Splitting(va);
    var i := va / PAGE % 512;
    if va / BLOCK == 256 {
      assert t.fb0[i] == PageEntry(i, fb);
      PageMaps(t.fb0[i], i, fb, va);
    } else {
      assert t.fb1[i] == PageEntry(i + 512, fb);
      PageMaps(t.fb1[i], i + 512, fb, va);
    }
  }

  lemma UserWalk(p: Places, t: Tables, start: nat, end: nat, fb: Framebuffer, va: nat)
    requires Placed(p) && Built(t, p, start, end, fb) && Fits(fb) && va < GIGABYTE
    ensures WalkLevel2(p, t, Some(t.user), va) == Intended(va, start, end, fb)
  {
    var i := va / BLOCK;
    assert i < 512 && va / BLOCK % 512 == i && va == i * BLOCK + va % BLOCK by {
      Splitting(va);
    }
    assert t.user[i] == UserEntry(i, p, fb);
    if i == 80 || i == 256 || i == 257 {
      PageLevelWalk(p, t, start, end, fb, va);
    } else {
      DeviceBlockMaps(t.user[i], p, start, end, fb, i, va);
    }
  }

  lemma DeviceBlockMaps(d: nat, p: Places, start: nat, end: nat, fb: Framebuffer, i: nat, va: nat)
    requires d == UserEntry(i, p, fb) && i < 512 && i != 80 && i != 256 && i != 257 && Fits(fb)
    requires va == i * BLOCK + va % BLOCK && va % BLOCK < BLOCK
    ensures (if !IsValid(d) then Fault else Leaf(d, BLOCK, va)) == Intended(va, start, end, fb)
    ensures IsValid(d) ==> !HasTableBit(d)
  {
    DeviceBlocksAsIntended(start, end, fb, i, va % BLOCK, va);
    if i == 64 || i == 72 {
      BlocksAreAligned(i);
      LeavesMap(i * BLOCK, DEVICE, false, BLOCK, va);
    } else {
      assert Low(0) == 0;
    }
  }

  /** Below the kernel only two blocks are mapped as such. */
  lemma DeviceBlocksAsIntended(start: nat, end: nat, fb: Framebuffer, i: nat, r: nat, va: nat)
    requires i < 512 && i != 80 && i != 256 && i != 257 && Fits(fb) && va == i * BLOCK + r && r < BLOCK
    ensures Intended(va, start, end, fb) == if i == 64 || i == 72 then Mapped(va, DEVICE, false, false) else Fault
  {
  }

  lemma BlocksAreAligned(i: nat)
    ensures (i * BLOCK) % BLOCK == 0
  {
    RemainderIs(i * BLOCK, BLOCK, i, 0);
  }

  lemma PageLevelWalk(p: Places, t: Tables, start: nat, end: nat, fb: Framebuffer, va: nat)
    requires Placed(p) && Built(t, p, start, end, fb) && Fits(fb) && va < GIGABYTE
    requires va / BLOCK == 80 || va / BLOCK == 256 || va / BLOCK == 257
    ensures WalkLevel2(p, t, Some(t.user), va) == Intended(va, start, end, fb)
  {
    var i := va / BLOCK;
    assert va / BLOCK % 512 == i && va == i * BLOCK + va % BLOCK by {
      Splitting(va);
    }
    assert t.user[i] == UserEntry(i, p, fb);
    if i == 80 {
      MmioBlockWalk(p, t, start, end, fb, i, va);
    } else {
      FramebufferBlockWalk(p, t, start, end, fb, i, va);
    }
  }

  lemma MmioBlockWalk(p: Places, t: Tables, start: nat, end: nat, fb: Framebuffer, i: nat, va: nat)
    requires Placed(p) && Built(t, p, start, end, fb) && Fits(fb) && i == 80
    requires i == va / BLOCK == va / BLOCK % 512 && va == i * BLOCK + va % BLOCK && t.user[i] == UserEntry(i, p, fb)
    ensures WalkLevel2(p, t, Some(t.user), va) == Intended(va, start, end, fb)
  {
    TablesPoint(p.mmio);
    MmioWalk(t, p, start, end, fb, va);
    MmioAsIntended(start, end, fb, va % BLOCK, va);
  }

  lemma FramebufferBlockWalk(p: Places, t: Tables, start: nat, end: nat, fb: Framebuffer, i: nat, va: nat)
    requires Placed(p) && Built(t, p, start, end, fb) && Fits(fb) && (i == 256 || i == 257)
    requires i == va / BLOCK == va / BLOCK % 512 && va == i * BLOCK + va % BLOCK && t.user[i] == UserEntry(i, p, fb)
    ensures WalkLevel2(p, t, Some(t.user), va) == Intended(va, start, end, fb)
  {
    TablesPoint(p.fb0);
    TablesPoint(p.fb1);
    FramebufferWalk(t, p, start, end, fb, va);
    FramebufferAsIntended(start, end, fb, i, va % BLOCK, va);
  }

  lemma MmioAsIntended(start: nat, end: nat, fb: Framebuffer, r: nat, va: nat)
    requires va == 80 * BLOCK + r && r < BLOCK && Fits(fb)
    ensures Intended(va, start, end, fb) ==
            if In(va, VIRTIO_BASE, 32 * PAGE) then Mapped(va, DEVICE, false, false) else Fault
  {
  }

  lemma FramebufferAsIntended(start: nat, end: nat, fb: Framebuffer, i: nat, r: nat, va: nat)
    requires (i == 256 || i == 257) && va == i * BLOCK + r && r < BLOCK && Fits(fb)
    ensures Intended(va, start, end, fb) ==
            if fb.Framebuffer? && In(va, FRAMEBUFFER_BASE, fb.pages * PAGE) then
              Mapped(fb.phys + (va - FRAMEBUFFER_BASE), NORMAL, true, false)
            else Fault
  {
  }

  /** Main theorem: for every 39-bit address, walking the tables is the intended map. */
  lemma WalkIsTheIntendedMap(p: Places, t: Tables, start: nat, end: nat, fb: Framebuffer, va: nat)
    requires Placed(p) && Built(t, p, start, end, fb) && Fits(fb) && KERNEL_BASE <= start <= end
    requires va < ADDRESS_SPACE
    ensures Walk(p, t, va) == Intended(va, start, end, fb)
  {
    var i := va / GIGABYTE;
    assert t.root[i] == RootEntry(i, p);
    if i == 0 {
      TablesPoint(p.user);
      UserWalk(p, t, start, end, fb, va);
    } else if i == 1 {
      TablesPoint(p.kernel);
      KernelWalk(p, t, start, end, fb, va);
    }
  }

  /** EL0 reaches exactly the rounded region, as far as kernel memory is mapped, and the framebuffer. */
  lemma El0ReachesOnlyItsOwn(p: Places, t: Tables, start: nat, end: nat, fb: Framebuffer, va: nat)
    requires Placed(p) && Built(t, p, start, end, fb) && Fits(fb) && KERNEL_BASE <= start <= end
    requires va < ADDRESS_SPACE
    ensures var w := Walk(p, t, va);
            (w.Mapped? && w.el0) <==>
              || (In(va, KERNEL_BASE, KERNEL_BLOCKS * BLOCK) && InEl0Region(va, start, end))
              || (fb.Framebuffer? && In(va, FRAMEBUFFER_BASE, fb.pages * PAGE))
  {
    WalkIsTheIntendedMap(p, t, start, end, fb, va);
  }

  // ----- the loops that fill the tables -----

  class PageTables {
    const places: Places
    const root: array<nat>
    const user: array<nat>
    const kernel: array<nat>
    const mmio: array<nat>
    const fb0: array<nat>
    const fb1: array<nat>

    ghost predicate Valid() {
      && root.Length == user.Length == kernel.Length == mmio.Length == fb0.Length == fb1.Length == 512
      && root != user && root != kernel && root != mmio && root != fb0 && root != fb1
      && user != kernel && user != mmio && user != fb0 && user != fb1
      && kernel != mmio && kernel != fb0 && kernel != fb1 && mmio != fb0 && mmio != fb1 && fb0 != fb1
      && Placed(places)
    }

    ghost function View(): Tables
      requires Valid()
      reads root, user, kernel, mmio, fb0, fb1
    {
      Tables(root[..], user[..], kernel[..], mmio[..], fb0[..], fb1[..])
    }

    constructor (places: Places)
      requires Placed(places)
      ensures Valid() && this.places == places
      ensures fresh(root) && fresh(user) && fresh(kernel) && fresh(mmio) && fresh(fb0) && fresh(fb1)
    {
      this.places := places;
      root, user, kernel := new nat[512], new nat[512], new nat[512];
      mmio, fb0, fb1 := new nat[512], new nat[512], new nat[512];
    }

    method Clear()
      requires Valid()
      modifies root, user, kernel, mmio, fb0, fb1
      ensures forall k :: 0 <= k < 512 ==> root[k] == 0 && user[k] == 0 && kernel[k] == 0
      ensures forall k :: 0 <= k < 512 ==> mmio[k] == 0 && fb0[k] == 0 && fb1[k] == 0
    {
      for i := 0 to 512
        invariant forall k :: 0 <= k < i ==> root[k] == 0 && user[k] == 0 && kernel[k] == 0
        invariant forall k :: 0 <= k < i ==> mmio[k] == 0 && fb0[k] == 0 && fb1[k] == 0
      {
        root[i], kernel[i], user[i], mmio[i], fb0[i], fb1[i] := 0, 0, 0, 0, 0, 0;
      }
    }

    /** Sixty-four blocks of kernel memory, those of the EL0 region once more, two blocks of DMA heap. */
    method MapKernel(start: nat, end: nat)
      requires Valid() && KERNEL_BASE <= start <= end
      requires forall k :: 0 <= k < 512 ==> kernel[k] == 0
      modifies kernel
      ensures forall k: nat :: k < 512 ==> kernel[k] == KernelEntry(k, start, end)
    {
      for i := 0 to KERNEL_BLOCKS
        invariant forall k: nat :: k < i ==> kernel[k] == KERNEL_BASE + k * BLOCK + Bits(NORMAL, false, false)
        invariant forall k: nat :: i <= k < 512 ==> kernel[k] == 0
      {
        kernel[i] := KERNEL_BASE + i * BLOCK + Bits(NORMAL, false, false);
      }
      var first: nat := (start - KERNEL_BASE) / BLOCK;
      var behind: nat := (end - KERNEL_BASE + BLOCK - 1) / BLOCK;
      var i := first;
      while i < behind && i < KERNEL_BLOCKS
        invariant first <= i
        invariant forall k: nat :: k < KERNEL_BLOCKS ==>
                    kernel[k] == KERNEL_BASE + k * BLOCK + Bits(NORMAL, first <= k < i && k < behind, false)
        invariant forall k: nat :: KERNEL_BLOCKS <= k < 512 ==> kernel[k] == 0
      {
        kernel[i] := KERNEL_BASE + i * BLOCK + Bits(NORMAL, true, false);
        i := i + 1;
      }
      kernel[128] := DMA_BASE + Bits(DEVICE, false, false);
      kernel[129] := DMA_BASE + BLOCK + Bits(DEVICE, false, false);
    }

    method MapDevices()
      requires Valid()
      requires forall k :: 0 <= k < 512 ==> user[k] == 0 && mmio[k] == 0
      modifies user, mmio
      ensures forall k: nat :: k < 512 ==> user[k] == UserEntry(k, places, Unmapped) && mmio[k] == MmioEntry(k)
    {
      user[64] := GIC_BASE + Bits(DEVICE, false, false);
      user[72] := UART_BASE + Bits(DEVICE, false, false);
      user[80] := places.mmio + 3;
      for i := 0 to 32
        invariant forall k: nat :: k < 512 ==> mmio[k] == if k < i then MmioEntry(k) else 0
        modifies mmio
      {
        mmio[i] := VIRTIO_BASE + i * PAGE + Bits(DEVICE, false, true);
      }
    }

    /** Everything but the framebuffer. */
    method InitTables(start: nat, end: nat)
      requires Valid() && KERNEL_BASE <= start <= end
      modifies root, user, kernel, mmio, fb0, fb1
      ensures Built(View(), places, start, end, Unmapped)
    {
      Clear();
      root[1] := places.kernel + 3;
      root[0] := places.user + 3;
      MapKernel(start, end);
      MapDevices();
    }

    /** The framebuffer, page by page; what is behind the second table is left out. */
    method MapFramebuffer(phys: nat, size: UInt32, ghost start: nat, ghost end: nat)
      requires Valid() && Built(View(), places, start, end, Unmapped)
      modifies user, fb0, fb1
      ensures Built(View(), places, start, end,
                    if phys == 0 then Unmapped else Framebuffer(phys, Least(Pages(size), FRAMEBUFFER_PAGES)))
    {
      if phys == 0 {
        return;
      }
      user[256] := places.fb0 + 3;
      user[257] := places.fb1 + 3;
      ghost var n := Pages(size);
      var offset, page := 0, 0;
      while offset < size
        invariant page <= n && offset == page * PAGE
        invariant forall k: nat :: k < 512 ==>
                    fb0[k] == if k < page then With(phys + k * PAGE, Bits(NORMAL, true, true)) else 0
        invariant forall k: nat :: k < 512 ==>
                    fb1[k] == if k + 512 < page then With(phys + (k + 512) * PAGE, Bits(NORMAL, true, true)) else 0
        modifies fb0, fb1
        decreases n - page
      {
        if page < 512 {
          fb0[page] := With(phys + offset, Bits(NORMAL, true, true));
        } else if page < FRAMEBUFFER_PAGES {
          fb1[page - 512] := With(phys + offset, Bits(NORMAL, true, true));
        }
        offset := offset + PAGE;
        page := offset / PAGE;
      }
    }
  }

  function Pages(size: nat): nat {
    (size + PAGE - 1) / PAGE
  }

  /** A framebuffer of at most four megabytes is mapped to its last byte, page-aligned memory permitting. */
  lemma SmallFramebuffersAreMappedWhole(p: Places, t: Tables, start: nat, end: nat, phys: nat, size: nat, va: nat)
    requires Placed(p) && KERNEL_BASE <= start <= end && size <= 0x40_0000
    requires phys % PAGE == 0 && phys + size + PAGE <= PHYSICAL_SPACE
    requires Built(t, p, start, end, Framebuffer(phys, Least(Pages(size), FRAMEBUFFER_PAGES)))
    requires FRAMEBUFFER_BASE <= va < FRAMEBUFFER_BASE + size
    ensures Walk(p, t, va) == Mapped(phys + (va - FRAMEBUFFER_BASE), NORMAL, true, false)
  {
    assert Pages(size) <= FRAMEBUFFER_PAGES && size <= Pages(size) * PAGE < size + PAGE;
    WalkIsTheIntendedMap(p, t, start, end, Framebuffer(phys, Pages(size)), va);
  }
}
