/**
 The file system driver itself: scans over the shared 512-byte buffers and sector transfers. A read
 may fail at any time; the operation then stops, having made the first few of its writes.
 */
module FatDriver {
  import opened Machine
  import opened FatLayout
  import opened FatWalk
  import opened FatVolume
  import opened FatNames

  type Sectors = seq<Sector>

  /** Whether all the device reads from number `a` up to number `b` succeed. */
  ghost predicate NoFaults(faults: nat -> bool, a: nat, b: nat) {
    forall i: nat :: a <= i < b ==> !faults(i)
  }

  /** A read's search goes on past this entry. */
  predicate GoesOn(dir: Sector, name: Bytes, i: nat)
    requires i < DIR_ENTRIES
  {
    !IsUnused(dir, i) && EntryName(dir, i) != name
  }

  ghost predicate StopsAt(dir: Sector, name: Bytes, slot: nat, stop: nat) {
    && stop <= DIR_ENTRIES && (forall j: nat :: j < stop ==> GoesOn(dir, name, j))
    && (stop < DIR_ENTRIES ==> !GoesOn(dir, name, stop))
    && slot == if stop == DIR_ENTRIES || IsUnused(dir, stop) then DIR_ENTRIES else stop
  }

  lemma {:induction false} WhereReadsStop(dir: Sector, name: Bytes, slot: nat, stop: nat, i: nat)
    requires i <= stop && StopsAt(dir, name, slot, stop)
    ensures ReadSlot(dir, name, i) == slot
    decreases stop - i
  {
    if i < stop {
      assert GoesOn(dir, name, i);
      WhereReadsStop(dir, name, slot, stop, i + 1);
    }
  }

  lemma {:induction false} FirstDeadIsTheEmptySlot(dir: Sector, slot: nat, i: nat)
    requires i <= slot <= DIR_ENTRIES && forall j: nat :: i <= j < slot ==> IsLive(dir, j)
    requires slot < DIR_ENTRIES ==> !IsLive(dir, slot)
    ensures EmptySlot(dir, i) == slot
    decreases slot - i
  {
    if i < slot {
      FirstDeadIsTheEmptySlot(dir, slot, i + 1);
    }
  }

  class Driver {
    /** The device: its sectors, how many reads it has served, and which reads fail. */
    var disk: Sectors
    var served: nat
    const faults: nat -> bool
    /** What memory holds behind the buffer that the chain walk may run into. */
    const beyond: Links

    const geometry: Geometry
    const diskBuffer: array<Byte>
    const writeBuffer: array<Byte>

    ghost predicate Valid()
      reads this
    {
      diskBuffer.Length == 512 && writeBuffer.Length == 512 && diskBuffer != writeBuffer
    }

    constructor (geometry: Geometry, disk: Sectors, faults: nat -> bool, beyond: Links)
      ensures Valid() && this.geometry == geometry && this.disk == disk && served == 0
      ensures fresh(diskBuffer) && fresh(writeBuffer)
    {
      this.geometry, this.disk, this.served, this.faults, this.beyond := geometry, disk, 0, faults, beyond;
      diskBuffer := new Byte[512](_ => 0);
      writeBuffer := new Byte[512](_ => 0);
    }

    method ReadSector(lba: nat, buffer: array<Byte>) returns (ok: bool)
      requires buffer.Length == 512
      modifies this`served, buffer
      ensures served == old(served) + 1
      ensures ok <==> !faults(old(served)) && lba < |disk|
      ensures ok ==> buffer[..] == SectorAt(disk, lba)
    {
      ok := !faults(served) && lba < |disk|;
      served := served + 1;
      if ok {
        forall i | 0 <= i < 512 {
          buffer[i] := disk[lba][i];
        }
      }
    }

    method WriteSector(lba: nat, buffer: array<Byte>)
      requires buffer.Length == 512
      modifies this`disk
      ensures disk == Put(old(disk), lba, buffer[..])
    {
      if lba < |disk| {
        disk := disk[lba := buffer[..]];
      }
    }

    /** Byte stores into a buffer, in order. */
    method Store(buffer: array<Byte>, at: nat, b: Bytes)
      requires buffer.Length == 512 && at + |b| <= 512
      modifies buffer
      ensures buffer[..] == Patch(old(buffer[..]), at, b)
    {
      for i := 0 to |b|
        invariant forall k :: 0 <= k < i ==> buffer[at + k] == b[k]
        invariant forall k :: 0 <= k < 512 && (k < at || at + i <= k) ==> buffer[k] == old(buffer[k])
      {
        buffer[at + i] := b[i];
      }
    }

    // ----- scans of the shared buffer -----

    method FindFreeCluster() returns (c: nat)
      requires Valid()
      ensures c == FirstFree(diskBuffer[..], 2)
    {
      c := 2;
      while c < FAT_ENTRIES
        invariant 2 <= c <= FAT_ENTRIES && FirstFree(diskBuffer[..], 2) == FirstFree(diskBuffer[..], c)
      {
        if FatLink(diskBuffer[..], c) == 0 {
          return;
        }
        c := c + 1;
      }
      c := 0;
    }

    method FindEmptySlot() returns (slot: nat)
      requires Valid()
      ensures slot <= DIR_ENTRIES && forall j: nat :: j < slot ==> IsLive(diskBuffer[..], j)
      ensures slot < DIR_ENTRIES ==> !IsLive(diskBuffer[..], slot)
    {
      slot := 0;
      while slot < DIR_ENTRIES
        invariant slot <= DIR_ENTRIES && forall j: nat :: j < slot ==> IsLive(diskBuffer[..], j)
      {
        assert Mark(EntryAt(diskBuffer[..], slot)) == diskBuffer[32 * slot];
        if diskBuffer[32 * slot] == 0 || diskBuffer[32 * slot] == DELETED {
          return;
        }
        slot := slot + 1;
      }
    }

    /** Eleven comparisons, all of them made. */
    method Matches(slot: nat, name: Bytes) returns (match_: bool)
      requires Valid() && slot < DIR_ENTRIES && |name| == 11
      ensures match_ <==> EntryName(diskBuffer[..], slot) == name
    {
      match_ := true;
      for j := 0 to 11
        invariant match_ <==> forall k :: 0 <= k < j ==> diskBuffer[32 * slot + k] == name[k]
      {
        if diskBuffer[32 * slot + j] != name[j] {
          match_ := false;
        }
      }
      assert forall k :: 0 <= k < 11 ==> EntryName(diskBuffer[..], slot)[k] == diskBuffer[32 * slot + k];
    }

    method FindToAppend(name: Bytes) returns (slot: nat)
      requires Valid() && |name| == 11
      ensures slot <= DIR_ENTRIES && forall j: nat :: j < slot ==> EntryName(diskBuffer[..], j) != name
      ensures slot < DIR_ENTRIES ==> EntryName(diskBuffer[..], slot) == name
    {
      slot := 0;
      while slot < DIR_ENTRIES
        invariant slot <= DIR_ENTRIES && forall j: nat :: j < slot ==> EntryName(diskBuffer[..], j) != name
      {
        var found := Matches(slot, name);
        if found {
          return;
        }
        slot := slot + 1;
      }
    }

    /** The search ends at the first match, at the first unused entry, or behind the last. */
    method FindToRead(name: Bytes) returns (slot: nat)
      requires Valid() && |name| == 11
      ensures slot == ReadSlot(diskBuffer[..], name, 0)
    {
      slot := 0;
      while slot < DIR_ENTRIES
        invariant slot <= DIR_ENTRIES && forall j: nat :: j < slot ==> GoesOn(diskBuffer[..], name, j)
      {
        assert Mark(EntryAt(diskBuffer[..], slot)) == diskBuffer[32 * slot];
        if diskBuffer[32 * slot] == 0 {
          WhereReadsStop(diskBuffer[..], name, DIR_ENTRIES, slot, 0);
          return DIR_ENTRIES;
        }
        var found := Matches(slot, name);
        if found {
          WhereReadsStop(diskBuffer[..], name, slot, slot, 0);
          return;
        }
        slot := slot + 1;
      }
      WhereReadsStop(diskBuffer[..], name, slot, slot, 0);
    }

    // ----- operations -----

    method FormatName(filename: Bytes) returns (name: Bytes)
      ensures name == FatName(filename)
    {
      var target := new Byte[11];
      FormatFatName(filename, target);
      name := target[..];
    }

    /** The writes made are the first `done` of `WriteTrace`, all of them if no read fails. */
    method WriteFile(filename: Bytes, data: Bytes) returns (ghost done: nat)
      requires Valid() && |data| < TWO_TO_THE_32
      modifies this`disk, this`served, diskBuffer, writeBuffer
      ensures served >= old(served)
      ensures var trace := WriteTrace(geometry, old(disk), FatName(filename), data);
              && done <= |trace| && disk == Apply(old(disk), trace[..done])
              && (NoFaults(faults, old(served), served) ==> done == |trace|)
    {
      var name := FormatName(filename);
      done := 0;
      var ok := ReadSector(geometry.fatStart, diskBuffer);
      if !ok {
        return;
      }
      var c := FindFreeCluster();
      if c == 0 {
        return;
      }
      WriteTraceShape(geometry, disk, name, data, c);
      Store(diskBuffer, 4 * c, Bytes32(END_OF_CHAIN));
      WriteSector(geometry.fatStart, diskBuffer);
      FillWriteBuffer(data);
      WriteSector(geometry.SectorOf(c), writeBuffer);
      var entered := EnterFile(name, c, data);
      done := if entered then 3 else 2;
    }

    /** The last part of a write: a directory entry, if a slot is free. */
    method EnterFile(name: Bytes, c: UInt32, data: Bytes) returns (entered: bool)
      requires Valid() && IsRequest(name, data)
      modifies this`disk, this`served, diskBuffer
      ensures served >= old(served)
      ensures var trace := EntryTrace(geometry, old(disk), name, c, data);
              && |trace| <= 1
              && (if entered then |trace| == 1 && disk == Apply(old(disk), trace) else disk == old(disk))
              && (NoFaults(faults, old(served), served) ==> entered == (|trace| == 1))
    {
      entered := false;
      var ok := ReadSector(geometry.Root(), diskBuffer);
      if !ok {
        return;
      }
      var slot := FindEmptySlot();
      FirstDeadIsTheEmptySlot(diskBuffer[..], slot, 0);
      if slot == DIR_ENTRIES {
        return;
      }
      StoreEntry(slot, name, c, |data|);
      WriteSector(geometry.Root(), diskBuffer);
      entered := true;
      ApplyOne(old(disk), EntryTrace(geometry, old(disk), name, c, data)[0]);
    }

    method FillWriteBuffer(data: Bytes)
      requires Valid()
      modifies writeBuffer
      ensures writeBuffer[..] == DataSector(data)
    {
      for i := 0 to 512
        invariant forall k :: 0 <= k < i ==> writeBuffer[k] == 0
      {
        writeBuffer[i] := 0;
      }
      var n := Least(|data|, 512);
      for i := 0 to n
        invariant forall k :: 0 <= k < i ==> writeBuffer[k] == data[k]
        invariant forall k :: i <= k < 512 ==> writeBuffer[k] == 0
      {
        writeBuffer[i] := data[i];
      }
    }

    /** The fields of a new entry, one after the other. */
    method StoreEntry(slot: nat, name: Bytes, c: UInt32, size: UInt32)
      requires Valid() && slot < DIR_ENTRIES && |name| == 11
      modifies diskBuffer
      ensures diskBuffer[..] == WithEntry(old(diskBuffer[..]), slot, name, c, size)
    {
      var at := 32 * slot;
      ghost var before := diskBuffer[..];
      ghost var head := name + [ARCHIVE, 0, 0] + Bytes16(0) + Bytes16(0) + Bytes16(0);
      ghost var tail := Bytes16(c / 65536) + Bytes16(0) + Bytes16(0) + Bytes16(c % 65536) + Bytes32(size);
      StoreHead(at, name);
      StoreTail(at + 20, c, size);
      PatchesJoin(before, at, head, tail);
      assert head + tail == NewEntry(name, c, size);
    }

    method StoreHead(at: nat, name: Bytes)
      requires Valid() && at + 20 <= 512 && |name| == 11
      modifies diskBuffer
      ensures diskBuffer[..] ==
              Patch(old(diskBuffer[..]), at, name + [ARCHIVE, 0, 0] + Bytes16(0) + Bytes16(0) + Bytes16(0))
    {
      ghost var before := diskBuffer[..];
      Store(diskBuffer, at, name);
      Store(diskBuffer, at + 11, [ARCHIVE, 0, 0]);
      PatchesJoin(before, at, name, [ARCHIVE, 0, 0]);
      Store(diskBuffer, at + 14, Bytes16(0));
      PatchesJoin(before, at, name + [ARCHIVE, 0, 0], Bytes16(0));
      Store(diskBuffer, at + 16, Bytes16(0));
      PatchesJoin(before, at, name + [ARCHIVE, 0, 0] + Bytes16(0), Bytes16(0));
      Store(diskBuffer, at + 18, Bytes16(0));
      PatchesJoin(before, at, name + [ARCHIVE, 0, 0] + Bytes16(0) + Bytes16(0), Bytes16(0));
    }

    method StoreTail(at: nat, c: UInt32, size: UInt32)
      requires Valid() && at + 12 <= 512
      modifies diskBuffer
      ensures diskBuffer[..] == Patch(old(diskBuffer[..]), at,
                Bytes16(c / 65536) + Bytes16(0) + Bytes16(0) + Bytes16(c % 65536) + Bytes32(size))
    {
      ghost var before, hi, lo := diskBuffer[..], Bytes16(c / 65536), Bytes16(c % 65536);
      Store(diskBuffer, at, Bytes16(c / 65536));
      Store(diskBuffer, at + 2, Bytes16(0));
      PatchesJoin(before, at, hi, Bytes16(0));
      Store(diskBuffer, at + 4, Bytes16(0));
      PatchesJoin(before, at, hi + Bytes16(0), Bytes16(0));
      Store(diskBuffer, at + 6, Bytes16(c % 65536));
      PatchesJoin(before, at, hi + Bytes16(0) + Bytes16(0), lo);
      Store(diskBuffer, at + 8, Bytes32(size));
      PatchesJoin(before, at, hi + Bytes16(0) + Bytes16(0) + lo, Bytes32(size));
    }

    /** The writes made are the first `done` of `AppendTrace`, all of them if no read fails. */
    method AppendFile(filename: Bytes, data: Bytes) returns (ghost done: nat)
      requires Valid() && |data| < TWO_TO_THE_32
      modifies this`disk, this`served, diskBuffer, writeBuffer
      ensures served >= old(served)
      ensures var trace := AppendTrace(geometry, old(disk), beyond, FatName(filename), data);
              && done <= |trace| && disk == Apply(old(disk), trace[..done])
              && (NoFaults(faults, old(served), served) ==> done == |trace|)
    {
      var name := FormatName(filename);
      done := 0;
      var ok := ReadSector(geometry.Root(), diskBuffer);
      if !ok {
        return;
      }
      var slot := FindToAppend(name);
      assert slot == AppendSlot(Dir(geometry, disk), name, 0) by {
        FirstMatchIsTheAppendSlot(diskBuffer[..], name, slot, 0);
      }
      if slot == DIR_ENTRIES {
        done := WriteFile(filename, data);
        return;
      }
      done := ExtendFound(slot, data);
    }

    /** Behind the search: the chain is walked in the table, which takes the directory's place in the buffer. */
    method ExtendFound(slot: nat, data: Bytes) returns (ghost done: nat)
      requires Valid() && slot < DIR_ENTRIES && diskBuffer[..] == Dir(geometry, disk)
      modifies this`disk, this`served, diskBuffer, writeBuffer
      ensures served >= old(served)
      ensures var trace := FoundTrace(geometry, old(disk), beyond, slot, data);
              && done <= |trace| && disk == Apply(old(disk), trace[..done])
              && (geometry.Root() < |old(disk)| && NoFaults(faults, old(served), served) ==> done == |trace|)
    {
      done := 0;
      var first, size := EntryCluster(diskBuffer[..], slot), EntrySize(diskBuffer[..], slot);
      var ok := ReadSector(geometry.fatStart, diskBuffer);
      if !ok {
        return;
      }
      var last := WalkToEnd(LinksOf(diskBuffer[..], beyond), first, geometry.maxValidClusters);
      if last.None? {
        return;
      }
      done := ExtendFile(slot, last.value, size, data);
    }

    /** The last part of an append: the data sector, then the size, re-read from the directory. */
    method ExtendFile(slot: nat, last: UInt32, size: UInt32, data: Bytes) returns (ghost done: nat)
      requires Valid() && slot < DIR_ENTRIES
      modifies this`disk, this`served, diskBuffer, writeBuffer
      ensures served >= old(served)
      ensures var trace := ExtendTrace(geometry, old(disk), slot, last, size, data);
              && done <= |trace| && disk == Apply(old(disk), trace[..done])
              && (geometry.Root() < |old(disk)| && NoFaults(faults, old(served), served) ==> done == |trace|)
    {
      done := 0;
      var lba := geometry.SectorOf(last);
      var ok := ReadSector(lba, writeBuffer);
      if !ok {
        return;
      }
      ExtensionShape(geometry, disk, slot, last, size, data);
      var n := Fitting(size, data);
      Store(writeBuffer, size % 512, data[..n]);
      WriteSector(lba, writeBuffer);
      var resized := ResizeFile(slot, n);
      done := if resized then 2 else 1;
    }

    /** The size of an entry, in a directory sector read afresh: the table has taken its place. */
    method ResizeFile(slot: nat, n: nat) returns (ok: bool)
      requires Valid() && slot < DIR_ENTRIES
      modifies this`disk, this`served, diskBuffer
      ensures served == old(served) + 1 && (ok <==> !faults(old(served)) && geometry.Root() < |old(disk)|)
      ensures disk == if ok then Apply(old(disk), ResizeTrace(geometry, old(disk), slot, n)) else old(disk)
    {
      ok := ReadSector(geometry.Root(), diskBuffer);
      if ok {
        Store(diskBuffer, 32 * slot + 28, Bytes32(Wrap32(EntrySize(diskBuffer[..], slot) + n)));
        WriteSector(geometry.Root(), diskBuffer);
        ApplyOne(old(disk), ResizeTrace(geometry, old(disk), slot, n)[0]);
      }
    }

    /** A C string in `buffer`: the text of the file, or of the error message. */
    method ReadFile(filename: Bytes, buffer: array<Byte>, max: nat)
      requires Valid() && 17 <= max <= buffer.Length && buffer != diskBuffer
      modifies this`served, diskBuffer, buffer
      ensures served >= old(served)
      ensures var text := ReadText(geometry, disk, beyond, FatName(filename), max);
              NoFaults(faults, old(served), served) && text.Some? ==>
                |text.value| < max && buffer[..|text.value|] == text.value && buffer[|text.value|] == 0
      ensures ReadText(geometry, disk, beyond, FatName(filename), max).None? ==>
                buffer[..] == old(buffer[..]) || (faults(old(served)) && buffer[0] == 0)
      ensures faults(old(served)) ==> buffer[0] == 0
      ensures served == old(served) + 2 && faults(old(served) + 1) ==> buffer[..] == old(buffer[..])
    {
      var name := FormatName(filename);
      var ok := ReadSector(geometry.Root(), diskBuffer);
      if !ok {
        buffer[0] := 0;
        return;
      }
      var slot := FindToRead(name);
      var cluster, size := 0, 0;
      if slot < DIR_ENTRIES {
        cluster, size := EntryCluster(diskBuffer[..], slot), EntrySize(diskBuffer[..], slot);
      }
      if cluster == 0 {
        CopyString(NOT_FOUND, 16, buffer);
        return;
      }
      ok := ReadSector(geometry.SectorOf(cluster), diskBuffer);
      if ok {
        CopyFromBuffer(Least(size, max - 1), buffer);
      }
    }

    /** The copy loop: nothing keeps it from running past the sector buffer. */
    method CopyFromBuffer(n: UInt32, buffer: array<Byte>)
      requires Valid() && n < buffer.Length && buffer != diskBuffer
      modifies buffer
      ensures buffer[..n] == FirstBytes(diskBuffer[..], beyond, n) && buffer[n] == 0
    {
      for i := 0 to n
        invariant forall k :: 0 <= k < i ==> buffer[k] == if k < 512 then diskBuffer[k] else ByteBehind(beyond, k)
      {
        buffer[i] := if i < 512 then diskBuffer[i] else ByteBehind(beyond, i);
      }
      buffer[n] := 0;
    }

    /** The first `n` bytes and a NUL. */
    method CopyString(source: Bytes, n: nat, buffer: array<Byte>)
      requires n <= |source| && n < buffer.Length
      modifies buffer
      ensures buffer[..n] == source[..n] && buffer[n] == 0
    {
      for i := 0 to n
        invariant buffer[..i] == source[..i]
      {
        buffer[i] := source[i];
      }
      buffer[n] := 0;
    }
  }

  lemma PatchesJoin(s: Bytes, at: nat, a: Bytes, b: Bytes)
    requires at + |a| + |b| <= |s|
    ensures Patch(Patch(s, at, a), at + |a|, b) == Patch(s, at, a + b)
  {
  }

  lemma WriteTraceShape(g: Geometry, disk: Disk, name: Bytes, data: Bytes, c: UInt32)
    requires IsRequest(name, data) && g.fatStart < |disk| && c == FirstFree(Fat(g, disk), 2) != 0
    ensures var trace := WriteTrace(g, disk, name, data);
            var two := Put(Put(disk, g.fatStart, Allocated(Fat(g, disk), c)), g.SectorOf(c), DataSector(data));
            var more := EntryTrace(g, two, name, c, data);
            && |trace| == 2 + |more|
            && Apply(disk, trace[..2]) == two
            && Apply(disk, trace) == Apply(two, more)
            && trace[..|trace|] == trace
  {
    var trace := WriteTrace(g, disk, name, data);
    ApplyTwo(disk, trace[0], trace[1]);
    assert trace[..2] == [trace[0], trace[1]];
    assert trace == trace[..2] + trace[2..];
    ApplyInTwoParts(disk, trace[..2], trace[2..]);
  }

  lemma ExtensionShape(g: Geometry, disk: Disk, slot: nat, last: UInt32, size: UInt32, data: Bytes)
    requires slot < DIR_ENTRIES && g.SectorOf(last) < |disk|
    ensures var trace := ExtendTrace(g, disk, slot, last, size, data);
            var one := Put(disk, g.SectorOf(last), Lengthened(SectorAt(disk, g.SectorOf(last)), size, data));
            && |trace| == 2 && trace[..2] == trace && trace[..0] == []
            && Apply(disk, trace[..1]) == one
            && Apply(disk, trace) == Apply(one, ResizeTrace(g, one, slot, Fitting(size, data)))
  {
    var trace := ExtendTrace(g, disk, slot, last, size, data);
    var w := Write(g.SectorOf(last), Lengthened(SectorAt(disk, g.SectorOf(last)), size, data));
    ApplyOne(disk, w);
    assert trace[..1] == [w];
    assert trace == [w] + ResizeTrace(g, Apply(disk, [w]), slot, Fitting(size, data));
    ApplyInTwoParts(disk, [w], ResizeTrace(g, Apply(disk, [w]), slot, Fitting(size, data)));
  }
}
