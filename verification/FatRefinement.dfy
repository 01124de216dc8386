/**
 File operations on a well-formed volume are operations on its sixteen slots, one by one, over whole
 runs, and when they are cut short after any of their sector writes.
 */
module FatRefinement {
  import opened Machine
  import opened Wrappers
  import opened FatLayout
  import opened FatWalk
  import opened FatVolume
  import opened FatChains
  import opened FatFiles
  import opened FatSteps

  // ----- the abstract operations -----

  function FirstEmpty(slots: seq<Slot>, i: nat): (r: nat)
    requires i <= |slots|
    ensures i <= r <= |slots|
    decreases |slots| - i
  {
    if i == |slots| || slots[i].Empty? then i else FirstEmpty(slots, i + 1)
  }

  function FirstNamed(slots: seq<Slot>, name: Bytes, i: nat): (r: nat)
    requires i <= |slots|
    ensures i <= r <= |slots|
    ensures r < |slots| ==> IsNamed(slots[r], name)
    decreases |slots| - i
  {
    if i == |slots| || IsNamed(slots[i], name) then i else FirstNamed(slots, name, i + 1)
  }

  /** A new file in the first empty slot, older files of the same name notwithstanding. */
  function Written(s: State, name: Bytes, data: Bytes): State {
    if s.free == 0 then s
    else
      var slot := FirstEmpty(s.slots, 0);
      s.(slots := if slot == |s.slots| then s.slots else s.slots[slot := File(name, data)], free := s.free - 1)
  }

  /**
   The first file of that name, longer by what fits in its last sector; a new file if there is none. What
   is foreign is left alone.
   */
  function Appended(s: State, name: Bytes, data: Bytes): State {
    var slot := FirstNamed(s.slots, name, 0);
    if slot == |s.slots| then Written(s, name, data)
    else if !s.slots[slot].File? then s
    else
      var held := s.slots[slot].bytes;
      s.(slots := s.slots[slot := File(name, held + data[..Fitting(|held|, data)])])
  }

  /** The end of `size` bytes lies in the first sector of the last cluster, and not on a cluster boundary. */
  predicate HasRoom(size: nat, clusterSize: nat)
    requires clusterSize > 0
  {
    size % clusterSize < 512 && (size == 0 || size % clusterSize != 0)
  }

  /** Nothing to append, or a file that ends where the driver looks for its end. */
  predicate CanAppend(s: State, name: Bytes, data: Bytes) {
    var slot := FirstNamed(s.slots, name, 0);
    if slot == |s.slots| then CanWrite(s, data)
    else data == [] || (s.slots[slot].File? && s.clusterSize > 0 && HasRoom(|s.slots[slot].bytes|, s.clusterSize))
  }

  /** A write that has no room does nothing; one that has room must fit one sector. */
  predicate CanWrite(s: State, data: Bytes) {
    s.free == 0 || FirstEmpty(s.slots, 0) == |s.slots| || |data| <= 512
  }

  /** What is copied lies in the first sector of a file; what has no clusters is not found. */
  predicate CanRead(s: State, name: Bytes, max: nat)
    requires max > 0
  {
    var slot := FirstNamed(s.slots, name, 0);
    slot == |s.slots| ||
    match s.slots[slot]
    case Empty => false
    case File(_, bytes) => Least(|bytes|, max - 1) <= 512
    case Foreign(e, _) => ClusterOf(e) == 0
  }

  function Text(s: State, name: Bytes, max: nat): Bytes
    requires max > 0
  {
    var slot := FirstNamed(s.slots, name, 0);
    if slot == |s.slots| || !s.slots[slot].File? then NOT_FOUND
    else s.slots[slot].bytes[..Least(|s.slots[slot].bytes|, max - 1)]
  }

  // ----- the slots that searches find -----

  lemma EmptySlotsAgree(g: Geometry, disk: Disk)
    ensures EmptySlot(Dir(g, disk), 0) == FirstEmpty(Slots(g, disk), 0)
  {
    var dir, slots, from := Dir(g, disk), Slots(g, disk), 0;
    forall j: nat | j < DIR_ENTRIES ensures slots[j].Empty? <==> !IsLive(dir, j) {
      assert slots[j] == SlotOf(g, disk, j);
    }
    FirstEmptyAgrees(dir, slots, from);
  }

  lemma {:induction false} FirstEmptyAgrees(dir: Sector, slots: seq<Slot>, i: nat)
    requires i <= |slots| == DIR_ENTRIES && forall j: nat :: j < DIR_ENTRIES ==> (slots[j].Empty? <==> !IsLive(dir, j))
    ensures EmptySlot(dir, i) == FirstEmpty(slots, i)
    decreases DIR_ENTRIES - i
  {
    if i < DIR_ENTRIES {
      FirstEmptyAgrees(dir, slots, i + 1);
    }
  }

  lemma NamesAgree(e: Entry, contents: Bytes, name: Bytes)
    requires IsVisible(name)
    ensures IsNamed(SlotFor(e, contents), name) <==> NameOf(e) == name
  {
    assert NameOf(e)[0] == Mark(e);
  }

  lemma AppendSlotsAgree(g: Geometry, disk: Disk, name: Bytes)
    requires IsVisible(name)
    ensures AppendSlot(Dir(g, disk), name, 0) == FirstNamed(Slots(g, disk), name, 0)
  {
    var dir, slots, from := Dir(g, disk), Slots(g, disk), 0;
    forall j: nat | j < DIR_ENTRIES ensures IsNamed(slots[j], name) <==> EntryName(dir, j) == name {
      assert slots[j] == SlotOf(g, disk, j);
      NamesAgree(EntryAt(dir, j), Joined(g, disk, ClustersOf(g, disk, j)), name);
    }
    FirstNamedAgrees(dir, slots, name, from);
  }

  lemma {:induction false} FirstNamedAgrees(dir: Sector, slots: seq<Slot>, name: Bytes, i: nat)
    requires i <= |slots| == DIR_ENTRIES
    requires forall j: nat :: j < DIR_ENTRIES ==> (IsNamed(slots[j], name) <==> EntryName(dir, j) == name)
    ensures AppendSlot(dir, name, i) == FirstNamed(slots, name, i)
    decreases DIR_ENTRIES - i
  {
    if i < DIR_ENTRIES {
      FirstNamedAgrees(dir, slots, name, i + 1);
    }
  }

  lemma {:induction false} ReadSlotsAgree(g: Geometry, disk: Disk, name: Bytes, i: nat)
    requires UnusedBehind(Dir(g, disk)) && i <= DIR_ENTRIES && IsVisible(name)
    ensures ReadSlot(Dir(g, disk), name, i) == FirstNamed(Slots(g, disk), name, i)
    decreases DIR_ENTRIES - i
  {
    if i < DIR_ENTRIES {
      if IsUnused(Dir(g, disk), i) {
        NothingBehindUnused(g, disk, name, i, i);
      } else {
        NamesAgree(EntryAt(Dir(g, disk), i), Joined(g, disk, ClustersOf(g, disk, i)), name);
        assert Slots(g, disk)[i] == SlotOf(g, disk, i);
        ReadSlotsAgree(g, disk, name, i + 1);
      }
    }
  }

  lemma {:induction false} NothingBehindUnused(g: Geometry, disk: Disk, name: Bytes, unused: nat, i: nat)
    requires UnusedBehind(Dir(g, disk)) && unused <= i <= DIR_ENTRIES && unused < DIR_ENTRIES
    requires IsUnused(Dir(g, disk), unused)
    ensures FirstNamed(Slots(g, disk), name, i) == DIR_ENTRIES
    decreases DIR_ENTRIES - i
  {
    if i < DIR_ENTRIES {
      assert Slots(g, disk)[i] == SlotOf(g, disk, i);
      assert IsUnused(Dir(g, disk), i);
      NothingBehindUnused(g, disk, name, unused, i + 1);
    }
  }

  lemma FreeMeansFound(g: Geometry, disk: Disk)
    ensures |FreeClusters(Fat(g, disk))| == 0 <==> FirstFree(Fat(g, disk), 2) == 0
  {
    var c := FirstFree(Fat(g, disk), 2);
    if c != 0 {
      assert c in FreeClusters(Fat(g, disk));
    } else {
      assert FreeClusters(Fat(g, disk)) == {};
    }
  }

  /** The file in a slot, its entry and its chain. */
  lemma FileInSlot(g: Geometry, disk: Disk, slot: nat)
    requires WellFormed(g, disk) && slot < DIR_ENTRIES && Slots(g, disk)[slot].File?
    ensures var e, cs := EntryAt(Dir(g, disk), slot), ClustersOf(g, disk, slot);
            && IsFile(e) && cs != [] && Covers(g, |cs|, SizeOf(e)) && cs[0] == ClusterOf(e)
            && Slots(g, disk)[slot] == File(NameOf(e), Joined(g, disk, cs)[..SizeOf(e)])
            && |Slots(g, disk)[slot].bytes| == SizeOf(e)
  {
    var e, cs := EntryAt(Dir(g, disk), slot), ClustersOf(g, disk, slot);
    assert Slots(g, disk)[slot] == SlotOf(g, disk, slot);
    assert EntryOk(g, e, cs);
    assert |Joined(g, disk, cs)| == Span(g, |cs|);
    assert Cut(Joined(g, disk, cs), SizeOf(e)) == Joined(g, disk, cs)[..SizeOf(e)];
  }

  // ----- writing -----

  /** `d` is `disk` but for one cluster, allocated to no entry. */
  ghost predicate Prepared(g: Geometry, disk: Disk, d: Disk, c: nat) {
    && WellFormed(g, d) && Slots(g, d) == Slots(g, disk) && Orphans(g, d) == Orphans(g, disk) + {c}
    && FreeClusters(Fat(g, d)) == FreeClusters(Fat(g, disk)) - {c}
  }

  /** What the first two writes of a new file do; `two` is the volume they leave. */
  lemma TwoWrites(g: Geometry, disk: Disk, name: Bytes, data: Bytes) returns (c: UInt32, two: Disk)
    requires WellFormed(g, disk) && IsRequest(name, data) && |FreeClusters(Fat(g, disk))| != 0
    ensures c == FirstFree(Fat(g, disk), 2) && c in FreeClusters(Fat(g, disk))
    ensures var trace := WriteTrace(g, disk, name, data);
            && |trace| >= 2
            && Prepared(g, disk, Apply(disk, trace[..1]), c) && two == Apply(disk, trace[..2])
            && trace[2..] == EntryTrace(g, two, name, c, data)
    ensures Prepared(g, disk, two, c) && Reserved(g, two, c)
    ensures g.PerCluster() > 0 && ClusterBytes(g, two, c) == DataSector(data) + Slack(g, disk, c)
  {
    RootIsElsewhere(g, disk);
    FreeMeansFound(g, disk);
    c := FirstFree(Fat(g, disk), 2);
    AllocateStep(g, disk, c);
    var one := Put(disk, g.fatStart, Allocated(Fat(g, disk), c));
    FillStep(g, one, c, DataSector(data));
    two := Put(one, g.SectorOf(c), DataSector(data));
    FilledCluster(g, disk, c, Allocated(Fat(g, disk), c), DataSector(data));
    var trace := WriteTrace(g, disk, name, data);
    assert trace[..1] == [trace[0]] && trace[..2] == [trace[0], trace[1]];
    ApplyOne(disk, trace[0]);
    ApplyTwo(disk, trace[0], trace[1]);
  }

  /** Behind the data sector the new cluster holds what it held before. */
  lemma FilledCluster(g: Geometry, disk: Disk, c: UInt32, fat: Sector, content: Sector)
    requires g.Fits(|disk|) && 2 <= c < FAT_ENTRIES
    ensures g.PerCluster() > 0
    ensures ClusterBytes(g, Put(Put(disk, g.fatStart, fat), g.SectorOf(c), content), c) == content + Slack(g, disk, c)
  {
    assert g.PerCluster() > 0 && g.fatStart < g.SectorOf(c) < |disk| by {
      ClusterRange(g, |disk|, c);
    }
    assert Slack(g, Put(disk, g.fatStart, fat), c) == Slack(g, disk, c) by {
      RunUnchanged(disk, g.SectorOf(c) + 1, g.PerCluster() - 1, g.fatStart, fat);
    }
    ClusterBytesAfter(g, Put(disk, g.fatStart, fat), c, content);
  }

  /** The last write of a new file, when there is a slot for it. */
  lemma EntryTraceShape(g: Geometry, two: Disk, name: Bytes, c: UInt32, data: Bytes)
    requires WellFormed(g, two) && IsRequest(name, data)
    ensures var slot, trace := FirstEmpty(Slots(g, two), 0), EntryTrace(g, two, name, c, data);
            && slot == EmptySlot(Dir(g, two), 0)
            && (slot == DIR_ENTRIES ==> trace == [])
            && (slot < DIR_ENTRIES ==>
                  && !IsLive(Dir(g, two), slot)
                  && Replaced(Dir(g, two), WithEntry(Dir(g, two), slot, name, c, |data|), slot,
                              NewEntry(name, c, |data|))
                  && trace == [Write(g.Root(), WithEntry(Dir(g, two), slot, name, c, |data|))]
                  && Apply(two, trace) == Put(two, g.Root(), WithEntry(Dir(g, two), slot, name, c, |data|)))
  {
    RootIsElsewhere(g, two);
    EmptySlotsAgree(g, two);
    EmptySlotIsFirst(Dir(g, two), 0);
    var slot, trace := FirstEmpty(Slots(g, two), 0), EntryTrace(g, two, name, c, data);
    if slot < DIR_ENTRIES {
      ApplyOne(two, trace[0]);
      forall j: nat | j < DIR_ENTRIES
        ensures EntryAt(WithEntry(Dir(g, two), slot, name, c, |data|), j) ==
                if j == slot then NewEntry(name, c, |data|) else EntryAt(Dir(g, two), j)
      {
        WithEntryAt(Dir(g, two), slot, name, c, |data|, j);
      }
    }
  }

  lemma NewEntriesAreFiles(name: Bytes, c: UInt32, size: UInt32)
    requires |name| == 11 && c != 0
    ensures var e := NewEntry(name, c, size);
            && NameOf(e) == name && ClusterOf(e) == c && SizeOf(e) == size && Mark(e) == name[0]
            && (IsVisible(name) ==> IsFile(e))
  {
    NewEntryReadsBack(name, c, size);
    assert NameOf(NewEntry(name, c, size))[0] == Mark(NewEntry(name, c, size));
  }

  /** The slots after a write that had room: a new file of the size asked for, whatever its cluster holds. */
  function WrittenSlots(g: Geometry, disk: Disk, name: Bytes, data: Bytes): seq<Slot>
    requires g.PerCluster() > 0 && FirstFree(Fat(g, disk), 2) != 0
  {
    var slot, c := FirstEmpty(Slots(g, disk), 0), FirstFree(Fat(g, disk), 2);
    if slot == DIR_ENTRIES then Slots(g, disk)
    else Slots(g, disk)[slot := File(name, Cut(DataSector(data) + Slack(g, disk, c), |data|))]
  }

  /** All the writes of a new file, of any length. */
  lemma AllWrites(g: Geometry, disk: Disk, name: Bytes, data: Bytes)
    requires WellFormed(g, disk) && IsVisible(name) && IsRequest(name, data) && |FreeClusters(Fat(g, disk))| != 0
    ensures g.PerCluster() > 0 && FirstFree(Fat(g, disk), 2) != 0
    ensures var d, c := Apply(disk, WriteTrace(g, disk, name, data)), FirstFree(Fat(g, disk), 2);
            && Slots(g, d) == WrittenSlots(g, disk, name, data)
            && (WellFormed(g, d) <==>
                  FirstEmpty(Slots(g, disk), 0) == DIR_ENTRIES || |data| <= 512 * g.PerCluster())
            && FreeClusters(Fat(g, d)) == FreeClusters(Fat(g, disk)) - {c}
            && Orphans(g, d) <= Orphans(g, disk) + {c}
  {
    var c, two := TwoWrites(g, disk, name, data);
    var trace := WriteTrace(g, disk, name, data);
    assert trace == trace[..2] + trace[2..];
    ApplyInTwoParts(disk, trace[..2], trace[2..]);
    EntryTraceShape(g, two, name, c, data);
    var slot := FirstEmpty(Slots(g, two), 0);
    if slot < DIR_ENTRIES {
      NewEntriesAreFiles(name, c, |data|);
      EnterStep(g, two, WithEntry(Dir(g, two), slot, name, c, |data|), slot, NewEntry(name, c, |data|), c);
    }
  }

  /** A file put into the first empty slot is the first of a name that was not there. */
  lemma {:induction false} NewNameIsFound(slots: seq<Slot>, name: Bytes, i: nat, bytes: Bytes)
    requires i <= |slots| && FirstNamed(slots, name, i) == |slots|
    ensures var r := FirstEmpty(slots, i);
            r < |slots| ==> FirstNamed(slots[r := File(name, bytes)], name, i) == r
    decreases |slots| - i
  {
    if i < |slots| && !slots[i].Empty? {
      NewNameIsFound(slots, name, i + 1, bytes);
    }
  }

  /** Data of one sector is what the file then holds. */
  lemma WrittenSlotsAreRight(g: Geometry, disk: Disk, name: Bytes, data: Bytes)
    requires g.PerCluster() > 0 && FirstFree(Fat(g, disk), 2) != 0 && |data| <= 512
    ensures FreeClusters(Fat(g, disk)) != {}
    ensures WrittenSlots(g, disk, name, data) == Written(Abs(g, disk), name, data).slots
  {
    var c := FirstFree(Fat(g, disk), 2);
    assert c in FreeClusters(Fat(g, disk));
    FreeMeansFound(g, disk);
    var all := DataSector(data) + Slack(g, disk, c);
    assert Cut(all, |data|) == all[..|data|] == data;
  }

  lemma WriteRefines(g: Geometry, disk: Disk, name: Bytes, data: Bytes)
    requires WellFormed(g, disk) && IsVisible(name) && IsRequest(name, data) && CanWrite(Abs(g, disk), data)
    ensures var d := Apply(disk, WriteTrace(g, disk, name, data));
            WellFormed(g, d) && Abs(g, d) == Written(Abs(g, disk), name, data)
  {
    FreeMeansFound(g, disk);
    if |FreeClusters(Fat(g, disk))| != 0 {
      assert FirstFree(Fat(g, disk), 2) in FreeClusters(Fat(g, disk));
      AllWrites(g, disk, name, data);
      if |data| <= 512 {
        WrittenSlotsAreRight(g, disk, name, data);
      }
    }
  }

  /**
   Whether a write shows is decided by its name alone: with room for it, the file appears exactly when
   the first byte of the name is not the mark of deletion.
   */
  lemma {:induction false} OnlyVisibleNamesAppear(g: Geometry, disk: Disk, name: Bytes, data: Bytes)
    requires WellFormed(g, disk) && IsRequest(name, data) && name[0] != 0 && |data| <= 512
    requires |FreeClusters(Fat(g, disk))| != 0 && FirstEmpty(Slots(g, disk), 0) < DIR_ENTRIES
    ensures var d := Apply(disk, WriteTrace(g, disk, name, data));
            WellFormed(g, d) && (Slots(g, d) != Slots(g, disk) <==> name[0] != DELETED)
  {
    if IsVisible(name) {
      var slot := FirstEmpty(Slots(g, disk), 0);
      AllWrites(g, disk, name, data);
      FirstEmptyIsEmpty(Slots(g, disk), 0);
      assert Slots(g, Apply(disk, WriteTrace(g, disk, name, data)))[slot].File?;
    } else {
      var c, two := TwoWrites(g, disk, name, data);
      var trace := WriteTrace(g, disk, name, data);
      assert trace == trace[..2] + trace[2..];
      ApplyInTwoParts(disk, trace[..2], trace[2..]);
      EntryTraceShape(g, two, name, c, data);
      var slot := EmptySlot(Dir(g, two), 0);
      NewEntriesAreFiles(name, c, |data|);
      HideStep(g, two, WithEntry(Dir(g, two), slot, name, c, |data|), slot, NewEntry(name, c, |data|));
    }
  }

  lemma {:induction false} FirstEmptyIsEmpty(slots: seq<Slot>, i: nat)
    requires i <= |slots|
    ensures var r := FirstEmpty(slots, i); r < |slots| ==> slots[r].Empty?
    decreases |slots| - i
  {
    if i < |slots| && !slots[i].Empty? {
      FirstEmptyIsEmpty(slots, i + 1);
    }
  }

  // ----- appending -----

  /** The walk ends on the last cluster of the file. */
  lemma WalkEndsOnTheFile(g: Geometry, disk: Disk, beyond: Links, slot: nat)
    requires WellFormed(g, disk) && slot < DIR_ENTRIES && Slots(g, disk)[slot].File?
    ensures var cs := ClustersOf(g, disk, slot);
            cs != [] && Walked(g, Fat(g, disk), beyond, EntryCluster(Dir(g, disk), slot)) == Some(cs[|cs| - 1])
  {
    FileInSlot(g, disk, slot);
    WalksEndOnTheLast(Fat(g, disk), beyond, EntryCluster(Dir(g, disk), slot), 0, g.maxValidClusters);
  }

  /** What an append does to the first file of that name. */
  lemma AppendTraceShape(g: Geometry, disk: Disk, beyond: Links, name: Bytes, data: Bytes, slot: nat)
    requires WellFormed(g, disk) && IsVisible(name) && IsRequest(name, data)
    requires slot == FirstNamed(Slots(g, disk), name, 0)
    ensures slot == DIR_ENTRIES ==> AppendTrace(g, disk, beyond, name, data) == WriteTrace(g, disk, name, data)
    ensures slot < DIR_ENTRIES && Slots(g, disk)[slot].File? ==>
              var cs := ClustersOf(g, disk, slot);
              cs != [] && AppendTrace(g, disk, beyond, name, data) ==
                          ExtendTrace(g, disk, slot, cs[|cs| - 1], EntrySize(Dir(g, disk), slot), data)
  {
    RootIsElsewhere(g, disk);
    AppendSlotsAgree(g, disk, name);
    if slot < DIR_ENTRIES && Slots(g, disk)[slot].File? {
      WalkEndsOnTheFile(g, disk, beyond, slot);
    }
  }

  /** The volumes after the first and after both of two writes. */
  ghost predicate Leaves(disk: Disk, trace: seq<Write>, one: Disk, two: Disk) {
    |trace| == 2 && Apply(disk, trace[..1]) == one && Apply(disk, trace) == two
  }

  /** The two volumes that an extension makes. */
  lemma ExtendTraceShape(
    g: Geometry, disk: Disk, slot: nat, c: UInt32, size: UInt32, newSize: UInt32, data: Bytes, trace: seq<Write>,
    one: Disk, two: Disk)
    requires slot < DIR_ENTRIES && newSize == size + Fitting(size, data) && g.SectorOf(c) < |disk|
             && g.SectorOf(c) != g.Root()
    requires EntrySize(Dir(g, disk), slot) == size && trace == ExtendTrace(g, disk, slot, c, size, data)
    requires one == Put(disk, g.SectorOf(c), Lengthened(SectorAt(disk, g.SectorOf(c)), size, data))
    requires two == Put(one, g.Root(), WithSize(Dir(g, disk), slot, newSize))
    ensures Leaves(disk, trace, one, two)
  {
    var w := Write(g.SectorOf(c), Lengthened(SectorAt(disk, g.SectorOf(c)), size, data));
    var v := Write(g.Root(), WithSize(Dir(g, disk), slot, newSize));
    assert trace == [w, v] by {
      ExtendTraceIsTwoWrites(g, disk, slot, c, size, newSize, data, w, v);
    }
    TwoWritesApplied(disk, trace, w, v);
  }

  lemma ExtendTraceIsTwoWrites(
    g: Geometry, disk: Disk, slot: nat, c: UInt32, size: UInt32, newSize: UInt32, data: Bytes, w: Write, v: Write)
    requires slot < DIR_ENTRIES && newSize == size + Fitting(size, data) && g.SectorOf(c) < |disk|
             && g.SectorOf(c) != g.Root()
    requires EntrySize(Dir(g, disk), slot) == size
    requires w == Write(g.SectorOf(c), Lengthened(SectorAt(disk, g.SectorOf(c)), size, data))
    requires v == Write(g.Root(), WithSize(Dir(g, disk), slot, newSize))
    ensures ExtendTrace(g, disk, slot, c, size, data) == [w, v]
  {
    ApplyOne(disk, w);
    ResizeTraceShape(g, disk, Put(disk, w.lba, w.content), slot, size, Fitting(size, data), newSize);
  }

  lemma ResizeTraceShape(g: Geometry, disk: Disk, one: Disk, slot: nat, size: UInt32, n: nat, newSize: UInt32)
    requires slot < DIR_ENTRIES && newSize == size + n && Dir(g, one) == Dir(g, disk)
    requires EntrySize(Dir(g, disk), slot) == size
    ensures ResizeTrace(g, one, slot, n) == [Write(g.Root(), WithSize(Dir(g, disk), slot, newSize))]
  {
    SmallStays32(newSize);
    assert EntrySize(Dir(g, one), slot) == size;
  }

  /** The contents of a file, cluster by cluster, and what the data sector of an append makes of them. */
  function Overwritten(g: Geometry, disk: Disk, front: seq<UInt32>, last: UInt32, size: nat, data: Bytes): Bytes
    requires g.PerCluster() > 0
  {
    Joined(g, disk, front) + (Lengthened(SectorAt(disk, g.SectorOf(last)), size, data) + Slack(g, disk, last))
  }

  /** The volumes after the first and after both writes of an append, `all` being what the clusters then hold. */
  ghost predicate Extends(
    g: Geometry, disk: Disk, one: Disk, two: Disk, slot: nat, name: Bytes, all: Bytes, n: nat, size: nat, newSize: nat)
    requires slot < DIR_ENTRIES
  {
    && WellFormed(g, one) && Orphans(g, one) == Orphans(g, disk)
    && Slots(g, one) == Slots(g, disk)[slot := File(name, Cut(all, size))]
    && Fat(g, two) == Fat(g, disk) && Orphans(g, two) == Orphans(g, disk) && UnusedBehind(Dir(g, two))
    && Slots(g, two) == Slots(g, disk)[slot := File(name, Cut(all, newSize))]
    && (WellFormed(g, two) <==> Covers(g, n, newSize))
  }

  /** Both volumes that an append to a file makes, wherever the file ends. */
  lemma AppendWrites(
    g: Geometry, disk: Disk, beyond: Links, name: Bytes, data: Bytes, slot: nat, front: seq<UInt32>, last: UInt32,
    size: UInt32, newSize: UInt32, trace: seq<Write>) returns (one: Disk, two: Disk)
    requires WellFormed(g, disk) && IsVisible(name) && IsRequest(name, data)
    requires slot == FirstNamed(Slots(g, disk), name, 0) < DIR_ENTRIES && Slots(g, disk)[slot].File?
    requires ClustersOf(g, disk, slot) == front + [last] && trace == AppendTrace(g, disk, beyond, name, data)
    requires size == EntrySize(Dir(g, disk), slot) && newSize == size + Fitting(size, data)
    ensures Leaves(disk, trace, one, two) && g.PerCluster() > 0
    ensures Extends(g, disk, one, two, slot, name, Overwritten(g, disk, front, last, size, data),
                    |front| + 1, size, newSize)
  {
    var content := Lengthened(SectorAt(disk, g.SectorOf(last)), size, data);
    one := Put(disk, g.SectorOf(last), content);
    two := Put(one, g.Root(), WithSize(Dir(g, disk), slot, newSize));
    assert Leaves(disk, trace, one, two) by {
      AppendTraceApplied(g, disk, beyond, name, data, slot, front, last, size, newSize, trace, one, two);
    }
    assert IsFile(EntryAt(Dir(g, disk), slot)) && EntryName(Dir(g, disk), slot) == name by {
      FileInSlot(g, disk, slot);
    }
    OverwriteThenResize(g, disk, slot, front, last, content, name, size, newSize, one, two);
  }

  lemma AppendTraceApplied(
    g: Geometry, disk: Disk, beyond: Links, name: Bytes, data: Bytes, slot: nat, front: seq<UInt32>, last: UInt32,
    size: UInt32, newSize: UInt32, trace: seq<Write>, one: Disk, two: Disk)
    requires WellFormed(g, disk) && IsVisible(name) && IsRequest(name, data)
    requires slot == FirstNamed(Slots(g, disk), name, 0) < DIR_ENTRIES && Slots(g, disk)[slot].File?
    requires ClustersOf(g, disk, slot) == front + [last] && trace == AppendTrace(g, disk, beyond, name, data)
    requires size == EntrySize(Dir(g, disk), slot) && newSize == size + Fitting(size, data)
    requires one == Put(disk, g.SectorOf(last), Lengthened(SectorAt(disk, g.SectorOf(last)), size, data))
    requires two == Put(one, g.Root(), WithSize(Dir(g, disk), slot, newSize))
    ensures Leaves(disk, trace, one, two)
  {
    assert trace == ExtendTrace(g, disk, slot, last, size, data) by {
      AppendTraceShape(g, disk, beyond, name, data, slot);
      assert (front + [last])[|front + [last]| - 1] == last;
    }
    assert g.SectorOf(last) < |disk| && g.SectorOf(last) != g.Root() by {
      assert last in front + [last];
      OwnedClusters(g, disk, slot, last);
      RootIsElsewhere(g, disk);
    }
    ExtendTraceShape(g, disk, slot, last, size, newSize, data, trace, one, two);
  }

  lemma OverwriteThenResize(
    g: Geometry, disk: Disk, slot: nat, front: seq<UInt32>, last: UInt32, content: Sector, name: Bytes,
    size: UInt32, newSize: UInt32, one: Disk, two: Disk)
    requires WellFormed(g, disk) && slot < DIR_ENTRIES && ClustersOf(g, disk, slot) == front + [last]
    requires var e := EntryAt(Dir(g, disk), slot); IsFile(e) && NameOf(e) == name && SizeOf(e) == size
    requires one == Put(disk, g.SectorOf(last), content)
    requires two == Put(one, g.Root(), WithSize(Dir(g, disk), slot, newSize))
    ensures g.PerCluster() > 0
    ensures Extends(g, disk, one, two, slot, name, Joined(g, disk, front) + (content + Slack(g, disk, last)),
                    |front| + 1, size, newSize)
  {
    OverwriteStep(g, disk, slot, front, last, content);
    var dir := Dir(g, disk);
    var all := Joined(g, disk, front) + (content + Slack(g, disk, last));
    OneSlotDiffers(g, disk, one, slot, File(name, Cut(all, size)));
    SizeIsReplaced(dir, slot, newSize);
    ResizedUnusedBehind(dir, WithSize(dir, slot, newSize), slot, newSize);
    ResizeStep(g, one, WithSize(dir, slot, newSize), slot, newSize);
  }

  lemma SizeIsReplaced(dir: Sector, slot: nat, size: UInt32)
    requires slot < DIR_ENTRIES
    ensures Replaced(dir, WithSize(dir, slot, size), slot, Resized(EntryAt(dir, slot), size))
  {
    forall j: nat | j < DIR_ENTRIES
      ensures EntryAt(WithSize(dir, slot, size), j) ==
              if j == slot then Resized(EntryAt(dir, j), size) else EntryAt(dir, j)
    {
      WithSizeAt(dir, slot, size, j);
    }
  }

  /** Sizes stay far from the end of their 32-bit field. */
  lemma SizesAreSmall(g: Geometry, disk: Disk, slot: nat)
    requires WellFormed(g, disk) && slot < DIR_ENTRIES && Slots(g, disk)[slot].File?
    ensures EntrySize(Dir(g, disk), slot) + 512 < TWO_TO_THE_32
  {
    FileInSlot(g, disk, slot);
    ChainsAreShort(Fat(g, disk), EntryCluster(Dir(g, disk), slot), g.maxValidClusters + 1);
    SpansAreSmall(g, |ClustersOf(g, disk, slot)|);
  }

  lemma {:induction false} SpansAreSmall(g: Geometry, n: nat)
    requires g.bytesPerCluster < 0x100_0000
    ensures Span(g, n) <= 0x100_0000 * n
  {
    if n > 0 {
      SpansAreSmall(g, n - 1);
    }
  }

  // ----- where a file ends -----

  lemma {:induction false} SpanIsAMultiple(g: Geometry, n: nat, size: nat)
    requires size == 512 * g.PerCluster()
    ensures Span(g, n) == size * n
  {
    if n > 0 {
      SpanIsAMultiple(g, n - 1, size);
    }
  }

  /** A file has room exactly when it ends inside the first sector of its last cluster. */
  lemma RoomIsInTheLastCluster(g: Geometry, n: nat, size: nat)
    requires n > 0 && Covers(g, n, size) && g.PerCluster() > 0
    ensures Span(g, n - 1) <= size
    ensures HasRoom(size, 512 * g.PerCluster()) <==> size - Span(g, n - 1) < 512
  {
    var clusterSize := 512 * g.PerCluster();
    SpanIsAMultiple(g, n - 1, clusterSize);
    RoomByRemainder(size, clusterSize, n - 1, size - Span(g, n - 1));
  }

  lemma RoomByRemainder(size: nat, clusterSize: nat, q: nat, r: nat)
    requires clusterSize >= 512 && size == clusterSize * q + r && r <= clusterSize && (r > 0 || q == 0)
    ensures HasRoom(size, clusterSize) <==> r < 512
  {
    if r == clusterSize {
      assert size == clusterSize * (q + 1) + 0;
      RemainderIs(size, clusterSize, q + 1, 0);
    } else {
      RemainderIs(size, clusterSize, q, r);
    }
  }

  /** With room, the data lands behind the file's last byte and nothing before it changes. */
  lemma AppendingInPlace(
    front: Bytes, sector: Sector, slack: Bytes, held: Bytes, size: nat, newSize: nat, data: Bytes, all: Bytes)
    requires |front| % 512 == 0 && |front| <= size <= |front| + 512 + |slack| && (size - |front| < 512 || data == [])
    requires held == (front + (sector + slack))[..size] && newSize == size + Fitting(size, data)
    requires all == front + (Lengthened(sector, size, data) + slack)
    ensures newSize <= |all| && all[..size] == held && all[..newSize] == held + data[..Fitting(size, data)]
  {
    var n, before := Fitting(size, data), front + (sector + slack);
    if data == [] {
      assert Lengthened(sector, size, data) == sector;
      assert data[..0] == [];
    } else {
      var r := size - |front|;
      assert size % 512 == r;
      assert Lengthened(sector, size, data) == sector[..r] + data[..n] + sector[r + n..];
    }
  }

  /** The same for the file in a slot. */
  lemma AppendKeepsTheRest(
    g: Geometry, disk: Disk, slot: nat, front: seq<UInt32>, last: UInt32, size: UInt32, newSize: nat, held: Bytes,
    data: Bytes)
    requires WellFormed(g, disk) && slot < DIR_ENTRIES && Slots(g, disk)[slot].File?
    requires ClustersOf(g, disk, slot) == front + [last] && g.PerCluster() > 0
    requires size == EntrySize(Dir(g, disk), slot) && newSize == size + Fitting(size, data)
    requires held == Slots(g, disk)[slot].bytes && (data == [] || HasRoom(size, 512 * g.PerCluster()))
    ensures var all := Overwritten(g, disk, front, last, size, data);
            && |held| == size && Cut(all, size) == held && Cut(all, newSize) == held + data[..Fitting(size, data)]
            && Covers(g, |front| + 1, newSize)
  {
    var all, sector := Overwritten(g, disk, front, last, size, data), SectorAt(disk, g.SectorOf(last));
    FileByClusters(g, disk, slot, front, last, held);
    RoomIsInTheLastCluster(g, |front| + 1, size);
    AppendingInPlace(Joined(g, disk, front), sector, Slack(g, disk, last), held, size, newSize, data, all);
  }

  /** The contents of a file: all its clusters but the last, the last's first sector, and what is behind it. */
  lemma FileByClusters(g: Geometry, disk: Disk, slot: nat, front: seq<UInt32>, last: UInt32, held: Bytes)
    requires WellFormed(g, disk) && slot < DIR_ENTRIES && Slots(g, disk)[slot].File?
    requires ClustersOf(g, disk, slot) == front + [last] && g.PerCluster() > 0 && held == Slots(g, disk)[slot].bytes
    ensures var size, sector := EntrySize(Dir(g, disk), slot), SectorAt(disk, g.SectorOf(last));
            && Covers(g, |front| + 1, size) && |held| == size
            && size <= |Joined(g, disk, front)| + 512 + |Slack(g, disk, last)|
            && held == (Joined(g, disk, front) + (sector + Slack(g, disk, last)))[..size]
  {
    FileInSlot(g, disk, slot);
    assert (front + [last])[..|front|] == front && last in front + [last];
    OwnedClusters(g, disk, slot, last);
    ClusterBytesAfter(g, disk, last, SectorAt(disk, g.SectorOf(last)));
  }

  /** The guard of an append, read off the directory. */
  lemma RoomForTheFile(g: Geometry, disk: Disk, slot: nat, name: Bytes, size: UInt32, data: Bytes)
    requires WellFormed(g, disk) && CanAppend(Abs(g, disk), name, data)
    requires slot == FirstNamed(Slots(g, disk), name, 0) < DIR_ENTRIES && size == EntrySize(Dir(g, disk), slot)
    requires Slots(g, disk)[slot].File?
    ensures g.PerCluster() > 0 && (data == [] || HasRoom(size, 512 * g.PerCluster()))
  {
    RootIsElsewhere(g, disk);
    FileInSlot(g, disk, slot);
  }

  /** The first write of an append shows in no slot. */
  lemma HalfAnAppendIsHidden(
    g: Geometry, disk: Disk, one: Disk, two: Disk, slot: nat, front: seq<UInt32>, last: UInt32, name: Bytes,
    size: UInt32, newSize: nat, data: Bytes)
    requires WellFormed(g, disk) && slot < DIR_ENTRIES && Slots(g, disk)[slot].File?
             && Slots(g, disk)[slot].name == name
    requires ClustersOf(g, disk, slot) == front + [last] && g.PerCluster() > 0
    requires size == EntrySize(Dir(g, disk), slot) && newSize == size + Fitting(size, data)
    requires data == [] || HasRoom(size, 512 * g.PerCluster())
    requires Extends(g, disk, one, two, slot, name, Overwritten(g, disk, front, last, size, data),
                     |front| + 1, size, newSize)
    ensures Slots(g, one) == Slots(g, disk)
  {
    AppendKeepsTheRest(g, disk, slot, front, last, size, newSize, Slots(g, disk)[slot].bytes, data);
    assert Slots(g, one) == Slots(g, disk)[slot := Slots(g, disk)[slot]];
  }

  /** The second makes it show. */
  lemma WholeAppendShows(
    g: Geometry, disk: Disk, one: Disk, two: Disk, slot: nat, front: seq<UInt32>, last: UInt32, name: Bytes,
    size: UInt32, newSize: nat, data: Bytes)
    requires WellFormed(g, disk) && slot == FirstNamed(Slots(g, disk), name, 0) < DIR_ENTRIES
    requires Slots(g, disk)[slot].File? && ClustersOf(g, disk, slot) == front + [last] && g.PerCluster() > 0
    requires size == EntrySize(Dir(g, disk), slot) && newSize == size + Fitting(size, data)
    requires data == [] || HasRoom(size, 512 * g.PerCluster())
    requires Extends(g, disk, one, two, slot, name, Overwritten(g, disk, front, last, size, data),
                     |front| + 1, size, newSize)
    ensures WellFormed(g, two) && Abs(g, two) == Appended(Abs(g, disk), name, data)
  {
    AppendKeepsTheRest(g, disk, slot, front, last, size, newSize, Slots(g, disk)[slot].bytes, data);
  }

  lemma SplitAtLast(cs: seq<UInt32>) returns (front: seq<UInt32>, last: UInt32)
    requires cs != []
    ensures cs == front + [last]
  {
    front, last := cs[..|cs| - 1], cs[|cs| - 1];
  }

  /** The two volumes of an append to a file: the file is found, its chain walked, its size small. */
  lemma AppendInTwo(g: Geometry, disk: Disk, beyond: Links, name: Bytes, data: Bytes, slot: nat)
    returns (one: Disk, two: Disk)
    requires WellFormed(g, disk) && IsVisible(name) && IsRequest(name, data) && CanAppend(Abs(g, disk), name, data)
    requires slot == FirstNamed(Slots(g, disk), name, 0) < DIR_ENTRIES && Slots(g, disk)[slot].File?
    ensures Leaves(disk, AppendTrace(g, disk, beyond, name, data), one, two)
    ensures WellFormed(g, one) && Slots(g, one) == Slots(g, disk) && Orphans(g, one) == Orphans(g, disk)
    ensures WellFormed(g, two) && Abs(g, two) == Appended(Abs(g, disk), name, data)
            && Orphans(g, two) == Orphans(g, disk)
  {
    var size, cs := EntrySize(Dir(g, disk), slot), ClustersOf(g, disk, slot);
    RoomForTheFile(g, disk, slot, name, size, data);
    assert cs != [] && Slots(g, disk)[slot].name == name by {
      FileInSlot(g, disk, slot);
    }
    SizesAreSmall(g, disk, slot);
    var newSize := size + Fitting(size, data);
    var front, last := SplitAtLast(cs);
    var trace := AppendTrace(g, disk, beyond, name, data);
    one, two := AppendWrites(g, disk, beyond, name, data, slot, front, last, size, newSize, trace);
    assert Slots(g, one) == Slots(g, disk) by {
      HalfAnAppendIsHidden(g, disk, one, two, slot, front, last, name, size, newSize, data);
    }
    WholeAppendShows(g, disk, one, two, slot, front, last, name, size, newSize, data);
  }

  lemma AppendRefines(g: Geometry, disk: Disk, beyond: Links, name: Bytes, data: Bytes)
    requires WellFormed(g, disk) && IsVisible(name) && IsRequest(name, data) && CanAppend(Abs(g, disk), name, data)
    ensures var d := Apply(disk, AppendTrace(g, disk, beyond, name, data));
            WellFormed(g, d) && Abs(g, d) == Appended(Abs(g, disk), name, data)
  {
    var slot := FirstNamed(Slots(g, disk), name, 0);
    if slot == DIR_ENTRIES {
      AppendTraceShape(g, disk, beyond, name, data, slot);
      WriteRefines(g, disk, name, data);
    } else if Slots(g, disk)[slot].File? {
      var one, two := AppendInTwo(g, disk, beyond, name, data, slot);
    } else {
      var trace := AppendTrace(g, disk, beyond, name, data);
      NothingIsAppended(g, disk, beyond, name, trace, |trace|);
      assert trace[..|trace|] == trace;
    }
  }

  /** Where there is nothing to append, what is written is what was there, whatever the entry is. */
  lemma NothingIsAppended(g: Geometry, disk: Disk, beyond: Links, name: Bytes, trace: seq<Write>, done: nat)
    requires WellFormed(g, disk) && IsVisible(name) && FirstNamed(Slots(g, disk), name, 0) < DIR_ENTRIES
    requires trace == AppendTrace(g, disk, beyond, name, []) && done <= |trace|
    ensures Apply(disk, trace[..done]) == disk
  {
    var slot := FirstNamed(Slots(g, disk), name, 0);
    assert trace == FoundTrace(g, disk, beyond, slot, []) by {
      AppendsToWhatIsFound(g, disk, beyond, name, [], slot);
    }
    assert g.Root() < |disk| by {
      RootIsElsewhere(g, disk);
    }
    EmptyTrace(g, disk, beyond, slot, trace, done);
  }

  /** The first entry of a name is the one an append extends. */
  lemma AppendsToWhatIsFound(g: Geometry, disk: Disk, beyond: Links, name: Bytes, data: Bytes, slot: nat)
    requires WellFormed(g, disk) && IsVisible(name) && IsRequest(name, data)
    requires slot == FirstNamed(Slots(g, disk), name, 0) < DIR_ENTRIES
    ensures AppendTrace(g, disk, beyond, name, data) == FoundTrace(g, disk, beyond, slot, data)
  {
    RootIsElsewhere(g, disk);
    AppendSlotsAgree(g, disk, name);
  }

  lemma {:induction false} EmptyTrace(g: Geometry, disk: Disk, beyond: Links, slot: nat, trace: seq<Write>, done: nat)
    requires g.Root() < |disk| && slot < DIR_ENTRIES
    requires trace == FoundTrace(g, disk, beyond, slot, []) && done <= |trace|
    ensures Apply(disk, trace[..done]) == disk
  {
    if trace != [] {
      var size := EntrySize(Dir(g, disk), slot);
      var c := Walked(g, Fat(g, disk), beyond, EntryCluster(Dir(g, disk), slot)).value;
      var w, v := Write(g.SectorOf(c), SectorAt(disk, g.SectorOf(c))), Write(g.Root(), Dir(g, disk));
      EmptyExtension(g, disk, slot, c, size, w, v);
      SameWrites(disk, trace, w, v, done);
    }
  }

  lemma SameWrites(disk: Disk, trace: seq<Write>, w: Write, v: Write, done: nat)
    requires trace == [w, v] && done <= 2
    requires w.lba < |disk| && w.content == SectorAt(disk, w.lba)
    requires v.lba < |disk| && v.content == SectorAt(disk, v.lba)
    ensures Apply(disk, trace[..done]) == disk
  {
    SameContent(disk, w);
    SameContent(disk, v);
    TwoWritesApplied(disk, trace, w, v);
    assert trace[..0] == [] && trace[..2] == trace;
  }

  lemma SameContent(disk: Disk, w: Write)
    requires w.lba < |disk| && w.content == SectorAt(disk, w.lba)
    ensures Put(disk, w.lba, w.content) == disk
  {
  }

  lemma EmptyExtension(g: Geometry, disk: Disk, slot: nat, c: UInt32, size: UInt32, w: Write, v: Write)
    requires slot < DIR_ENTRIES && g.SectorOf(c) < |disk| && size == EntrySize(Dir(g, disk), slot)
    requires w == Write(g.SectorOf(c), SectorAt(disk, g.SectorOf(c))) && v == Write(g.Root(), Dir(g, disk))
    ensures ExtendTrace(g, disk, slot, c, size, []) == [w, v]
  {
    var sector := SectorAt(disk, g.SectorOf(c));
    assert Lengthened(sector, size, []) == sector;
    ApplyOne(disk, w);
    SameContent(disk, w);
    SmallStays32(size);
    SameSize(Dir(g, disk), slot);
  }

  // ----- reading -----

  lemma ReadRefines(g: Geometry, disk: Disk, beyond: Links, name: Bytes, max: nat)
    requires WellFormed(g, disk) && IsVisible(name) && max >= 17 && CanRead(Abs(g, disk), name, max)
    ensures ReadText(g, disk, beyond, name, max) == Some(Text(Abs(g, disk), name, max))
  {
    var slot := FirstNamed(Slots(g, disk), name, 0);
    if slot == DIR_ENTRIES {
      TextIsRead(g, disk, beyond, name, max, slot, 0);
    } else {
      var n := Least(EntrySize(Dir(g, disk), slot), max - 1);
      TextIsRead(g, disk, beyond, name, max, slot, n);
      ReadOfASlot(g, disk, beyond, name, max, slot, n);
    }
  }

  lemma ReadOfASlot(g: Geometry, disk: Disk, beyond: Links, name: Bytes, max: nat, slot: nat, n: nat)
    requires WellFormed(g, disk) && IsVisible(name) && max >= 17 && CanRead(Abs(g, disk), name, max)
    requires slot == FirstNamed(Slots(g, disk), name, 0) < DIR_ENTRIES
    requires n == Least(EntrySize(Dir(g, disk), slot), max - 1)
    requires ReadText(g, disk, beyond, name, max) == ReadOf(g, disk, beyond, slot, n)
    ensures ReadText(g, disk, beyond, name, max) == Some(Text(Abs(g, disk), name, max))
  {
    assert Slots(g, disk)[slot] == SlotOf(g, disk, slot);
    if Slots(g, disk)[slot].File? {
      FileInSlot(g, disk, slot);
      FileText(g, disk, beyond, slot, n);
    }
  }

  /** The first entry of a name is the one that is read. */
  lemma TextIsRead(g: Geometry, disk: Disk, beyond: Links, name: Bytes, max: nat, slot: nat, n: nat)
    requires WellFormed(g, disk) && IsVisible(name) && max >= 17 && slot == FirstNamed(Slots(g, disk), name, 0)
    requires slot < DIR_ENTRIES ==> n == Least(EntrySize(Dir(g, disk), slot), max - 1)
    ensures ReadText(g, disk, beyond, name, max) ==
            if slot == DIR_ENTRIES then Some(NOT_FOUND) else ReadOf(g, disk, beyond, slot, n)
  {
    RootIsElsewhere(g, disk);
    ReadSlotsAgree(g, disk, name, 0);
  }

  /** What a read copies of a file: its first sector, then the memory behind the buffer. */
  lemma FileText(g: Geometry, disk: Disk, beyond: Links, slot: nat, n: nat)
    requires WellFormed(g, disk) && slot < DIR_ENTRIES && Slots(g, disk)[slot].File?
    requires n <= EntrySize(Dir(g, disk), slot)
    ensures var c, bytes := EntryCluster(Dir(g, disk), slot), Slots(g, disk)[slot].bytes;
            && c != 0 && g.SectorOf(c) < |disk| && n <= |bytes|
            && (TextAt(disk, beyond, g.SectorOf(c), n) == Some(bytes[..n])
                <==> forall k: nat :: 512 <= k < n ==> ByteBehind(beyond, k) == bytes[k])
  {
    FileInSlot(g, disk, slot);
    var cs, bytes := ClustersOf(g, disk, slot), Slots(g, disk)[slot].bytes;
    assert g.SectorOf(cs[0]) < |disk| by {
      assert cs[0] in cs;
      OwnedClusters(g, disk, slot, cs[0]);
    }
    var sector, all := SectorAt(disk, g.SectorOf(cs[0])), Joined(g, disk, cs);
    assert |all| >= 512 && all[..512] == sector by {
      RootIsElsewhere(g, disk);
      JoinedBegins(g, disk, cs);
    }
    CopiedText(sector, beyond, all, bytes, n);
  }

  lemma CopiedText(sector: Sector, beyond: Links, all: Bytes, bytes: Bytes, n: nat)
    requires |all| >= 512 && all[..512] == sector && bytes <= all && n <= |bytes| && n < TWO_TO_THE_32
    ensures FirstBytes(sector, beyond, n) == bytes[..n]
            <==> forall k: nat :: 512 <= k < n ==> ByteBehind(beyond, k) == bytes[k]
  {
    var copied := FirstBytes(sector, beyond, n);
    assert forall k: nat :: k < 512 ==> sector[k] == all[k];
    if copied == bytes[..n] {
      forall k: nat | 512 <= k < n ensures ByteBehind(beyond, k) == bytes[k] {
        assert copied[k] == bytes[..n][k];
      }
    }
  }

  // ----- whole runs -----

  datatype Operation =
    | Save(name: Bytes, data: Bytes)
    | Extend(name: Bytes, data: Bytes)
    | Load(name: Bytes, max: nat)

  predicate IsOperation(op: Operation) {
    IsVisible(op.name) && if op.Load? then op.max >= 17 else |op.data| < TWO_TO_THE_32
  }

  function TraceOf(g: Geometry, disk: Disk, beyond: Links, op: Operation): seq<Write>
    requires IsOperation(op)
  {
    match op
    case Save(name, data) => WriteTrace(g, disk, name, data)
    case Extend(name, data) => AppendTrace(g, disk, beyond, name, data)
    case Load(_, _) => []
  }

  /** What a run of operations leaves on disk and what its reads returned. */
  function RunOnDisk(g: Geometry, disk: Disk, beyond: Links, ops: seq<Operation>): (Disk, seq<Option<Bytes>>)
    requires forall op :: op in ops ==> IsOperation(op)
    decreases |ops|
  {
    if ops == [] then (disk, [])
    else
      assert ops[0] in ops;
      var (last, texts) := RunOnDisk(g, Apply(disk, TraceOf(g, disk, beyond, ops[0])), beyond, ops[1..]);
      (last, if ops[0].Load? then [ReadText(g, disk, beyond, ops[0].name, ops[0].max)] + texts else texts)
  }

  function Stepped(s: State, op: Operation): State {
    match op
    case Save(name, data) => Written(s, name, data)
    case Extend(name, data) => Appended(s, name, data)
    case Load(_, _) => s
  }

  predicate CanStep(s: State, op: Operation)
    requires IsOperation(op)
  {
    match op
    case Save(_, data) => CanWrite(s, data)
    case Extend(name, data) => CanAppend(s, name, data)
    case Load(name, max) => CanRead(s, name, max)
  }

  predicate CanRun(s: State, ops: seq<Operation>)
    requires forall op :: op in ops ==> IsOperation(op)
    decreases |ops|
  {
    ops == [] || (assert ops[0] in ops; CanStep(s, ops[0]) && CanRun(Stepped(s, ops[0]), ops[1..]))
  }

  function RunOnSlots(s: State, ops: seq<Operation>): (State, seq<Option<Bytes>>)
    requires forall op :: op in ops ==> IsOperation(op)
    decreases |ops|
  {
    if ops == [] then (s, [])
    else
      assert IsOperation(ops[0]);
      var (last, texts) := RunOnSlots(Stepped(s, ops[0]), ops[1..]);
      (last, if ops[0].Load? then [Some(Text(s, ops[0].name, ops[0].max))] + texts else texts)
  }

  lemma StepRefines(g: Geometry, disk: Disk, beyond: Links, op: Operation)
    requires WellFormed(g, disk) && IsOperation(op) && CanStep(Abs(g, disk), op)
    ensures var d := Apply(disk, TraceOf(g, disk, beyond, op));
            WellFormed(g, d) && Abs(g, d) == Stepped(Abs(g, disk), op)
    ensures op.Load? ==> ReadText(g, disk, beyond, op.name, op.max) == Some(Text(Abs(g, disk), op.name, op.max))
  {
    match op
    case Save(name, data) => WriteRefines(g, disk, name, data);
    case Extend(name, data) => AppendRefines(g, disk, beyond, name, data);
    case Load(name, max) => ReadRefines(g, disk, beyond, name, max);
  }

  /** Main theorem: whole runs on disk are whole runs on the slots. */
  lemma {:induction false} RunsRefine(g: Geometry, disk: Disk, beyond: Links, ops: seq<Operation>)
    requires WellFormed(g, disk) && (forall op :: op in ops ==> IsOperation(op)) && CanRun(Abs(g, disk), ops)
    ensures var (last, texts) := RunOnDisk(g, disk, beyond, ops);
            WellFormed(g, last) && (Abs(g, last), texts) == RunOnSlots(Abs(g, disk), ops)
    decreases |ops|
  {
    if ops != [] {
      assert ops[0] in ops;
      StepRefines(g, disk, beyond, ops[0]);
      RunsRefine(g, Apply(disk, TraceOf(g, disk, beyond, ops[0])), beyond, ops[1..]);
    }
  }

  /** On disk too, a step changes at most one slot: other files, folders and labels are what they were. */
  lemma OtherFilesAreUnchanged(g: Geometry, disk: Disk, beyond: Links, op: Operation, i: nat)
    requires WellFormed(g, disk) && IsOperation(op) && CanStep(Abs(g, disk), op) && i < DIR_ENTRIES
    requires i != FirstEmpty(Slots(g, disk), 0) && (op.Extend? ==> i != FirstNamed(Slots(g, disk), op.name, 0))
    ensures Slots(g, Apply(disk, TraceOf(g, disk, beyond, op)))[i] == Slots(g, disk)[i]
  {
    StepRefines(g, disk, beyond, op);
    StepsChangeOneSlot(Abs(g, disk), op, i);
  }

  lemma StepsChangeOneSlot(s: State, op: Operation, i: nat)
    requires i < |s.slots| && i != FirstEmpty(s.slots, 0) && (op.Extend? ==> i != FirstNamed(s.slots, op.name, 0))
    ensures |Stepped(s, op).slots| == |s.slots| && Stepped(s, op).slots[i] == s.slots[i]
  {
  }

  // ----- crashes -----

  /**
   Main theorem: stopping after any of its sector writes leaves a well-formed volume whose files are
   those before or those after the operation, with at most one cluster newly allocated to no entry.
   */
  lemma CrashesAreAtomic(g: Geometry, disk: Disk, beyond: Links, op: Operation, done: nat)
    requires WellFormed(g, disk) && IsOperation(op) && CanStep(Abs(g, disk), op)
    requires done <= |TraceOf(g, disk, beyond, op)|
    ensures var d := Apply(disk, TraceOf(g, disk, beyond, op)[..done]);
            && WellFormed(g, d)
            && (Slots(g, d) == Slots(g, disk) || Slots(g, d) == Stepped(Abs(g, disk), op).slots)
            && exists c :: Orphans(g, d) <= Orphans(g, disk) + {c}
  {
    var trace := TraceOf(g, disk, beyond, op);
    if done == 0 {
      assert trace[..0] == [] && Orphans(g, disk) <= Orphans(g, disk) + {0};
    } else {
      var slot := FirstNamed(Slots(g, disk), op.name, 0);
      AppendTraceShape(g, disk, beyond, op.name, op.data, slot);
      if op.Extend? && slot < DIR_ENTRIES {
        CrashedAppends(g, disk, beyond, op.name, op.data, trace, done, Apply(disk, trace[..done]));
        assert Orphans(g, Apply(disk, trace[..done])) <= Orphans(g, disk) + {0};
      } else {
        CrashedWrites(g, disk, op.name, op.data, trace, done, Apply(disk, trace[..done]));
      }
    }
  }

  /** What a failed read leaves of an operation: its first few writes, or all of them. */
  ghost predicate Stopped(disk: Disk, trace: seq<Write>, d: Disk) {
    exists done: nat :: done <= |trace| && d == Apply(disk, trace[..done])
  }

  /** A run in which any of the operations may have stopped early; the next one goes on from what it left. */
  ghost predicate PartlyRun(g: Geometry, disk: Disk, beyond: Links, ops: seq<Operation>, last: Disk)
    requires forall op :: op in ops ==> IsOperation(op)
    decreases |ops|
  {
    if ops == [] then last == disk
    else
      assert ops[0] in ops;
      exists d :: Stopped(disk, TraceOf(g, disk, beyond, ops[0]), d) && PartlyRun(g, d, beyond, ops[1..], last)
  }

  lemma CrashedAppends(
    g: Geometry, disk: Disk, beyond: Links, name: Bytes, data: Bytes, trace: seq<Write>, done: nat, d: Disk)
    requires WellFormed(g, disk) && IsVisible(name) && IsRequest(name, data) && CanAppend(Abs(g, disk), name, data)
    requires FirstNamed(Slots(g, disk), name, 0) < DIR_ENTRIES && trace == AppendTrace(g, disk, beyond, name, data)
    requires 0 < done <= |trace| && d == Apply(disk, trace[..done])
    ensures WellFormed(g, d) && Orphans(g, d) == Orphans(g, disk)
    ensures Slots(g, d) == Slots(g, disk) || Slots(g, d) == Appended(Abs(g, disk), name, data).slots
  {
    var slot := FirstNamed(Slots(g, disk), name, 0);
    if Slots(g, disk)[slot].File? {
      var one, two := AppendInTwo(g, disk, beyond, name, data, slot);
      CutShort(disk, trace, one, two, done);
    } else {
      NothingIsAppended(g, disk, beyond, name, trace, done);
    }
  }

  lemma CutShort(disk: Disk, trace: seq<Write>, one: Disk, two: Disk, done: nat)
    requires Leaves(disk, trace, one, two) && 0 < done <= |trace|
    ensures Apply(disk, trace[..done]) == if done == 1 then one else two
  {
    assert trace[..2] == trace;
  }

  lemma {:induction false} CrashedWrites(
    g: Geometry, disk: Disk, name: Bytes, data: Bytes, trace: seq<Write>, done: nat, d: Disk)
    requires WellFormed(g, disk) && IsVisible(name) && IsRequest(name, data) && CanWrite(Abs(g, disk), data)
    requires trace == WriteTrace(g, disk, name, data) && 0 < done <= |trace| && d == Apply(disk, trace[..done])
    ensures WellFormed(g, d)
    ensures Slots(g, d) == Slots(g, disk) || Slots(g, d) == Written(Abs(g, disk), name, data).slots
    ensures exists c :: Orphans(g, d) <= Orphans(g, disk) + {c}
  {
    FreeMeansFound(g, disk);
    RootIsElsewhere(g, disk);
    var c, two := TwoWrites(g, disk, name, data);
    if done == 1 {
      assert Prepared(g, disk, Apply(disk, trace[..1]), c);
    } else if done == 2 {
      assert Prepared(g, disk, two, c);
    } else {
      assert trace[..done] == trace by {
        EntryTraceIsShort(g, two, name, c, data);
      }
      FinishedWrites(g, disk, name, data, c, d);
    }
  }

  lemma {:induction false} FinishedWrites(g: Geometry, disk: Disk, name: Bytes, data: Bytes, c: UInt32, d: Disk)
    requires WellFormed(g, disk) && IsVisible(name) && IsRequest(name, data) && CanWrite(Abs(g, disk), data)
    requires |FreeClusters(Fat(g, disk))| != 0 && c == FirstFree(Fat(g, disk), 2)
    requires d == Apply(disk, WriteTrace(g, disk, name, data))
    ensures WellFormed(g, d) && Slots(g, d) == Written(Abs(g, disk), name, data).slots
    ensures Orphans(g, d) <= Orphans(g, disk) + {c}
  {
    WriteRefines(g, disk, name, data);
    AllWrites(g, disk, name, data);
  }

  lemma EntryTraceIsShort(g: Geometry, two: Disk, name: Bytes, c: UInt32, data: Bytes)
    requires IsRequest(name, data)
    ensures |EntryTrace(g, two, name, c, data)| <= 1
  {
  }
}
