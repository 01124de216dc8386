/**
 What the operations do where their guards fail, in bytes, and that the guards are exact: what an
 operation leaves on disk is what it means on the slots just when its guard held, or when the bytes that
 it misplaces happen to equal the bytes that were there.
 */
module FatGuards {
  import opened Machine
  import opened Wrappers
  import opened FatLayout
  import opened FatWalk
  import opened FatVolume
  import opened FatChains
  import opened FatFiles
  import opened FatRefinement
  import opened FatForeign

  /** The operation did to the volume what it means on the slots, and a read returned what the file holds. */
  ghost predicate StepIsRight(g: Geometry, disk: Disk, beyond: Links, op: Operation)
    requires IsOperation(op)
  {
    var d := Apply(disk, TraceOf(g, disk, beyond, op));
    && WellFormed(g, d) && Abs(g, d) == Stepped(Abs(g, disk), op)
    && (op.Load? ==> ReadText(g, disk, beyond, op.name, op.max) == Some(Text(Abs(g, disk), op.name, op.max)))
  }

  // ----- writes of more than a sector -----

  /**
   A write of more than 512 bytes that has room stores the first 512; the entry claims them all, and
   what follows them is what the cluster held before.
   */
  lemma OnlyOneSectorIsWritten(g: Geometry, disk: Disk, name: Bytes, data: Bytes)
    requires WellFormed(g, disk) && IsVisible(name) && IsRequest(name, data) && !CanWrite(Abs(g, disk), data)
    ensures var d, c := Apply(disk, WriteTrace(g, disk, name, data)), FirstFree(Fat(g, disk), 2);
            && c != 0 && g.PerCluster() > 0
            && Slots(g, d) == Slots(g, disk)[FirstEmpty(Slots(g, disk), 0) :=
                 File(name, Cut(data[..512] + ClusterBytes(g, disk, c)[512..], |data|))]
            && (WellFormed(g, d) <==> |data| <= 512 * g.PerCluster())
  {
    assert |FreeClusters(Fat(g, disk))| != 0 && FirstEmpty(Slots(g, disk), 0) < DIR_ENTRIES && |data| > 512;
    AllWrites(g, disk, name, data);
    assert DataSector(data) + Slack(g, disk, FirstFree(Fat(g, disk), 2)) ==
           data[..512] + ClusterBytes(g, disk, FirstFree(Fat(g, disk), 2))[512..] by {
      FirstSectorReplaced(g, disk, FirstFree(Fat(g, disk), 2), data);
    }
  }

  lemma FirstSectorReplaced(g: Geometry, disk: Disk, c: UInt32, data: Bytes)
    requires g.PerCluster() > 0 && |data| >= 512
    ensures DataSector(data) + Slack(g, disk, c) == data[..512] + ClusterBytes(g, disk, c)[512..]
  {
    assert DataSector(data) == data[..512];
    assert ClusterBytes(g, disk, c) == SectorAt(disk, g.SectorOf(c)) + Slack(g, disk, c);
    assert ClusterBytes(g, disk, c)[512..] == Slack(g, disk, c);
  }

  /** The free cluster that a write takes already holds the bytes that the write leaves out. */
  predicate HeldAlready(g: Geometry, disk: Disk, data: Bytes) {
    var c := FirstFree(Fat(g, disk), 2);
    512 <= |data| <= 512 * g.PerCluster() && ClusterBytes(g, disk, c)[512..|data|] == data[512..]
  }

  lemma WriteGuardIsExact(g: Geometry, disk: Disk, name: Bytes, data: Bytes)
    requires WellFormed(g, disk) && IsVisible(name) && IsRequest(name, data)
    ensures var d := Apply(disk, WriteTrace(g, disk, name, data));
            WellFormed(g, d) && Abs(g, d) == Written(Abs(g, disk), name, data)
            <==> CanWrite(Abs(g, disk), data) || HeldAlready(g, disk, data)
  {
    if CanWrite(Abs(g, disk), data) {
      WriteRefines(g, disk, name, data);
    } else {
      var c, slot := FirstFree(Fat(g, disk), 2), FirstEmpty(Slots(g, disk), 0);
      OnlyOneSectorIsWritten(g, disk, name, data);
      FreeMeansFound(g, disk);
      assert c in FreeClusters(Fat(g, disk));
      AllWrites(g, disk, name, data);
      if |data| <= 512 * g.PerCluster() {
        CutIsData(data, ClusterBytes(g, disk, c));
      }
      var s := Slots(g, Apply(disk, WriteTrace(g, disk, name, data)));
      assert s[slot] == File(name, Cut(data[..512] + ClusterBytes(g, disk, c)[512..], |data|));
    }
  }

  lemma CutIsData(data: Bytes, held: Bytes)
    requires 512 <= |data| <= |held|
    ensures Cut(data[..512] + held[512..], |data|) == data <==> held[512..|data|] == data[512..]
  {
    var all := data[..512] + held[512..];
    assert Cut(all, |data|) == all[..|data|] == data[..512] + held[512..|data|];
    assert data == data[..512] + data[512..];
  }

  // ----- appends to files without room -----

  /** Where an append puts its data: into the first sector of the last cluster. */
  function LandsAt(g: Geometry, cs: seq<UInt32>, size: nat): nat {
    (if cs == [] then 0 else Span(g, |cs| - 1)) + size % 512
  }

  /** The bytes in the clusters of a file. */
  function Held(g: Geometry, disk: Disk, slot: nat): Bytes
    requires slot < DIR_ENTRIES
  {
    Joined(g, disk, ClustersOf(g, disk, slot))
  }

  /** What an append to a file without room does, in bytes: the data lands inside what the file held. */
  ghost predicate Overwrites(g: Geometry, disk: Disk, d: Disk, slot: nat, at: nat, size: nat, newSize: nat, put: Bytes)
    requires slot < DIR_ENTRIES
  {
    var held := Held(g, disk, slot);
    && at + |put| <= size <= |held|
    && Slots(g, d) == Slots(g, disk)[slot :=
         File(EntryName(Dir(g, disk), slot), Cut(Patch(held, at, put), newSize))]
    && (WellFormed(g, d) <==> newSize <= |held|)
    && Fat(g, d) == Fat(g, disk) && UnusedBehind(Dir(g, d))
  }

  /**
   An append to a file that ends outside the first sector of its last cluster writes over the bytes that
   sector holds, and the file grows by as many bytes as it never wrote.
   */
  lemma AppendsWithoutRoomOverwrite(
    g: Geometry, disk: Disk, beyond: Links, name: Bytes, data: Bytes, slot: nat, size: nat, newSize: nat,
    at: nat, put: Bytes, d: Disk)
    requires WellFormed(g, disk) && IsVisible(name) && IsRequest(name, data)
    requires slot == FirstNamed(Slots(g, disk), name, 0) < DIR_ENTRIES && Slots(g, disk)[slot].File?
    requires !CanAppend(Abs(g, disk), name, data) && size == |Slots(g, disk)[slot].bytes|
    requires at == LandsAt(g, ClustersOf(g, disk, slot), size) && put == data[..Fitting(size, data)]
    requires newSize == size + |put| && d == Apply(disk, AppendTrace(g, disk, beyond, name, data))
    ensures put != [] && Overwrites(g, disk, d, slot, at, size, newSize, put)
  {
    var cs := ClustersOf(g, disk, slot);
    assert cs != [] && Slots(g, disk)[slot].name == name && EntrySize(Dir(g, disk), slot) == size by {
      FileInSlot(g, disk, slot);
    }
    assert newSize < TWO_TO_THE_32 by {
      SizesAreSmall(g, disk, slot);
    }
    assert data != [] && g.PerCluster() > 0 && !HasRoom(size, 512 * g.PerCluster()) by {
      RootIsElsewhere(g, disk);
    }
    var front, last := SplitAtLast(cs);
    var trace := AppendTrace(g, disk, beyond, name, data);
    var one, two := AppendWrites(g, disk, beyond, name, data, slot, front, last, size, newSize, trace);
    DataLandsInside(g, disk, one, two, slot, front, last, size, newSize, data, at, put, name);
  }

  lemma DataLandsInside(
    g: Geometry, disk: Disk, one: Disk, two: Disk, slot: nat, front: seq<UInt32>, last: UInt32, size: UInt32,
    newSize: nat, data: Bytes, at: nat, put: Bytes, name: Bytes)
    requires WellFormed(g, disk) && slot < DIR_ENTRIES && Slots(g, disk)[slot].File?
    requires ClustersOf(g, disk, slot) == front + [last] && g.PerCluster() > 0
    requires size == EntrySize(Dir(g, disk), slot) && newSize == size + Fitting(size, data)
    requires data != [] && !HasRoom(size, 512 * g.PerCluster())
    requires at == LandsAt(g, front + [last], size) && put == data[..Fitting(size, data)]
    requires name == Slots(g, disk)[slot].name
    requires Extends(g, disk, one, two, slot, name, Overwritten(g, disk, front, last, size, data),
                     |front| + 1, size, newSize)
    ensures put != [] && Overwrites(g, disk, two, slot, at, size, newSize, put)
  {
    assert Covers(g, |front| + 1, size) by {
      FileByClusters(g, disk, slot, front, last, Slots(g, disk)[slot].bytes);
    }
    assert size - Span(g, |front|) >= 512 by {
      NoRoomInTheLastCluster(g, |front|, |front| + 1, size);
    }
    assert |Held(g, disk, slot)| == Span(g, |front| + 1)
      && Overwritten(g, disk, front, last, size, data) == Patch(Held(g, disk, slot), at, put) by {
      OverwrittenIsPatched(g, disk, slot, front, last, size, data, at, put);
    }
    assert name == EntryName(Dir(g, disk), slot) by {
      assert Slots(g, disk)[slot] == SlotOf(g, disk, slot);
    }
  }

  lemma NoRoomInTheLastCluster(g: Geometry, before: nat, n: nat, size: nat)
    requires n == before + 1 && Covers(g, n, size) && g.PerCluster() > 0 && !HasRoom(size, 512 * g.PerCluster())
    ensures size - Span(g, before) >= 512
  {
    RoomIsInTheLastCluster(g, n, size);
  }

  lemma OverwrittenIsPatched(
    g: Geometry, disk: Disk, slot: nat, front: seq<UInt32>, last: UInt32, size: nat, data: Bytes, at: nat, put: Bytes)
    requires slot < DIR_ENTRIES && ClustersOf(g, disk, slot) == front + [last] && g.PerCluster() > 0
    requires at == LandsAt(g, front + [last], size) && put == data[..Fitting(size, data)]
    ensures |Held(g, disk, slot)| == Span(g, |front| + 1) && at + |put| <= |Held(g, disk, slot)|
    ensures Overwritten(g, disk, front, last, size, data) == Patch(Held(g, disk, slot), at, put)
  {
    HeldInParts(g, disk, slot, front, last);
    PatchedInTheMiddle(Joined(g, disk, front), SectorAt(disk, g.SectorOf(last)), Slack(g, disk, last), size, data);
  }

  lemma HeldInParts(g: Geometry, disk: Disk, slot: nat, front: seq<UInt32>, last: UInt32)
    requires slot < DIR_ENTRIES && ClustersOf(g, disk, slot) == front + [last] && g.PerCluster() > 0
    ensures Held(g, disk, slot) == Joined(g, disk, front) + (SectorAt(disk, g.SectorOf(last)) + Slack(g, disk, last))
    ensures |Held(g, disk, slot)| == Span(g, |front| + 1)
  {
    assert (front + [last])[..|front|] == front;
    assert ClusterBytes(g, disk, last) == SectorAt(disk, g.SectorOf(last)) + Slack(g, disk, last);
  }

  lemma PatchedInTheMiddle(front: Bytes, sector: Sector, slack: Bytes, size: nat, data: Bytes)
    ensures var n, r := Fitting(size, data), size % 512;
            front + (Lengthened(sector, size, data) + slack) ==
            Patch(front + (sector + slack), |front| + r, data[..n])
  {
  }

  /** The bytes that an append writes over, and those that it adds without writing them, are the data already. */
  predicate Repeats(held: Bytes, at: nat, size: nat, put: Bytes) {
    && at + |put| <= size && size + |put| <= |held|
    && held[at..at + |put|] == put && held[size..size + |put|] == put
  }

  /**
   What an append whose guard fails does no harm to: data that is there already, or, when the entry is
   foreign, an append that leaves it alone.
   */
  ghost predicate AppendIsHarmless(g: Geometry, disk: Disk, beyond: Links, name: Bytes, data: Bytes) {
    var slot := FirstNamed(Slots(g, disk), name, 0);
    if slot == DIR_ENTRIES then HeldAlready(g, disk, data)
    else if Slots(g, disk)[slot].File? then
      var size := EntrySize(Dir(g, disk), slot);
      Repeats(Held(g, disk, slot), LandsAt(g, ClustersOf(g, disk, slot), size), size, data[..Fitting(size, data)])
    else LeavesItAlone(g, disk, beyond, slot, data)
  }

  lemma {:induction false} AppendGuardIsExact(g: Geometry, disk: Disk, beyond: Links, name: Bytes, data: Bytes)
    requires WellFormed(g, disk) && IsVisible(name) && IsRequest(name, data)
    ensures var d := Apply(disk, AppendTrace(g, disk, beyond, name, data));
            WellFormed(g, d) && Abs(g, d) == Appended(Abs(g, disk), name, data)
            <==> CanAppend(Abs(g, disk), name, data) || AppendIsHarmless(g, disk, beyond, name, data)
  {
    var slot := FirstNamed(Slots(g, disk), name, 0);
    if CanAppend(Abs(g, disk), name, data) {
      AppendRefines(g, disk, beyond, name, data);
    } else if slot == DIR_ENTRIES {
      AppendTraceShape(g, disk, beyond, name, data, slot);
      WriteGuardIsExact(g, disk, name, data);
    } else if Slots(g, disk)[slot].File? {
      var size := |Slots(g, disk)[slot].bytes|;
      var put, at := data[..Fitting(size, data)], LandsAt(g, ClustersOf(g, disk, slot), size);
      var newSize, d := size + |put|, Apply(disk, AppendTrace(g, disk, beyond, name, data));
      AppendsWithoutRoomOverwrite(g, disk, beyond, name, data, slot, size, newSize, at, put, d);
      OverwritingIsRight(g, disk, d, slot, name, data, size, newSize, at, put);
    } else {
      var d := Apply(disk, AppendTrace(g, disk, beyond, name, data));
      NamedSlotsAreTaken(g, disk, name, slot);
      AppendsToWhatIsFound(g, disk, beyond, name, data, slot);
      ForeignAppendsAreExact(g, disk, beyond, data, slot, d);
    }
  }

  lemma NamedSlotsAreTaken(g: Geometry, disk: Disk, name: Bytes, slot: nat)
    requires slot == FirstNamed(Slots(g, disk), name, 0) < DIR_ENTRIES
    ensures !Slots(g, disk)[slot].Empty?
  {
  }

  lemma OverwritingIsRight(
    g: Geometry, disk: Disk, d: Disk, slot: nat, name: Bytes, data: Bytes, size: nat, newSize: nat, at: nat, put: Bytes)
    requires WellFormed(g, disk) && slot == FirstNamed(Slots(g, disk), name, 0) < DIR_ENTRIES
    requires Slots(g, disk)[slot].File? && size == |Slots(g, disk)[slot].bytes| && newSize == size + |put|
    requires put == data[..Fitting(size, data)] && Overwrites(g, disk, d, slot, at, size, newSize, put)
    ensures EntrySize(Dir(g, disk), slot) == size
    ensures WellFormed(g, d) && Abs(g, d) == Appended(Abs(g, disk), name, data)
            <==> Repeats(Held(g, disk, slot), at, size, put)
  {
    FileInSlot(g, disk, slot);
    var held, slots := Held(g, disk, slot), Slots(g, disk);
    assert slots[slot] == File(name, held[..size]);
    var a, b := File(name, Cut(Patch(held, at, put), newSize)), File(name, held[..size] + put);
    assert slots[slot := a] == slots[slot := b] <==> a == b by {
      assert slots[slot := a][slot] == a && slots[slot := b][slot] == b;
    }
    if newSize <= |held| {
      PatchedIsLengthened(held, at, size, newSize, put);
    }
  }

  lemma PatchedIsLengthened(held: Bytes, at: nat, size: nat, newSize: nat, put: Bytes)
    requires at + |put| <= size && newSize == size + |put| <= |held|
    ensures Cut(Patch(held, at, put), newSize) == held[..size] + put <==> Repeats(held, at, size, put)
  {
    var all, right := Patch(held, at, put), held[..size] + put;
    assert Cut(all, newSize) == all[..newSize];
    if all[..newSize] == right {
      forall k: nat | k < |put| ensures held[at + k] == put[k] && held[size + k] == put[k] {
        assert all[at + k] == put[k] && right[at + k] == held[at + k] && all[..newSize][at + k] == all[at + k];
        assert all[size + k] == held[size + k] && right[size + k] == put[k]
               && all[..newSize][size + k] == all[size + k];
      }
    }
    if Repeats(held, at, size, put) {
      assert all == held;
      assert held[..newSize] == held[..size] + held[size..newSize];
    }
  }

  /** After a non-empty append to a file of 512 bytes, reading it gives the data over the old bytes. */
  lemma FullFilesAreReadBackOverwritten(
    g: Geometry, disk: Disk, beyond: Links, name: Bytes, data: Bytes, slot: nat, bytes: Bytes)
    requires WellFormed(g, disk) && IsVisible(name) && IsRequest(name, data) && data != []
    requires slot == FirstNamed(Slots(g, disk), name, 0) < DIR_ENTRIES && Slots(g, disk)[slot] == File(name, bytes)
    requires |bytes| == 512
    ensures var d, n := Apply(disk, AppendTrace(g, disk, beyond, name, data)), Least(|data|, 512);
            ReadText(g, d, beyond, name, 513) == Some(data[..n] + bytes[n..])
  {
    var size, put := |bytes|, data[..Fitting(|bytes|, data)];
    var newSize, d := size + |put|, Apply(disk, AppendTrace(g, disk, beyond, name, data));
    OneFullSector(g, disk, slot, name, data, bytes);
    AppendsWithoutRoomOverwrite(g, disk, beyond, name, data, slot, size, newSize, 0, put, d);
    OverwrittenText(g, disk, d, beyond, slot, name, bytes, newSize, put);
  }

  lemma OverwrittenText(
    g: Geometry, disk: Disk, d: Disk, beyond: Links, slot: nat, name: Bytes, bytes: Bytes, newSize: nat, put: Bytes)
    requires WellFormed(g, disk) && |d| == |disk| && IsVisible(name) && slot < DIR_ENTRIES
    requires slot == FirstNamed(Slots(g, disk), name, 0) && Slots(g, disk)[slot] == File(name, bytes) && |bytes| == 512
    requires |Held(g, disk, slot)| >= 512 && Held(g, disk, slot)[..512] == bytes && newSize == 512 + |put|
    requires Overwrites(g, disk, d, slot, 0, 512, newSize, put)
    ensures ReadText(g, d, beyond, name, 513) == Some(put + bytes[|put|..])
  {
    var text := Cut(Patch(Held(g, disk, slot), 0, put), newSize);
    assert Slots(g, d)[slot] == File(name, text) by {
      assert Slots(g, disk)[slot] == SlotOf(g, disk, slot);
    }
    BeginningOverwritten(Held(g, disk, slot), bytes, newSize, put);
    StillFirst(Slots(g, disk), Slots(g, d), name, slot, 0);
    RootIsElsewhere(g, disk);
    TextOfSlot(g, d, beyond, name, slot);
  }

  lemma BeginningOverwritten(held: Bytes, bytes: Bytes, newSize: nat, put: Bytes)
    requires |put| <= 512 <= |held| && held[..512] == bytes && 512 <= newSize
    ensures var all := Cut(Patch(held, 0, put), newSize);
            |all| >= 512 && all[..512] == put + bytes[|put|..]
  {
    var patched := Patch(held, 0, put);
    assert patched[..512] == put + held[|put|..512];
    assert held[|put|..512] == bytes[|put|..];
  }

  lemma OneFullSector(g: Geometry, disk: Disk, slot: nat, name: Bytes, data: Bytes, bytes: Bytes)
    requires WellFormed(g, disk) && slot == FirstNamed(Slots(g, disk), name, 0) < DIR_ENTRIES && data != []
    requires Slots(g, disk)[slot] == File(name, bytes) && |bytes| == 512
    ensures !CanAppend(Abs(g, disk), name, data) && LandsAt(g, ClustersOf(g, disk, slot), 512) == 0
    ensures |Held(g, disk, slot)| >= 512 && Held(g, disk, slot)[..512] == bytes
  {
    var cs, clusterSize := ClustersOf(g, disk, slot), 512 * g.PerCluster();
    assert g.PerCluster() > 0 by {
      RootIsElsewhere(g, disk);
    }
    FileInSlot(g, disk, slot);
    assert |cs| == 1 && !HasRoom(512, clusterSize) by {
      OneClusterWithoutRoom(g, |cs|, clusterSize);
    }
    assert |Held(g, disk, slot)| >= 512;
  }

  /** A file of 512 bytes has one cluster, which it ends in the first sector or fills. */
  lemma OneClusterWithoutRoom(g: Geometry, n: nat, clusterSize: nat)
    requires Covers(g, n, 512) && clusterSize == 512 * g.PerCluster() > 0
    ensures n == 1 && !HasRoom(512, clusterSize)
  {
    assert n == 1;
    assert 512 % clusterSize == if clusterSize == 512 then 0 else 512 by {
      if clusterSize == 512 {
        RemainderIs(512, clusterSize, 1, 0);
      } else {
        RemainderIs(512, clusterSize, 0, 512);
      }
    }
  }

  lemma {:induction false} StillFirst(slots: seq<Slot>, other: seq<Slot>, name: Bytes, slot: nat, i: nat)
    requires i <= slot < |slots| == |other| && slot == FirstNamed(slots, name, i) && IsNamed(other[slot], name)
    requires forall j :: 0 <= j < slot ==> other[j] == slots[j]
    ensures FirstNamed(other, name, i) == slot
    decreases slot - i
  {
    if i < slot {
      StillFirst(slots, other, name, slot, i + 1);
    }
  }

  /** The first sector of a file is what a large buffer receives. */
  lemma TextOfSlot(g: Geometry, disk: Disk, beyond: Links, name: Bytes, slot: nat)
    requires g.Fits(|disk|) && UnusedBehind(Dir(g, disk)) && IsVisible(name) && g.PerCluster() > 0
    requires slot == FirstNamed(Slots(g, disk), name, 0) < DIR_ENTRIES && Slots(g, disk)[slot].File?
    requires |Slots(g, disk)[slot].bytes| >= 512
    ensures ReadText(g, disk, beyond, name, 513) == Some(Slots(g, disk)[slot].bytes[..512])
  {
    var e, bytes := EntryAt(Dir(g, disk), slot), Slots(g, disk)[slot].bytes;
    assert Slots(g, disk)[slot] == SlotOf(g, disk, slot);
    assert SizeOf(e) >= 512 && ClusterOf(e) != 0;
    assert TextAt(disk, beyond, g.SectorOf(ClusterOf(e)), 512) == Some(bytes[..512]) by {
      FirstSectorOfSlot(g, disk, beyond, slot, bytes);
    }
    assert g.Root() < |disk| by {
      RootIsOnDisk(g, |disk|);
    }
    assert ReadSlot(Dir(g, disk), name, 0) == slot by {
      ReadSlotsAgree(g, disk, name, 0);
    }
  }

  lemma FirstSectorOfSlot(g: Geometry, disk: Disk, beyond: Links, slot: nat, bytes: Bytes)
    requires g.Fits(|disk|) && g.PerCluster() > 0 && slot < DIR_ENTRIES && SlotOf(g, disk, slot).File?
    requires SlotOf(g, disk, slot).bytes == bytes && |bytes| >= 512
    ensures TextAt(disk, beyond, g.SectorOf(EntryCluster(Dir(g, disk), slot)), 512) == Some(bytes[..512])
  {
    var e, cs := EntryAt(Dir(g, disk), slot), ClustersOf(g, disk, slot);
    assert bytes == Cut(Joined(g, disk, cs), SizeOf(e));
    assert cs != [];
    assert Linked(Fat(g, disk), cs[0]) by {
      ChainsAreLinked(Fat(g, disk), ClusterOf(e), g.maxValidClusters + 1);
      assert cs[0] in cs;
    }
    ClusterRange(g, |disk|, cs[0]);
    JoinedBegins(g, disk, cs);
    var sector := SectorAt(disk, g.SectorOf(cs[0]));
    assert FirstBytes(sector, beyond, 512) == sector == Joined(g, disk, cs)[..512] == bytes[..512];
  }

  // ----- reads -----

  /** What a read of more than a sector copies from memory happens to be the rest of the file. */
  predicate MemoryHoldsTheRest(s: State, beyond: Links, name: Bytes, max: nat) {
    var slot := FirstNamed(s.slots, name, 0);
    && slot < |s.slots| && s.slots[slot].File?
    && var bytes := s.slots[slot].bytes;
       forall k: nat :: 512 <= k < |bytes| && k + 1 < max && k < TWO_TO_THE_32 ==> ByteBehind(beyond, k) == bytes[k]
  }

  /** What a read takes for the text of a folder or a label happens to be the answer for what is not found. */
  predicate ReadsNotFound(g: Geometry, disk: Disk, name: Bytes, max: nat)
    requires max > 0
  {
    var slot := FirstNamed(Slots(g, disk), name, 0);
    && slot < DIR_ENTRIES && Slots(g, disk)[slot].Foreign?
    && var lba := g.SectorOf(EntryCluster(Dir(g, disk), slot));
       lba < |disk| && disk[lba][..16] == NOT_FOUND && Least(EntrySize(Dir(g, disk), slot), max - 1) == 16
  }

  lemma {:induction false} ReadGuardIsExact(g: Geometry, disk: Disk, beyond: Links, name: Bytes, max: nat)
    requires WellFormed(g, disk) && IsVisible(name) && max >= 17
    ensures ReadText(g, disk, beyond, name, max) == Some(Text(Abs(g, disk), name, max))
            <==> CanRead(Abs(g, disk), name, max) || MemoryHoldsTheRest(Abs(g, disk), beyond, name, max)
                 || ReadsNotFound(g, disk, name, max)
  {
    var slot := FirstNamed(Slots(g, disk), name, 0);
    if CanRead(Abs(g, disk), name, max) {
      ReadRefines(g, disk, beyond, name, max);
    } else {
      NamedSlotsAreTaken(g, disk, name, slot);
      var n := Least(EntrySize(Dir(g, disk), slot), max - 1);
      TextIsRead(g, disk, beyond, name, max, slot, n);
      if Slots(g, disk)[slot].File? {
        LongReadsAreExact(g, disk, beyond, name, max, slot, n);
      } else {
        ForeignReadsAreExact(g, disk, beyond, name, max, slot, n);
      }
    }
  }

  lemma {:induction false} ForeignReadsAreExact(
    g: Geometry, disk: Disk, beyond: Links, name: Bytes, max: nat, slot: nat, n: nat)
    requires max >= 17 && slot == FirstNamed(Slots(g, disk), name, 0) < DIR_ENTRIES && Slots(g, disk)[slot].Foreign?
    requires n == Least(EntrySize(Dir(g, disk), slot), max - 1) && !CanRead(Abs(g, disk), name, max)
    ensures ReadOf(g, disk, beyond, slot, n) == Some(NOT_FOUND) <==> ReadsNotFound(g, disk, name, max)
  {
    assert Slots(g, disk)[slot] == SlotOf(g, disk, slot);
    var lba := g.SectorOf(EntryCluster(Dir(g, disk), slot));
    assert |NOT_FOUND| == 16;
    if lba < |disk| && n == 16 {
      assert FirstBytes(disk[lba], beyond, n) == disk[lba][..16];
    }
  }

  lemma {:induction false} LongReadsAreExact(
    g: Geometry, disk: Disk, beyond: Links, name: Bytes, max: nat, slot: nat, n: nat)
    requires WellFormed(g, disk) && IsVisible(name) && max >= 17
    requires slot == FirstNamed(Slots(g, disk), name, 0) < DIR_ENTRIES && Slots(g, disk)[slot].File?
    requires n == Least(EntrySize(Dir(g, disk), slot), max - 1)
    ensures ReadOf(g, disk, beyond, slot, n) == Some(Text(Abs(g, disk), name, max))
            <==> MemoryHoldsTheRest(Abs(g, disk), beyond, name, max)
  {
    var bytes := Slots(g, disk)[slot].bytes;
    assert EntrySize(Dir(g, disk), slot) == |bytes| by {
      FileInSlot(g, disk, slot);
    }
    FileText(g, disk, beyond, slot, n);
    assert Text(Abs(g, disk), name, max) == bytes[..n];
    CopiedRest(beyond, bytes, max, n);
  }

  lemma {:induction false} CopiedRest(beyond: Links, bytes: Bytes, max: nat, n: nat)
    requires max > 0 && n == Least(|bytes|, max - 1) < TWO_TO_THE_32
    ensures (forall k: nat :: 512 <= k < n ==> ByteBehind(beyond, k) == bytes[k])
            <==> forall k: nat :: 512 <= k < |bytes| && k + 1 < max && k < TWO_TO_THE_32 ==>
                                    ByteBehind(beyond, k) == bytes[k]
  {
  }

  // ----- any operation, and whole runs -----

  /** The guard fails, but nothing comes of it: by bytes that are what they should be, or by nothing written. */
  ghost predicate StepIsHarmless(g: Geometry, disk: Disk, beyond: Links, op: Operation)
    requires IsOperation(op)
  {
    match op
    case Save(_, data) => HeldAlready(g, disk, data)
    case Extend(name, data) => AppendIsHarmless(g, disk, beyond, name, data)
    case Load(name, max) =>
      MemoryHoldsTheRest(Abs(g, disk), beyond, name, max) || ReadsNotFound(g, disk, name, max)
  }

  lemma {:induction false} StepGuardIsExact(g: Geometry, disk: Disk, beyond: Links, op: Operation)
    requires WellFormed(g, disk) && IsOperation(op)
    ensures StepIsRight(g, disk, beyond, op) <==>
              CanStep(Abs(g, disk), op) || StepIsHarmless(g, disk, beyond, op)
  {
    match op
    case Save(name, data) => WriteGuardIsExact(g, disk, name, data);
    case Extend(name, data) => AppendGuardIsExact(g, disk, beyond, name, data);
    case Load(name, max) => ReadGuardIsExact(g, disk, beyond, name, max);
  }

  ghost predicate RunIsRight(g: Geometry, disk: Disk, beyond: Links, ops: seq<Operation>)
    requires forall op :: op in ops ==> IsOperation(op)
    decreases |ops|
  {
    ops == [] ||
    (assert ops[0] in ops;
     StepIsRight(g, disk, beyond, ops[0])
     && RunIsRight(g, Apply(disk, TraceOf(g, disk, beyond, ops[0])), beyond, ops[1..]))
  }

  /** Each step meets its guard or is harmless on the volume that it finds. */
  ghost predicate RunIsGuarded(g: Geometry, disk: Disk, beyond: Links, ops: seq<Operation>)
    requires forall op :: op in ops ==> IsOperation(op)
    decreases |ops|
  {
    ops == [] ||
    (assert ops[0] in ops;
     (CanStep(Abs(g, disk), ops[0]) || StepIsHarmless(g, disk, beyond, ops[0]))
     && RunIsGuarded(g, Apply(disk, TraceOf(g, disk, beyond, ops[0])), beyond, ops[1..]))
  }

  /** Main theorem: on any well-formed volume a run is right exactly when each step is guarded or harmless. */
  lemma {:induction false} RunGuardIsExact(g: Geometry, disk: Disk, beyond: Links, ops: seq<Operation>)
    requires WellFormed(g, disk) && forall op :: op in ops ==> IsOperation(op)
    ensures RunIsRight(g, disk, beyond, ops) <==> RunIsGuarded(g, disk, beyond, ops)
    decreases |ops|
  {
    if ops != [] {
      assert ops[0] in ops;
      StepGuardIsExact(g, disk, beyond, ops[0]);
      if StepIsRight(g, disk, beyond, ops[0]) {
        RunGuardIsExact(g, Apply(disk, TraceOf(g, disk, beyond, ops[0])), beyond, ops[1..]);
      }
    }
  }

  // ----- clusters of one sector -----

  /** The guards on the slots alone, but for reads that need the memory behind the buffer. */
  predicate CanRunOn(s: State, beyond: Links, ops: seq<Operation>)
    requires forall op :: op in ops ==> IsOperation(op)
    decreases |ops|
  {
    ops == [] ||
    (assert ops[0] in ops;
     (CanStep(s, ops[0]) || (ops[0].Load? && MemoryHoldsTheRest(s, beyond, ops[0].name, ops[0].max)))
     && CanRunOn(Stepped(s, ops[0]), beyond, ops[1..]))
  }

  /** No operation of the run names an entry that is foreign. */
  ghost predicate ForeignToNone(s: State, ops: seq<Operation>) {
    forall op, i :: op in ops && 0 <= i < |s.slots| && s.slots[i].Foreign? ==> NameOf(s.slots[i].entry) != op.name
  }

  /** On clusters of one sector no bytes repeat: there is nothing behind the sector that is written. */
  lemma {:induction false} NothingRepeatsOnSectors(g: Geometry, disk: Disk, beyond: Links, op: Operation)
    requires WellFormed(g, disk) && IsOperation(op) && g.PerCluster() == 1 && !op.Load?
    requires var slot := FirstNamed(Slots(g, disk), op.name, 0);
             slot < DIR_ENTRIES ==> Slots(g, disk)[slot].File?
    ensures StepIsHarmless(g, disk, beyond, op) ==> CanStep(Abs(g, disk), op)
  {
    var slot := FirstNamed(Slots(g, disk), op.name, 0);
    if op.Extend? && slot < DIR_ENTRIES {
      FileInSlot(g, disk, slot);
      var k, size := |ClustersOf(g, disk, slot)|, EntrySize(Dir(g, disk), slot);
      RoomIsInTheLastCluster(g, k, size);
    }
  }

  /** Main theorem: there exactly the runs that meet their guards on the slots are right, step by step. */
  lemma {:induction false} GuardedRunsAreExactlyTheRightOnes(
    g: Geometry, disk: Disk, beyond: Links, ops: seq<Operation>)
    requires WellFormed(g, disk) && g.PerCluster() == 1 && forall op :: op in ops ==> IsOperation(op)
    requires ForeignToNone(Abs(g, disk), ops)
    ensures RunIsRight(g, disk, beyond, ops) <==> CanRunOn(Abs(g, disk), beyond, ops)
    decreases |ops|
  {
    if ops != [] {
      var op, d := ops[0], Apply(disk, TraceOf(g, disk, beyond, ops[0]));
      assert op in ops;
      StepGuardIsExact(g, disk, beyond, op);
      NamesAFile(Abs(g, disk), ops);
      if !op.Load? {
        NothingRepeatsOnSectors(g, disk, beyond, op);
      }
      if StepIsRight(g, disk, beyond, op) {
        StepsMakeNothingForeign(Abs(g, disk), op, ops[1..]);
        GuardedRunsAreExactlyTheRightOnes(g, d, beyond, ops[1..]);
      }
    }
  }

  lemma NamesAFile(s: State, ops: seq<Operation>)
    requires ops != [] && ForeignToNone(s, ops)
    ensures var slot := FirstNamed(s.slots, ops[0].name, 0); slot < |s.slots| ==> s.slots[slot].File?
  {
    assert ops[0] in ops;
  }

  lemma StepsMakeNothingForeign(s: State, op: Operation, ops: seq<Operation>)
    requires ForeignToNone(s, ops)
    ensures ForeignToNone(Stepped(s, op), ops)
  {
    var t := Stepped(s, op);
    forall i | 0 <= i < |t.slots| && t.slots[i].Foreign? ensures t.slots[i] == s.slots[i] {
    }
  }
}
