/** A mounted volume as a sequence of sectors, and the sector writes that each file operation makes. */
module FatVolume {
  import opened Machine
  import opened Wrappers
  import opened FatLayout
  import opened FatWalk

  type Disk = seq<Sector>

  datatype Write = Write(lba: UInt32, content: Sector)

  /** The state that mounting sets, in the driver's 32-bit arithmetic. */
  datatype Geometry = Geometry(
    fatStart: UInt32, dataStart: UInt32, bytesPerCluster: UInt32, rootCluster: UInt32, maxValidClusters: UInt32)
  {
    function SectorOf(cluster: UInt32): UInt32 {
      var perCluster: int := bytesPerCluster / 512;
      var offset: int := Wrap32(cluster - 2);
      var skipped: int := Wrap32(offset * perCluster);
      Wrap32(dataStart + skipped)
    }

    function Root(): UInt32 {
      SectorOf(rootCluster)
    }

    /**
     The volume fits its device of `n` sectors, up to the last cluster the driver can allocate; the
     product of a 16-bit and an 8-bit number bounds the cluster size.
     */
    predicate Fits(n: nat) {
      && n <= TWO_TO_THE_32
      && 512 <= bytesPerCluster < 0x100_0000 && fatStart < dataStart && rootCluster >= 2
      && Plain(rootCluster) < n && Plain(FAT_ENTRIES - 1) < n
    }

    /** The sector of a cluster, without wrap-around. */
    function Plain(cluster: nat): int {
      var perCluster: int := bytesPerCluster / 512;
      dataStart + (cluster - 2) * perCluster
    }

    function PerCluster(): nat {
      bytesPerCluster / 512
    }
  }

  /** A sector of the device; there is nothing to read behind its end. */
  function SectorAt(disk: Disk, lba: nat): Sector {
    if lba < |disk| then disk[lba] else Zeros(512)
  }

  /** The device after one sector write; a write behind its end is lost. */
  function Put(disk: Disk, lba: nat, content: Sector): (r: Disk)
    ensures |r| == |disk|
    ensures forall i: nat :: SectorAt(r, i) == if i == lba && lba < |disk| then content else SectorAt(disk, i)
  {
    if lba < |disk| then disk[lba := content] else disk
  }

  function Apply(disk: Disk, writes: seq<Write>): (r: Disk)
    ensures |r| == |disk|
    decreases |writes|
  {
    if writes == [] then disk else Apply(Put(disk, writes[0].lba, writes[0].content), writes[1..])
  }

  function Dir(g: Geometry, disk: Disk): Sector {
    SectorAt(disk, g.Root())
  }

  function Fat(g: Geometry, disk: Disk): Sector {
    SectorAt(disk, g.fatStart)
  }

  // ----- searching the directory -----

  /** The slot a read stops at: the search ends at the first unused entry. 16 when there is none. */
  function ReadSlot(dir: Sector, name: Bytes, i: nat): (r: nat)
    requires i <= DIR_ENTRIES
    ensures i <= r <= DIR_ENTRIES
    decreases DIR_ENTRIES - i
  {
    if i == DIR_ENTRIES || IsUnused(dir, i) then DIR_ENTRIES
    else if EntryName(dir, i) == name then i
    else ReadSlot(dir, name, i + 1)
  }

  /** The slot an append uses: all sixteen are searched. */
  function AppendSlot(dir: Sector, name: Bytes, i: nat): (r: nat)
    requires i <= DIR_ENTRIES
    ensures i <= r <= DIR_ENTRIES
    decreases DIR_ENTRIES - i
  {
    if i == DIR_ENTRIES then DIR_ENTRIES
    else if EntryName(dir, i) == name then i
    else AppendSlot(dir, name, i + 1)
  }

  lemma {:induction false} FirstMatchIsTheAppendSlot(dir: Sector, name: Bytes, slot: nat, i: nat)
    requires i <= slot <= DIR_ENTRIES && forall j: nat :: i <= j < slot ==> EntryName(dir, j) != name
    requires slot < DIR_ENTRIES ==> EntryName(dir, slot) == name
    ensures AppendSlot(dir, name, i) == slot
    decreases slot - i
  {
    if i < slot {
      FirstMatchIsTheAppendSlot(dir, name, slot, i + 1);
    }
  }

  /** The slot a new entry takes. */
  function EmptySlot(dir: Sector, i: nat): (r: nat)
    requires i <= DIR_ENTRIES
    ensures i <= r <= DIR_ENTRIES
    decreases DIR_ENTRIES - i
  {
    if i == DIR_ENTRIES then DIR_ENTRIES
    else if !IsLive(dir, i) then i
    else EmptySlot(dir, i + 1)
  }

  // ----- the writes of each operation -----

  /** What a new data sector holds: the data, cut at one sector and padded with zeros. */
  function DataSector(data: Bytes): Sector {
    var n := Least(|data|, 512);
    data[..n] + Zeros(512 - n)
  }

  predicate IsRequest(name: Bytes, data: Bytes) {
    |name| == 11 && |data| < TWO_TO_THE_32
  }

  /** Allocate a cluster, fill its first sector, enter it in the directory. */
  function WriteTrace(g: Geometry, disk: Disk, name: Bytes, data: Bytes): seq<Write>
    requires IsRequest(name, data)
  {
    if g.fatStart >= |disk| then []
    else
      var fat := SectorAt(disk, g.fatStart);
      var c := FirstFree(fat, 2);
      if c == 0 then []
      else
        var two := [Write(g.fatStart, Allocated(fat, c)), Write(g.SectorOf(c), DataSector(data))];
        two + EntryTrace(g, Apply(disk, two), name, c, data)
  }

  function EntryTrace(g: Geometry, disk: Disk, name: Bytes, c: UInt32, data: Bytes): seq<Write>
    requires IsRequest(name, data)
  {
    if g.Root() >= |disk| then []
    else
      var dir := SectorAt(disk, g.Root());
      var slot := EmptySlot(dir, 0);
      if slot == DIR_ENTRIES then [] else [Write(g.Root(), WithEntry(dir, slot, name, c, |data|))]
  }

  /** The table as memory shows it to the walk: its first sector, then whatever lies behind the buffer. */
  function LinksOf(fat: Sector, beyond: Links): Links {
    (c: UInt32) => if c < FAT_ENTRIES then FatEntry(fat, c) else beyond(c)
  }

  function Walked(g: Geometry, fat: Sector, beyond: Links, first: UInt32): Option<UInt32> {
    LastCluster(LinksOf(fat, beyond), first, 0, g.maxValidClusters)
  }

  /** Extend the last sector of an existing file, then its size; without one, write a new file. */
  function AppendTrace(g: Geometry, disk: Disk, beyond: Links, name: Bytes, data: Bytes): seq<Write>
    requires IsRequest(name, data)
  {
    if g.Root() >= |disk| then []
    else
      var dir := SectorAt(disk, g.Root());
      var slot := AppendSlot(dir, name, 0);
      if slot == DIR_ENTRIES then WriteTrace(g, disk, name, data) else FoundTrace(g, disk, beyond, slot, data)
  }

  /** The same once the entry is found: its chain is walked to the last cluster. */
  function FoundTrace(g: Geometry, disk: Disk, beyond: Links, slot: nat, data: Bytes): seq<Write>
    requires slot < DIR_ENTRIES
  {
    if g.fatStart >= |disk| then []
    else
      match Walked(g, SectorAt(disk, g.fatStart), beyond, EntryCluster(Dir(g, disk), slot))
      case None => []
      case Some(last) => ExtendTrace(g, disk, slot, last, EntrySize(Dir(g, disk), slot), data)
  }

  /** How much of the data fits behind `size` bytes in its last sector. */
  function Fitting(size: nat, data: Bytes): (n: nat)
    ensures n <= |data| && size % 512 + n <= 512
  {
    Least(|data|, 512 - size % 512)
  }

  /** `sector` with what fits of the data behind its last byte in use. */
  function Lengthened(sector: Sector, size: nat, data: Bytes): Sector {
    Patch(sector, size % 512, data[..Fitting(size, data)])
  }

  function ExtendTrace(g: Geometry, disk: Disk, slot: nat, last: UInt32, size: UInt32, data: Bytes): seq<Write>
    requires slot < DIR_ENTRIES
  {
    if g.SectorOf(last) >= |disk| then []
    else
      var one := [Write(g.SectorOf(last), Lengthened(SectorAt(disk, g.SectorOf(last)), size, data))];
      one + ResizeTrace(g, Apply(disk, one), slot, Fitting(size, data))
  }

  function ResizeTrace(g: Geometry, disk: Disk, slot: nat, n: nat): seq<Write>
    requires slot < DIR_ENTRIES
  {
    [Write(g.Root(), WithSize(Dir(g, disk), slot, Wrap32(EntrySize(Dir(g, disk), slot) + n)))]
  }

  // ----- what a read yields -----

  const NOT_FOUND: Bytes :=
    [70, 105, 108, 101, 32, 110, 111, 116, 32, 102, 111, 117, 110, 100, 46, 10]

  /** A byte of memory behind the sector buffer, `k` bytes from its start: the words that the walk may run into. */
  function ByteBehind(beyond: Links, k: nat): Byte
    requires k < TWO_TO_THE_32
  {
    Bytes32(beyond(k / 4))[k % 4]
  }

  /** The first `n` bytes from the start of the buffer when it holds `sector`. */
  function FirstBytes(sector: Sector, beyond: Links, n: nat): (r: Bytes)
    requires n < TWO_TO_THE_32
    ensures |r| == n && forall k :: 0 <= k < n ==> r[k] == if k < 512 then sector[k] else ByteBehind(beyond, k)
  {
    seq<Byte>(n, k requires 0 <= k < n => if k < 512 then sector[k] else ByteBehind(beyond, k))
  }

  /**
   The text that a read leaves in a buffer of `max` bytes, up to its final NUL: it copies on behind the
   one sector it has read. None when that sector is not on the device, which leaves the buffer alone.
   */
  function ReadText(g: Geometry, disk: Disk, beyond: Links, name: Bytes, max: nat): Option<Bytes>
    requires max >= 17
  {
    if g.Root() >= |disk| then Some([])
    else
      var slot := ReadSlot(Dir(g, disk), name, 0);
      if slot == DIR_ENTRIES then Some(NOT_FOUND)
      else ReadOf(g, disk, beyond, slot, Least(EntrySize(Dir(g, disk), slot), max - 1))
  }

  /** The same for the entry that is found, `n` being how much of it is copied. */
  function ReadOf(g: Geometry, disk: Disk, beyond: Links, slot: nat, n: nat): Option<Bytes>
    requires slot < DIR_ENTRIES && n < TWO_TO_THE_32
  {
    var c := EntryCluster(Dir(g, disk), slot);
    if c == 0 then Some(NOT_FOUND) else TextAt(disk, beyond, g.SectorOf(c), n)
  }

  function TextAt(disk: Disk, beyond: Links, lba: nat, n: nat): Option<Bytes>
    requires n < TWO_TO_THE_32
  {
    if lba >= |disk| then None else Some(FirstBytes(disk[lba], beyond, n))
  }

  // ----- several writes -----

  lemma ApplyOne(disk: Disk, w: Write)
    ensures Apply(disk, [w]) == Put(disk, w.lba, w.content)
  {
    assert [w][1..] == [];
  }

  lemma {:induction false} ApplyInTwoParts(disk: Disk, vs: seq<Write>, ws: seq<Write>)
    ensures Apply(disk, vs + ws) == Apply(Apply(disk, vs), ws)
    decreases |vs|
  {
    if vs == [] {
      assert vs + ws == ws;
    } else {
      assert (vs + ws)[1..] == vs[1..] + ws;
      ApplyInTwoParts(Put(disk, vs[0].lba, vs[0].content), vs[1..], ws);
    }
  }

  lemma ApplyTwo(disk: Disk, v: Write, w: Write)
    ensures Apply(disk, [v, w]) == Put(Put(disk, v.lba, v.content), w.lba, w.content)
  {
    assert [v, w] == [v] + [w];
    ApplyInTwoParts(disk, [v], [w]);
    ApplyOne(disk, v);
    ApplyOne(Apply(disk, [v]), w);
  }

  lemma TwoWritesApplied(disk: Disk, trace: seq<Write>, w: Write, v: Write)
    requires trace == [w, v]
    ensures Apply(disk, trace[..1]) == Put(disk, w.lba, w.content)
    ensures Apply(disk, trace) == Put(Put(disk, w.lba, w.content), v.lba, v.content)
  {
    assert trace[..1] == [w];
    ApplyOne(disk, w);
    ApplyTwo(disk, w, v);
  }

  // ----- cluster addresses -----

  lemma RootIsOnDisk(g: Geometry, n: nat)
    requires g.Fits(n)
    ensures g.Root() == g.Plain(g.rootCluster) < n && g.fatStart < n && g.Root() != g.fatStart
  {
    SectorsDoNotWrap(g, n, g.rootCluster, g.rootCluster);
  }

  lemma SectorsDoNotWrap(g: Geometry, n: nat, c: nat, most: nat)
    requires g.Fits(n) && 2 <= c <= most < TWO_TO_THE_32 && g.Plain(most) < n
    ensures g.SectorOf(c) == g.Plain(c) < n && g.dataStart <= g.Plain(c)
  {
    var perCluster: int := g.bytesPerCluster / 512;
    Multiplying(c - 2, most - 2, perCluster);
    var skipped: int := (c - 2) * perCluster;
    SmallStays32(c - 2);
    SmallStays32(skipped);
    SmallStays32(g.dataStart + skipped);
  }

  lemma Multiplying(a: nat, b: nat, k: nat)
    requires a <= b
    ensures 0 <= a * k <= b * k
    ensures a < b && k > 0 ==> a * k < b * k
  {
    assert b * k == a * k + (b - a) * k;
  }
}
