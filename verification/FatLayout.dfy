/**
 Bytes on disk: little-endian words, the first sector of the file allocation table and the first
 sector of the root directory, after the Microsoft FAT32 File System Specification v1.03.
 */
module FatLayout {
  import opened Machine

  type Bytes = seq<Byte>
  type Sector = s: seq<Byte> | |s| == 512 witness seq(512, _ => 0)

  const LINK_MODULUS: int := 0x1000_0000
  const END_OF_CHAIN: int := 0x0FFF_FFFF
  const FIRST_END_MARK: int := 0x0FFF_FFF8
  const DELETED: Byte := 0xE5
  const FAT_ENTRIES: nat := 128
  const DIR_ENTRIES: nat := 16

  function Zeros(n: nat): (z: Bytes)
    ensures |z| == n
  {
    seq(n, _ => 0)
  }

  // ----- words -----

  function Word16(s: Bytes, at: nat): UInt16
    requires at + 2 <= |s|
  {
    var lo: int, hi: int := s[at], s[at + 1];
    lo + 256 * hi
  }

  function Word32(s: Bytes, at: nat): UInt32
    requires at + 4 <= |s|
  {
    var a: int, b: int, c: int, d: int := s[at], s[at + 1], s[at + 2], s[at + 3];
    a + 256 * b + 65536 * c + 16777216 * d
  }

  function Bytes16(n: UInt16): (b: Bytes)
    ensures |b| == 2
  {
    [n % 256, n / 256]
  }

  function Bytes32(n: UInt32): (b: Bytes)
    ensures |b| == 4
  {
    [n % 256, n / 256 % 256, n / 65536 % 256, n / 16777216]
  }

  lemma WordsReadBack(n: UInt32, m: UInt16)
    ensures Word32(Bytes32(n), 0) == n && Word16(Bytes16(m), 0) == m
  {
    DividedTwice(n, 256);
    DividedTwice(n, 65536);
  }

  lemma DividedTwice(n: nat, k: nat)
    requires k == 256 || k == 65536
    ensures n / k == n / (k * 256) * 256 + n / k % 256
  {
    var q := n / k;
    assert n / (k * 256) == q / 256;
  }

  lemma WordsWriteBack(s: Bytes, at: nat)
    requires at + 4 <= |s|
    ensures Bytes32(Word32(s, at)) == s[at..at + 4]
  {
    var a: int, b: int, c: int, d: int := s[at], s[at + 1], s[at + 2], s[at + 3];
    FourDigits(a, b, c, d);
  }

  lemma FourDigits(a: nat, b: nat, c: nat, d: nat)
    requires a < 256 && b < 256 && c < 256 && d < 256
    ensures var n := a + 256 * b + 65536 * c + 16777216 * d;
            n % 256 == a && n / 256 % 256 == b && n / 65536 % 256 == c && n / 16777216 == d
  {
    var n := a + 256 * b + 65536 * c + 16777216 * d;
    assert n / 256 == b + 256 * c + 65536 * d;
    assert n / 65536 == c + 256 * d;
  }

  /** `s` with `b` written over it from offset `at`. */
  function Patch(s: Bytes, at: nat, b: Bytes): (r: Bytes)
    requires at + |b| <= |s|
    ensures |r| == |s|
  {
    s[..at] + b + s[at + |b|..]
  }

  lemma PatchedWord(s: Bytes, at: nat, n: UInt32)
    requires at + 4 <= |s|
    ensures Word32(Patch(s, at, Bytes32(n)), at) == n
  {
    WordsReadBack(n, 0);
    var p := Patch(s, at, Bytes32(n));
    assert p[at] == Bytes32(n)[0] && p[at + 1] == Bytes32(n)[1] && p[at + 2] == Bytes32(n)[2]
           && p[at + 3] == Bytes32(n)[3];
  }

  // ----- the allocation table -----

  function FatEntry(fat: Sector, i: nat): UInt32
    requires i < FAT_ENTRIES
  {
    Word32(fat, 4 * i)
  }

  /** The low 28 bits: what the entry links to. */
  function FatLink(fat: Sector, i: nat): nat
    requires i < FAT_ENTRIES
  {
    FatEntry(fat, i) % LINK_MODULUS
  }

  function Allocated(fat: Sector, c: nat): Sector
    requires c < FAT_ENTRIES
  {
    Patch(fat, 4 * c, Bytes32(END_OF_CHAIN))
  }

  lemma AllocatingChangesOneLink(fat: Sector, c: nat)
    requires c < FAT_ENTRIES
    ensures FatLink(Allocated(fat, c), c) == END_OF_CHAIN
    ensures forall i: nat :: i < FAT_ENTRIES && i != c ==> FatLink(Allocated(fat, c), i) == FatLink(fat, i)
  {
    PatchedWord(fat, 4 * c, END_OF_CHAIN);
  }

  /** The first free cluster number from `i` on, or 0. */
  function FirstFree(fat: Sector, i: nat): (c: nat)
    requires 2 <= i <= FAT_ENTRIES
    ensures c != 0 ==> i <= c < FAT_ENTRIES && FatLink(fat, c) == 0
    ensures forall j :: i <= j < (if c == 0 then FAT_ENTRIES else c) ==> FatLink(fat, j) != 0
    decreases FAT_ENTRIES - i
  {
    if i == FAT_ENTRIES then 0 else if FatLink(fat, i) == 0 then i else FirstFree(fat, i + 1)
  }

  function FreeClusters(fat: Sector): set<nat> {
    set c: nat | 2 <= c < FAT_ENTRIES && FatLink(fat, c) == 0
  }

  // ----- the root directory -----

  /** The 32 bytes of a directory entry. */
  type Entry = e: seq<Byte> | |e| == 32 witness seq(32, _ => 0)

  function EntryAt(dir: Sector, i: nat): Entry
    requires i < DIR_ENTRIES
  {
    dir[32 * i..32 * i + 32]
  }

  /** The first byte says whether the entry is in use. */
  function Mark(e: Entry): Byte {
    e[0]
  }

  function NameOf(e: Entry): (name: Bytes)
    ensures |name| == 11 && name[0] == Mark(e)
  {
    e[..11]
  }

  function AttributesOf(e: Entry): Byte {
    e[11]
  }

  function ClusterOf(e: Entry): UInt32 {
    var hi: int, lo: int := Word16(e, 20), Word16(e, 26);
    65536 * hi + lo
  }

  function SizeOf(e: Entry): UInt32 {
    Word32(e, 28)
  }

  predicate Unused(e: Entry) {
    Mark(e) == 0
  }

  predicate Live(e: Entry) {
    Mark(e) != 0 && Mark(e) != DELETED
  }

  function EntryName(dir: Sector, i: nat): (name: Bytes)
    requires i < DIR_ENTRIES
    ensures |name| == 11
  {
    NameOf(EntryAt(dir, i))
  }

  function EntryCluster(dir: Sector, i: nat): UInt32
    requires i < DIR_ENTRIES
  {
    ClusterOf(EntryAt(dir, i))
  }

  function EntrySize(dir: Sector, i: nat): UInt32
    requires i < DIR_ENTRIES
  {
    SizeOf(EntryAt(dir, i))
  }

  predicate IsUnused(dir: Sector, i: nat)
    requires i < DIR_ENTRIES
  {
    Unused(EntryAt(dir, i))
  }

  predicate IsLive(dir: Sector, i: nat)
    requires i < DIR_ENTRIES
  {
    Live(EntryAt(dir, i))
  }

  const ARCHIVE: Byte := 0x20

  /** The 32 bytes of a new entry: archive attribute, no times, cluster number in two halves. */
  function NewEntry(name: Bytes, cluster: UInt32, size: UInt32): (e: Entry)
    requires |name| == 11
  {
    name + [ARCHIVE, 0, 0] + Bytes16(0) + Bytes16(0) + Bytes16(0) + Bytes16(cluster / 65536)
    + Bytes16(0) + Bytes16(0) + Bytes16(cluster % 65536) + Bytes32(size)
  }

  /** The entry with another size. */
  function Resized(e: Entry, size: UInt32): Entry {
    e[..28] + Bytes32(size)
  }

  function WithEntry(dir: Sector, i: nat, name: Bytes, cluster: UInt32, size: UInt32): Sector
    requires i < DIR_ENTRIES && |name| == 11
  {
    Patch(dir, 32 * i, NewEntry(name, cluster, size))
  }

  function WithSize(dir: Sector, i: nat, size: UInt32): Sector
    requires i < DIR_ENTRIES
  {
    Patch(dir, 32 * i + 28, Bytes32(size))
  }

  lemma NewEntryReadsBack(name: Bytes, cluster: UInt32, size: UInt32)
    requires |name| == 11
    ensures var e := NewEntry(name, cluster, size);
            NameOf(e) == name && AttributesOf(e) == ARCHIVE && ClusterOf(e) == cluster && SizeOf(e) == size
  {
    var e := NewEntry(name, cluster, size);
    var hi, lo := Bytes16(cluster / 65536), Bytes16(cluster % 65536);
    assert Word16(e, 20) == cluster / 65536 by {
      assert e[20] == hi[0] && e[21] == hi[1];
      WordsReadBack(0, cluster / 65536);
    }
    assert Word16(e, 26) == cluster % 65536 by {
      assert e[26] == lo[0] && e[27] == lo[1];
      WordsReadBack(0, cluster % 65536);
    }
    assert Word32(e, 28) == size by {
      var b := Bytes32(size);
      assert e[28] == b[0] && e[29] == b[1] && e[30] == b[2] && e[31] == b[3];
      WordsReadBack(size, 0);
    }
  }

  lemma ResizedReadsBack(e: Entry, size: UInt32)
    ensures var r := Resized(e, size);
            && NameOf(r) == NameOf(e) && AttributesOf(r) == AttributesOf(e) && ClusterOf(r) == ClusterOf(e)
            && SizeOf(r) == size && Mark(r) == Mark(e)
  {
    var r, b := Resized(e, size), Bytes32(size);
    assert forall k :: 0 <= k < 28 ==> r[k] == e[k];
    assert r[28] == b[0] && r[29] == b[1] && r[30] == b[2] && r[31] == b[3];
    WordsReadBack(size, 0);
  }

  /** Writing an entry changes that entry and no other. */
  lemma WithEntryAt(dir: Sector, i: nat, name: Bytes, cluster: UInt32, size: UInt32, j: nat)
    requires i < DIR_ENTRIES && j < DIR_ENTRIES && |name| == 11
    ensures EntryAt(WithEntry(dir, i, name, cluster, size), j) ==
            if j == i then NewEntry(name, cluster, size) else EntryAt(dir, j)
  {
    PatchedEntry(dir, i, 0, NewEntry(name, cluster, size), j);
  }

  lemma WithSizeAt(dir: Sector, i: nat, size: UInt32, j: nat)
    requires i < DIR_ENTRIES && j < DIR_ENTRIES
    ensures EntryAt(WithSize(dir, i, size), j) == if j == i then Resized(EntryAt(dir, j), size) else EntryAt(dir, j)
  {
    PatchedEntry(dir, i, 28, Bytes32(size), j);
  }

  /** Storing the size that is there changes nothing. */
  lemma SameSize(dir: Sector, i: nat)
    requires i < DIR_ENTRIES
    ensures WithSize(dir, i, EntrySize(dir, i)) == dir
  {
    WordsWriteBack(EntryAt(dir, i), 28);
    assert EntryAt(dir, i)[28..32] == dir[32 * i + 28..32 * i + 32];
    assert dir == dir[..32 * i + 28] + dir[32 * i + 28..32 * i + 32] + dir[32 * i + 32..];
  }

  lemma PatchedEntry(dir: Sector, i: nat, at: nat, b: Bytes, j: nat)
    requires i < DIR_ENTRIES && j < DIR_ENTRIES && at + |b| <= 32
    ensures EntryAt(Patch(dir, 32 * i + at, b), j) == if j == i then Patch(EntryAt(dir, j), at, b) else EntryAt(dir, j)
  {
    var d := Patch(dir, 32 * i + at, b);
    if j < i {
      assert 32 * j + 32 <= 32 * i;
    } else if i < j {
      assert 32 * i + 32 <= 32 * j;
    }
  }
}
