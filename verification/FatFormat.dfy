/**
 The formats on disk byte by byte, as the Microsoft FAT32 File System Specification v1.03 lays them out:
 which numbers of the boot sector, the allocation table and a directory entry the driver reads and writes.
 */
module FatFormat {
  import opened Machine
  import opened FatLayout
  import opened FatMount
  import FatWalk

  /** The `size` bytes from offset `at` on are the number `n`, its lowest byte first. */
  predicate Holds(s: Bytes, at: nat, size: nat, n: nat)
    requires at + size <= |s|
    decreases size
  {
    if size == 0 then n == 0 else n % 256 == s[at] && Holds(s, at + 1, size - 1, n / 256)
  }

  lemma BytesHold(s: Bytes, at: nat)
    requires at + 1 <= |s|
    ensures Holds(s, at, 1, s[at])
  {
  }

  lemma WordsHold(s: Bytes, at: nat)
    requires at + 2 <= |s|
    ensures Holds(s, at, 2, Word16(s, at))
  {
    BytesHold(s, at + 1);
  }

  lemma LongWordsHold(s: Bytes, at: nat)
    requires at + 4 <= |s|
    ensures Holds(s, at, 4, Word32(s, at))
  {
    var high: int := Word16(s, at + 2);
    var upper: int := s[at + 1] + 256 * high;
    WordsHold(s, at + 2);
    LowestByte(s[at + 1], high);
    LowestByte(s[at], upper);
    assert Word32(s, at) == s[at] + 256 * upper;
    assert Holds(s, at + 1, 3, upper);
  }

  lemma LowestByte(a: nat, m: nat)
    requires a < 256
    ensures (a + 256 * m) % 256 == a && (a + 256 * m) / 256 == m
  {
  }

  lemma BootFields(boot: Sector)
    ensures var b := BlockOf(boot);
            && Holds(boot, 11, 2, b.bytesPerSector) && Holds(boot, 13, 1, b.sectorsPerCluster)
            && Holds(boot, 14, 2, b.reserved) && Holds(boot, 16, 1, b.fatCount) && Holds(boot, 19, 2, b.total16)
            && Holds(boot, 32, 4, b.total32) && Holds(boot, 36, 4, b.sectorsPerFat) && Holds(boot, 44, 4, b.rootCluster)
  {
    BytesHold(boot, 13);
    BytesHold(boot, 16);
    WordsHold(boot, 11);
    WordsHold(boot, 14);
    WordsHold(boot, 19);
    LongWordsHold(boot, 32);
    LongWordsHold(boot, 36);
    LongWordsHold(boot, 44);
  }

  /** What the driver takes from an entry: name, attributes, the two halves of the first cluster, the size. */
  lemma EntryFields(e: Entry)
    ensures NameOf(e) == e[..11] && Holds(e, 11, 1, AttributesOf(e)) && Holds(e, 28, 4, SizeOf(e))
    ensures Holds(e, 26, 2, ClusterOf(e) % 0x1_0000) && Holds(e, 20, 2, ClusterOf(e) / 0x1_0000)
    ensures Unused(e) <==> e[0] == 0
    ensures Live(e) <==> e[0] != 0 && e[0] != 0xE5
  {
    BytesHold(e, 11);
    LongWordsHold(e, 28);
    WordsHold(e, 20);
    WordsHold(e, 26);
    Halves(Word16(e, 20), Word16(e, 26));
  }

  lemma Halves(high: UInt16, low: UInt16)
    ensures (65536 * high as int + low) % 0x1_0000 == low && (65536 * high as int + low) / 0x1_0000 == high
  {
  }

  /** And what it enters: an archive without times, all numbers in the same places. */
  lemma EnteredFields(name: Bytes, cluster: UInt32, size: UInt32)
    requires |name| == 11
    ensures var e := NewEntry(name, cluster, size);
            && e[..11] == name && e[11] == 0x20 && (forall k :: 12 <= k < 20 || 22 <= k < 26 ==> e[k] == 0)
            && Holds(e, 26, 2, cluster % 0x1_0000) && Holds(e, 20, 2, cluster / 0x1_0000) && Holds(e, 28, 4, size)
  {
    var e := NewEntry(name, cluster, size);
    NewEntryReadsBack(name, cluster, size);
    EntryFields(e);
    assert e[11] == 0x20;
    ZeroWords(e, name, cluster, size);
  }

  lemma ZeroWords(e: Entry, name: Bytes, cluster: UInt32, size: UInt32)
    requires |name| == 11 && e == NewEntry(name, cluster, size)
    ensures forall k :: 12 <= k < 20 || 22 <= k < 26 ==> e[k] == 0
  {
    assert Bytes16(0) == [0, 0];
  }

  /** Which entries the chain walk goes on from: all but those that are free, reserved or an end. */
  lemma FollowedLinks(links: FatWalk.Links, c: UInt32)
    ensures FatWalk.Continues(links, c) <==> 2 <= links(c) % 0x1000_0000 < 0x0FFF_FFF8
    ensures FatWalk.Continues(links, c) ==> FatWalk.Follow(links, c) == links(c) % 0x1000_0000
  {
  }

  /** A table entry is a number of four bytes, of which 28 bits count; a new chain ends with all of them set. */
  lemma TableFields(fat: Sector, c: nat)
    requires c < 128
    ensures Holds(fat, 4 * c, 4, FatEntry(fat, c)) && FatLink(fat, c) == FatEntry(fat, c) % 0x1000_0000
    ensures Allocated(fat, c)[4 * c..4 * c + 4] == [0xFF, 0xFF, 0xFF, 0x0F]
  {
    LongWordsHold(fat, 4 * c);
    assert Bytes32(END_OF_CHAIN) == [0xFF, 0xFF, 0xFF, 0x0F];
    assert Allocated(fat, c)[4 * c..4 * c + 4] == Bytes32(END_OF_CHAIN);
  }
}
