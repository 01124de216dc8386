/** Mounting: the driver's state from the boot sector, and which boot sectors make it fit the device. */
module FatMount {
  import opened Machine
  import opened FatLayout
  import opened FatWalk
  import opened FatVolume
  import opened FatDriver

  /** The fields of the BIOS parameter block that the driver looks at. */
  datatype BootBlock = BootBlock(
    bytesPerSector: UInt16, sectorsPerCluster: Byte, reserved: UInt16, fatCount: Byte,
    total16: UInt16, total32: UInt32, sectorsPerFat: UInt32, rootCluster: UInt32)

  function BlockOf(boot: Sector): BootBlock {
    BootBlock(Word16(boot, 11), boot[13], Word16(boot, 14), boot[16], Word16(boot, 19), Word32(boot, 32),
              Word32(boot, 36), Word32(boot, 44))
  }

  function TotalSectors(b: BootBlock): UInt32 {
    if b.total32 != 0 then b.total32 else b.total16
  }

  /** What mounting computes, in 32-bit arithmetic; the target divides by zero to zero. */
  function GeometryOf(b: BootBlock): Geometry {
    var tables: int := Wrap32(b.fatCount * b.sectorsPerFat);
    var clusters: int := Quotient(TotalSectors(b), b.sectorsPerCluster);
    Geometry(b.reserved, Wrap32(b.reserved + tables), Product(b.bytesPerSector, b.sectorsPerCluster), b.rootCluster,
             if clusters == 0 then 65536 else clusters)
  }

  function Product(a: UInt16, b: Byte): (p: UInt32) {
    SmallProducts(a, b);
    a * b
  }

  lemma SmallProducts(a: nat, b: nat)
    requires a < TWO_TO_THE_16 && b < 256
    ensures 0 <= a * b <= 255 * a
  {
    Products(a, b);
    Products(a, 255 - b);
    assert a * b + a * (255 - b) == 255 * a;
  }

  function Quotient(a: UInt32, b: Byte): (q: UInt32) {
    if b == 0 then 0
    else
      QuotientsAreSmall(a, b);
      a / b
  }

  lemma QuotientsAreSmall(a: nat, b: nat)
    requires b > 0
    ensures 0 <= a / b <= a
  {
    var q := a / b;
    assert a == b * q + a % b;
    Multiples(q, b);
  }

  /**
   Table, root and the limit of the chain walk: the limit is how many whole clusters the volume's sectors
   make, counted by the 32-bit total or, where that is 0, by the 16-bit one; 65536 where they make none.
   */
  lemma MountedNumbers(b: BootBlock)
    ensures GeometryOf(b).fatStart == b.reserved && GeometryOf(b).rootCluster == b.rootCluster
    ensures var limit, spc := GeometryOf(b).maxValidClusters, b.sectorsPerCluster;
            var total: int := if b.total32 == 0 then b.total16 else b.total32;
            if spc == 0 || total < spc then limit == 65536 else limit * spc <= total < limit * spc + spc
  {
    var total: int, spc: int := if b.total32 == 0 then b.total16 else b.total32, b.sectorsPerCluster;
    if spc > 0 {
      var q := total / spc;
      assert total == spc * q + total % spc;
      Multiples(spc, q);
    }
  }

  /** A volume of 512-byte sectors whose tables and first 128 clusters lie on the device. */
  predicate IsSound(b: BootBlock, n: nat) {
    var data: int := b.reserved + b.fatCount * b.sectorsPerFat;
    && b.bytesPerSector == 512 && b.sectorsPerCluster >= 1 && b.fatCount >= 1 && b.sectorsPerFat >= 1
    && b.rootCluster >= 2 && n <= TWO_TO_THE_32
    && data + (b.rootCluster - 2) * b.sectorsPerCluster < n
    && data + (FAT_ENTRIES - 3) * b.sectorsPerCluster < n
  }

  lemma SoundVolumesFit(b: BootBlock, n: nat)
    requires IsSound(b, n)
    ensures GeometryOf(b).Fits(n) && GeometryOf(b).dataStart == b.reserved + b.fatCount * b.sectorsPerFat
    ensures forall c: nat :: GeometryOf(b).Plain(c) == GeometryOf(b).dataStart + (c - 2) * b.sectorsPerCluster
  {
    var g := GeometryOf(b);
    var tables: int, root: int := b.fatCount * b.sectorsPerFat, (b.rootCluster - 2) * b.sectorsPerCluster;
    Products(b.fatCount, b.sectorsPerFat);
    Products(b.rootCluster - 2, b.sectorsPerCluster);
    SmallStays32(tables);
    SmallStays32(b.reserved + tables);
    var perCluster: int := g.bytesPerCluster / 512;
    assert perCluster == b.sectorsPerCluster;
  }

  lemma Products(a: nat, b: nat)
    ensures a * b >= 0
    ensures a >= 1 && b >= 1 ==> a * b >= 1
  {
  }

  /** No driver when the boot sector cannot be read or is not signed. */
  method Mount(disk: Sectors, faults: nat -> bool, beyond: Links) returns (files: Driver?)
    ensures files == null <==>
              faults(0) || |disk| == 0 || SectorAt(disk, 0)[510] != 0x55 || SectorAt(disk, 0)[511] != 0xAA
    ensures files != null ==>
              files.Valid() && files.geometry == GeometryOf(BlockOf(SectorAt(disk, 0))) && files.disk == disk
    ensures files != null && IsSound(BlockOf(SectorAt(disk, 0)), |disk|) ==> files.geometry.Fits(|disk|)
  {
    if faults(0) || |disk| == 0 {
      return null;
    }
    var boot := disk[0];
    if boot[510] != 0x55 || boot[511] != 0xAA {
      return null;
    }
    var b := BlockOf(boot);
    files := new Driver(GeometryOf(b), disk, faults, beyond);
    if IsSound(b, |disk|) {
      SoundVolumesFit(b, |disk|);
    }
  }
}
