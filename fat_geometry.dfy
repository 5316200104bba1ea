/**
 * Boot sector (BIOS Parameter Block) of a FAT12/16 volume and the region
 * offsets main.cpp derives from it, plus the field dump of main.c.
 */
module FatGeometry {
  import opened Wrappers
  import opened FatRead

  /** Everything main.cpp reads from the boot sector or derives from it, in bytes. */
  datatype Geometry = Geometry(
    oemName: seq<byte>,      // 8 raw bytes at 0x03, not trimmed
    bytesPerSector: nat,     // u16 at 0x0B
    bytesPerCluster: nat,    // bytesPerSector * u8 at 0x0D
    reservedSectors: nat,    // u16 at 0x0E
    fatStart: nat,           // reservedSectors * bytesPerSector
    fatCount: nat,           // u8 at 0x10
    rootEntries: nat,        // u16 at 0x11
    bytesPerFat: nat,        // bytesPerSector * u16 at 0x16
    rootDirStart: nat,       // fatStart + bytesPerFat * fatCount
    dataStart: nat,          // rootDirStart + 32 * rootEntries
    diskSize: nat            // bytesPerSector * u32 at 0x20 (read unconditionally)
  )

  /** The farthest byte main.cpp reads from the boot sector (the 32-bit total at 0x20). */
  const BootSectorSpan: nat := 0x24

  /** 2^64: `unsigned long` arithmetic in the C program is taken modulo this. */
  const UnsignedLongModulus: nat := 0x1_0000_0000_0000_0000

  /**
   * The geometry main.cpp computes (lines 62-72). Every field is read with
   * read_number, so an image shorter than the boot sector has no geometry.
   */
  function DeriveGeometry(disk: seq<byte>): (r: Option<Geometry>)
    ensures r.Some? <==> |disk| >= BootSectorSpan
    ensures r.Some? ==> r.value.fatStart <= r.value.rootDirStart <= r.value.dataStart
    ensures r.Some? ==> r.value.dataStart - r.value.rootDirStart == 32 * r.value.rootEntries
    ensures r.Some? ==> r.value.rootEntries < 0x1_0000 && |r.value.oemName| == 8
  {
    if |disk| < BootSectorSpan then None
    else
      Some(Layout(disk[0x03..0x0B], NumberAt(disk, 0x0B, 2).value, NumberAt(disk, 0x0D, 1).value,
                  NumberAt(disk, 0x0E, 2).value, NumberAt(disk, 0x10, 1).value,
                  NumberAt(disk, 0x11, 2).value, NumberAt(disk, 0x16, 2).value,
                  NumberAt(disk, 0x20, 4).value))
  }

  /** The region offsets main.cpp computes from the raw boot-sector fields. */
  function Layout(oem: seq<byte>, bps: nat, spc: nat, reserved: nat, fatCount: nat,
                  rootEntries: nat, sectorsPerFat: nat, totalSectors: nat): (g: Geometry)
    ensures g.oemName == oem && g.bytesPerSector == bps && g.rootEntries == rootEntries
    ensures g.fatStart <= g.rootDirStart && g.rootDirStart + 32 * rootEntries == g.dataStart
  {
    var fatStart: nat := reserved * bps;
    var bytesPerFat: nat := bps * sectorsPerFat;
    var fatsSize: nat := bytesPerFat * fatCount;
    var rootDirStart := fatStart + fatsSize;
    Geometry(oem, bps, bps * spc, reserved, fatStart, fatCount, rootEntries, bytesPerFat,
             rootDirStart, rootDirStart + 32 * rootEntries, bps * totalSectors)
  }

  lemma MulBelow(a: nat, b: nat, x: nat, y: nat)
    requires a < x && b < y
    ensures a * b < x * y
  {
    assert a * b <= a * y by {
      MulLeftMonotone(a, b, y);
    }
    assert a * y < x * y;
  }

  lemma MulLeftMonotone(a: nat, b: nat, y: nat)
    requires b <= y
    ensures a * b <= a * y
  {
  }

  /**
   * No value main.cpp derives reaches 2^49, so its `unsigned long`
   * computations never wrap and the unbounded model computes the same numbers.
   */
  lemma GeometryFitsUnsignedLong(disk: seq<byte>)
    requires |disk| >= BootSectorSpan
    ensures var g := DeriveGeometry(disk).value;
      && g.bytesPerSector < 0x1_0000
      && g.bytesPerCluster < 0x100_0000
      && g.fatStart < 0x1_0000_0000
      && g.bytesPerFat < 0x1_0000_0000
      && g.rootDirStart < 0x1_0100_0000_0000
      && g.dataStart < 0x1_0100_0020_0000
      && g.diskSize < 0x1_0000_0000_0000
      && g.dataStart < UnsignedLongModulus
  {
    var g := DeriveGeometry(disk).value;
    var bps := NumberAt(disk, 0x0B, 2).value;
    assert Pow256(1) == 0x100 && Pow256(2) == 0x1_0000 && Pow256(4) == 0x1_0000_0000;
    MulBelow(bps, NumberAt(disk, 0x0D, 1).value, 0x1_0000, 0x100);
    MulBelow(NumberAt(disk, 0x0E, 2).value, bps, 0x1_0000, 0x1_0000);
    MulBelow(bps, NumberAt(disk, 0x16, 2).value, 0x1_0000, 0x1_0000);
    MulBelow(g.bytesPerFat, g.fatCount, 0x1_0000_0000, 0x100);
    MulBelow(bps, NumberAt(disk, 0x20, 4).value, 0x1_0000, 0x1_0000_0000);
  }

  /** The boot sector of a 1.44 MB floppy: 512-byte sectors, 1 reserved, 2 FATs of 9 sectors, 224 root entries. */
  function FloppyBootSector(): seq<byte>
  {
    [0xEB, 0x3C, 0x90,                                // jump
     0x4D, 0x53, 0x44, 0x4F, 0x53, 0x35, 0x2E, 0x30,  // "MSDOS5.0"
     0x00, 0x02,                                      // 0x0B bytes per sector = 512
     0x01,                                            // 0x0D sectors per cluster
     0x01, 0x00,                                      // 0x0E reserved sectors
     0x02,                                            // 0x10 FAT count
     0xE0, 0x00,                                      // 0x11 root entries = 224
     0x40, 0x0B,                                      // 0x13 total sectors (16-bit) = 2880
     0xF0,                                            // 0x15 media descriptor
     0x09, 0x00,                                      // 0x16 sectors per FAT
     0x12, 0x00, 0x02, 0x00, 0x00, 0x00, 0x00, 0x00,  // 0x18 geometry and hidden sectors
     0x00, 0x00, 0x00, 0x00]                          // 0x20 total sectors (32-bit) = 0
  }

  /** The one-byte field at `pos` is that byte. */
  lemma ByteField(disk: seq<byte>, pos: nat)
    requires pos < |disk|
    ensures NumberAt(disk, pos, 1) == Some(disk[pos] as nat)
  {
    assert disk[pos..pos + 1] == [disk[pos]];
  }

  /** The geometry in terms of the boot-sector bytes themselves. */
  lemma GeometryFromBytes(disk: seq<byte>)
    requires |disk| >= BootSectorSpan
    ensures DeriveGeometry(disk) == Some(Layout(disk[0x03..0x0B],
      disk[0x0B] as nat + 256 * disk[0x0C] as nat, disk[0x0D] as nat,
      disk[0x0E] as nat + 256 * disk[0x0F] as nat, disk[0x10] as nat,
      disk[0x11] as nat + 256 * disk[0x12] as nat, disk[0x16] as nat + 256 * disk[0x17] as nat,
      LittleEndian(disk[0x20..0x24])))
  {
    WordReadersAgree(disk, 0x0B);
    WordReadersAgree(disk, 0x0E);
    WordReadersAgree(disk, 0x11);
    WordReadersAgree(disk, 0x16);
    ByteField(disk, 0x0D);
    ByteField(disk, 0x10);
  }

  /** The worked example: the FAT area starts at 512, the root directory at 9728, the data area at 16896. */
  lemma FloppyGeometry()
    ensures var g := DeriveGeometry(FloppyBootSector()).value;
      && g.bytesPerSector == 512 && g.bytesPerCluster == 512
      && g.fatStart == 512 && g.bytesPerFat == 4608
      && g.rootDirStart == 9728 && g.dataStart == 16896
      && g.diskSize == 0
  {
    var d := FloppyBootSector();
    GeometryFromBytes(d);
    FloppyFields(d);
    FloppyLayout(d[0x03..0x0B]);
  }

  lemma FloppyFields(d: seq<byte>)
    requires d == FloppyBootSector()
    ensures d[0x0B] as nat + 256 * d[0x0C] as nat == 512 && d[0x0D] == 1
    ensures d[0x0E] as nat + 256 * d[0x0F] as nat == 1 && d[0x10] == 2
    ensures d[0x11] as nat + 256 * d[0x12] as nat == 224
    ensures d[0x16] as nat + 256 * d[0x17] as nat == 9
    ensures LittleEndian(d[0x20..0x24]) == 0
  {
    var zeros := d[0x20..0x24];
    assert zeros == [0, 0, 0, 0];
    LittleEndianOfZeros(zeros);
  }

  /** A field of zero bytes reads as 0. */
  lemma {:induction false} LittleEndianOfZeros(s: seq<byte>)
    requires forall i :: 0 <= i < |s| ==> s[i] == 0
    ensures LittleEndian(s) == 0
  {
    if s != [] {
      LittleEndianOfZeros(s[1..]);
    }
  }

  lemma FloppyLayout(oem: seq<byte>)
    ensures var g := Layout(oem, 512, 1, 1, 2, 224, 9, 0);
      && g.bytesPerSector == 512 && g.bytesPerCluster == 512
      && g.fatStart == 512 && g.bytesPerFat == 4608
      && g.rootDirStart == 9728 && g.dataStart == 16896
      && g.diskSize == 0
  {
  }

  /** The fields main.c prints (lines 72-102), read with read_byte and read_word_little_endian. */
  datatype BpbFields = BpbFields(
    oemName: seq<byte>,       // the bytes actually read of the 8 at 0x03
    bytesPerSector: nat,      // 0x0B, 2 bytes
    sectorsPerCluster: byte,  // 0x0D, 1 byte
    reservedSectors: nat,     // 0x0E, 2 bytes
    fatCount: byte,           // 0x10, 1 byte
    rootEntries: nat,         // 0x11, 2 bytes
    totalSectors16: nat,      // 0x13, 2 bytes
    media: byte               // 0x15, 1 byte
  )

  /** main.c's boot-sector dump: each failed read contributes 0 (or no OEM bytes). */
  function ReadBpb(disk: seq<byte>): (b: BpbFields)
    ensures |b.oemName| <= 8
    ensures b.bytesPerSector < 0x1_0000 && b.reservedSectors < 0x1_0000
    ensures b.rootEntries < 0x1_0000 && b.totalSectors16 < 0x1_0000
  {
    var oemLength := Available(disk, 0x03, 8);
    BpbFields(if oemLength == 0 then [] else disk[0x03..0x03 + oemLength],
              ReadWordLittleEndian(disk, 0x0B), ReadByte(disk, 0x0D),
              ReadWordLittleEndian(disk, 0x0E), ReadByte(disk, 0x10),
              ReadWordLittleEndian(disk, 0x11), ReadWordLittleEndian(disk, 0x13),
              ReadByte(disk, 0x15))
  }

  /** On a complete boot sector main.c and main.cpp read the same fields at the same offsets. */
  lemma BpbAgreesWithGeometry(disk: seq<byte>)
    requires |disk| >= BootSectorSpan
    ensures var b, g := ReadBpb(disk), DeriveGeometry(disk).value;
      && b.oemName == g.oemName
      && b.bytesPerSector == g.bytesPerSector
      && b.bytesPerSector * b.sectorsPerCluster as nat == g.bytesPerCluster
      && b.reservedSectors == g.reservedSectors
      && b.fatCount as nat == g.fatCount
      && b.rootEntries == g.rootEntries
  {
  }

  /** On a short image every numeric field of main.c's dump reads as 0. */
  lemma EmptyImageReadsZero()
    ensures ReadBpb([]) == BpbFields([], 0, 0, 0, 0, 0, 0, 0)
  {
  }
}
