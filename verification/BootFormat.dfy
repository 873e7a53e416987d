/** The boot sector as the Microsoft EFI FAT32 File System Specification lays it out (version 1.03,
    "Boot Sector and BPB", "FAT Type Determination", "FAT Data Structure"): what format writes there
    and what mount computes from it. */
module BootFormat {
  import opened Words
  import opened Sectors
  import opened FatTable
  import opened Volume
  import opened Runs
  import opened Layout

  /** The BPB fields of a FAT16 volume. */
  datatype Bpb = Bpb(
    bytesPerSector: U16, sectorsPerCluster: Byte, reserved: U16, numFats: Byte, rootEntries: U16, totalSectors16: U16,
    media: Byte, fatSize: U16, sectorsPerTrack: U16, heads: U16, hiddenSectors: U32, totalSectors32: U32)

  function EncodeBpb(b: Bpb): (s: seq<Byte>)
    ensures |s| == 25
  {
    Bytes16(b.bytesPerSector) + [b.sectorsPerCluster] + Bytes16(b.reserved) + [b.numFats] + Bytes16(b.rootEntries)
    + Bytes16(b.totalSectors16) + [b.media] + Bytes16(b.fatSize) + Bytes16(b.sectorsPerTrack) + Bytes16(b.heads)
    + Bytes32(b.hiddenSectors) + Bytes32(b.totalSectors32)
  }

  /** The BPB stands at byte 11. */
  predicate Carries(s: Sector, b: Bpb) {
    s[11..36] == EncodeBpb(b)
  }

  lemma ByteOfBpb(s: Sector, b: Bpb, i: nat)
    requires Carries(s, b) && i < 25
    ensures s[11 + i] == EncodeBpb(b)[i]
  {
    assert s[11..36][i] == s[11 + i];
  }

  lemma PairOfBpb(s: Sector, b: Bpb, i: nat)
    requires Carries(s, b) && i < 24
    ensures s[11 + i..13 + i] == EncodeBpb(b)[i..i + 2]
  {
    ByteOfBpb(s, b, i);
    ByteOfBpb(s, b, i + 1);
  }

  /** The fields that mount decodes are read back. */
  lemma FieldsBack(s: Sector, b: Bpb)
    requires Carries(s, b)
    ensures Le16(s, 11) == b.bytesPerSector && s[13] == b.sectorsPerCluster && Le16(s, 14) == b.reserved
    ensures s[16] == b.numFats && Le16(s, 17) == b.rootEntries && Le16(s, 22) == b.fatSize
  {
    var w := EncodeBpb(b);
    PairOfBpb(s, b, 0);
    PairOfBpb(s, b, 3);
    PairOfBpb(s, b, 6);
    PairOfBpb(s, b, 11);
    ByteOfBpb(s, b, 2);
    ByteOfBpb(s, b, 5);
    assert w[0..2] == Bytes16(b.bytesPerSector) && w[3..5] == Bytes16(b.reserved);
    assert w[6..8] == Bytes16(b.rootEntries) && w[11..13] == Bytes16(b.fatSize);
    Le16Back(s, 11, b.bytesPerSector);
    Le16Back(s, 14, b.reserved);
    Le16Back(s, 17, b.rootEntries);
    Le16Back(s, 22, b.fatSize);
  }

  /** `n` sectors are the least that hold the root directory. */
  predicate RootSectors(b: Bpb, n: nat) {
    32 * b.rootEntries <= b.bytesPerSector * n && (n > 0 ==> b.bytesPerSector * (n - 1) < 32 * b.rootEntries)
  }

  lemma CeilIsLeast(x: nat, d: nat, n: nat)
    requires d > 0 && n == (x + d - 1) / d
    ensures x <= d * n && (n > 0 ==> d * (n - 1) < x) && n <= x
  {
    var y := x + d - 1;
    DivMod(y, d);
    assert d * (n - 1) == d * n - d;
    if n > 0 {
      AtLeast(d, n - 1);
    }
  }

  lemma DivMod(y: nat, d: nat)
    requires d > 0
    ensures d * (y / d) <= y < d * (y / d) + d
  {
    assert y == d * (y / d) + y % d;
  }

  lemma AtLeast(d: nat, k: nat)
    requires d > 0
    ensures k <= d * k
  {
    assert d * k == (d - 1) * k + k;
  }

  /** The sums of mount, when none of them wraps. */
  lemma Starts(p: nat, reserved: nat, tables: nat, n: nat)
    requires p + reserved + tables + n < 0x1_0000_0000
    ensures var fatStart := Wrap32(p + reserved);
            var rootStart := Wrap32(fatStart + tables);
            && fatStart == p + reserved && rootStart == p + reserved + tables
            && Wrap32(rootStart + n) == rootStart + n
  {
  }

  /** All copies of the table together. */
  function TableSectors(b: Bpb): nat {
    b.numFats as int * b.fatSize as int
  }

  /** The root directory's sectors, rounded up. */
  function RootCount(b: Bpb): (n: nat)
    requires b.bytesPerSector > 0
    ensures RootSectors(b, n) && n <= 32 * b.rootEntries
    ensures Wrap32(Wrap32(b.rootEntries * 32 + b.bytesPerSector - 1) / b.bytesPerSector) == n
  {
    var n := (32 * b.rootEntries + b.bytesPerSector - 1) / b.bytesPerSector;
    CeilIsLeast(32 * b.rootEntries, b.bytesPerSector, n);
    RootSectorsOf(b.rootEntries, b.bytesPerSector, n);
    n
  }

  /** The geometry as the specification computes it: reserved sectors, then the tables, then the
      root directory, then data. */
  predicate Computed(p: U32, b: Bpb, g: Geometry)
    requires b.bytesPerSector > 0
  {
    && g.partitionLba == p && g.bytesPerSector == b.bytesPerSector && g.sectorsPerCluster == b.sectorsPerCluster
    && g.numFats == b.numFats && g.fatSizeSectors == b.fatSize && g.rootEntries == b.rootEntries
    && g.reservedSectors == b.reserved
    && g.fatStart == p + b.reserved
    && g.rootStart == p + b.reserved + TableSectors(b)
    && RootSectors(b, g.rootDirSectors)
    && g.dataStart == g.rootStart + g.rootDirSectors
  }

  /** Mount computes it so for every BPB whose regions stay below sector 2^32. */
  lemma MountComputes(p: U32, s: Sector, b: Bpb)
    requires Carries(s, b) && b.bytesPerSector > 0
    requires p + b.reserved + TableSectors(b) + 0x20_0000 < 0x1_0000_0000
    ensures Le16(s, 11) != 0 && Computed(p, b, Decode(p, s))
  {
    FieldsBack(s, b);
    var n := RootCount(b);
    Starts(p, b.reserved, TableSectors(b), n);
    DecodeSums(p, s, b.reserved, TableSectors(b), n);
    DecodeCopies(p, s, b);
  }

  /** The fields that mount copies. */
  lemma DecodeCopies(p: U32, s: Sector, b: Bpb)
    requires Carries(s, b) && b.bytesPerSector > 0
    ensures Le16(s, 11) != 0
    ensures var g := Decode(p, s);
            && g.partitionLba == p && g.bytesPerSector == b.bytesPerSector && g.sectorsPerCluster == b.sectorsPerCluster
            && g.numFats == b.numFats && g.fatSizeSectors == b.fatSize && g.rootEntries == b.rootEntries
            && g.reservedSectors == b.reserved
  {
    FieldsBack(s, b);
  }

  /** The sums in which mount computes the starts. */
  lemma DecodeSums(p: U32, s: Sector, reserved: U16, tables: nat, n: nat)
    requires Le16(s, 11) != 0 && Le16(s, 14) == reserved && s[16] as int * Le16(s, 22) as int == tables
    requires Wrap32(Wrap32(Le16(s, 17) * 32 + Le16(s, 11) - 1) / Le16(s, 11)) == n
    ensures var g := Decode(p, s);
            && g.fatStart == Wrap32(p + reserved) && g.rootStart == Wrap32(g.fatStart + tables)
            && g.rootDirSectors == n && g.dataStart == Wrap32(g.rootStart + n)
  {
  }

  lemma RootSectorsOf(rootEntries: U16, bytesPerSector: U16, n: nat)
    requires bytesPerSector > 0 && n == (rootEntries * 32 + bytesPerSector - 1) / bytesPerSector && n <= rootEntries * 32
    ensures Wrap32(Wrap32(rootEntries * 32 + bytesPerSector - 1) / bytesPerSector) == n
  {
  }

  // ---------------------------------------------------------------- what format writes

  function FormatBpb(p: U32, sectorCount: U32): Bpb {
    Bpb(512, 64, 1, 2, 512, 0, 0xF8, 256, 63, 255, p, sectorCount)
  }

  lemma BytesAre(p: U32, sectorCount: U32, i: nat)
    requires i < 512
    ensures BootSector(p, sectorCount)[i] == BootByte(p, sectorCount, i)
  {
  }

  /** Format writes this BPB, with the partition's start as hidden sectors and its length as total
      sectors. */
  lemma FormatCarries(p: U32, sectorCount: U32)
    ensures Carries(BootSector(p, sectorCount), FormatBpb(p, sectorCount))
  {
    var s, w := BootSector(p, sectorCount), EncodeBpb(FormatBpb(p, sectorCount));
    forall i | 0 <= i < 25 ensures s[11..36][i] == w[i] {
      BytesAre(p, sectorCount, 11 + i);
    }
  }

  /** The rest of the sector: jump, name of the formatter, extended boot record, signature. */
  lemma FormatRest(p: U32, sectorCount: U32)
    ensures var s := BootSector(p, sectorCount);
            && s[0] == 0xEB && s[1] == 0x3C && s[2] == 0x90
            && s[3..11] == [0x41, 0x4C, 0x44, 0x45, 0x52, 0x4B, 0x52, 0x4E]
            && s[36] == 0x80 && s[37] == 0 && s[38] == 0x29 && Le32(s, 39) == 0x1234_5678
            && s[43..54] == [0x41, 0x4C, 0x44, 0x45, 0x52, 0x4B, 0x52, 0x4E, 0x4C, 0x20, 0x20]
            && (forall i :: 62 <= i < 510 ==> s[i] == 0)
            && s[54..62] == [0x46, 0x41, 0x54, 0x31, 0x36, 0x20, 0x20, 0x20]
            && s[510] == 0x55 && s[511] == 0xAA
  {
    var s := BootSector(p, sectorCount);
    assert s[3] == 0x41 && s[4] == 0x4C && s[5] == 0x44 && s[6] == 0x45 && s[7] == 0x52 && s[8] == 0x4B && s[9] == 0x52 && s[10] == 0x4E;
    assert s[54] == 0x46 && s[55] == 0x41 && s[56] == 0x54 && s[57] == 0x31 && s[58] == 0x36;
    assert s[59] == 0x20 && s[60] == 0x20 && s[61] == 0x20;
    assert s[43] == 0x41 && s[44] == 0x4C && s[45] == 0x44 && s[46] == 0x45 && s[47] == 0x52 && s[48] == 0x4B;
    assert s[49] == 0x52 && s[50] == 0x4E && s[51] == 0x4C && s[52] == 0x20 && s[53] == 0x20;
    assert s[39] == 0x78 && s[40] == 0x56 && s[41] == 0x34 && s[42] == 0x12;
  }

  // ---------------------------------------------------------------- the type of the volume

  /** The count of clusters, as the specification determines it from the BPB. */
  function CountOfClusters(b: Bpb): int
    requires b.bytesPerSector > 0 && b.sectorsPerCluster > 0
  {
    var total := if b.totalSectors16 != 0 then b.totalSectors16 as int else b.totalSectors32 as int;
    var root := (32 * b.rootEntries + b.bytesPerSector - 1) / b.bytesPerSector;
    (total - (b.reserved + b.numFats * b.fatSize + root)) / b.sectorsPerCluster
  }

  /** Format accepts a partition if and only if the volume it writes there is FAT16 by the
      specification: at least 4085 and fewer than 65525 clusters. */
  lemma AcceptsExactlyFat16(p: U32, sectorCount: U32)
    ensures Accepted(sectorCount) <==> 4085 <= CountOfClusters(FormatBpb(p, sectorCount)) < 65525
  {
    assert CountOfClusters(FormatBpb(p, sectorCount)) == (sectorCount - 545) / 64;
  }

  /** The two reserved entries are as the specification wants them: the first carries the media
      byte of the BPB with all other bits set, the second is an end mark. */
  lemma ReservedEntries(data: seq<Sector>, p: U32, sectorCount: U32)
    ensures Formatted(data).fat[0] == 0xFF00 + FormatBpb(p, sectorCount).media
    ensures Formatted(data).fat[1] == 0xFFFF && END_OF_CHAIN == 0xFFFF && END_MARKS == 0xFFF8
  {
  }
}
