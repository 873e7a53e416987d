/** Where a formatted volume lies on the disk, and how the regions show through the sectors. */
module Layout {
  import opened Words
  import opened Sectors
  import opened FatTable
  import opened Directory
  import opened Volume
  import opened Storage
  import opened Catalog
  import opened Runs

  /** Sectors before the first cluster: boot sector, two tables, root directory. */
  const NON_DATA_SECTORS := 545
  /** LBA28: the drive cannot have more sectors than this. */
  const MAX_SECTORS := 0x1000_0000

  /** The fields of `fat16_volume_t`. */
  datatype Geometry = Geometry(
    partitionLba: U32, bytesPerSector: U32, sectorsPerCluster: U32, reservedSectors: U32, numFats: U32,
    rootEntries: U32, fatSizeSectors: U32, rootDirSectors: U32, fatStart: U32, rootStart: U32, dataStart: U32)

  // ---------------------------------------------------------------- the boot sector

  function ClusterCount(sectorCount: nat): nat
    requires NON_DATA_SECTORS <= sectorCount
  {
    (sectorCount - NON_DATA_SECTORS) / CLUSTER_SECTORS
  }

  /** The sector counts that `fat16_format` accepts. */
  predicate Accepted(sectorCount: U32) {
    sectorCount > NON_DATA_SECTORS && 4085 <= ClusterCount(sectorCount) <= 65524
  }

  function Text(i: nat, s: string): Byte
    requires forall k :: 0 <= k < |s| ==> s[k] < 128 as char
  {
    if i < |s| then s[i] as int else 0
  }

  function BootByte(p: U32, sectorCount: U32, i: nat): Byte {
    if i < 3 then [0xEB, 0x3C, 0x90][i]
    else if i < 11 then Text(i - 3, "ALDERKRN")
    else if i < 13 then Bytes16(512)[i - 11]
    else if i == 13 then 64
    else if i < 16 then Bytes16(1)[i - 14]
    else if i == 16 then 2
    else if i < 19 then Bytes16(512)[i - 17]
    else if i < 21 then 0
    else if i == 21 then 0xF8
    else if i < 24 then Bytes16(256)[i - 22]
    else if i < 26 then Bytes16(63)[i - 24]
    else if i < 28 then Bytes16(255)[i - 26]
    else if i < 32 then Bytes32(p)[i - 28]
    else if i < 36 then Bytes32(sectorCount)[i - 32]
    else if i < 39 then [0x80, 0, 0x29][i - 36]
    else if i < 43 then [0x78, 0x56, 0x34, 0x12][i - 39]
    else if i < 54 then Text(i - 43, "ALDERKRNL  ")
    else if i < 62 then Text(i - 54, "FAT16   ")
    else if i == 510 then 0x55
    else if i == 511 then 0xAA
    else 0
  }

  function BootSector(p: U32, sectorCount: U32): Sector {
    seq(512, i requires 0 <= i < 512 => BootByte(p, sectorCount, i))
  }

  /** What `fat16_mount` computes from a boot sector, in 32-bit arithmetic. */
  function Decode(p: U32, s: Sector): Geometry
    requires Le16(s, 11) != 0
  {
    var bytesPerSector, rootEntries := Le16(s, 11), Le16(s, 17);
    var rootDirSectors := Wrap32(Wrap32(rootEntries * 32 + bytesPerSector - 1) / bytesPerSector);
    var fatStart := Wrap32(p + Le16(s, 14));
    var rootStart := Wrap32(fatStart + s[16] as int * Le16(s, 22));
    Geometry(p, bytesPerSector, s[13], Le16(s, 14), s[16], rootEntries, Le16(s, 22), rootDirSectors,
             fatStart, rootStart, Wrap32(rootStart + rootDirSectors))
  }

  /** The fields set before the boot sector is judged. */
  function Overwritten(g: Geometry, p: U32, s: Sector): Geometry {
    g.(partitionLba := p, bytesPerSector := Le16(s, 11), sectorsPerCluster := s[13],
       reservedSectors := Le16(s, 14), numFats := s[16],
       rootEntries := Le16(s, 17), fatSizeSectors := Le16(s, 22))
  }

  function Standard(p: nat): Geometry
    requires p + NON_DATA_SECTORS < MAX_SECTORS + 1
  {
    Geometry(p, 512, 64, 1, 2, 512, 256, 32, p + 1, p + 513, p + NON_DATA_SECTORS)
  }

  /** Mounting what was formatted recovers the geometry, for every accepted size. */
  lemma MountRecoversFormat(p: U32, sectorCount: U32)
    requires p + NON_DATA_SECTORS <= MAX_SECTORS
    ensures var s := BootSector(p, sectorCount);
            && s[510] == 0x55 && s[511] == 0xAA && Le16(s, 11) == 512 && s[13] != 0
            && Decode(p, s) == Standard(p)
  {
    BootFields(p, sectorCount);
  }

  lemma BootFields(p: U32, sectorCount: U32)
    ensures var s := BootSector(p, sectorCount);
            && Le16(s, 11) == 512 && s[13] == 64 && Le16(s, 14) == 1 && s[16] == 2
            && Le16(s, 17) == 512 && Le16(s, 22) == 256 && s[510] == 0x55 && s[511] == 0xAA
  {
    var s := BootSector(p, sectorCount);
    assert s[11] == BootByte(p, sectorCount, 11) == 0 && s[12] == BootByte(p, sectorCount, 12) == 2;
    assert s[14] == BootByte(p, sectorCount, 14) == 1 && s[15] == BootByte(p, sectorCount, 15) == 0;
    assert s[17] == BootByte(p, sectorCount, 17) == 0 && s[18] == BootByte(p, sectorCount, 18) == 2;
    assert s[22] == BootByte(p, sectorCount, 22) == 0 && s[23] == BootByte(p, sectorCount, 23) == 1;
  }

  function ClusterStart(p: nat, c: nat): nat
    requires 2 <= c
  {
    p + NON_DATA_SECTORS + CLUSTER_SECTORS * (c - 2)
  }

  /** Every cluster of an accepted partition lies after the tables and the root directory and
      inside the partition, no two overlap, each has a table entry, and no cluster number is
      an end mark. */
  lemma ClustersInPartition(p: nat, sectorCount: U32, c: nat, d: nat)
    requires Accepted(sectorCount)
    requires 2 <= c < d < ClusterCount(sectorCount) + 2
    ensures p + 1 + 2 * FAT_SECTORS + ROOT_SECTORS == p + NON_DATA_SECTORS <= ClusterStart(p, c)
    ensures ClusterStart(p, c) + CLUSTER_SECTORS <= ClusterStart(p, d)
    ensures ClusterStart(p, d) + CLUSTER_SECTORS <= p + sectorCount
    ensures d < END_MARKS && d < FAT_ENTRIES
  {
  }

  // ---------------------------------------------------------------- the regions

  function View(disk: seq<Sector>, p: nat): (v: Vol)
    requires p + NON_DATA_SECTORS <= |disk|
    ensures Shaped(v)
  {
    Vol(Entries(disk[p + 1..p + 257]), disk[p + 513..p + NON_DATA_SECTORS], disk[p + NON_DATA_SECTORS..])
  }

  /** Where an entry of the view lies on the disk. */
  lemma EntryInView(disk: seq<Sector>, p: nat, c: U16)
    requires p + NON_DATA_SECTORS <= |disk|
    ensures View(disk, p).fat[c] == Le16(disk[p + 1 + c / 256], 2 * (c % 256))
  {
    assert disk[p + 1..p + 257][c / 256] == disk[p + 1 + c / 256];
  }

  lemma Doubled(h: nat)
    ensures 2 * h / 512 == h / 256 && 2 * h % 512 == 2 * (h % 256)
  {
    assert 2 * h == 512 * (h / 256) + 2 * (h % 256);
  }

  /** An entry never straddles two sectors. */
  lemma EntryOffset(c: U32)
    ensures Wrap32(c * 2) % 512 + 2 <= 512
    ensures c < FAT_ENTRIES ==>
              Wrap32(c * 2) / 512 == c / 256 < FAT_SECTORS && Wrap32(c * 2) % 512 == 2 * (c % 256)
  {
    var h := if c < 0x8000_0000 then c else c - 0x8000_0000;
    assert Wrap32(c * 2) == 2 * h;
    Doubled(h);
  }

  predicate Mirrored(disk: seq<Sector>, p: nat)
    requires p + NON_DATA_SECTORS <= |disk|
  {
    disk[p + 1..p + 257] == disk[p + 257..p + 513]
  }

  /** Nothing before the tables changed. */
  predicate SameHead(before: seq<Sector>, after: seq<Sector>, p: nat)
    requires p + NON_DATA_SECTORS <= |before|
  {
    |after| == |before| && forall j :: 0 <= j <= p ==> after[j] == before[j]
  }

  /** One read-modify-write of a packed entry. */
  function Patch(disk: seq<Sector>, lba: nat, at: nat, v: U16): seq<Sector>
    requires lba < |disk| && at + 2 <= 512
  {
    disk[lba := PatchSector(disk[lba], at, v)]
  }

  /** The state of the disk after `copies` of the two tables have been written. */
  function PatchCopies(disk: seq<Sector>, p: nat, c: U16, v: U16, copies: nat): (r: seq<Sector>)
    requires p + NON_DATA_SECTORS <= |disk| && copies <= 2
    ensures |r| == |disk|
  {
    var i, at := c / 256, 2 * (c % 256);
    if copies == 0 then disk
    else if copies == 1 then Patch(disk, p + 1 + i, at, v)
    else Patch(Patch(disk, p + 1 + i, at, v), p + 257 + i, at, v)
  }

  /** Writing an entry into both copies keeps them equal, changes that entry of the view and
      no other, and no sector outside the tables. */
  lemma ViewAfterPatch(disk: seq<Sector>, p: nat, c: U16, v: U16)
    requires p + NON_DATA_SECTORS <= |disk| && Mirrored(disk, p)
    ensures var after := PatchCopies(disk, p, c, v, 2);
            && Mirrored(after, p) && SameHead(disk, after, p)
            && View(after, p) == View(disk, p).(fat := View(disk, p).fat[c := v])
  {
    var after := PatchCopies(disk, p, c, v, 2);
    var i := c / 256;
    var table := disk[p + 1..p + 257];
    assert after[p + 1..p + 257] == SetEntry(table, c, v);
    assert table[i] == disk[p + 257..p + 513][i];
    assert after[p + 257..p + 513] == SetEntry(table, c, v);
    EntriesAfterSet(table, c, v);
    assert after[p + 513..p + NON_DATA_SECTORS] == disk[p + 513..p + NON_DATA_SECTORS];
    assert after[p + NON_DATA_SECTORS..] == disk[p + NON_DATA_SECTORS..];
  }

  /** Sectors `base .. base + |image|` replaced, as far as the disk goes. */
  function Overwrite(disk: seq<Sector>, base: nat, image: seq<Sector>): (r: seq<Sector>)
    ensures |r| == |disk|
  {
    seq(|disk|, j requires 0 <= j < |disk| => if base <= j < base + |image| then image[j - base] else disk[j])
  }

  lemma OverwriteNone(disk: seq<Sector>, base: nat, image: seq<Sector>)
    ensures Overwrite(disk, base, image[..0]) == disk == Overwrite(disk, base, [])
  {
  }

  /** One more sector, or one that lies past the end of the disk. */
  lemma OverwriteNext(disk: seq<Sector>, base: nat, image: seq<Sector>, s: nat)
    requires s < |image|
    ensures base + s < |disk| ==>
              Overwrite(disk, base, image[..s])[base + s := image[s]] == Overwrite(disk, base, image[..s + 1])
  {
  }

  /** What lies past the end of the disk does not matter. */
  lemma OverwriteOff(disk: seq<Sector>, base: nat, a: seq<Sector>, b: seq<Sector>)
    requires a <= b && |disk| <= base + |a|
    ensures Overwrite(disk, base, a) == Overwrite(disk, base, b)
  {
  }

  lemma OverwriteAll(disk: seq<Sector>, base: nat, image: seq<Sector>, s: nat)
    requires s <= |image| && (s == |image| || |disk| <= base + s)
    ensures Overwrite(disk, base, image[..s]) == Overwrite(disk, base, image)
  {
    if s == |image| {
      assert image[..s] == image;
    } else {
      OverwriteOff(disk, base, image[..s], image);
    }
  }

  /** Writing a cluster shows as a blit and nothing else. */
  lemma ViewAfterCluster(disk: seq<Sector>, p: nat, c: nat, image: seq<Sector>)
    requires p + NON_DATA_SECTORS <= |disk| && 2 <= c && |image| == CLUSTER_SECTORS
    ensures var after := Overwrite(disk, ClusterStart(p, c), image);
            && (Mirrored(disk, p) ==> Mirrored(after, p)) && SameHead(disk, after, p)
            && View(after, p) == View(disk, p).(data := Blit(View(disk, p).data, c, image))
  {
    var after := Overwrite(disk, ClusterStart(p, c), image);
    assert after[..p + NON_DATA_SECTORS] == disk[..p + NON_DATA_SECTORS];
    SamePrefix(disk, after, p);
    assert after[p + NON_DATA_SECTORS..] == Blit(View(disk, p).data, c, image);
  }

  lemma SamePrefix(disk: seq<Sector>, after: seq<Sector>, p: nat)
    requires p + NON_DATA_SECTORS <= |disk| == |after|
    requires after[..p + NON_DATA_SECTORS] == disk[..p + NON_DATA_SECTORS]
    ensures SameHead(disk, after, p) && after[p + 1..p + 257] == disk[p + 1..p + 257]
    ensures after[p + 257..p + 513] == disk[p + 257..p + 513]
    ensures after[p + 513..p + NON_DATA_SECTORS] == disk[p + 513..p + NON_DATA_SECTORS]
  {
    assert forall i :: 0 <= i < p + NON_DATA_SECTORS ==> after[..p + NON_DATA_SECTORS][i] == after[i];
  }

  /** Byte `i` of the sectors from `base` on. */
  function DiskByte(disk: seq<Sector>, base: nat, i: nat): Byte {
    if base + i / 512 < |disk| then disk[base + i / 512][i % 512] else 0
  }

  // ---------------------------------------------------------------- formatting

  /** The first sector of a fresh table: the two reserved entries. */
  const FAT_HEAD: Sector := [0xF8, 0xFF, 0xFF, 0xFF] + seq(508, _ => 0)

  function FreshTable(): (r: seq<Sector>)
    ensures |r| == 256
  {
    [FAT_HEAD] + seq(255, _ => BLANK)
  }

  function FreshTables(copies: nat): (r: seq<Sector>)
    ensures |r| == 256 * copies
  {
    if copies == 0 then [] else FreshTables(copies - 1) + FreshTable()
  }

  lemma FreshTablesNext(copies: nat)
    requires copies < 2
    ensures FreshTables(copies) + FreshTable() == FreshTables(copies + 1) <= FreshTables(2)
  {
    Prefix(FreshTables(1), FreshTable());
  }

  lemma Prefix(a: seq<Sector>, b: seq<Sector>)
    ensures a <= a + b
  {
  }

  /** Everything `fat16_format` writes. */
  function FormatImage(p: U32, sectorCount: U32): (r: seq<Sector>)
    ensures |r| == NON_DATA_SECTORS
  {
    [BootSector(p, sectorCount)] + FreshTables(2) + seq(ROOT_SECTORS, _ => BLANK)
  }

  lemma OverwriteAppend(disk: seq<Sector>, at: nat, a: seq<Sector>, b: seq<Sector>)
    ensures Overwrite(Overwrite(disk, at, a), at + |a|, b) == Overwrite(disk, at, a + b)
  {
  }

  lemma FreshTableEntries()
    ensures Entries(FreshTable()) == [0xFFF8, 0xFFFF] + seq(FAT_ENTRIES - 2, _ => 0)
  {
    var t := FreshTable();
    forall c | 0 <= c < FAT_ENTRIES
      ensures Entry(t, c) == ([0xFFF8, 0xFFFF] + seq(FAT_ENTRIES - 2, _ => 0))[c]
    {
      if c >= 256 {
        assert t[c / 256] == BLANK;
      } else {
        assert t[c / 256] == FAT_HEAD;
      }
    }
  }

  /** Formatting leaves equal tables and the fresh volume of `Formatted`. */
  lemma ViewAfterFormat(disk: seq<Sector>, p: U32, sectorCount: U32)
    requires p + NON_DATA_SECTORS <= |disk|
    ensures var after := Overwrite(disk, p, FormatImage(p, sectorCount));
            && after[p] == BootSector(p, sectorCount) && Mirrored(after, p)
            && View(after, p) == Formatted(disk[p + NON_DATA_SECTORS..])
  {
    var image := FormatImage(p, sectorCount);
    var after := Overwrite(disk, p, image);
    FormatImageParts(p, sectorCount);
    OverwriteSlice(disk, p, image, 1, 257);
    OverwriteSlice(disk, p, image, 257, 513);
    OverwriteSlice(disk, p, image, 513, NON_DATA_SECTORS);
    assert after[p + NON_DATA_SECTORS..] == disk[p + NON_DATA_SECTORS..];
    FreshTableEntries();
  }

  lemma FormatImageParts(p: U32, sectorCount: U32)
    ensures var image := FormatImage(p, sectorCount);
            && image[0] == BootSector(p, sectorCount)
            && image[1..257] == FreshTable() && image[257..513] == FreshTable()
            && image[513..545] == seq(ROOT_SECTORS, _ => BLANK)
  {
  }

  lemma OverwriteSlice(disk: seq<Sector>, at: nat, image: seq<Sector>, lo: nat, hi: nat)
    requires lo <= hi <= |image| && at + |image| <= |disk|
    ensures Overwrite(disk, at, image)[at + lo..at + hi] == image[lo..hi]
  {
  }

  // ---------------------------------------------------------------- directories on the disk

  function PlaceStart(p: nat, place: Place): nat
    requires place.Sub? ==> 2 <= place.cluster
  {
    match place
    case Root => p + 513
    case Sub(c) => ClusterStart(p, c)
  }

  function PlaceLength(place: Place): nat {
    if place.Root? then ROOT_SECTORS else CLUSTER_SECTORS
  }

  /** The sectors a scan reaches before it runs off the disk. */
  function Region(disk: seq<Sector>, start: nat, count: nat): seq<Sector> {
    if start + count <= |disk| then disk[start..start + count]
    else if start <= |disk| then disk[start..]
    else []
  }

  lemma RegionAt(disk: seq<Sector>, start: nat, count: nat, s: nat)
    requires s < count
    ensures var r := Region(disk, start, count);
            && |r| <= count && (s < |r| <==> start + s < |disk|) && (s < |r| ==> r[s] == disk[start + s])
  {
  }

  lemma RegionOfPlace(disk: seq<Sector>, p: nat, place: Place)
    requires p + NON_DATA_SECTORS <= |disk| && Reachable(View(disk, p), place)
    ensures Region(disk, PlaceStart(p, place), PlaceLength(place)) == DirSectors(View(disk, p), place)
  {
  }

  /** One slot of a region overwritten on the disk. */
  function PutSlot(disk: seq<Sector>, start: nat, i: nat, e: Slot): (r: seq<Sector>)
    requires start + i / 16 < |disk|
    ensures |r| == |disk|
  {
    disk[start + i / 16 := Overlay(disk[start + i / 16], i % 16, e)]
  }

  /** A scan of `count` sectors from `start` put the entry in the first vacant slot it met, if it
      met one before the end of the disk. */
  ghost predicate EntryAdded(disk: seq<Sector>, start: nat, count: nat, e: Slot, index: nat, ok: bool, after: seq<Sector>) {
    var slots := Slots(Region(disk, start, count));
    && index == FirstVacant(slots) && (ok <==> index < |slots|)
    && after == if ok then PutSlot(disk, start, index, e) else disk
  }

  lemma PutSlotAt(disk: seq<Sector>, start: nat, s: nat, i: nat, e: Slot)
    requires start + s < |disk| && i < 16
    ensures (16 * s + i) / 16 == s
    ensures PutSlot(disk, start, 16 * s + i, e) == disk[start + s := Overlay(disk[start + s], i, e)]
  {
    assert (16 * s + i) % 16 == i;
  }

  lemma ViewAfterRootSlot(disk: seq<Sector>, p: nat, i: nat, e: Slot)
    requires p + NON_DATA_SECTORS <= |disk| && i < 16 * ROOT_SECTORS
    ensures var after := PutSlot(disk, p + 513, i, e);
            && (Mirrored(disk, p) ==> Mirrored(after, p)) && SameHead(disk, after, p)
            && View(after, p) == WithSlot(View(disk, p), Root, i, e)
  {
    var after := PutSlot(disk, p + 513, i, e);
    assert after[p + 1..p + 257] == disk[p + 1..p + 257];
    assert after[p + 257..p + 513] == disk[p + 257..p + 513];
    assert after[p + 513..p + NON_DATA_SECTORS] == SetSlot(disk[p + 513..p + NON_DATA_SECTORS], i, e);
    assert after[p + NON_DATA_SECTORS..] == disk[p + NON_DATA_SECTORS..];
  }

  lemma ClusterSlotIsOverwrite(disk: seq<Sector>, p: nat, c: nat, i: nat, e: Slot)
    requires p + NON_DATA_SECTORS <= |disk| && OnDisk(disk[p + NON_DATA_SECTORS..], c) && i < 16 * CLUSTER_SECTORS
    ensures var ss := disk[ClusterStart(p, c)..ClusterStart(p, c) + CLUSTER_SECTORS];
            PutSlot(disk, ClusterStart(p, c), i, e) == Overwrite(disk, ClusterStart(p, c), SetSlot(ss, i, e))
  {
  }

  /** Writing one slot on the disk shows as that slot of that directory and nothing else. */
  lemma ViewAfterSlot(disk: seq<Sector>, p: nat, place: Place, i: nat, e: Slot)
    requires p + NON_DATA_SECTORS <= |disk| && Reachable(View(disk, p), place)
    requires i < 16 * PlaceLength(place)
    ensures var after := PutSlot(disk, PlaceStart(p, place), i, e);
            && (Mirrored(disk, p) ==> Mirrored(after, p)) && SameHead(disk, after, p)
            && View(after, p) == WithSlot(View(disk, p), place, i, e)
  {
    match place
    case Root => ViewAfterRootSlot(disk, p, i, e);
    case Sub(c) =>
      RegionOfPlace(disk, p, place);
      ClusterSlotIsOverwrite(disk, p, c, i, e);
      ViewAfterCluster(disk, p, c, SetSlot(DirSectors(View(disk, p), place), i, e));
  }

  /** The first bytes of a cluster, read from the disk. */
  lemma ChunkOnDisk(disk: seq<Sector>, p: nat, c: U16, n: nat)
    requires p + NON_DATA_SECTORS <= |disk| && 2 <= c && n <= CLUSTER_BYTES
    ensures var data := View(disk, p).data;
            && (CLUSTER_SECTORS * (c - 2) + (n + 511) / 512 <= |data| <==> ClusterStart(p, c) + (n + 511) / 512 <= |disk|)
            && (CLUSTER_SECTORS * (c - 2) + (n + 511) / 512 <= |data| ==>
                  forall i :: 0 <= i < n ==> ReadChunk(data, c, n)[i] == DiskByte(disk, ClusterStart(p, c), i))
  {
  }
}
