/** The driver itself: loops over sectors and slots of the drive, each proved against the
    region-level operation it performs. */
module Fat16 {
  import opened Words
  import opened Sectors
  import opened FatTable
  import opened Directory
  import opened Volume
  import opened Storage
  import opened Catalog
  import opened Runs
  import opened Layout

  class FileDriver {
    const drive: Drive
    var vol: Geometry
    var mounted: bool

    constructor (drive: Drive)
      ensures this.drive == drive && !mounted
    {
      this.drive := drive;
      this.vol := Geometry(0, 0, 0, 0, 0, 0, 0, 0, 0, 0, 0);
      this.mounted := false;
    }

    /** A volume with the geometry of `fat16_format` is mounted and its tables agree. */
    ghost predicate Ready()
      reads this, drive
    {
      && mounted && |drive.sectors| <= MAX_SECTORS
      && vol.partitionLba + NON_DATA_SECTORS <= |drive.sectors|
      && vol == Standard(vol.partitionLba)
      && Mirrored(drive.sectors, vol.partitionLba)
    }

    ghost function Volume(): (v: Vol)
      requires Ready()
      reads this, drive
      ensures Shaped(v)
    {
      View(drive.sectors, vol.partitionLba)
    }

    // -------------------------------------------------------------- table

    function ClusterToLba(cluster: U32): U32
      reads this
    {
      Wrap32(vol.dataStart + (cluster - 2) * vol.sectorsPerCluster)
    }

    /** Sector and byte of a table entry. */
    method Locate(cluster: U32) returns (sectorIndex: nat, offset: nat)
      requires 0 < vol.bytesPerSector <= 512
      ensures sectorIndex == Wrap32(cluster * 2) / vol.bytesPerSector && offset + 2 <= 512
      ensures vol.bytesPerSector == 512 && cluster < FAT_ENTRIES ==>
                sectorIndex == cluster / 256 < FAT_SECTORS && offset == 2 * (cluster % 256)
    {
      var byteOffset := Wrap32(cluster * 2);
      EntryOffset(cluster);
      sectorIndex := byteOffset / vol.bytesPerSector;
      offset := byteOffset % vol.bytesPerSector;
    }

    /** A failed read is ignored by the source: the entry is then whatever the stack held. With
        sectors of more than 512 bytes the source may index past its sector buffer. */
    method FatReadEntry(cluster: U32) returns (v: U16)
      requires 0 < vol.bytesPerSector <= 512
      ensures Ready() && cluster < FAT_ENTRIES ==> v == Volume().fat[cluster]
    {
      var sectorIndex, offset := Locate(cluster);
      var stack: Sector := *;
      var ok, sector := drive.Read(Wrap32(vol.fatStart + sectorIndex), stack);
      v := Le16(sector, offset);
      if Ready() && cluster < FAT_ENTRIES {
        EntryInView(drive.sectors, vol.partitionLba, cluster);
      }
    }

    /** Read-modify-write of one entry in one copy. */
    method PatchEntry(lba: U32, offset: nat, value: U16)
      requires lba < |drive.sectors| && offset + 2 <= 512
      modifies drive
      ensures drive.sectors == Patch(old(drive.sectors), lba, offset, value)
    {
      var stack: Sector := *;
      var ok, sector := drive.Read(lba, stack);
      sector := sector[offset := value % 0x100];
      sector := sector[offset + 1 := value / 0x100 % 0x100];
      ok := drive.Write(lba, sector);
    }

    /** The loop of `fat_write_entry` over the copies of the table. */
    method PatchCopiesOf(cluster: U16, value: U16, p: nat)
      requires p + NON_DATA_SECTORS <= |drive.sectors| <= MAX_SECTORS
      requires vol.fatStart == p + 1 && vol.bytesPerSector == 512 && vol.numFats == 2 && vol.fatSizeSectors == 256
      modifies drive
      ensures drive.sectors == PatchCopies(old(drive.sectors), p, cluster, value, 2)
    {
      var sectorIndex, offset := Locate(cluster);
      var copy := 0;
      while copy < vol.numFats
        invariant 0 <= copy <= 2
        invariant drive.sectors == PatchCopies(old(drive.sectors), p, cluster, value, copy)
      {
        var base := Wrap32(vol.fatStart + copy * vol.fatSizeSectors);
        assert base == p + 1 + 256 * copy;
        PatchEntry(Wrap32(base + sectorIndex), offset, value);
        copy := copy + 1;
      }
    }

    method FatWriteEntry(cluster: U16, value: U16)
      requires Ready()
      modifies drive
      ensures Ready() && SameHead(old(drive.sectors), drive.sectors, vol.partitionLba)
      ensures Volume() == old(Volume()).(fat := old(Volume()).fat[cluster := value])
    {
      ghost var d := drive.sectors;
      PatchCopiesOf(cluster, value, vol.partitionLba);
      ViewAfterPatch(d, vol.partitionLba, cluster, value);
    }

    method FatAllocCluster() returns (c: U16)
      requires Ready()
      modifies drive
      ensures Ready() && SameHead(old(drive.sectors), drive.sectors, vol.partitionLba)
      ensures c == Alloc(old(Volume()).fat)
      ensures Volume() == if c == 0 then old(Volume())
                          else old(Volume()).(fat := old(Volume()).fat[c := END_OF_CHAIN])
    {
      var maxCluster := vol.fatSizeSectors * vol.bytesPerSector / 2;
      ghost var fat := Volume().fat;
      var k := 2;
      while k < maxCluster
        invariant 2 <= k <= maxCluster == FAT_ENTRIES
        invariant Alloc(fat) == AllocFrom(fat, k)
        invariant drive.sectors == old(drive.sectors)
      {
        var entry := FatReadEntry(k);
        if entry == 0 {
          FatWriteEntry(k, 0xFFFF);
          return k;
        }
        k := k + 1;
      }
      return 0;
    }

    // -------------------------------------------------------------- directories

    /** The slot loop of both entry writers, on one sector already read. */
    method PlaceInSector(sector: Sector, entry: Slot) returns (i: nat, patched: Sector)
      ensures i <= 16 && forall k :: 0 <= k < i ==> !Vacant(SlotAt([sector], k))
      ensures i < 16 ==> Vacant(SlotAt([sector], i)) && patched == Overlay(sector, i, entry)
    {
      i, patched := 0, sector;
      while i < 16
        invariant 0 <= i <= 16 && patched == sector
        invariant forall k :: 0 <= k < i ==> !Vacant(SlotAt([sector], k))
      {
        assert SlotAt([sector], i)[0] == sector[i * 32];
        if sector[i * 32] == 0 || sector[i * 32] == DELETED {
          var b := 0;
          while b < 32
            invariant 0 <= b <= 32
            invariant patched == sector[..i * 32] + entry[..b] + sector[i * 32 + b..]
          {
            patched := patched[i * 32 + b := entry[b]];
            b := b + 1;
          }
          return;
        }
        i := i + 1;
      }
    }

    /** `write_entry_in_root` and `write_entry_in_dir_cluster` run this scan over the root
        sectors and over the sectors of one cluster. */
    method WriteEntryAt(start: nat, count: nat, entry: Slot) returns (ok: bool, ghost index: nat)
      modifies drive
      ensures EntryAdded(old(drive.sectors), start, count, entry, index, ok, drive.sectors)
    {
      ghost var d := drive.sectors;
      ghost var ss := Region(d, start, count);
      index := FirstVacant(Slots(ss));
      var s := 0;
      while s < count
        invariant 0 <= s <= count && s <= |ss| && drive.sectors == d
        invariant 16 * s <= index
      {
        RegionAt(drive.sectors, start, count, s);
        var stack: Sector := *;
        var got, sector := drive.Read(start + s, stack);
        if !got {
          return false, index;
        }
        var i, patched := PlaceInSector(sector, entry);
        FirstVacantInSector(ss, s, i);
        if i < 16 {
          PutSlotAt(d, start, s, i, entry);
          ok := drive.Write(start + s, patched);
          return ok, index;
        }
        s := s + 1;
      }
      return false, index;
    }

    /** Where the sectors of a directory start and how many are scanned, on any geometry and
        for any cluster number a caller may pass. */
    function DirStart(place: Place): U32
      reads this
    {
      match place
      case Root => vol.rootStart
      case Sub(c) => ClusterToLba(c)
    }

    function DirLength(place: Place): U32
      reads this
    {
      if place.Root? then vol.rootDirSectors else vol.sectorsPerCluster
    }

    ghost function DirRegion(place: Place): seq<Sector>
      reads this, drive
    {
      Region(drive.sectors, DirStart(place), DirLength(place))
    }

    /** On a standard volume the scan covers exactly the directory. */
    lemma StandardRegion(place: Place)
      ensures Ready() && Reachable(Volume(), place) ==>
                && DirStart(place) == PlaceStart(vol.partitionLba, place) && DirLength(place) == PlaceLength(place)
                && DirRegion(place) == DirSectors(Volume(), place)
    {
      if Ready() && Reachable(Volume(), place) {
        RegionOfPlace(drive.sectors, vol.partitionLba, place);
      }
    }

    /** The scan for a vacant slot over the sectors of a directory. */
    method ScanForSlot(place: Place, entry: Slot) returns (ok: bool, ghost index: nat)
      modifies drive
      ensures EntryAdded(old(drive.sectors), DirStart(place), DirLength(place), entry, index, ok, drive.sectors)
    {
      match place {
        case Root => ok, index := WriteEntryAt(vol.rootStart, vol.rootDirSectors, entry);
        case Sub(c) => ok, index := WriteEntryAt(ClusterToLba(c), vol.sectorsPerCluster, entry);
      }
    }

    method WriteEntry(place: Place, entry: Slot) returns (ok: bool, ghost index: nat)
      requires Ready()
      modifies drive
      ensures EntryAdded(old(drive.sectors), DirStart(place), DirLength(place), entry, index, ok, drive.sectors)
      ensures old(Reachable(Volume(), place)) ==>
                && Ready() && SameHead(old(drive.sectors), drive.sectors, vol.partitionLba)
                && var slots := SlotsOf(old(Volume()), place);
                   && index == FirstVacant(slots) && (ok <==> index < |slots|)
                   && Volume() == if ok then WithSlot(old(Volume()), place, index, entry) else old(Volume())
    {
      ghost var d, p := drive.sectors, vol.partitionLba;
      StandardRegion(place);
      ok, index := ScanForSlot(place, entry);
      if ok && old(Reachable(Volume(), place)) {
        ViewAfterSlot(d, p, place, index, entry);
      }
    }

    // -------------------------------------------------------------- listing and finding

    /** Store one entry while there is room. */
    method StoreDirent(out: array<Dirent>, maxEntries: int, total: nat, e: Slot,
                       ghost was: seq<Dirent>, ghost now: seq<Dirent>)
      requires maxEntries <= out.Length == |was| && total == |now| && out[..] == Filled(was, now, maxEntries)
      modifies out
      ensures out[..] == Filled(was, now + [Parse(e)], maxEntries)
    {
      FilledStep(was, now, maxEntries, Parse(e));
      if total < maxEntries {
        out[total] := Parse(e);
      }
    }

    /** One slot that is in use: stored and counted unless it is hidden. */
    method ListSlot(out: array<Dirent>, maxEntries: int, before: nat, e: Slot,
                    ghost was: seq<Dirent>, ghost done: seq<Dirent>)
      returns (total: nat, ghost now: seq<Dirent>)
      requires maxEntries <= out.Length == |was| && before == |done| && out[..] == Filled(was, done, maxEntries)
      modifies out
      ensures now == (if Hidden(e) then done else done + [Parse(e)]) && total == |now|
      ensures out[..] == Filled(was, now, maxEntries)
    {
      total, now := before, done;
      if !(e[0] == DELETED || e[11] == ATTR_LONG_NAME) {
        StoreDirent(out, maxEntries, before, e, was, done);
        total := before + 1;
        now := done + [Parse(e)];
      }
    }

    /** The slot loop of `list_dir_sectors` on one sector; `done` was listed before it. */
    method ListSector(sector: Sector, out: array<Dirent>, maxEntries: int, before: nat,
                      ghost was: seq<Dirent>, ghost done: seq<Dirent>)
      returns (total: nat, ended: bool)
      requires maxEntries <= out.Length == |was| && before == |done| && out[..] == Filled(was, done, maxEntries)
      modifies out
      ensures var all := done + Listing(Slots([sector]));
              total == |all| && out[..] == Filled(was, all, maxEntries)
      ensures ended <==> Ended(Slots([sector]))
    {
      ghost var slots := Slots([sector]);
      ghost var all, now := done + Listing(slots), done;
      assert slots[0..] == slots;
      total := before;
      var i := 0;
      while i < 16
        invariant 0 <= i <= 16 && total == |now|
        invariant ListsOn(slots, i, now, all)
        invariant !Ended(slots[..i])
        invariant out[..] == Filled(was, now, maxEntries)
      {
        var e: Slot := sector[i * 32..i * 32 + 32];
        SlotOfSector(sector, i);
        ListsNext(slots, i, now, all);
        EndedNext(slots, i);
        if e[0] == 0 {
          return total, true;
        }
        total, now := ListSlot(out, maxEntries, total, e, was, now);
        i := i + 1;
      }
      ListsDone(slots, now, all);
      assert slots[..16] == slots;
      return total, false;
    }

    /** Reports every visible entry, stores the first `maxEntries` of them, and returns the
        exact total even when it is larger. */
    method ListDirSectors(start: nat, count: nat, out: array<Dirent>, maxEntries: int) returns (total: nat)
      requires maxEntries <= out.Length
      modifies out
      ensures var all := Listing(Slots(Region(drive.sectors, start, count)));
              total == |all| && out[..] == Filled(old(out[..]), all, maxEntries)
    {
      ghost var ss := Region(drive.sectors, start, count);
      ghost var was, now := out[..], [];
      ListingEnds(ss);
      assert out[..] == Filled(was, [], maxEntries);
      total := 0;
      var s := 0;
      while s < count
        invariant 0 <= s <= count && s <= |ss| && total == |now|
        invariant now + Listing(Slots(ss[s..])) == Listing(Slots(ss))
        invariant out[..] == Filled(was, now, maxEntries)
      {
        RegionAt(drive.sectors, start, count, s);
        var stack: Sector := *;
        var got, sector := drive.Read(start + s, stack);
        if !got {
          return;
        }
        ListingBySector(ss, s, now);
        var ended;
        total, ended := ListSector(sector, out, maxEntries, total, was, now);
        now := now + Listing(Slots([sector]));
        if ended {
          return;
        }
        s := s + 1;
      }
    }

    /** The slot loop of `find_in_sectors` on one sector. */
    method FindInSector(sector: Sector, name: CStr, ext: CStr) returns (found: Option<Dirent>, ended: bool)
      ensures found == Lookup(Slots([sector]), Query(name, ext))
      ensures found.None? ==> (ended <==> Ended(Slots([sector])))
    {
      ghost var slots := Slots([sector]);
      var i := 0;
      while i < 16
        invariant 0 <= i <= 16
        invariant Lookup(slots[i..], Query(name, ext)) == Lookup(slots, Query(name, ext))
        invariant forall k :: 0 <= k < i ==> slots[k][0] != 0
      {
        var e: Slot := sector[i * 32..i * 32 + 32];
        assert slots[i..][0] == e && slots[i..][1..] == slots[i + 1..];
        if e[0] == 0 {
          return None, true;
        }
        if !(e[0] == DELETED || e[11] == ATTR_LONG_NAME) && e[..11] == Query(name, ext) {
          return Some(Parse(e)), false;
        }
        i := i + 1;
      }
      return None, false;
    }

    method FindInSectors(start: nat, count: nat, name: CStr, ext: CStr) returns (found: Option<Dirent>)
      ensures found == Lookup(Slots(Region(drive.sectors, start, count)), Query(name, ext))
    {
      ghost var ss := Region(drive.sectors, start, count);
      var s := 0;
      while s < count
        invariant 0 <= s <= count && s <= |ss|
        invariant Lookup(Slots(ss[s..]), Query(name, ext)) == Lookup(Slots(ss), Query(name, ext))
      {
        RegionAt(drive.sectors, start, count, s);
        var stack: Sector := *;
        var got, sector := drive.Read(start + s, stack);
        if !got {
          return None;
        }
        SectorsSplit(ss, s);
        LookupSplit(Slots([sector]), Slots(ss[s + 1..]), Query(name, ext));
        var ended;
        found, ended := FindInSector(sector, name, ext);
        if found.Some? || ended {
          return;
        }
        s := s + 1;
      }
      return None;
    }

    /** `fat16_list_root` and `fat16_list_dir`: -1 when nothing is mounted. Any geometry that
        mounts, and any cluster the caller names, decides only which sectors are scanned. */
    method List(place: Place, out: array<Dirent>, maxEntries: int) returns (total: int)
      requires maxEntries <= out.Length
      modifies out
      ensures !mounted ==> total == -1 && out[..] == old(out[..])
      ensures mounted ==> var all := Listing(Slots(DirRegion(place)));
                          total == |all| && out[..] == Filled(old(out[..]), all, maxEntries)
      ensures Ready() && Reachable(Volume(), place) ==> DirRegion(place) == DirSectors(Volume(), place)
    {
      if !mounted {
        return -1;
      }
      StandardRegion(place);
      match place {
        case Root => total := ListDirSectors(vol.rootStart, vol.rootDirSectors, out, maxEntries);
        case Sub(c) => total := ListDirSectors(ClusterToLba(c), vol.sectorsPerCluster, out, maxEntries);
      }
    }

    /** `fat16_find_in_root` and `fat16_find_in_dir`, likewise. */
    method Find(place: Place, name: CStr, ext: CStr) returns (found: Option<Dirent>)
      ensures !mounted ==> found.None?
      ensures mounted ==> found == Lookup(Slots(DirRegion(place)), Query(name, ext))
      ensures Ready() && Reachable(Volume(), place) ==> DirRegion(place) == DirSectors(Volume(), place)
    {
      if !mounted {
        return None;
      }
      StandardRegion(place);
      match place {
        case Root => found := FindInSectors(vol.rootStart, vol.rootDirSectors, name, ext);
        case Sub(c) => found := FindInSectors(ClusterToLba(c), vol.sectorsPerCluster, name, ext);
      }
    }

    // -------------------------------------------------------------- writing

    /** One zero-filled sector of file data. */
    method FillSector(data: seq<Byte>, offset: nat, thisChunk: nat, s: nat) returns (sector: Sector)
      requires offset + thisChunk <= |data|
      ensures sector == SectorOf(data[offset..offset + thisChunk], s)
    {
      sector := BLANK;
      var written := 512 * s;
      if written < thisChunk {
        var copyLen := if thisChunk - written < 512 then thisChunk - written else 512;
        var b := 0;
        while b < copyLen
          invariant 0 <= b <= copyLen && |sector| == 512
          invariant forall k :: 0 <= k < 512 ==> sector[k] == if k < b then data[offset + written + k] else 0
        {
          sector := sector[b := data[offset + written + b]];
          b := b + 1;
        }
      }
    }

    /** The sector loop of `write_file_data` on the bare disk. */
    method WriteSectors(base: U32, data: seq<Byte>, offset: nat, thisChunk: nat, ghost image: seq<Sector>) returns (ok: bool)
      requires offset + thisChunk <= |data| && image == Image(data[offset..offset + thisChunk])
      requires vol.sectorsPerCluster == 64 && base + 64 <= 0x1_0000_0000
      modifies drive
      ensures ok <==> base + 64 <= |old(drive.sectors)|
      ensures drive.sectors == Overwrite(old(drive.sectors), base, image)
    {
      ghost var d := drive.sectors;
      var s := 0;
      ok := true;
      OverwriteNone(d, base, image);
      while s < vol.sectorsPerCluster && ok
        invariant 0 <= s <= 64 && (s > 0 ==> base + s <= |d|) && (!ok ==> |d| <= base + s && s < 64)
        invariant drive.sectors == Overwrite(d, base, image[..s])
        decreases 64 - s, ok
      {
        var sector := FillSector(data, offset, thisChunk, s);
        assert sector == image[s];
        OverwriteNext(d, base, image, s);
        ok := drive.Write(Wrap32(base + s), sector);
        if ok { s := s + 1; }
      }
      OverwriteAll(d, base, image, s);
    }

    /** One cluster of `write_file_data`. */
    method WriteClusterData(cluster: U16, data: seq<Byte>, offset: nat, thisChunk: nat) returns (ok: bool)
      requires Ready() && 2 <= cluster && offset + thisChunk <= |data|
      modifies drive
      ensures Ready() && SameHead(old(drive.sectors), drive.sectors, vol.partitionLba)
      ensures ok <==> OnDisk(old(Volume()).data, cluster)
      ensures var v := old(Volume());
              Volume() == v.(data := Blit(v.data, cluster, Image(data[offset..offset + thisChunk])))
    {
      ghost var image := Image(data[offset..offset + thisChunk]);
      ViewAfterCluster(drive.sectors, vol.partitionLba, cluster, image);
      var base := ClusterToLba(cluster);
      assert base == ClusterStart(vol.partitionLba, cluster);
      ok := WriteSectors(base, data, offset, thisChunk, image);
    }

    /** Allocate the next cluster of a chain and link it behind `cluster`; 0 when full. */
    method AppendCluster(cluster: U16) returns (next: U16)
      requires Ready()
      modifies drive
      ensures Ready() && SameHead(old(drive.sectors), drive.sectors, vol.partitionLba)
      ensures var v := old(Volume());
              && next == Alloc(v.fat)
              && Volume() == if next == 0 then v else v.(fat := v.fat[next := END_OF_CHAIN][cluster := next])
    {
      next := FatAllocCluster();
      if next != 0 {
        FatWriteEntry(cluster, next);
      }
    }

    /** One turn of the loop of `write_file_data`: fill the cluster, then close the chain or
        extend it. */
    method WriteTurn(cluster: U16, data: seq<Byte>, offset: nat, thisChunk: nat) returns (ok: bool, next: U16)
      requires Ready() && 2 <= cluster && offset + thisChunk <= |data|
      modifies drive
      ensures Ready() && SameHead(old(drive.sectors), drive.sectors, vol.partitionLba)
      ensures Turn(old(Volume()), cluster, data[offset..offset + thisChunk], offset + thisChunk == |data|, Volume(), ok, next)
    {
      ok := WriteClusterData(cluster, data, offset, thisChunk);
      if !ok {
        return false, 0;
      }
      if offset + thisChunk == |data| {
        FatWriteEntry(cluster, 0xFFFF);
        return true, 0;
      }
      next := AppendCluster(cluster);
      ok := next != 0;
    }

    /** The same turn, as a step toward the end of the whole write. */
    method WriteNext(cluster: U16, data: seq<Byte>, offset: nat, thisChunk: nat, ghost target: Written)
      returns (ok: bool, next: U16)
      requires Ready() && 2 <= cluster && offset <= |data| && Aims(Volume(), cluster, data, offset, target)
      requires thisChunk == if |data| - offset < CLUSTER_BYTES then |data| - offset else CLUSTER_BYTES
      modifies drive
      ensures Ready() && SameHead(old(drive.sectors), drive.sectors, vol.partitionLba)
      ensures if !ok || offset + thisChunk == |data| then ok == target.ok && Volume() == target.vol
              else 2 <= next && Aims(Volume(), next, data, offset + thisChunk, target)
    {
      ghost var v := Volume();
      ok, next := WriteTurn(cluster, data, offset, thisChunk);
      TurnAims(v, cluster, data, offset, thisChunk, target, Volume(), ok, next);
    }

    method WriteFileData(firstCluster: U16, data: seq<Byte>) returns (ok: bool)
      requires Ready() && 2 <= firstCluster && |data| < 0x1_0000_0000
      modifies drive
      ensures Ready() && SameHead(old(drive.sectors), drive.sectors, vol.partitionLba)
      ensures var w := WriteChain(old(Volume()), firstCluster, data); ok == w.ok && Volume() == w.vol
    {
      ghost var d := drive.sectors;
      ghost var target := WriteChain(Volume(), firstCluster, data);
      AimsAtStart(Volume(), firstCluster, data);
      ok := WriteLoop(firstCluster, data, target, d);
    }

    method WriteLoop(firstCluster: U16, data: seq<Byte>, ghost target: Written, ghost d: seq<Sector>) returns (ok: bool)
      requires Ready() && 2 <= firstCluster && Aims(Volume(), firstCluster, data, 0, target)
      requires d == drive.sectors
      modifies drive
      ensures Ready() && SameHead(d, drive.sectors, vol.partitionLba)
      ensures ok == target.ok && Volume() == target.vol
    {
      var bytesPerCluster := vol.sectorsPerCluster * vol.bytesPerSector;
      assert bytesPerCluster == CLUSTER_BYTES;
      var cluster, offset, remaining := firstCluster, 0, |data|;
      while true
        invariant Ready() && SameHead(d, drive.sectors, vol.partitionLba)
        invariant 2 <= cluster && 0 <= offset && 0 <= remaining && offset + remaining == |data|
        invariant Aims(Volume(), cluster, data, offset, target)
        decreases remaining
      {
        var thisChunk := if remaining < bytesPerCluster then remaining else bytesPerCluster;
        var next;
        ok, next := WriteNext(cluster, data, offset, thisChunk, target);
        offset, remaining := offset + thisChunk, remaining - thisChunk;
        if !ok || remaining == 0 {
          return;
        }
        cluster := next;
      }
    }

    /** The data part that both create functions share. */
    method StoreFile(data: seq<Byte>) returns (ok: bool, firstCluster: U16)
      requires Ready() && |data| < 0x1_0000_0000
      modifies drive
      ensures Ready() && SameHead(old(drive.sectors), drive.sectors, vol.partitionLba)
      ensures var w := Store(old(Volume()), data);
              && ok == w.ok && Volume() == w.vol
              && (ok ==> firstCluster == if w.chain == [] then 0 else w.chain[0])
    {
      ghost var v := Volume();
      firstCluster := 0;
      if |data| == 0 {
        return true, 0;
      }
      firstCluster := FatAllocCluster();
      if firstCluster == 0 {
        return false, 0;
      }
      StoreIsWrite(v, data);
      ok := WriteFileData(firstCluster, data);
    }

    /** `fat16_create_file_root` and `fat16_create_file_in_dir`. `mid` is the disk between the two
        halves: the data is stored, then the entry is added wherever the named cluster lies. For
        a directory on the disk this is one step of the volume. */
    method CreateFile(place: Place, name: CStr, ext: CStr, data: seq<Byte>)
      returns (ok: bool, ghost mid: seq<Sector>, ghost cluster: U16, ghost index: nat)
      requires |data| < 0x1_0000_0000
      requires mounted ==> Ready()
      modifies drive
      ensures !mounted ==> !ok && drive.sectors == old(drive.sectors)
      ensures mounted ==> SameHead(old(drive.sectors), mid, vol.partitionLba) && Mirrored(mid, vol.partitionLba)
      ensures mounted ==>
                var w := Store(old(Volume()), data);
                && View(mid, vol.partitionLba) == w.vol && (w.ok ==> cluster == if w.chain == [] then 0 else w.chain[0])
                && (if w.ok then EntryAdded(mid, DirStart(place), DirLength(place),
                                            MakeSlot(name, ext, ATTR_FILE, cluster, |data|), index, ok, drive.sectors)
                    else !ok && drive.sectors == mid)
      ensures mounted && old(Reachable(Volume(), place)) ==>
                && Ready() && SameHead(old(drive.sectors), drive.sectors, vol.partitionLba)
                && var out := Step(old(Volume()), Create(place, name, ext, data)); ok == out.ok && Volume() == out.vol
    {
      index := 0;
      if !mounted {
        return false, drive.sectors, 0, 0;
      }
      ghost var v := Volume();
      var stored, firstCluster := StoreFile(data);
      mid, cluster := drive.sectors, firstCluster;
      if !stored {
        StoreFailed(v, place, name, ext, data);
        return false, mid, cluster, 0;
      }
      var entry := MakeSlot(name, ext, 0x20, firstCluster, |data|);
      StoreReaches(v, place, data);
      ok, index := WriteEntry(place, entry);
      StepOfCreate(v, place, name, ext, data);
    }

    /** The sectors of a new directory: "." and "..", then never-used slots. */
    method WriteDirCluster(cluster: U16) returns (ok: bool)
      requires Ready() && 2 <= cluster
      modifies drive
      ensures Ready() && SameHead(old(drive.sectors), drive.sectors, vol.partitionLba)
      ensures ok <==> OnDisk(old(Volume()).data, cluster)
      ensures var v := old(Volume()); Volume() == v.(data := Blit(v.data, cluster, DirImage(cluster)))
    {
      ViewAfterCluster(drive.sectors, vol.partitionLba, cluster, DirImage(cluster));
      var base := ClusterToLba(cluster);
      assert base == ClusterStart(vol.partitionLba, cluster);
      ok := WriteDirSectors(base, cluster);
    }

    /** The sector loop of `fat16_mkdir_root` on the bare disk. */
    method WriteDirSectors(base: U32, cluster: U16) returns (ok: bool)
      requires vol.sectorsPerCluster == 64 && base + 64 <= 0x1_0000_0000
      modifies drive
      ensures ok <==> base + 64 <= |old(drive.sectors)|
      ensures drive.sectors == Overwrite(old(drive.sectors), base, DirImage(cluster))
    {
      ghost var d, image := drive.sectors, DirImage(cluster);
      var s := 0;
      ok := true;
      OverwriteNone(d, base, image);
      while s < vol.sectorsPerCluster && ok
        invariant 0 <= s <= 64 && (s > 0 ==> base + s <= |d|) && (!ok ==> |d| <= base + s && s < 64)
        invariant drive.sectors == Overwrite(d, base, image[..s])
        decreases 64 - s, ok
      {
        var sector := if s == 0 then DotSector(cluster) else BLANK;
        assert sector == image[s];
        OverwriteNext(d, base, image, s);
        ok := drive.Write(Wrap32(base + s), sector);
        if ok { s := s + 1; }
      }
      OverwriteAll(d, base, image, s);
    }

    method MkdirRoot(name: CStr, ext: CStr) returns (ok: bool, cluster: U16)
      requires mounted ==> Ready()
      modifies drive
      ensures !mounted ==> !ok && drive.sectors == old(drive.sectors)
      ensures mounted ==> Ready() && SameHead(old(drive.sectors), drive.sectors, vol.partitionLba)
      ensures mounted ==>
                var out := Step(old(Volume()), MakeDir(name, ext));
                ok == out.ok && Volume() == out.vol && (ok ==> cluster == out.cluster)
    {
      if !mounted {
        return false, 0;
      }
      cluster := FatAllocCluster();
      if cluster == 0 {
        return false, 0;
      }
      ok := WriteDirCluster(cluster);
      assert Volume() == Opened(old(Volume()), cluster);
      if !ok {
        return false, cluster;
      }
      var entry := MakeSlot(name, ext, 0x10, cluster, 0);
      ghost var index;
      ok, index := WriteEntry(Root, entry);
    }

    // -------------------------------------------------------------- reading

    /** The byte loop of `fat16_read_file`: stores are dropped past the end of the buffer. */
    method CopySector(sector: Sector, copyLen: nat, at: nat, buffer: array<Byte>, bufferSize: nat)
      requires copyLen <= 512 && bufferSize <= buffer.Length
      modifies buffer
      ensures forall k :: 0 <= k < buffer.Length ==>
                buffer[k] == if at <= k < at + copyLen && k < bufferSize then sector[k - at] else old(buffer[k])
    {
      var b := 0;
      while b < copyLen
        invariant 0 <= b <= copyLen
        invariant forall k :: 0 <= k < buffer.Length ==>
                    buffer[k] == if at <= k < at + b && k < bufferSize then sector[k - at] else old(buffer[k])
      {
        var dest := at + b;
        if dest < bufferSize {
          buffer[dest] := sector[b];
        }
        b := b + 1;
      }
    }

    /** The sector loop of `fat16_read_file` for one cluster, on any geometry. */
    method CopyCluster(base: U32, thisChunk: nat, offset: nat, buffer: array<Byte>, bufferSize: nat) returns (ok: bool)
      requires bufferSize <= buffer.Length
      modifies buffer
      ensures forall k :: 0 <= k < buffer.Length && !(offset <= k < offset + thisChunk && k < bufferSize) ==>
                buffer[k] == old(buffer[k])
      ensures base + vol.sectorsPerCluster < 0x1_0000_0000 && thisChunk <= 512 * vol.sectorsPerCluster ==>
                && (ok <==> thisChunk == 0 || base + (thisChunk + 511) / 512 <= |drive.sectors|)
                && (ok ==> forall k :: offset <= k < offset + thisChunk && k < bufferSize ==>
                             buffer[k] == DiskByte(drive.sectors, base, k - offset))
    {
      ghost var straight := base + vol.sectorsPerCluster < 0x1_0000_0000;
      var s, readInCluster := 0, 0;
      while s < vol.sectorsPerCluster && readInCluster < thisChunk
        invariant 0 <= s <= vol.sectorsPerCluster && readInCluster == 512 * s < thisChunk + 512
        invariant forall k :: 0 <= k < buffer.Length && !(offset <= k < offset + thisChunk && k < bufferSize) ==>
                    buffer[k] == old(buffer[k])
        invariant straight && s > 0 ==> base + s <= |drive.sectors|
        invariant straight ==> forall k :: offset <= k < offset + thisChunk && k < offset + readInCluster && k < bufferSize ==>
                    buffer[k] == DiskByte(drive.sectors, base, k - offset)
      {
        var stack: Sector := *;
        var got, sector := drive.Read(Wrap32(base + s), stack);
        if !got {
          return false;
        }
        var copyLen := if thisChunk - readInCluster < 512 then thisChunk - readInCluster else 512;
        CopySector(sector, copyLen, offset + readInCluster, buffer, bufferSize);
        s, readInCluster := s + 1, readInCluster + 512;
      }
      return true;
    }

    method BytesPerCluster() returns (n: int)
      requires vol.bytesPerSector > 0 && vol.sectorsPerCluster > 0
      ensures n == vol.sectorsPerCluster * vol.bytesPerSector > 0
      ensures Ready() ==> n == CLUSTER_BYTES
    {
      n := vol.sectorsPerCluster * vol.bytesPerSector;
    }

    /** A standard volume is mounted and shows `v`. */
    ghost predicate Shows(v: Vol)
      reads this, drive
    {
      Ready() && Volume() == v
    }

    /** One cluster of `fat16_read_file`. `chunk` is what it read: on a standard volume, the
        first bytes of the cluster. */
    method ReadTurn(cluster: U32, thisChunk: nat, buffer: array<Byte>, bufferSize: nat, offset: nat,
                    ghost was: seq<Byte>, ghost done: seq<Byte>, ghost std: bool, ghost v: Vol)
      returns (ok: bool, ghost chunk: seq<Byte>)
      requires bufferSize <= buffer.Length == |was| && thisChunk > 0
      requires offset == |done| && buffer[..] == Filled(was, done, bufferSize)
      requires std ==> Shows(v) && cluster < FAT_ENTRIES && thisChunk <= CLUSTER_BYTES
      modifies buffer
      ensures |chunk| == thisChunk
      ensures ok ==> buffer[..] == Filled(was, done + chunk, bufferSize)
      ensures SameTail(was, buffer[..], offset + thisChunk, bufferSize)
      ensures std ==> Shows(v)
      ensures std ==> ChunkRead(v, cluster, thisChunk, ok, chunk)
    {
      var base := ClusterToLba(cluster);
      ok := CopyCluster(base, thisChunk, offset, buffer, bufferSize);
      chunk := seq(thisChunk, i requires 0 <= i < thisChunk reads buffer =>
                     if offset + i < bufferSize then buffer[offset + i] else 0);
      if std && 2 <= cluster {
        assert base == ClusterStart(vol.partitionLba, cluster);
        ChunkOnDisk(drive.sectors, vol.partitionLba, cluster, thisChunk);
        if ok {
          chunk := ReadChunk(v.data, cluster, thisChunk);
        }
      }
    }

    /** One turn of the loop of `fat16_read_file`: read a cluster, then look up the next one if
        anything is left. `more` tells that the loop goes on. */
    method ReadNext(cluster: U32, remaining: nat, thisChunk: nat, buffer: array<Byte>, bufferSize: nat, offset: nat,
                    ghost was: seq<Byte>, ghost done: seq<Byte>, ghost std: bool, ghost v: Vol, ghost goal: Delivery)
      returns (ok: bool, more: bool, next: U16, ghost chunk: seq<Byte>)
      requires bufferSize <= buffer.Length == |was| && 0 < thisChunk <= remaining && 0 < vol.bytesPerSector <= 512
      requires offset == |done| && buffer[..] == Filled(was, done, bufferSize)
      requires std ==> Shows(v) && cluster < FAT_ENTRIES && Toward(v, cluster, remaining, done, goal)
      requires std ==> thisChunk == if remaining < CLUSTER_BYTES then remaining else CLUSTER_BYTES
      modifies buffer
      ensures |chunk| == thisChunk && (more ==> ok && thisChunk < remaining)
      ensures ok ==> buffer[..] == Filled(was, done + chunk, bufferSize)
      ensures SameTail(was, buffer[..], offset + thisChunk, bufferSize)
      ensures std ==> Shows(v)
      ensures std && more ==> Toward(v, next, remaining - thisChunk, done + chunk, goal)
      ensures std && !more && !goal.Stray? ==> goal == if ok then Delivered(done + chunk) else Failed
    {
      more, next := false, 0;
      ok, chunk := ReadTurn(cluster, thisChunk, buffer, bufferSize, offset, was, done, std, v);
      if std {
        TowardTurn(v, cluster, remaining, done, goal, ok, chunk);
      }
      if !ok || thisChunk == remaining {
        return;
      }
      next := FatReadEntry(cluster);
      more := next < 0xFFF8;
    }

    /** The loop of `fat16_read_file`; `visited` counts the clusters it turns to. */
    method ReadLoop(firstCluster: U32, size: U32, buffer: array<Byte>, bufferSize: nat, bytesPerCluster: int,
                    ghost std: bool, ghost v: Vol, ghost goal: Delivery)
      returns (ok: bool, ghost visited: nat, ghost done: seq<Byte>)
      requires bufferSize <= buffer.Length && size > 0 && bytesPerCluster > 0 && 0 < vol.bytesPerSector <= 512
      requires std ==> Shows(v) && firstCluster < FAT_ENTRIES && bytesPerCluster == CLUSTER_BYTES
      requires std ==> Toward(v, firstCluster, size, [], goal)
      modifies buffer
      ensures SameTail(old(buffer[..]), buffer[..], size, bufferSize)
      ensures visited > 0 && Span(visited - 1, bytesPerCluster) < size
      ensures ok ==> buffer[..] == Filled(old(buffer[..]), done, bufferSize)
      ensures std && !goal.Stray? ==> goal == if ok then Delivered(done) else Failed
    {
      visited := 0;
      var cluster: U32 := firstCluster;
      var remaining, offset := size as int, 0;
      ghost var was := buffer[..];
      done := [];
      var more := true;
      while more
        invariant 0 <= remaining && offset + remaining == size && |done| == offset
        invariant if more then remaining > 0 && offset == Span(visited, bytesPerCluster)
                  else visited > 0 && Span(visited - 1, bytesPerCluster) < size
        invariant std && more ==> Shows(v) && cluster < FAT_ENTRIES && Toward(v, cluster, remaining, done, goal)
        invariant std && !more && !goal.Stray? ==> goal == Delivered(done)
        invariant buffer[..] == Filled(was, done, bufferSize)
        decreases remaining, more
      {
        var thisChunk := if remaining < bytesPerCluster then remaining else bytesPerCluster;
        visited := visited + 1;
        var next;
        ghost var chunk;
        ok, more, next, chunk :=
          ReadNext(cluster, remaining, thisChunk, buffer, bufferSize, offset, was, done, std, v, goal);
        if !ok {
          return false, visited, done;
        }
        done := done + chunk;
        offset, remaining, cluster := offset + thisChunk, remaining - thisChunk, next;
      }
      ok := true;
    }

    /** On any volume with sectors of at most 512 bytes, whatever its table holds, the read stops
        after at most ceil(size / bytes per cluster) clusters and stores nothing at or past
        min(size, bufferSize). On a standard volume it stores what `Deliver` says. */
    method ReadFile(firstCluster: U32, size: U32, buffer: array<Byte>, bufferSize: nat) returns (ok: bool, ghost visited: nat)
      requires bufferSize <= buffer.Length
      requires mounted ==> 0 < vol.bytesPerSector <= 512 && vol.sectorsPerCluster > 0
      modifies buffer
      ensures !mounted ==> !ok
      ensures !mounted || size == 0 || firstCluster == 0 ==> buffer[..] == old(buffer[..])
      ensures mounted && (size == 0 || firstCluster == 0) ==> ok
      ensures forall k :: 0 <= k < buffer.Length && (k >= size || k >= bufferSize) ==> buffer[k] == old(buffer[k])
      ensures visited > 0 ==> (visited - 1) * (vol.sectorsPerCluster * vol.bytesPerSector) < size
      ensures Ready() && 0 < firstCluster < FAT_ENTRIES ==>
                Reads(Deliver(Volume(), firstCluster, size), ok, old(buffer[..]), buffer[..], bufferSize)
    {
      if !mounted {
        return false, 0;
      }
      if size == 0 || firstCluster == 0 {
        assert buffer[..] == Filled(buffer[..], [], bufferSize);
        return true, 0;
      }
      var bytesPerCluster := BytesPerCluster();
      ghost var std := Ready() && firstCluster < FAT_ENTRIES;
      ghost var v := if std then Volume() else Vol([], [], []);
      ghost var goal := if std then Deliver(v, firstCluster, size) else Stray;
      assert goal.Delivered? ==> goal.bytes == [] + goal.bytes;
      ghost var done;
      ok, visited, done := ReadLoop(firstCluster, size, buffer, bufferSize, bytesPerCluster, std, v, goal);
      SpanIs(visited - 1, bytesPerCluster);
    }

    // -------------------------------------------------------------- format and mount

    /** Write the same sector `count` times. */
    method WriteRun(start: nat, count: nat, sector: Sector) returns (ok: bool)
      modifies drive
      ensures ok <==> count == 0 || start + count <= |old(drive.sectors)|
      ensures drive.sectors == Overwrite(old(drive.sectors), start, seq(count, _ => sector))
    {
      ghost var d := drive.sectors;
      var i := 0;
      while i < count
        invariant 0 <= i <= count && (i == 0 || start + i <= |d|)
        invariant drive.sectors == Overwrite(d, start, seq(i, _ => sector))
      {
        ok := drive.Write(start + i, sector);
        if !ok {
          assert drive.sectors == Overwrite(d, start, seq(count, _ => sector));
          return false;
        }
        i := i + 1;
      }
      return true;
    }

    /** One fresh table: its reserved entries, then blank sectors. */
    method WriteFreshTable(base: nat) returns (ok: bool)
      modifies drive
      ensures ok <==> base + 256 <= |old(drive.sectors)|
      ensures drive.sectors == Overwrite(old(drive.sectors), base, FreshTable())
    {
      ghost var d := drive.sectors;
      assert seq(1, _ => FAT_HEAD) == [FAT_HEAD];
      ok := WriteRun(base, 1, FAT_HEAD);
      OverwriteAppend(d, base, [FAT_HEAD], seq(255, _ => BLANK));
      if !ok {
        OverwriteOff(d, base, [FAT_HEAD], FreshTable());
        return;
      }
      ok := WriteRun(base + 1, 255, BLANK);
    }

    /** The copy loop of `fat16_format`. */
    method WriteFreshTables(p: U32) returns (ok: bool)
      requires p < |drive.sectors|
      modifies drive
      ensures ok <==> p + 513 <= |old(drive.sectors)|
      ensures drive.sectors == Overwrite(old(drive.sectors), p + 1, FreshTables(2))
    {
      ghost var d := drive.sectors;
      var fatStart := p + 1;
      OverwriteNone(d, fatStart, FreshTables(2));
      var copy := 0;
      while copy < 2
        invariant 0 <= copy <= 2 && fatStart + 256 * copy <= |d|
        invariant drive.sectors == Overwrite(d, fatStart, FreshTables(copy))
      {
        OverwriteAppend(d, fatStart, FreshTables(copy), FreshTable());
        FreshTablesNext(copy);
        ok := WriteFreshTable(fatStart + copy * 256);
        copy := copy + 1;
        if !ok {
          OverwriteOff(d, fatStart, FreshTables(copy), FreshTables(2));
          return;
        }
      }
      return true;
    }

    /** All the writes of `fat16_format`, up to the end of the disk. */
    method WriteHead(p: U32, sectorCount: U32) returns (ok: bool)
      modifies drive
      ensures ok <==> p + NON_DATA_SECTORS <= |old(drive.sectors)|
      ensures drive.sectors == Overwrite(old(drive.sectors), p, FormatImage(p, sectorCount))
    {
      ghost var d, boot := drive.sectors, [BootSector(p, sectorCount)];
      ghost var root := seq(ROOT_SECTORS, _ => BLANK);
      OverwriteAppend(d, p, boot, FreshTables(2));
      OverwriteAppend(d, p, boot + FreshTables(2), root);
      ok := drive.Write(p, BootSector(p, sectorCount));
      assert drive.sectors == Overwrite(d, p, boot);
      if !ok {
        OverwriteOff(d, p, boot, FormatImage(p, sectorCount));
        return;
      }
      ok := WriteFreshTables(p);
      if !ok {
        OverwriteOff(d, p, boot + FreshTables(2), FormatImage(p, sectorCount));
        return;
      }
      ok := WriteRun(p + 513, ROOT_SECTORS, BLANK);
    }

    method Format(p: U32, sectorCount: U32) returns (ok: bool)
      requires |drive.sectors| <= MAX_SECTORS
      modifies drive
      ensures |drive.sectors| == |old(drive.sectors)|
      ensures ok <==> Accepted(sectorCount) && p + NON_DATA_SECTORS <= |drive.sectors|
      ensures !Accepted(sectorCount) ==> drive.sectors == old(drive.sectors)
      ensures forall j :: 0 <= j < |drive.sectors| && !(p <= j < p + NON_DATA_SECTORS) ==>
                drive.sectors[j] == old(drive.sectors)[j]
      ensures ok ==>
                && drive.sectors[p] == BootSector(p, sectorCount) && Mirrored(drive.sectors, p)
                && View(drive.sectors, p) == Formatted(old(drive.sectors)[p + NON_DATA_SECTORS..])
    {
      ghost var d := drive.sectors;
      var nonDataSectors := 1 + 2 * 256 + ROOT_SECTORS;
      if sectorCount <= nonDataSectors {
        return false;
      }
      var clusterCount := (sectorCount - nonDataSectors) / CLUSTER_SECTORS;
      if clusterCount < 4085 || clusterCount > 65524 {
        return false;
      }
      ok := WriteHead(p, sectorCount);
      if ok {
        ViewAfterFormat(d, p, sectorCount);
      }
    }

    /** The sector can be read and carries the boot signature. */
    predicate Signed(p: U32)
      reads drive
    {
      p < |drive.sectors| && drive.sectors[p][510] == 0x55 && drive.sectors[p][511] == 0xAA
    }

    /** A failed mount leaves `mounted` as it was. If the sector carries the boot signature the
        first fields of the volume are overwritten all the same, so a volume that was ready stays
        ready exactly when the sector is unreadable or unsigned. */
    method Mount(p: U32) returns (ok: bool)
      modifies this
      ensures ok <==> Signed(p) && Le16(drive.sectors[p], 11) != 0 && drive.sectors[p][13] != 0
      ensures ok ==> mounted && vol == Decode(p, drive.sectors[p])
      ensures !ok ==> mounted == old(mounted)
      ensures !Signed(p) ==> vol == old(vol)
      ensures !ok && Signed(p) ==> vol == Overwritten(old(vol), p, drive.sectors[p])
      ensures !ok && old(Ready()) ==> (Ready() <==> !Signed(p))
    {
      var stack: Sector := *;
      var got, sector := drive.Read(p, stack);
      if !got {
        return false;
      }
      if sector[510] != 0x55 || sector[511] != 0xAA {
        return false;
      }
      vol := Overwritten(vol, p, sector);
      if vol.bytesPerSector == 0 || vol.sectorsPerCluster == 0 {
        return false;
      }
      vol := Decode(p, sector);
      mounted := true;
      return true;
    }

    /** `fat16_format` followed by `fat16_mount`: the volume every run starts from. */
    method FormatAndMount(p: U32, sectorCount: U32) returns (ok: bool)
      requires |drive.sectors| <= MAX_SECTORS
      modifies drive, this
      ensures ok <==> Accepted(sectorCount) && p + NON_DATA_SECTORS <= |old(drive.sectors)|
      ensures ok ==> Ready() && vol.partitionLba == p
                     && Volume() == Formatted(old(drive.sectors)[p + NON_DATA_SECTORS..])
    {
      ok := Format(p, sectorCount);
      if ok {
        MountRecoversFormat(p, sectorCount);
        ok := Mount(p);
      }
    }
  }
}
