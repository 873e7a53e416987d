/** The operations on a mounted volume, the invariant that every run of them keeps, and what
    the volume stands for: a catalogue of files and directories. */
module Catalog {
  import opened Words
  import opened Sectors
  import opened FatTable
  import opened Directory
  import opened Volume
  import opened Storage

  // ---------------------------------------------------------------- operations

  /** A directory: the root, or one made by `fat16_mkdir_root`, named by its cluster. */
  datatype Place = Root | Sub(cluster: U32)

  datatype Op =
    | MakeDir(name: CStr, ext: CStr)
    | Create(place: Place, name: CStr, ext: CStr, bytes: seq<Byte>)

  /** `cluster` is the first cluster of the new object (0 for an empty file), `chain` the
      clusters taken, `index` the slot written. */
  datatype Outcome = Outcome(vol: Vol, ok: bool, cluster: U16, chain: seq<U16>, index: nat)

  predicate Reachable(v: Vol, place: Place) {
    place.Sub? ==> OnDisk(v.data, place.cluster)
  }

  function DirSectors(v: Vol, place: Place): seq<Sector>
    requires Reachable(v, place)
  {
    match place
    case Root => v.root
    case Sub(c) => ClusterSectors(v.data, c)
  }

  function SlotsOf(v: Vol, place: Place): seq<Slot>
    requires Reachable(v, place)
  {
    Slots(DirSectors(v, place))
  }

  function WithSlot(v: Vol, place: Place, i: nat, e: Slot): (r: Vol)
    requires Shaped(v) && Reachable(v, place) && i < |SlotsOf(v, place)|
    ensures Shaped(r)
  {
    var ss := SetSlot(DirSectors(v, place), i, e);
    match place
    case Root => v.(root := ss)
    case Sub(c) => v.(data := Blit(v.data, c, ss))
  }

  /** `write_entry_in_root` and `write_entry_in_dir_cluster`. */
  function AddEntry(v: Vol, place: Place, e: Slot, cluster: U16, chain: seq<U16>): Outcome
    requires Shaped(v) && Reachable(v, place)
  {
    var i := FirstVacant(SlotsOf(v, place));
    if i < |SlotsOf(v, place)| then Outcome(WithSlot(v, place, i, e), true, cluster, chain, i)
    else Outcome(v, false, cluster, chain, i)
  }

  const DOT: CStr := [0x2E]
  const DOT_DOT: CStr := [0x2E, 0x2E]

  function DotSector(c: U16): Sector {
    MakeSlot(DOT, [], ATTR_DIRECTORY, c, 0) + MakeSlot(DOT_DOT, [], ATTR_DIRECTORY, 0, 0) + seq(448, _ => 0)
  }

  /** The first image of a new directory: ".", ".." and never-used slots. */
  function DirImage(c: U16): (r: seq<Sector>)
    ensures |r| == CLUSTER_SECTORS
  {
    [DotSector(c)] + seq(63, _ => BLANK)
  }

  /** The cluster taken by a new directory, filled. */
  function Opened(v: Vol, c: U16): (r: Vol)
    requires Shaped(v) && 2 <= c
    ensures Shaped(r)
  {
    v.(fat := v.fat[c := END_OF_CHAIN], data := Blit(v.data, c, DirImage(c)))
  }

  function Step(v: Vol, op: Op): (r: Outcome)
    requires Shaped(v) && (op.Create? ==> Reachable(v, op.place))
    ensures Shaped(r.vol)
  {
    match op
    case MakeDir(name, ext) =>
      var c := Alloc(v.fat);
      if c == 0 then Outcome(v, false, 0, [], 0)
      else if !OnDisk(v.data, c) then Outcome(Opened(v, c), false, c, [c], 0)
      else AddEntry(Opened(v, c), Root, MakeSlot(name, ext, ATTR_DIRECTORY, c, 0), c, [c])
    case Create(place, name, ext, bytes) =>
      var w := Store(v, bytes);
      var first: U16 := if w.chain == [] then 0 else w.chain[0];
      if !w.ok then Outcome(w.vol, false, first, w.chain, 0)
      else
        StoreSound(v, bytes);
        AddEntry(w.vol, place, MakeSlot(name, ext, ATTR_FILE, first, |bytes|), first, w.chain)
  }

  /** A create is a store and then a new entry. */
  lemma StepOfCreate(v: Vol, place: Place, name: CStr, ext: CStr, bytes: seq<Byte>)
    requires Shaped(v) && Store(v, bytes).ok
    ensures Reachable(v, place) ==> Reachable(Store(v, bytes).vol, place)
    ensures Reachable(v, place) ==>
              var w := Store(v, bytes);
              var first := if w.chain == [] then 0 else w.chain[0];
              var e := MakeSlot(name, ext, ATTR_FILE, first, |bytes|);
              Step(v, Create(place, name, ext, bytes)) == AddEntry(w.vol, place, e, first, w.chain)
  {
    StoreReaches(v, place, bytes);
  }

  lemma StoreFailed(v: Vol, place: Place, name: CStr, ext: CStr, bytes: seq<Byte>)
    requires Shaped(v) && !Store(v, bytes).ok
    ensures Reachable(v, place) ==>
              var out := Step(v, Create(place, name, ext, bytes)); !out.ok && out.vol == Store(v, bytes).vol
  {
  }

  lemma StoreReaches(v: Vol, place: Place, bytes: seq<Byte>)
    requires Shaped(v)
    ensures Reachable(Store(v, bytes).vol, place) <==> Reachable(v, place)
  {
    StoreSound(v, bytes);
  }

  // ---------------------------------------------------------------- the catalogue

  datatype File = File(chain: seq<U16>, bytes: seq<Byte>, place: Place, index: nat)

  /** Files by first cluster, with the slot naming them; directories with their root slot. */
  datatype Catalog = Catalog(files: map<U16, File>, dirs: map<U16, nat>)

  predicate Known(cat: Catalog, place: Place) {
    place.Sub? ==> place.cluster in cat.dirs
  }

  predicate FileOk(v: Vol, f: U16, file: File)
    requires Shaped(v)
  {
    file.bytes != [] && file.chain != [] && file.chain[0] == f && Stored(v, file.chain, file.bytes)
  }

  predicate DirOk(v: Vol, d: U16)
    requires Shaped(v)
  {
    OnDisk(v.data, d) && v.fat[d] == END_OF_CHAIN
  }

  predicate Disjoint(a: seq<U16>, b: seq<U16>) {
    forall i, j :: 0 <= i < |a| && 0 <= j < |b| ==> a[i] != b[j]
  }

  /** No cluster belongs to two objects. */
  predicate Apart(cat: Catalog) {
    && (forall f, g :: f in cat.files && g in cat.files && f != g ==> Disjoint(cat.files[f].chain, cat.files[g].chain))
    && (forall f, d :: f in cat.files && d in cat.dirs ==> d !in cat.files[f].chain)
  }

  /** A slot in use agrees with the catalogue. */
  predicate EntryOk(cat: Catalog, place: Place, i: nat, e: Slot) {
    if e[11] == ATTR_FILE then
      if Size(e) == 0 then Cluster(e) == 0
      else Cluster(e) in cat.files
           && var file := cat.files[Cluster(e)];
              |file.bytes| == Size(e) && file.place == place && file.index == i
    else
      && e[11] == ATTR_DIRECTORY && Size(e) == 0
      && match place
         case Root => Cluster(e) in cat.dirs && cat.dirs[Cluster(e)] == i
         case Sub(d) => e[..11] == Key(if i == 0 then DOT else DOT_DOT, [])
                        && ((i == 0 && Cluster(e) == d) || (i == 1 && Cluster(e) == 0))
  }

  predicate SlotsOk(cat: Catalog, place: Place, slots: seq<Slot>) {
    && Compact(slots)
    && forall i :: 0 <= i < |slots| && slots[i][0] != 0 ==> EntryOk(cat, place, i, slots[i])
  }

  ghost predicate Inv(v: Vol, cat: Catalog) {
    && Shaped(v)
    && (forall f :: f in cat.files ==> FileOk(v, f, cat.files[f]))
    && (forall d :: d in cat.dirs ==> DirOk(v, d))
    && Apart(cat)
    && SlotsOk(cat, Root, SlotsOf(v, Root))
    && (forall d :: d in cat.dirs ==> SlotsOk(cat, Sub(d), SlotsOf(v, Sub(d))))
  }

  /** The catalogue after an operation. */
  function Record(cat: Catalog, op: Op, out: Outcome): Catalog {
    if !out.ok then cat
    else match op
      case MakeDir(_, _) => cat.(dirs := cat.dirs[out.cluster := out.index])
      case Create(place, _, _, bytes) =>
        if bytes == [] then cat
        else cat.(files := cat.files[out.cluster := File(out.chain, bytes, place, out.index)])
  }

  // ---------------------------------------------------------------- frame

  /** No object of the catalogue owns a cluster of `changed`. */
  predicate Avoids(cat: Catalog, changed: seq<U16>) {
    && (forall f :: f in cat.files ==> Disjoint(cat.files[f].chain, changed))
    && (forall d :: d in cat.dirs ==> d !in changed)
  }

  lemma FreeIsAvoided(v: Vol, cat: Catalog, changed: seq<U16>)
    requires Inv(v, cat)
    requires forall i :: 0 <= i < |changed| ==> v.fat[changed[i]] == 0
    ensures Avoids(cat, changed)
  {
    forall f | f in cat.files ensures Disjoint(cat.files[f].chain, changed) {
      assert FileOk(v, f, cat.files[f]);
      LinkedIsUsed(v.fat, cat.files[f].chain);
    }
    forall d | d in cat.dirs ensures d !in changed {
      assert DirOk(v, d);
    }
  }

  lemma LinkedIsUsed(fat: seq<U16>, chain: seq<U16>)
    requires |fat| == FAT_ENTRIES && Linked(fat, chain) && Proper(chain)
    ensures forall i :: 0 <= i < |chain| ==> fat[chain[i]] != 0
  {
    forall i | 0 <= i < |chain| ensures fat[chain[i]] != 0 {
      assert fat[chain[i]] == Link(chain, i);
    }
  }

  lemma StoredFrame(v: Vol, u: Vol, chain: seq<U16>, bytes: seq<Byte>, changed: seq<U16>)
    requires Shaped(v) && Shaped(u) && Stored(v, chain, bytes) && Disjoint(chain, changed)
    requires SameOutside(v.data, u.data, changed)
    requires forall x: U16 :: x !in changed ==> u.fat[x] == v.fat[x]
    ensures Stored(u, chain, bytes)
  {
    forall i | 0 <= i < |chain| ensures u.fat[chain[i]] == Link(chain, i) && OnDisk(u.data, chain[i]) {
      assert v.fat[chain[i]] == Link(chain, i) && OnDisk(v.data, chain[i]);
      assert chain[i] !in changed;
    }
    forall i | 0 <= i < |bytes| ensures ByteAt(u.data, chain, i) == bytes[i] {
      assert ByteAt(v.data, chain, i) == bytes[i];
      var c := chain[i / CLUSTER_BYTES];
      assert OnDisk(v.data, c) && c !in changed;
      var j := CLUSTER_SECTORS * (c - 2) + i % CLUSTER_BYTES / 512;
      assert j / CLUSTER_SECTORS + 2 == c;
    }
  }

  lemma SectorsFrame(before: seq<Sector>, after: seq<Sector>, c: U16, changed: seq<U16>)
    requires SameOutside(before, after, changed) && OnDisk(before, c) && c !in changed
    ensures OnDisk(after, c) && ClusterSectors(after, c) == ClusterSectors(before, c)
  {
    forall k | 0 <= k < CLUSTER_SECTORS
      ensures ClusterSectors(after, c)[k] == ClusterSectors(before, c)[k]
    {
      var j := CLUSTER_SECTORS * (c - 2) + k;
      assert j / CLUSTER_SECTORS + 2 == c;
    }
  }

  /** Changing clusters that nobody owns keeps the invariant. */
  lemma Frame(v: Vol, u: Vol, cat: Catalog, changed: seq<U16>)
    requires Inv(v, cat) && Shaped(u) && u.root == v.root && Avoids(cat, changed)
    requires SameOutside(v.data, u.data, changed)
    requires forall x: U16 :: x !in changed ==> u.fat[x] == v.fat[x]
    ensures Inv(u, cat)
    ensures forall d :: d in cat.dirs ==> OnDisk(u.data, d) && SlotsOf(u, Sub(d)) == SlotsOf(v, Sub(d))
  {
    forall f | f in cat.files ensures FileOk(u, f, cat.files[f]) {
      assert FileOk(v, f, cat.files[f]);
      StoredFrame(v, u, cat.files[f].chain, cat.files[f].bytes, changed);
    }
    forall d | d in cat.dirs
      ensures DirOk(u, d) && SlotsOf(u, Sub(d)) == SlotsOf(v, Sub(d))
    {
      assert DirOk(v, d);
      SectorsFrame(v.data, u.data, d, changed);
    }
  }
}
