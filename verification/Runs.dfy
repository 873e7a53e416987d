/** Every run of directory and file creations from a formatted volume: the invariant, the
    chains, the free-entry count and the round trip. */
module Runs {
  import opened Words
  import opened Sectors
  import opened FatTable
  import opened Directory
  import opened Volume
  import opened Storage
  import opened Catalog

  // ---------------------------------------------------------------- the invariant is kept

  lemma BlitBack(data: seq<Sector>, c: U16, image: seq<Sector>)
    requires OnDisk(data, c) && |image| == CLUSTER_SECTORS
    ensures SameOutside(data, Blit(data, c, image), [c])
    ensures ClusterSectors(Blit(data, c, image), c) == image
  {
    var after := Blit(data, c, image);
    forall j | 0 <= j < |data| && j / CLUSTER_SECTORS + 2 !in [c]
      ensures after[j] == data[j]
    {
      assert j / CLUSTER_SECTORS != c - 2;
    }
  }

  /** Writing a slot changes that slot of that directory and nothing else. */
  lemma WithSlotSlots(v: Vol, cat: Catalog, place: Place, i: nat, e: Slot)
    requires Inv(v, cat) && Known(cat, place) && Reachable(v, place) && i < |SlotsOf(v, place)|
    ensures var u := WithSlot(v, place, i, e);
            && u.fat == v.fat && |u.data| == |v.data|
            && Reachable(u, place) && SlotsOf(u, place) == SlotsOf(v, place)[i := e]
            && (place.Sub? ==> u.root == v.root && SameOutside(v.data, u.data, [place.cluster]))
            && (place.Root? ==> u.data == v.data)
            && forall d :: d in cat.dirs && Sub(d) != place ==>
                 OnDisk(v.data, d) && OnDisk(u.data, d) && SlotsOf(u, Sub(d)) == SlotsOf(v, Sub(d))
  {
    var ss := DirSectors(v, place);
    SlotsAfterSet(ss, i, e);
    var u := WithSlot(v, place, i, e);
    if place.Sub? {
      BlitBack(v.data, place.cluster, SetSlot(ss, i, e));
    }
    forall d | d in cat.dirs && Sub(d) != place
      ensures OnDisk(v.data, d) && OnDisk(u.data, d) && SlotsOf(u, Sub(d)) == SlotsOf(v, Sub(d))
    {
      assert DirOk(v, d);
      if place.Sub? {
        SectorsFrame(v.data, u.data, d, [place.cluster]);
      }
    }
  }

  lemma InsertKeepsSlots(cat: Catalog, place: Place, slots: seq<Slot>, e: Slot)
    requires SlotsOk(cat, place, slots) && e[0] != 0
    requires FirstVacant(slots) < |slots| && EntryOk(cat, place, FirstVacant(slots), e)
    ensures SlotsOk(cat, place, slots[FirstVacant(slots) := e])
  {
    InsertKeepsCompact(slots, e);
  }

  lemma AddEntryKeepsFiles(v: Vol, cat: Catalog, place: Place, i: nat, e: Slot)
    requires Inv(v, cat) && Known(cat, place) && Reachable(v, place) && i < |SlotsOf(v, place)|
    ensures forall f :: f in cat.files ==> FileOk(WithSlot(v, place, i, e), f, cat.files[f])
  {
    var u := WithSlot(v, place, i, e);
    WithSlotSlots(v, cat, place, i, e);
    forall f | f in cat.files ensures FileOk(u, f, cat.files[f]) {
      var file := cat.files[f];
      assert FileOk(v, f, file);
      var changed := if place.Sub? then [place.cluster] else [];
      assert place.Sub? ==> place.cluster !in file.chain;
      StoredFrame(v, u, file.chain, file.bytes, changed);
    }
  }

  lemma AddEntryKeepsSlots(v: Vol, cat: Catalog, place: Place, e: Slot)
    requires Inv(v, cat) && Known(cat, place) && Reachable(v, place) && e[0] != 0
    requires var i := FirstVacant(SlotsOf(v, place)); i < |SlotsOf(v, place)| && EntryOk(cat, place, i, e)
    ensures var u := WithSlot(v, place, FirstVacant(SlotsOf(v, place)), e);
            && SlotsOk(cat, Root, SlotsOf(u, Root))
            && forall d :: d in cat.dirs ==> DirOk(u, d) && SlotsOk(cat, Sub(d), SlotsOf(u, Sub(d)))
  {
    var i := FirstVacant(SlotsOf(v, place));
    var u := WithSlot(v, place, i, e);
    WithSlotSlots(v, cat, place, i, e);
    assert SlotsOk(cat, place, SlotsOf(v, place));
    InsertKeepsSlots(cat, place, SlotsOf(v, place), e);
    forall d | d in cat.dirs ensures DirOk(u, d) && SlotsOk(cat, Sub(d), SlotsOf(u, Sub(d))) {
      assert DirOk(v, d) && SlotsOk(cat, Sub(d), SlotsOf(v, Sub(d)));
    }
  }

  lemma AddEntryKeeps(v: Vol, cat: Catalog, place: Place, e: Slot)
    requires Inv(v, cat) && Known(cat, place) && Reachable(v, place) && e[0] != 0
    requires var i := FirstVacant(SlotsOf(v, place)); i < |SlotsOf(v, place)| && EntryOk(cat, place, i, e)
    ensures Inv(WithSlot(v, place, FirstVacant(SlotsOf(v, place)), e), cat)
  {
    AddEntryKeepsFiles(v, cat, place, FirstVacant(SlotsOf(v, place)), e);
    AddEntryKeepsSlots(v, cat, place, e);
  }

  /** The catalogue only grows. */
  predicate Extends(cat: Catalog, after: Catalog) {
    && (forall f :: f in cat.files ==> f in after.files && after.files[f] == cat.files[f])
    && (forall d :: d in cat.dirs ==> d in after.dirs && after.dirs[d] == cat.dirs[d])
  }

  lemma SlotsOkGrows(cat: Catalog, after: Catalog, place: Place, slots: seq<Slot>)
    requires Extends(cat, after) && SlotsOk(cat, place, slots)
    ensures SlotsOk(after, place, slots)
  {
    forall i | 0 <= i < |slots| && slots[i][0] != 0 ensures EntryOk(after, place, i, slots[i]) {
      assert EntryOk(cat, place, i, slots[i]);
    }
  }

  lemma InvGrows(v: Vol, cat: Catalog, after: Catalog)
    requires Inv(v, cat) && Extends(cat, after) && Apart(after)
    requires forall f :: f in after.files ==> FileOk(v, f, after.files[f])
    requires forall d :: d in after.dirs ==> DirOk(v, d)
    requires forall d :: d in after.dirs && d !in cat.dirs ==> DirOk(v, d) && SlotsOk(after, Sub(d), SlotsOf(v, Sub(d)))
    ensures Inv(v, after)
  {
    SlotsOkGrows(cat, after, Root, SlotsOf(v, Root));
    forall d | d in after.dirs ensures SlotsOk(after, Sub(d), SlotsOf(v, Sub(d))) {
      if d in cat.dirs {
        SlotsOkGrows(cat, after, Sub(d), SlotsOf(v, Sub(d)));
      }
    }
  }

  lemma RecordFile(v: Vol, cat: Catalog, f: U16, file: File)
    requires Inv(v, cat) && FileOk(v, f, file) && Avoids(cat, file.chain)
    ensures f !in cat.files && Inv(v, cat.(files := cat.files[f := file]))
  {
    forall g | g in cat.files ensures g != f {
      assert FileOk(v, g, cat.files[g]);
      assert cat.files[g].chain[0] != file.chain[0];
    }
    InvGrows(v, cat, cat.(files := cat.files[f := file]));
  }

  lemma RecordDir(v: Vol, cat: Catalog, c: U16, i: nat)
    requires Inv(v, cat) && DirOk(v, c) && Avoids(cat, [c]) && SlotsOk(cat, Sub(c), SlotsOf(v, Sub(c)))
    ensures c !in cat.dirs && Inv(v, cat.(dirs := cat.dirs[c := i]))
  {
    var after := cat.(dirs := cat.dirs[c := i]);
    forall f | f in cat.files ensures c !in cat.files[f].chain {
      assert Disjoint(cat.files[f].chain, [c]) && [c][0] == c;
    }
    SlotsOkGrows(cat, after, Sub(c), SlotsOf(v, Sub(c)));
    InvGrows(v, cat, after);
  }

  lemma DirImageSlots(c: U16)
    ensures var s := Slots(DirImage(c));
            && s[0] == MakeSlot(DOT, [], ATTR_DIRECTORY, c, 0)
            && s[1] == MakeSlot(DOT_DOT, [], ATTR_DIRECTORY, 0, 0)
            && forall i :: 2 <= i < |s| ==> s[i][0] == 0
  {
    var s := Slots(DirImage(c));
    var first := DotSector(c);
    assert s[0] == first[0..32] && s[1] == first[32..64];
    forall i | 2 <= i < |s| ensures s[i][0] == 0 {
      if i >= 16 {
        assert DirImage(c)[i / 16] == BLANK;
      }
    }
  }

  lemma DirImageOk(cat: Catalog, c: U16)
    ensures SlotsOk(cat, Sub(c), Slots(DirImage(c)))
  {
    DirImageSlots(c);
    SlotRoundTrip(DOT, [], ATTR_DIRECTORY, c, 0);
    SlotRoundTrip(DOT_DOT, [], ATTR_DIRECTORY, 0, 0);
  }

  // ---------------------------------------------------------------- one step

  /** The caller names a directory it was given, and a size that fits its type. */
  predicate Allowed(cat: Catalog, op: Op) {
    op.Create? ==> Known(cat, op.place) && |op.bytes| < 0x1_0000_0000
  }

  lemma ReachableIfKnown(v: Vol, cat: Catalog, place: Place)
    requires Inv(v, cat) && Known(cat, place)
    ensures Reachable(v, place) && SlotsOk(cat, place, SlotsOf(v, place))
  {
    if place.Sub? { assert DirOk(v, place.cluster); }
  }

  lemma MakeDirOpened(v: Vol, cat: Catalog, c: U16)
    requires Inv(v, cat) && c == Alloc(v.fat) != 0
    ensures Inv(Opened(v, c), cat) && Avoids(cat, [c])
    ensures OnDisk(v.data, c) ==> DirOk(Opened(v, c), c) && SlotsOk(cat, Sub(c), SlotsOf(Opened(v, c), Sub(c)))
    ensures OnDisk(v.data, c) ==> SlotsOf(Opened(v, c), Sub(c)) == Slots(DirImage(c))
    ensures forall d :: d in cat.dirs ==>
              OnDisk(v.data, d) && OnDisk(Opened(v, c).data, d) && SlotsOf(Opened(v, c), Sub(d)) == SlotsOf(v, Sub(d))
  {
    FreeIsAvoided(v, cat, [c]);
    var u := Opened(v, c);
    forall j | 0 <= j < |v.data| && j / CLUSTER_SECTORS + 2 !in [c] ensures u.data[j] == v.data[j] {
      assert j / CLUSTER_SECTORS != c - 2;
    }
    Frame(v, u, cat, [c]);
    if OnDisk(v.data, c) {
      BlitBack(v.data, c, DirImage(c));
      DirImageOk(cat, c);
    }
    forall d | d in cat.dirs ensures OnDisk(v.data, d) { assert DirOk(v, d); }
  }

  lemma MakeDirKeeps(v: Vol, cat: Catalog, op: Op)
    requires Inv(v, cat) && op.MakeDir?
    ensures var out := Step(v, op); Inv(out.vol, Record(cat, op, out))
  {
    var c, out := Alloc(v.fat), Step(v, op);
    if c != 0 {
      MakeDirOpened(v, cat, c);
      var u := Opened(v, c);
      if out.ok {
        RecordDir(u, cat, c, out.index);
        var e := MakeSlot(op.name, op.ext, ATTR_DIRECTORY, c, 0);
        SlotRoundTrip(op.name, op.ext, ATTR_DIRECTORY, c, 0);
        AddEntryKeeps(u, Record(cat, op, out), Root, e);
      }
    }
  }

  lemma StoreKeeps(v: Vol, cat: Catalog, bytes: seq<Byte>)
    requires Inv(v, cat)
    ensures var w := Store(v, bytes);
            && Inv(w.vol, cat) && Avoids(cat, w.chain)
            && w.vol.root == v.root
            && forall d :: d in cat.dirs ==>
                 OnDisk(v.data, d) && OnDisk(w.vol.data, d) && SlotsOf(w.vol, Sub(d)) == SlotsOf(v, Sub(d))
  {
    StoreSound(v, bytes);
    var w := Store(v, bytes);
    FreeIsAvoided(v, cat, w.chain);
    Frame(v, w.vol, cat, w.chain);
    forall d | d in cat.dirs ensures OnDisk(v.data, d) { assert DirOk(v, d); }
  }

  lemma CreateKeeps(v: Vol, cat: Catalog, op: Op)
    requires Inv(v, cat) && op.Create? && Allowed(cat, op) && Reachable(v, op.place)
    ensures var out := Step(v, op); Inv(out.vol, Record(cat, op, out))
  {
    var w, out := Store(v, op.bytes), Step(v, op);
    StoreKeeps(v, cat, op.bytes);
    StoreSound(v, op.bytes);
    if out.ok {
      var after := Record(cat, op, out);
      if op.bytes != [] {
        RecordFile(w.vol, cat, out.cluster, File(w.chain, op.bytes, op.place, out.index));
      }
      ReachableIfKnown(w.vol, after, op.place);
      SlotRoundTrip(op.name, op.ext, ATTR_FILE, out.cluster, |op.bytes|);
      AddEntryKeeps(w.vol, after, op.place, MakeSlot(op.name, op.ext, ATTR_FILE, out.cluster, |op.bytes|));
    }
  }

  /** Every operation keeps the invariant, whether it succeeds or fails. */
  lemma StepKeeps(v: Vol, cat: Catalog, op: Op)
    requires Inv(v, cat) && Allowed(cat, op)
    ensures op.Create? ==> Reachable(v, op.place)
    ensures var out := Step(v, op); Inv(out.vol, Record(cat, op, out))
  {
    if op.Create? {
      ReachableIfKnown(v, cat, op.place);
      CreateKeeps(v, cat, op);
    } else {
      MakeDirKeeps(v, cat, op);
    }
  }

  // ---------------------------------------------------------------- what a step does to a directory

  function PlaceOf(op: Op): Place {
    if op.Create? then op.place else Root
  }

  function KeyOf(op: Op): seq<Byte> {
    Key(op.name, op.ext)
  }

  function NewSlot(op: Op, cluster: U16): Slot {
    match op
    case MakeDir(name, ext) => MakeSlot(name, ext, ATTR_DIRECTORY, cluster, 0)
    case Create(_, name, ext, bytes) => MakeSlot(name, ext, ATTR_FILE, cluster, |bytes|)
  }

  /** The volume just before the entry is written: the same directories. */
  function Prepared(v: Vol, op: Op): (u: Vol)
    requires Shaped(v)
    ensures Shaped(u)
  {
    if op.Create? then Store(v, op.bytes).vol
    else if Alloc(v.fat) == 0 then v
    else Opened(v, Alloc(v.fat))
  }

  lemma PreparedSlots(v: Vol, cat: Catalog, op: Op, place: Place)
    requires Inv(v, cat) && Known(cat, place)
    ensures Inv(Prepared(v, op), cat)
    ensures Reachable(v, place) && Reachable(Prepared(v, op), place)
    ensures SlotsOf(Prepared(v, op), place) == SlotsOf(v, place)
  {
    if op.Create? {
      StoreKeeps(v, cat, op.bytes);
    } else if Alloc(v.fat) != 0 {
      MakeDirOpened(v, cat, Alloc(v.fat));
    }
    ReachableIfKnown(v, cat, place);
  }

  lemma StepFromPrepared(v: Vol, op: Op)
    requires Shaped(v) && Reachable(v, PlaceOf(op)) && Reachable(Prepared(v, op), PlaceOf(op))
    ensures var out, u := Step(v, op), Prepared(v, op);
            if out.ok then
              && out.index == FirstVacant(SlotsOf(u, PlaceOf(op))) < |SlotsOf(u, PlaceOf(op))|
              && out.vol == WithSlot(u, PlaceOf(op), out.index, NewSlot(op, out.cluster))
            else out.vol == u
  {
  }

  /** A known directory changes only when an entry is added to it: in its first vacant slot. */
  lemma StepSlots(v: Vol, cat: Catalog, op: Op, place: Place)
    requires Inv(v, cat) && Allowed(cat, op) && Known(cat, place)
    ensures op.Create? ==> Reachable(v, op.place)
    ensures var out := Step(v, op);
            && Reachable(v, place) && Reachable(out.vol, place)
            && var slots := SlotsOf(v, place);
               if out.ok && PlaceOf(op) == place
               then out.index == FirstVacant(slots) < |slots|
                    && SlotsOf(out.vol, place) == slots[out.index := NewSlot(op, out.cluster)]
               else SlotsOf(out.vol, place) == slots
  {
    PreparedSlots(v, cat, op, place);
    PreparedSlots(v, cat, op, PlaceOf(op));
    StepFromPrepared(v, op);
    var out := Step(v, op);
    if out.ok {
      WithSlotSlots(Prepared(v, op), cat, PlaceOf(op), out.index, NewSlot(op, out.cluster));
    }
  }

  /** A new directory holds "." and ".." and nothing else. */
  lemma NewDirSlots(v: Vol, cat: Catalog, op: Op)
    requires Inv(v, cat) && op.MakeDir? && Step(v, op).ok
    ensures var out := Step(v, op);
            && OnDisk(out.vol.data, out.cluster) && out.cluster !in cat.dirs
            && SlotsOf(out.vol, Sub(out.cluster)) == Slots(DirImage(out.cluster))
  {
    MakeDirOpened(v, cat, Alloc(v.fat));
  }

  // ---------------------------------------------------------------- runs

  datatype State = State(vol: Vol, cat: Catalog)

  ghost function After(s: State, op: Op): (r: State)
    requires Inv(s.vol, s.cat) && Allowed(s.cat, op)
    ensures Inv(r.vol, r.cat)
  {
    StepKeeps(s.vol, s.cat, op);
    var out := Step(s.vol, op);
    State(out.vol, Record(s.cat, op, out))
  }

  /** Each operation names a directory that exists when it is called. */
  ghost predicate Legal(s: State, ops: seq<Op>)
    requires Inv(s.vol, s.cat)
    decreases |ops|
  {
    ops != [] ==> Allowed(s.cat, ops[0]) && Legal(After(s, ops[0]), ops[1..])
  }

  ghost function Run(s: State, ops: seq<Op>): (r: State)
    requires Inv(s.vol, s.cat) && Legal(s, ops)
    ensures Inv(r.vol, r.cat)
    decreases |ops|
  {
    if ops == [] then s else Run(After(s, ops[0]), ops[1..])
  }

  /** What `fat16_format` leaves: two reserved entries, every cluster free, an empty root. */
  function Formatted(data: seq<Sector>): Vol {
    Vol([0xFFF8, 0xFFFF] + seq(FAT_ENTRIES - 2, _ => 0), seq(ROOT_SECTORS, _ => BLANK), data)
  }

  const EMPTY := Catalog(map[], map[])

  lemma FormattedInv(data: seq<Sector>)
    ensures Inv(Formatted(data), EMPTY)
    ensures forall i :: 0 <= i < |SlotsOf(Formatted(data), Root)| ==> SlotsOf(Formatted(data), Root)[i][0] == 0
  {
    var v := Formatted(data);
    forall i | 0 <= i < |SlotsOf(v, Root)| ensures SlotsOf(v, Root)[i][0] == 0 {
      assert v.root[i / 16] == BLANK;
    }
  }

  /** The state every run starts from. */
  ghost function Fresh(data: seq<Sector>): (s: State)
    ensures Inv(s.vol, s.cat)
  {
    FormattedInv(data);
    State(Formatted(data), EMPTY)
  }

  // ---------------------------------------------------------------- names

  /** No visible entry of the directory carries `key`, except possibly at slot `at`. */
  ghost predicate Unique(s: State, place: Place, key: seq<Byte>, at: int)
    requires Inv(s.vol, s.cat)
  {
    Known(s.cat, place) ==>
      && Reachable(s.vol, place)
      && forall i :: 0 <= i < |SlotsOf(s.vol, place)| && i != at && Visible(SlotsOf(s.vol, place)[i]) ==>
           SlotsOf(s.vol, place)[i][..11] != key
  }

  predicate Proper8Dot3(key: seq<Byte>) {
    key != Key(DOT, []) && key != Key(DOT_DOT, [])
  }

  lemma NewSlotFields(op: Op, cluster: U16)
    requires op.Create? ==> |op.bytes| < 0x1_0000_0000
    ensures var e := NewSlot(op, cluster);
            && e[..11] == KeyOf(op) && Cluster(e) == cluster && e[0] != 0
            && e[11] == (if op.Create? then ATTR_FILE else ATTR_DIRECTORY)
            && Size(e) == (if op.Create? then |op.bytes| else 0)
            && (e[0] == DELETED <==> op.name != [] && op.name[0] == DELETED)
  {
    SlotRoundTrip(op.name, op.ext, if op.Create? then ATTR_FILE else ATTR_DIRECTORY, cluster,
                  if op.Create? then |op.bytes| else 0);
  }

  lemma StepUnique(s: State, op: Op, place: Place, key: seq<Byte>, at: int)
    requires Inv(s.vol, s.cat) && Allowed(s.cat, op) && Unique(s, place, key, at)
    requires Proper8Dot3(key) && !(PlaceOf(op) == place && KeyOf(op) == key)
    ensures Unique(After(s, op), place, key, at)
  {
    var t, out := After(s, op), Step(s.vol, op);
    if Known(s.cat, place) {
      StepSlots(s.vol, s.cat, op, place);
      NewSlotFields(op, out.cluster);
    } else if Known(t.cat, place) {
      NewDirSlots(s.vol, s.cat, op);
      DirImageNames(out.cluster, key);
    }
  }

  lemma DirImageNames(c: U16, key: seq<Byte>)
    requires Proper8Dot3(key)
    ensures var slots := Slots(DirImage(c));
            forall i :: 0 <= i < |slots| && Visible(slots[i]) ==> slots[i][..11] != key
  {
    DirImageSlots(c);
    SlotRoundTrip(DOT, [], ATTR_DIRECTORY, c, 0);
    SlotRoundTrip(DOT_DOT, [], ATTR_DIRECTORY, 0, 0);
  }

  /** No operation of the run creates `key` in `place`. */
  predicate Others(ops: seq<Op>, place: Place, key: seq<Byte>) {
    forall i :: 0 <= i < |ops| ==> !(PlaceOf(ops[i]) == place && KeyOf(ops[i]) == key)
  }

  lemma {:induction false} RunUnique(s: State, ops: seq<Op>, place: Place, key: seq<Byte>, at: int)
    requires Inv(s.vol, s.cat) && Legal(s, ops) && Unique(s, place, key, at)
    requires Proper8Dot3(key) && Others(ops, place, key)
    ensures Unique(Run(s, ops), place, key, at)
    decreases |ops|
  {
    if ops != [] {
      StepUnique(s, ops[0], place, key, at);
      assert forall i :: 0 <= i < |ops[1..]| ==> ops[1..][i] == ops[i + 1];
      RunUnique(After(s, ops[0]), ops[1..], place, key, at);
    }
  }

  /** An entry in use whose name does not start with 0xE5 never moves and never changes. */
  lemma {:induction false} RunStays(s: State, ops: seq<Op>, place: Place, i: nat)
    requires Inv(s.vol, s.cat) && Legal(s, ops) && Known(s.cat, place) && Reachable(s.vol, place)
    requires i < |SlotsOf(s.vol, place)| && !Vacant(SlotsOf(s.vol, place)[i])
    ensures var t := Run(s, ops);
            && Known(t.cat, place) && Reachable(t.vol, place) && i < |SlotsOf(t.vol, place)|
            && SlotsOf(t.vol, place)[i] == SlotsOf(s.vol, place)[i]
    decreases |ops|
  {
    if ops != [] {
      StepSlots(s.vol, s.cat, ops[0], place);
      RunStays(After(s, ops[0]), ops[1..], place, i);
    }
  }

  lemma NewFileIsNew(v: Vol, cat: Catalog, op: Op)
    requires Inv(v, cat) && op.Create? && op.bytes != [] && Reachable(v, op.place) && Step(v, op).ok
    ensures Step(v, op).cluster !in cat.files
  {
    var w := Store(v, op.bytes);
    StoreKeeps(v, cat, op.bytes);
    StoreSound(v, op.bytes);
    RecordFile(w.vol, cat, w.chain[0], File(w.chain, op.bytes, op.place, 0));
  }

  lemma StepExtends(s: State, op: Op)
    requires Inv(s.vol, s.cat) && Allowed(s.cat, op)
    ensures Extends(s.cat, After(s, op).cat)
  {
    StepKeeps(s.vol, s.cat, op);
    if Step(s.vol, op).ok {
      if op.MakeDir? {
        NewDirSlots(s.vol, s.cat, op);
      } else if op.bytes != [] {
        NewFileIsNew(s.vol, s.cat, op);
      }
    }
  }

  /** The catalogue's records stay: every file keeps its chain and bytes, every directory its
      cluster, also one whose slot has been taken over since. */
  lemma {:induction false} RunExtends(s: State, ops: seq<Op>)
    requires Inv(s.vol, s.cat) && Legal(s, ops)
    ensures Extends(s.cat, Run(s, ops).cat)
    ensures forall f :: f in s.cat.files ==>
              Stored(Run(s, ops).vol, s.cat.files[f].chain, s.cat.files[f].bytes)
    ensures forall d :: d in s.cat.dirs ==> DirOk(Run(s, ops).vol, d)
    decreases |ops|
  {
    if ops == [] {
      forall f | f in s.cat.files ensures Stored(s.vol, s.cat.files[f].chain, s.cat.files[f].bytes) {
        assert FileOk(s.vol, f, s.cat.files[f]);
      }
    } else {
      var t := After(s, ops[0]);
      StepExtends(s, ops[0]);
      RunExtends(t, ops[1..]);
      assert forall f :: f in s.cat.files ==> f in t.cat.files && t.cat.files[f] == s.cat.files[f];
    }
  }
}
