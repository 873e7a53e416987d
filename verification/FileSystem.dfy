/** What a run of directory and file creations guarantees to its callers. */
module FileSystem {
  import opened Words
  import opened Sectors
  import opened FatTable
  import opened Directory
  import opened Volume
  import opened Storage
  import opened Catalog
  import opened Runs

  // ---------------------------------------------------------------- finding what was created

  predicate StartsDeleted(op: Op) {
    op.name != [] && op.name[0] == DELETED
  }

  /** Right after a successful creation the name is found if and only if it has no lower-case
      letter (queries are upper-cased, stored names are not) and does not start with 0xE5
      (which marks a deleted slot). */
  lemma CreateThenFind(s: State, op: Op)
    requires Inv(s.vol, s.cat) && Allowed(s.cat, op)
    requires Unique(s, PlaceOf(op), Query(op.name, op.ext), -1)
    ensures op.Create? ==> Reachable(s.vol, op.place)
    ensures var out := Step(s.vol, op);
            out.ok ==>
              && Reachable(out.vol, PlaceOf(op))
              && (Lookup(SlotsOf(out.vol, PlaceOf(op)), Query(op.name, op.ext)).Some?
                  <==> NoLower(KeyOf(op)) && !StartsDeleted(op))
  {
    var place, query := PlaceOf(op), Query(op.name, op.ext);
    StepSlots(s.vol, s.cat, op, place);
    var out := Step(s.vol, op);
    if out.ok {
      var t := After(s, op);
      ReachableIfKnown(t.vol, t.cat, place);
      NewSlotFields(op, out.cluster);
      QueryFindsItself(op.name, op.ext);
      FoundIff(SlotsOf(s.vol, place), out.index, NewSlot(op, out.cluster), query);
    }
  }

  lemma FoundIff(slots: seq<Slot>, i: nat, e: Slot, query: seq<Byte>)
    requires i < |slots| && Compact(slots[i := e])
    requires forall k :: 0 <= k < |slots| && Visible(slots[k]) ==> slots[k][..11] != query
    ensures Lookup(slots[i := e], query).Some? <==> Visible(e) && e[..11] == query
  {
    var after := slots[i := e];
    LookupIsFirstMatch(after, query);
    if Visible(e) && e[..11] == query {
      assert FirstMatch(after, query, i);
    } else {
      AbsentIsNone(after, query);
    }
  }

  lemma {:induction false} AbsentIsNone(slots: seq<Slot>, query: seq<Byte>)
    requires forall k :: 0 <= k < |slots| && Visible(slots[k]) ==> slots[k][..11] != query
    ensures Lookup(slots, query).None?
  {
    if slots != [] {
      assert forall k :: 0 <= k < |slots| - 1 ==> slots[1..][k] == slots[k + 1];
      AbsentIsNone(slots[1..], query);
    }
  }

  /** An object created once is found for ever after, under every spelling of its name in capitals
      or lower case: through any later run in which nothing else takes that name in that
      directory. */
  lemma CreatedIsFound(s: State, op: Op, post: seq<Op>, name: CStr, ext: CStr)
    requires Spells(name, op.name) && Spells(ext, op.ext)
    requires Inv(s.vol, s.cat) && Allowed(s.cat, op) && Unique(s, PlaceOf(op), KeyOf(op), -1)
    requires op.Create? ==> Reachable(s.vol, op.place)
    requires Step(s.vol, op).ok && Legal(After(s, op), post)
    requires Proper8Dot3(KeyOf(op)) && NoLower(KeyOf(op)) && !StartsDeleted(op)
    requires Others(post, PlaceOf(op), KeyOf(op))
    ensures var t := Run(After(s, op), post);
            && Reachable(t.vol, PlaceOf(op))
            && Lookup(SlotsOf(t.vol, PlaceOf(op)), Query(name, ext))
                 == Some(Parse(NewSlot(op, Step(s.vol, op).cluster)))
  {
    var out := Step(s.vol, op);
    CreatedAt(s, op);
    QueryFindsSpelled(name, ext, op.name, op.ext);
    StaysFound(After(s, op), post, PlaceOf(op), out.index, KeyOf(op));
  }

  lemma CreatedAt(s: State, op: Op)
    requires Inv(s.vol, s.cat) && Allowed(s.cat, op) && Unique(s, PlaceOf(op), KeyOf(op), -1)
    requires op.Create? ==> Reachable(s.vol, op.place)
    requires Step(s.vol, op).ok && !StartsDeleted(op)
    ensures var out, t, place := Step(s.vol, op), After(s, op), PlaceOf(op);
            && Known(t.cat, place) && Reachable(t.vol, place) && out.index < |SlotsOf(t.vol, place)|
            && Unique(t, place, KeyOf(op), out.index)
            && var e := SlotsOf(t.vol, place)[out.index];
               e == NewSlot(op, out.cluster) && e[..11] == KeyOf(op) && Visible(e)
  {
    var place, out := PlaceOf(op), Step(s.vol, op);
    StepSlots(s.vol, s.cat, op, place);
    NewSlotFields(op, out.cluster);
    UniqueAfter(SlotsOf(s.vol, place), out.index, NewSlot(op, out.cluster), KeyOf(op));
  }

  lemma UniqueAfter(slots: seq<Slot>, i: nat, e: Slot, key: seq<Byte>)
    requires i < |slots| && forall k :: 0 <= k < |slots| && Visible(slots[k]) ==> slots[k][..11] != key
    ensures var after := slots[i := e];
            forall k :: 0 <= k < |after| && k != i && Visible(after[k]) ==> after[k][..11] != key
  {
  }

  lemma StaysFound(s: State, post: seq<Op>, place: Place, i: nat, key: seq<Byte>)
    requires Inv(s.vol, s.cat) && Legal(s, post) && Known(s.cat, place) && Reachable(s.vol, place)
    requires i < |SlotsOf(s.vol, place)| && Visible(SlotsOf(s.vol, place)[i])
    requires SlotsOf(s.vol, place)[i][..11] == key && Unique(s, place, key, i)
    requires Proper8Dot3(key) && Others(post, place, key)
    ensures var t := Run(s, post);
            Reachable(t.vol, place)
            && Lookup(SlotsOf(t.vol, place), key) == Some(Parse(SlotsOf(s.vol, place)[i]))
  {
    var t := Run(s, post);
    RunStays(s, post, place, i);
    RunUnique(s, post, place, key, i);
    ReachableIfKnown(t.vol, t.cat, place);
    LookupIsFirstMatch(SlotsOf(t.vol, place), key);
    assert FirstMatch(SlotsOf(t.vol, place), key, i);
  }

  /** The file round trip over whole runs. On a freshly formatted volume, after any run `pre`,
      a file is created, and any run `post` follows; no other operation uses its name in its
      directory. Then it is found under every spelling of its name with its exact size, and reading it delivers
      exactly its bytes if and only if, when it was created, it needed at most one cluster or the
      free clusters below the end marks sufficed for it. */
  lemma FileRoundTrip(data: seq<Sector>, pre: seq<Op>, op: Op, post: seq<Op>, s: State, name: CStr, ext: CStr)
    requires Spells(name, op.name) && Spells(ext, op.ext)
    requires op.Create?
    requires Legal(Fresh(data), pre) && s == Run(Fresh(data), pre)
    requires Allowed(s.cat, op) && Reachable(s.vol, op.place)
    requires Step(s.vol, op).ok && Legal(After(s, op), post)
    requires Proper8Dot3(KeyOf(op)) && NoLower(KeyOf(op)) && !StartsDeleted(op)
    requires Others(pre, op.place, KeyOf(op)) && Others(post, op.place, KeyOf(op))
    ensures var t := Run(After(s, op), post);
            && Reachable(t.vol, op.place)
            && var found := Lookup(SlotsOf(t.vol, op.place), Query(name, ext));
               && found.Some? && found.value.size == |op.bytes| && found.value.attr == ATTR_FILE
               && (op.bytes == [] ==> found.value.cluster == 0)
               && (op.bytes != [] ==>
                     (Deliver(t.vol, found.value.cluster, found.value.size) == Delivered(op.bytes)
                      <==> LinksBelowEndMarks(s.vol.fat, |op.bytes|)))
  {
    NameIsNew(data, pre, op);
    CreatedIsFound(s, op, post, name, ext);
    NewSlotFields(op, Step(s.vol, op).cluster);
    if op.bytes != [] {
      CreatedReadsBack(s, op, post);
    }
  }

  lemma NameIsNew(data: seq<Sector>, pre: seq<Op>, op: Op)
    requires Legal(Fresh(data), pre) && Proper8Dot3(KeyOf(op)) && Others(pre, PlaceOf(op), KeyOf(op))
    ensures Unique(Run(Fresh(data), pre), PlaceOf(op), KeyOf(op), -1)
  {
    FormattedInv(data);
    assert Unique(Fresh(data), PlaceOf(op), KeyOf(op), -1);
    RunUnique(Fresh(data), pre, PlaceOf(op), KeyOf(op), -1);
  }

  lemma CreatedReadsBack(s: State, op: Op, post: seq<Op>)
    requires Inv(s.vol, s.cat) && Allowed(s.cat, op) && op.Create? && op.bytes != []
    requires Reachable(s.vol, op.place) && Step(s.vol, op).ok && Legal(After(s, op), post)
    ensures Deliver(Run(After(s, op), post).vol, Step(s.vol, op).cluster, |op.bytes|) == Delivered(op.bytes)
       <==> LinksBelowEndMarks(s.vol.fat, |op.bytes|)
  {
    CreatedIsStored(s, op, post);
    ReadBackExactly(Run(After(s, op), post).vol, Step(s.vol, op).chain, op.bytes);
    StepChain(s.vol, op);
    ReadableIff(s.vol, op.bytes);
  }

  lemma StepChain(v: Vol, op: Op)
    requires Shaped(v) && op.Create? && Reachable(v, op.place) && Step(v, op).ok
    ensures Store(v, op.bytes).ok && Step(v, op).chain == Store(v, op.bytes).chain
  {
  }

  /** The bytes of a created file stay stored along its chain whatever happens later. */
  lemma CreatedIsStored(s: State, op: Op, post: seq<Op>)
    requires Inv(s.vol, s.cat) && Allowed(s.cat, op) && op.Create? && op.bytes != []
    requires Reachable(s.vol, op.place) && Step(s.vol, op).ok && Legal(After(s, op), post)
    ensures var out, t := Step(s.vol, op), Run(After(s, op), post);
            && out.chain != [] && out.chain[0] == out.cluster && Stored(t.vol, out.chain, op.bytes)
  {
    var out := Step(s.vol, op);
    RunExtends(After(s, op), post);
    var t := Run(After(s, op), post);
    assert FileOk(t.vol, out.cluster, t.cat.files[out.cluster]);
  }

  // ---------------------------------------------------------------- chains

  /** The clusters an entry owns. "." and ".." own nothing: they name other entries' clusters. */
  function ChainOf(cat: Catalog, place: Place, e: Slot): seq<U16>
    requires e[11] == ATTR_FILE && Size(e) > 0 ==> Cluster(e) in cat.files
  {
    if e[11] == ATTR_FILE then (if Size(e) == 0 then [] else cat.files[Cluster(e)].chain)
    else if place.Root? then [Cluster(e)]
    else []
  }

  ghost predicate InUse(v: Vol, cat: Catalog, place: Place, i: nat)
    requires Inv(v, cat)
  {
    Known(cat, place) && Reachable(v, place) && i < |SlotsOf(v, place)| && SlotsOf(v, place)[i][0] != 0
  }

  /** In every state that keeps the invariant, and so after every run, the chain of an entry
      starts at its cluster field, never repeats a cluster, is closed by 0xFFFF, and has
      exactly ceil(size / 32768) clusters for a file. */
  lemma EntryChain(v: Vol, cat: Catalog, place: Place, i: nat)
    requires Inv(v, cat) && InUse(v, cat, place, i)
    ensures var e := SlotsOf(v, place)[i];
            && EntryOk(cat, place, i, e)
            && var chain := ChainOf(cat, place, e);
               && Distinct(chain) && Proper(chain) && Linked(v.fat, chain)
               && (chain != [] ==> chain[0] == Cluster(e))
               && (e[11] == ATTR_FILE ==> |chain| == Clusters(Size(e)))
               && (e[11] != ATTR_FILE && place.Root? ==> |chain| == 1)
  {
    ReachableIfKnown(v, cat, place);
    var e := SlotsOf(v, place)[i];
    assert EntryOk(cat, place, i, e);
    if e[11] == ATTR_FILE && Size(e) > 0 {
      assert FileOk(v, Cluster(e), cat.files[Cluster(e)]);
    } else if e[11] != ATTR_FILE && place.Root? {
      assert DirOk(v, Cluster(e));
    }
  }

  /** Two different entries never share a cluster. */
  lemma EntriesDisjoint(v: Vol, cat: Catalog, p: Place, i: nat, q: Place, j: nat)
    requires Inv(v, cat) && InUse(v, cat, p, i) && InUse(v, cat, q, j) && (p, i) != (q, j)
    ensures EntryOk(cat, p, i, SlotsOf(v, p)[i]) && EntryOk(cat, q, j, SlotsOf(v, q)[j])
    ensures Disjoint(ChainOf(cat, p, SlotsOf(v, p)[i]), ChainOf(cat, q, SlotsOf(v, q)[j]))
  {
    ReachableIfKnown(v, cat, p);
    ReachableIfKnown(v, cat, q);
    var e, f := SlotsOf(v, p)[i], SlotsOf(v, q)[j];
    assert EntryOk(cat, p, i, e) && EntryOk(cat, q, j, f);
  }

  /** Clusters an operation needs. */
  function Need(op: Op): nat {
    if op.Create? then Clusters(|op.bytes|) else 1
  }

  /** Every operation, successful or not, lowers the number of free entries by the clusters it
      took; a successful one takes exactly what its object needs. */
  lemma StepCost(v: Vol, op: Op)
    requires Shaped(v) && (op.Create? ==> Reachable(v, op.place))
    ensures var out := Step(v, op);
            && TakesFree(v.fat, out.vol.fat, out.chain)
            && |FreeBelow(out.vol.fat, FAT_ENTRIES)| + |out.chain| == |FreeBelow(v.fat, FAT_ENTRIES)|
            && (out.ok ==> |out.chain| == Need(op))
  {
    var out := Step(v, op);
    StepTakes(v, op);
    FreeAfter(v.fat, out.vol.fat, out.chain);
  }

  /** An operation costs no cluster if and only if it has no data to store or the table is full;
      so a create that fails for any other reason keeps the clusters it took. */
  lemma FreeOfCost(v: Vol, op: Op)
    requires Shaped(v) && (op.Create? ==> Reachable(v, op.place))
    ensures |FreeBelow(Step(v, op).vol.fat, FAT_ENTRIES)| == |FreeBelow(v.fat, FAT_ENTRIES)|
       <==> (op.Create? && op.bytes == []) || Alloc(v.fat) == 0
  {
    StepCost(v, op);
    if op.Create? && op.bytes != [] && Alloc(v.fat) != 0 {
      WriteChainTakes(v.(fat := v.fat[Alloc(v.fat) := END_OF_CHAIN]), Alloc(v.fat), op.bytes);
    }
  }

  lemma StepTakes(v: Vol, op: Op)
    requires Shaped(v) && (op.Create? ==> Reachable(v, op.place))
    ensures var out := Step(v, op);
            TakesFree(v.fat, out.vol.fat, out.chain) && (out.ok ==> |out.chain| == Need(op))
  {
    if op.Create? {
      StoreSound(v, op.bytes);
    } else {
      assert Step(v, op).chain == if Alloc(v.fat) == 0 then [] else [Alloc(v.fat)];
    }
  }

  // ---------------------------------------------------------------- confinement

  /** Every object of the catalogue lies below cluster `limit`. */
  predicate Inside(cat: Catalog, limit: nat) {
    && (forall f :: f in cat.files ==> Below(cat.files[f].chain, limit))
    && (forall d :: d in cat.dirs ==> d < limit)
  }

  /** The free clusters below `limit` cover what the operation needs. */
  predicate Fits(v: Vol, op: Op, limit: nat)
    requires Shaped(v)
  {
    limit <= FAT_ENTRIES && Need(op) <= |FreeBelow(v.fat, limit)|
  }

  predicate SameFrom(before: seq<Sector>, after: seq<Sector>, limit: nat)
    requires 2 <= limit
  {
    |before| == |after| && forall j :: CLUSTER_SECTORS * (limit - 2) <= j < |before| ==> after[j] == before[j]
  }

  lemma PreparedConfined(v: Vol, op: Op, limit: nat)
    requires Shaped(v) && 2 <= limit <= FAT_ENTRIES && CLUSTER_SECTORS * (limit - 2) <= |v.data|
    requires Fits(v, op, limit) && (op.Create? ==> Reachable(v, op.place))
    ensures Below(Step(v, op).chain, limit) && SameFrom(v.data, Prepared(v, op).data, limit)
  {
    if op.Create? {
      StoreConfined(v, op.bytes, limit);
      StoreSound(v, op.bytes);
      ConfinedFrame(v.data, Prepared(v, op).data, Store(v, op.bytes).chain, limit);
    } else {
      AllocInRange(v.fat, limit);
      assert |FreeBelow(v.fat, limit)| >= 1;
    }
  }

  /** An operation that fits takes only clusters of the partition and changes no sector past
      them. */
  lemma StepConfined(s: State, op: Op, limit: nat)
    requires Inv(s.vol, s.cat) && Allowed(s.cat, op) && Inside(s.cat, limit)
    requires 2 <= limit && CLUSTER_SECTORS * (limit - 2) <= |s.vol.data| && Fits(s.vol, op, limit)
    ensures var t := After(s, op); Inside(t.cat, limit) && SameFrom(s.vol.data, t.vol.data, limit)
  {
    StepKeeps(s.vol, s.cat, op);
    PreparedConfined(s.vol, op, limit);
    EntryConfined(s.vol, s.cat, op, limit);
    RecordInside(s.vol, s.cat, op, limit);
  }

  lemma RecordInside(v: Vol, cat: Catalog, op: Op, limit: nat)
    requires Shaped(v) && (op.Create? ==> Reachable(v, op.place))
    requires Inside(cat, limit) && Below(Step(v, op).chain, limit)
    ensures Inside(Record(cat, op, Step(v, op)), limit)
  {
    var out := Step(v, op);
    assert out.ok && op.MakeDir? ==> out.chain == [out.cluster] && out.chain[0] < limit;
  }

  lemma EntryConfined(v: Vol, cat: Catalog, op: Op, limit: nat)
    requires Inv(v, cat) && Allowed(cat, op) && Inside(cat, limit) && 2 <= limit
    requires op.Create? ==> Reachable(v, op.place)
    ensures SameFrom(Prepared(v, op).data, Step(v, op).vol.data, limit)
  {
    var place, out := PlaceOf(op), Step(v, op);
    PreparedSlots(v, cat, op, place);
    StepFromPrepared(v, op);
    if out.ok {
      WithSlotSlots(Prepared(v, op), cat, place, out.index, NewSlot(op, out.cluster));
    }
  }

  ghost predicate AllFit(s: State, ops: seq<Op>, limit: nat)
    requires Inv(s.vol, s.cat) && Legal(s, ops)
    decreases |ops|
  {
    ops != [] ==> Fits(s.vol, ops[0], limit) && AllFit(After(s, ops[0]), ops[1..], limit)
  }

  /** While the free in-range clusters suffice, a whole run stays inside the partition, and no
      link it writes looks like an end mark. */
  lemma {:induction false} RunConfined(s: State, ops: seq<Op>, limit: nat)
    requires Inv(s.vol, s.cat) && Legal(s, ops) && Inside(s.cat, limit)
    requires 2 <= limit <= END_MARKS && CLUSTER_SECTORS * (limit - 2) <= |s.vol.data|
    requires AllFit(s, ops, limit)
    ensures var t := Run(s, ops);
            && Inside(t.cat, limit) && SameFrom(s.vol.data, t.vol.data, limit)
            && forall f :: f in t.cat.files ==> Readable(t.cat.files[f].chain)
    decreases |ops|
  {
    if ops == [] {
      forall f | f in s.cat.files ensures Readable(s.cat.files[f].chain) {
        assert Below(s.cat.files[f].chain, limit);
      }
    } else {
      StepConfined(s, ops[0], limit);
      RunConfined(After(s, ops[0]), ops[1..], limit);
    }
  }

  // ---------------------------------------------------------------- listing

  /** The entry that an operation adds to a directory, if any. */
  function CreatedBy(v: Vol, op: Op, place: Place): seq<Dirent>
    requires Shaped(v) && (op.Create? ==> Reachable(v, op.place))
  {
    var out := Step(v, op);
    if out.ok && PlaceOf(op) == place then [Parse(NewSlot(op, out.cluster))] else []
  }

  /** The entries that the operations of a run add to a directory, in order. */
  ghost function Created(s: State, ops: seq<Op>, place: Place): seq<Dirent>
    requires Inv(s.vol, s.cat) && Legal(s, ops)
    decreases |ops|
  {
    if ops == [] then []
    else
      StepKeeps(s.vol, s.cat, ops[0]);
      CreatedBy(s.vol, ops[0], place) + Created(After(s, ops[0]), ops[1..], place)
  }

  predicate NoneDeleted(slots: seq<Slot>) {
    forall i :: 0 <= i < |slots| ==> slots[i][0] != DELETED
  }

  lemma StepListing(v: Vol, cat: Catalog, op: Op, place: Place)
    requires Inv(v, cat) && Allowed(cat, op) && Known(cat, place)
    requires Reachable(v, place) && (op.Create? ==> Reachable(v, op.place))
    requires NoneDeleted(SlotsOf(v, place)) && !StartsDeleted(op)
    ensures var u := Step(v, op).vol;
            && Reachable(u, place) && NoneDeleted(SlotsOf(u, place))
            && Listing(SlotsOf(u, place)) == Listing(SlotsOf(v, place)) + CreatedBy(v, op, place)
  {
    StepSlots(v, cat, op, place);
    ReachableIfKnown(v, cat, place);
    NewSlotFields(op, Step(v, op).cluster);
    ListingOne(SlotsOf(v, place), NewSlot(op, Step(v, op).cluster));
  }

  lemma ListingOne(slots: seq<Slot>, e: Slot)
    requires Compact(slots) && NoneDeleted(slots) && Visible(e)
    ensures var i := FirstVacant(slots);
            i < |slots| ==> NoneDeleted(slots[i := e]) && Listing(slots[i := e]) == Listing(slots) + [Parse(e)]
    ensures Listing(slots) + [] == Listing(slots)
  {
    if FirstVacant(slots) < |slots| {
      ListingAfterInsert(slots, e);
    }
  }

  /** Listing a directory after a run reports what was there, then everything created in it,
      in creation order. */
  lemma {:induction false} RunListing(s: State, ops: seq<Op>, place: Place)
    requires Inv(s.vol, s.cat) && Legal(s, ops) && Known(s.cat, place) && Reachable(s.vol, place)
    requires NoneDeleted(SlotsOf(s.vol, place))
    requires forall i :: 0 <= i < |ops| ==> !StartsDeleted(ops[i])
    ensures var t := Run(s, ops);
            && Reachable(t.vol, place)
            && Listing(SlotsOf(t.vol, place)) == Listing(SlotsOf(s.vol, place)) + Created(s, ops, place)
    decreases |ops|
  {
    if ops == [] {
      assert Listing(SlotsOf(s.vol, place)) + [] == Listing(SlotsOf(s.vol, place));
    } else {
      var t, rest := After(s, ops[0]), ops[1..];
      StepListed(s, ops[0], place);
      assert forall i :: 0 <= i < |rest| ==> rest[i] == ops[i + 1];
      RunListing(t, rest, place);
      SeqAssociative(Listing(SlotsOf(s.vol, place)), CreatedBy(s.vol, ops[0], place), Created(t, rest, place));
    }
  }

  lemma StepListed(s: State, op: Op, place: Place)
    requires Inv(s.vol, s.cat) && Allowed(s.cat, op) && Known(s.cat, place) && Reachable(s.vol, place)
    requires NoneDeleted(SlotsOf(s.vol, place)) && !StartsDeleted(op)
    ensures op.Create? ==> Reachable(s.vol, op.place)
    ensures var t := After(s, op);
            && Known(t.cat, place) && Reachable(t.vol, place) && NoneDeleted(SlotsOf(t.vol, place))
            && Listing(SlotsOf(t.vol, place)) == Listing(SlotsOf(s.vol, place)) + CreatedBy(s.vol, op, place)
  {
    ReachableIfKnown(s.vol, s.cat, PlaceOf(op));
    StepListing(s.vol, s.cat, op, place);
    StepExtends(s, op);
  }

  lemma SeqAssociative<T>(a: seq<T>, b: seq<T>, c: seq<T>)
    ensures a + b + c == a + (b + c)
  {
  }

  // ---------------------------------------------------------------- when the round trip is exact

  /** While free in-range clusters suffice, the round trip is exact: `limit` is one past the
      last cluster of the partition, at most 65526 for an accepted size. */
  lemma RoundTripWhenItFits(data: seq<Sector>, pre: seq<Op>, op: Op, post: seq<Op>, s: State, limit: nat,
                            name: CStr, ext: CStr)
    requires Spells(name, op.name) && Spells(ext, op.ext)
    requires op.Create? && op.bytes != []
    requires Legal(Fresh(data), pre) && s == Run(Fresh(data), pre)
    requires Allowed(s.cat, op) && Reachable(s.vol, op.place)
    requires Step(s.vol, op).ok && Legal(After(s, op), post)
    requires Proper8Dot3(KeyOf(op)) && NoLower(KeyOf(op)) && !StartsDeleted(op)
    requires Others(pre, op.place, KeyOf(op)) && Others(post, op.place, KeyOf(op))
    requires 2 <= limit <= END_MARKS && CLUSTER_SECTORS * (limit - 2) <= |s.vol.data| && Fits(s.vol, op, limit)
    ensures var t := Run(After(s, op), post);
            && Reachable(t.vol, op.place)
            && var found := Lookup(SlotsOf(t.vol, op.place), Query(name, ext));
               && found.Some? && found.value.size == |op.bytes|
               && Deliver(t.vol, found.value.cluster, found.value.size) == Delivered(op.bytes)
  {
    FileRoundTrip(data, pre, op, post, s, name, ext);
    MoreBelow(s.vol.fat, limit, END_MARKS);
  }

  lemma MoreBelow(fat: seq<U16>, low: nat, high: nat)
    requires |fat| == FAT_ENTRIES && low <= high <= FAT_ENTRIES
    ensures |FreeBelow(fat, low)| <= |FreeBelow(fat, high)|
  {
    var a, b := FreeBelow(fat, low), FreeBelow(fat, high);
    assert b == a + (b - a);
  }

  /** The round trip does fail past the partition: with only clusters 0xFFF7 and 0xFFF8 left,
      a file of two clusters is stored, and reading it stops at the link 0xFFF8. */
  lemma EndMarkTruncates(v: Vol, bytes: seq<Byte>)
    requires Shaped(v) && |v.data| >= CLUSTER_SECTORS * 0xFFF7
    requires forall c :: 2 <= c < 0xFFF7 ==> v.fat[c] != 0
    requires v.fat[0xFFF7] == 0 && v.fat[0xFFF8] == 0
    requires CLUSTER_BYTES < |bytes| <= 2 * CLUSTER_BYTES
    ensures var w := Store(v, bytes);
            && w.ok && w.chain == [0xFFF7, 0xFFF8]
            && Deliver(w.vol, w.chain[0], |bytes|) == Delivered(bytes[..CLUSTER_BYTES])
  {
    StoreAcrossEndMark(v, bytes);
    StoreSound(v, bytes);
    ReadBack(Store(v, bytes).vol, [0xFFF7, 0xFFF8], bytes);
  }

  lemma StoreAcrossEndMark(v: Vol, bytes: seq<Byte>)
    requires Shaped(v) && |v.data| >= CLUSTER_SECTORS * 0xFFF7
    requires forall c :: 2 <= c < 0xFFF7 ==> v.fat[c] != 0
    requires v.fat[0xFFF7] == 0 && v.fat[0xFFF8] == 0
    requires CLUSTER_BYTES < |bytes| <= 2 * CLUSTER_BYTES
    ensures Store(v, bytes).ok && Store(v, bytes).chain == [0xFFF7, 0xFFF8]
  {
    assert Alloc(v.fat) == 0xFFF7;
    var u := v.(fat := v.fat[0xFFF7 := END_OF_CHAIN]);
    assert u.fat[0xFFF8] == 0 && forall k :: 2 <= k < 0xFFF8 ==> u.fat[k] != 0;
    assert Alloc(u.fat) == 0xFFF8;
    var g := Grown(u, 0xFFF7, 0xFFF8, bytes[..CLUSTER_BYTES]);
    assert WriteChain(g, 0xFFF8, bytes[CLUSTER_BYTES..]).chain == [0xFFF8];
    assert [0xFFF7] + [0xFFF8] == [0xFFF7, 0xFFF8];
  }
}
