/** When a creation succeeds, and the round trip with nothing assumed but space and a name. */
module Creation {
  import opened Words
  import opened Sectors
  import opened FatTable
  import opened Directory
  import opened Volume
  import opened Storage
  import opened Catalog
  import opened Runs
  import opened FileSystem

  predicate HasRoom(v: Vol, place: Place)
    requires Shaped(v) && Reachable(v, place)
  {
    FirstVacant(SlotsOf(v, place)) < |SlotsOf(v, place)|
  }

  /** While enough clusters of the partition are free, an operation succeeds if and only if its
      directory has a vacant slot. */
  lemma SucceedsIffRoom(v: Vol, cat: Catalog, op: Op, limit: nat)
    requires Inv(v, cat) && Allowed(cat, op) && (op.Create? ==> Reachable(v, op.place))
    requires 2 <= limit <= FAT_ENTRIES && CLUSTER_SECTORS * (limit - 2) <= |v.data| && Fits(v, op, limit)
    ensures Reachable(v, PlaceOf(op)) && (Step(v, op).ok <==> HasRoom(v, PlaceOf(op)))
  {
    PreparedSlots(v, cat, op, PlaceOf(op));
    if op.Create? {
      StoreFits(v, op.bytes, limit);
      StoreSound(v, op.bytes);
    } else {
      assert |FreeBelow(v.fat, limit)| >= 1;
      AllocInRange(v.fat, limit);
      assert OnDisk(v.data, Alloc(v.fat));
    }
  }

  /** On a fresh volume every cluster is free. */
  lemma {:induction false} FreshFree(data: seq<Sector>, limit: nat)
    requires 2 <= limit <= FAT_ENTRIES
    ensures |FreeBelow(Formatted(data).fat, limit)| == limit - 2
  {
    var fat := Formatted(data).fat;
    if limit == 2 {
      assert FreeBelow(fat, limit) == {};
    } else {
      FreshFree(data, limit - 1);
      assert FreeBelow(fat, limit) == FreeBelow(fat, limit - 1) + {limit - 1};
    }
  }

  /** On a fresh volume whose disk holds the clusters below `limit`, creating a file that fits
      always succeeds; whatever follows, it is found and reads back exactly. */
  lemma FreshRoundTrip(data: seq<Sector>, op: Op, post: seq<Op>, limit: nat, name: CStr, ext: CStr)
    requires Spells(name, op.name) && Spells(ext, op.ext)
    requires op.Create? && op.place == Root && op.bytes != [] && |op.bytes| < 0x1_0000_0000
    requires 2 <= limit <= END_MARKS && CLUSTER_SECTORS * (limit - 2) <= |data|
    requires Clusters(|op.bytes|) <= limit - 2
    requires Proper8Dot3(KeyOf(op)) && NoLower(KeyOf(op)) && !StartsDeleted(op)
    requires Legal(After(Fresh(data), op), post) && Others(post, Root, KeyOf(op))
    ensures Step(Fresh(data).vol, op).ok
    ensures var t := Run(After(Fresh(data), op), post);
            var found := Lookup(SlotsOf(t.vol, Root), Query(name, ext));
            && found.Some? && found.value.size == |op.bytes|
            && Deliver(t.vol, found.value.cluster, found.value.size) == Delivered(op.bytes)
  {
    var s := Fresh(data);
    FreshFree(data, limit);
    FormattedInv(data);
    assert SlotsOf(s.vol, Root)[0][0] == 0;
    SucceedsIffRoom(s.vol, s.cat, op, limit);
    RoundTripWhenItFits(data, [], op, post, s, limit, name, ext);
  }

  // ---------------------------------------------------------------- a round trip that fails

  /** As many clusters as are free below `limit`, all of them below it: none is left there. */
  lemma AllTaken(before: seq<U16>, after: seq<U16>, chain: seq<U16>, limit: nat)
    requires |before| == |after| == FAT_ENTRIES && TakesFree(before, after, chain) && limit <= FAT_ENTRIES
    requires Below(chain, limit) && |chain| == |FreeBelow(before, limit)|
    ensures FreeBelow(after, limit) == {}
  {
    var taken, free := ToSet(chain), FreeBelow(before, limit);
    forall x | x in taken ensures x in free {
      var i :| 0 <= i < |chain| && chain[i] == x;
    }
    assert FreeBelow(after, limit) == free - taken;
    DistinctCardinality(chain);
    SameSizeSame(taken, free);
  }

  lemma SameSizeSame(a: set<int>, b: set<int>)
    requires a <= b && |a| == |b|
    ensures a == b
  {
    assert b == a + (b - a);
  }

  /** A first file that takes every cluster below 0xFFF7 of a fresh volume. */
  lemma FilledUp(data: seq<Sector>, bytes: seq<Byte>)
    requires CLUSTER_SECTORS * 0xFFF7 <= |data| && |bytes| == 65525 * CLUSTER_BYTES
    ensures var w := Store(Formatted(data), bytes);
            && w.ok && (forall c :: 2 <= c < 0xFFF7 ==> w.vol.fat[c] != 0)
            && w.vol.fat[0xFFF7] == 0 && w.vol.fat[0xFFF8] == 0 && |w.vol.data| == |data|
  {
    var v := Formatted(data);
    var w := Store(v, bytes);
    FreshFree(data, 0xFFF7);
    StoreFits(v, bytes, 0xFFF7);
    StoreSound(v, bytes);
    assert |w.chain| == 65525;
    AllTaken(v.fat, w.vol.fat, w.chain, 0xFFF7);
    forall c | 2 <= c < 0xFFF7 ensures w.vol.fat[c] != 0 {
      assert c !in FreeBelow(w.vol.fat, 0xFFF7);
    }
    assert 0xFFF7 !in w.chain && 0xFFF8 !in w.chain;
  }

  /** The state of `EndMarkTruncates` is reached from a fresh volume on a disk that goes on past
      the end marks: one file takes all clusters below 0xFFF7, and the next, of two clusters, is
      created with its whole size, but reading it stops after its first cluster. */
  lemma TruncatedFile(data: seq<Sector>, big: Op, small: Op)
    requires CLUSTER_SECTORS * 0xFFF7 <= |data|
    requires big.Create? && big.place == Root && |big.bytes| == 65525 * CLUSTER_BYTES
    requires small.Create? && small.place == Root && CLUSTER_BYTES < |small.bytes| <= 2 * CLUSTER_BYTES
    requires !StartsDeleted(big)
    ensures var s := After(Fresh(data), big);
            var out := Step(s.vol, small);
            && Legal(s, [small]) && Step(Fresh(data).vol, big).ok && out.ok
            && SlotsOf(out.vol, Root)[1] == NewSlot(small, out.cluster)
            && Deliver(out.vol, out.cluster, |small.bytes|) == Delivered(small.bytes[..CLUSTER_BYTES])
  {
    AfterBig(data, big);
    SmallTruncated(After(Fresh(data), big), small);
  }

  /** Only clusters from 0xFFF7 on are free, and the second slot of the root is vacant. */
  ghost predicate NearlyFull(v: Vol) {
    && Shaped(v) && |v.data| >= CLUSTER_SECTORS * 0xFFF7
    && (forall c :: 2 <= c < 0xFFF7 ==> v.fat[c] != 0)
    && v.fat[0xFFF7] == 0 && v.fat[0xFFF8] == 0
    && FirstVacant(SlotsOf(v, Root)) == 1
  }

  lemma AfterBig(data: seq<Sector>, big: Op)
    requires CLUSTER_SECTORS * 0xFFF7 <= |data|
    requires big.Create? && big.place == Root && |big.bytes| == 65525 * CLUSTER_BYTES && !StartsDeleted(big)
    ensures Step(Fresh(data).vol, big).ok && NearlyFull(After(Fresh(data), big).vol)
  {
    FormattedInv(data);
    FilledUp(data, big.bytes);
    FirstSlot(Fresh(data), big);
  }

  lemma SmallTruncated(s: State, small: Op)
    requires Inv(s.vol, s.cat) && NearlyFull(s.vol)
    requires small.Create? && small.place == Root && CLUSTER_BYTES < |small.bytes| <= 2 * CLUSTER_BYTES
    ensures var out := Step(s.vol, small);
            && Legal(s, [small]) && out.ok
            && SlotsOf(out.vol, Root)[1] == NewSlot(small, out.cluster)
            && Deliver(out.vol, out.cluster, |small.bytes|) == Delivered(small.bytes[..CLUSTER_BYTES])
  {
    EndMarkTruncates(s.vol, small.bytes);
    SecondSlot(s, small);
    DeliverFrame(Store(s.vol, small.bytes).vol, Step(s.vol, small).vol, 0xFFF7, |small.bytes|);
  }

  lemma FirstSlot(s: State, op: Op)
    requires Inv(s.vol, s.cat) && Allowed(s.cat, op) && op.Create? && op.place == Root && Store(s.vol, op.bytes).ok
    requires forall i :: 0 <= i < |SlotsOf(s.vol, Root)| ==> SlotsOf(s.vol, Root)[i][0] == 0
    requires !StartsDeleted(op)
    ensures Step(s.vol, op).ok
    ensures var t := After(s, op).vol;
            t.fat == Store(s.vol, op.bytes).vol.fat && |t.data| == |s.vol.data| && FirstVacant(SlotsOf(t, Root)) == 1
  {
    var out := Step(s.vol, op);
    StoreSound(s.vol, op.bytes);
    NewSlotFields(op, out.cluster);
    SecondVacant(SlotsOf(s.vol, Root), NewSlot(op, out.cluster));
    PreparedSlots(s.vol, s.cat, op, Root);
    StepFromPrepared(s.vol, op);
    StepSlots(s.vol, s.cat, op, Root);
  }

  lemma SecondVacant(slots: seq<Slot>, e: Slot)
    requires |slots| > 1 && (forall i :: 0 <= i < |slots| ==> slots[i][0] == 0) && !Vacant(e)
    ensures FirstVacant(slots) == 0 && FirstVacant(slots[0 := e]) == 1
  {
    assert Vacant(slots[0]) && Vacant(slots[0 := e][1]);
  }

  lemma SecondSlot(s: State, op: Op)
    requires Inv(s.vol, s.cat) && Allowed(s.cat, op) && op.Create? && op.place == Root && Store(s.vol, op.bytes).ok
    requires FirstVacant(SlotsOf(s.vol, Root)) == 1
    ensures var out, w := Step(s.vol, op), Store(s.vol, op.bytes);
            && out.ok && out.vol.fat == w.vol.fat && out.vol.data == w.vol.data
            && SlotsOf(out.vol, Root)[1] == NewSlot(op, out.cluster)
            && (w.chain != [] ==> out.cluster == w.chain[0])
  {
    StoreSound(s.vol, op.bytes);
    StepSlots(s.vol, s.cat, op, Root);
    PreparedSlots(s.vol, s.cat, op, Root);
  }

  /** Reading looks at the table and the data only. */
  lemma {:induction false} DeliverFrame(v: Vol, u: Vol, c: U16, size: nat)
    requires Shaped(v) && Shaped(u) && u.fat == v.fat && u.data == v.data
    ensures Deliver(u, c, size) == Deliver(v, c, size)
    decreases size
  {
    if size > CLUSTER_BYTES && 2 <= c {
      DeliverFrame(v, u, v.fat[c], size - CLUSTER_BYTES);
    }
  }
}
