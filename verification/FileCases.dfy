/** Runs from a fresh volume on which the file system falls short. */
module FileCases {
  import opened Words
  import opened Sectors
  import opened FatTable
  import opened Directory
  import opened Volume
  import opened Storage
  import opened Catalog
  import opened Runs
  import opened FileSystem
  import opened Creation

  // ---------------------------------------------------------------- names that start with 0xE5

  lemma VacantAfter(slots: seq<Slot>, e: Slot)
    requires FirstVacant(slots) < |slots|
    ensures FirstVacant(slots[FirstVacant(slots) := e]) == FirstVacant(slots) <==> Vacant(e)
  {
    var i := FirstVacant(slots);
    var after := slots[i := e];
    assert forall k :: 0 <= k < i ==> after[k] == slots[k];
    assert after[i] == e;
  }

  /** The slot just written is the next one to be taken if and only if the name starts with
      0xE5. */
  lemma SlotReusedIff(s: State, op: Op)
    requires Inv(s.vol, s.cat) && Allowed(s.cat, op) && (op.Create? ==> Reachable(s.vol, op.place))
    requires Step(s.vol, op).ok
    ensures Reachable(After(s, op).vol, PlaceOf(op))
    ensures FirstVacant(SlotsOf(After(s, op).vol, PlaceOf(op))) == Step(s.vol, op).index <==> StartsDeleted(op)
  {
    var out := Step(s.vol, op);
    StepSlots(s.vol, s.cat, op, PlaceOf(op));
    NewSlotFields(op, out.cluster);
    VacantAfter(SlotsOf(s.vol, PlaceOf(op)), NewSlot(op, out.cluster));
  }

  lemma FreshCreate(data: seq<Sector>, op: Op)
    requires op.Create? && op.place == Root && |op.bytes| <= CLUSTER_BYTES
    requires op.bytes != [] ==> CLUSTER_SECTORS <= |data|
    ensures var s := Fresh(data);
            var out := Step(s.vol, op);
            && Allowed(s.cat, op) && out.ok && out.index == 0
            && out.cluster == (if op.bytes == [] then 0 else 2)
            && SlotsOf(out.vol, Root) == SlotsOf(s.vol, Root)[0 := NewSlot(op, out.cluster)]
  {
    var s := Fresh(data);
    FormattedInv(data);
    FreshFree(data, 3);
    SucceedsIffRoom(s.vol, s.cat, op, if op.bytes == [] then 2 else 3);
    assert SlotsOf(s.vol, Root)[0][0] == 0;
    StepSlots(s.vol, s.cat, op, Root);
    if op.bytes != [] {
      assert Alloc(s.vol.fat) == 2;
      StoreIsWrite(s.vol, op.bytes);
    }
  }

  /** On a fresh volume a file of one cluster whose name starts with 0xE5 is created, then an
      empty file. Now no slot of the root in use names the first file's cluster, which is still
      stored and taken. */
  lemma FileLost(data: seq<Sector>, first: Op, second: Op)
    requires CLUSTER_SECTORS <= |data|
    requires first.Create? && first.place == Root && 0 < |first.bytes| <= CLUSTER_BYTES && StartsDeleted(first)
    requires second.Create? && second.place == Root && second.bytes == []
    ensures var s := After(Fresh(data), first);
            && Step(Fresh(data).vol, first).ok && Step(s.vol, second).ok
            && var t := After(s, second);
               && 2 in t.cat.files && t.cat.files[2].bytes == first.bytes && t.vol.fat[2] != 0
               && forall i :: 0 <= i < |SlotsOf(t.vol, Root)| && SlotsOf(t.vol, Root)[i][0] != 0 ==>
                    Cluster(SlotsOf(t.vol, Root)[i]) != 2
  {
    FreshCreate(data, first);
    var s := After(Fresh(data), first);
    SlotReusedIff(Fresh(data), first);
    SecondTakesSlot(s, second);
    NewSlotFields(second, 0);
    FormattedInv(data);
    StepExtends(s, second);
    var t := After(s, second);
    assert FileOk(t.vol, 2, t.cat.files[2]);
    LinkedIsUsed(t.vol.fat, t.cat.files[2].chain);
  }

  lemma SecondTakesSlot(s: State, op: Op)
    requires Inv(s.vol, s.cat) && op.Create? && op.place == Root && op.bytes == []
    requires FirstVacant(SlotsOf(s.vol, Root)) == 0
    ensures Step(s.vol, op).ok && Step(s.vol, op).cluster == 0
    ensures SlotsOf(After(s, op).vol, Root) == SlotsOf(s.vol, Root)[0 := NewSlot(op, 0)]
  {
    SucceedsIffRoom(s.vol, s.cat, op, 2);
    StepSlots(s.vol, s.cat, op, Root);
  }

  // ---------------------------------------------------------------- lower-case names

  /** On a fresh volume the empty file "a" is created and then not found as "a". */
  lemma LowerCaseLost(data: seq<Sector>, op: Op)
    requires op == Create(Root, [0x61], [], [])
    ensures var out := Step(Fresh(data).vol, op);
            out.ok && Lookup(SlotsOf(out.vol, Root), Query(op.name, op.ext)).None?
  {
    FreshCreate(data, op);
    FormattedInv(data);
    var s := Fresh(data);
    assert Unique(s, Root, Query(op.name, op.ext), -1);
    CreateThenFind(s, op);
    assert KeyOf(op)[0] == 0x61;
  }

  // ---------------------------------------------------------------- failed creates

  /** On a fresh volume whose disk ends after its first cluster, a file of two clusters is
      refused, and both clusters stay taken. */
  lemma FailedCreateCosts(data: seq<Sector>, op: Op)
    requires |data| == CLUSTER_SECTORS && op.Create? && op.place == Root
    requires CLUSTER_BYTES < |op.bytes| <= 2 * CLUSTER_BYTES
    ensures var v := Fresh(data).vol;
            var out := Step(v, op);
            !out.ok && |FreeBelow(out.vol.fat, FAT_ENTRIES)| + 2 == |FreeBelow(v.fat, FAT_ENTRIES)|
  {
    var v := Fresh(data).vol;
    var u := v.(fat := v.fat[2 := END_OF_CHAIN]);
    assert Alloc(v.fat) == 2;
    StoreIsWrite(v, op.bytes);
    assert u.fat[3] == 0;
    assert Alloc(u.fat) == 3;
    var g := Grown(u, 2, 3, op.bytes[..CLUSTER_BYTES]);
    assert WriteChain(g, 3, op.bytes[CLUSTER_BYTES..]).chain == [3];
    var w := Store(v, op.bytes);
    assert !w.ok && w.chain == [2] + [3];
    StepCost(v, op);
    assert Step(v, op).chain == w.chain;
  }
}
