/** Physical pages as sets: what the bitmap allocator does, without the bitmap. */
module Pages {
  import opened Words

  const PAGE_SIZE := 4096
  const MAX_PAGES := 32768
  const MAX_MANAGED_MEMORY := 0x800_0000

  type PageSet = s: set<int> | forall p :: p in s ==> 0 <= p < MAX_PAGES

  /** The first page of the set at or after `k`, or `MAX_PAGES`. */
  function LowestFrom(free: PageSet, k: nat): (p: nat)
    requires k <= MAX_PAGES
    ensures k <= p <= MAX_PAGES && (p < MAX_PAGES ==> p in free)
    ensures forall q :: q in free && k <= q ==> p <= q
    decreases MAX_PAGES - k
  {
    if k == MAX_PAGES || k in free then k else LowestFrom(free, k + 1)
  }

  /** The page handed out next, or `MAX_PAGES` when none is free. */
  function Lowest(free: PageSet): (p: nat)
    ensures p <= MAX_PAGES && (p < MAX_PAGES <==> p in free)
    ensures forall q :: q in free ==> p <= q
    ensures p == MAX_PAGES <==> free == {}
  {
    var p := LowestFrom(free, 0);
    assert p == MAX_PAGES ==> forall q :: q !in free;
    p
  }

  // ---------------------------------------------------------------- the memory map

  /** One entry of the Multiboot memory map (section 3.3 of the Multiboot Specification). */
  datatype MapEntry = MapEntry(size: U32, base: nat, length: nat, kind: U32)

  const ENTRY_BYTES := 24

  function Le64(b: seq<Byte>, at: nat): nat
    requires at + 8 <= |b|
  {
    Le32(b, at) + 0x1_0000_0000 * Le32(b, at + 4)
  }

  function EntryAt(bytes: seq<Byte>, at: nat): MapEntry
    requires at + ENTRY_BYTES <= |bytes|
  {
    MapEntry(Le32(bytes, at), Le64(bytes, at + 4), Le64(bytes, at + 12), Le32(bytes, at + 20))
  }

  /** Every entry is complete and its size field leads to the next one. */
  predicate WellFormed(bytes: seq<Byte>, at: nat)
    decreases |bytes| - at
  {
    at < |bytes| ==>
      && at + ENTRY_BYTES <= |bytes|
      && WellFormed(bytes, at + Le32(bytes, at) + 4)
  }

  function MapOf(bytes: seq<Byte>, at: nat): seq<MapEntry>
    requires WellFormed(bytes, at)
    decreases |bytes| - at
  {
    if at >= |bytes| then [] else [EntryAt(bytes, at)] + MapOf(bytes, at + Le32(bytes, at) + 4)
  }

  function Bytes64(v: nat): (b: seq<Byte>)
    ensures |b| == 8
  {
    Bytes32(v % 0x1_0000_0000) + Bytes32(v / 0x1_0000_0000)
  }

  /** An entry as the boot loader lays it out: its size without the size field itself, base,
      length, type, and whatever follows up to that size. */
  function EncodeEntry(e: MapEntry, rest: seq<Byte>): seq<Byte> {
    Bytes32(e.size) + Bytes64(e.base) + Bytes64(e.length) + Bytes32(e.kind) + rest
  }

  predicate Encodable(e: MapEntry, rest: seq<Byte>) {
    Fields64(e) && e.size == 20 + |rest|
  }

  lemma Le64Back(b: seq<Byte>, at: nat, v: nat)
    requires at + 8 <= |b| && b[at..at + 8] == Bytes64(v) && v < 0x1_0000_0000_0000_0000
    ensures Le64(b, at) == v
  {
    assert b[at..at + 4] == b[at..at + 8][..4];
    assert b[at + 4..at + 8] == b[at..at + 8][4..];
    Le32Back(b, at, v % 0x1_0000_0000);
    Le32Back(b, at + 4, v / 0x1_0000_0000);
  }

  lemma EntryBack(b: seq<Byte>, at: nat, e: MapEntry, rest: seq<Byte>)
    requires Encodable(e, rest) && at <= |b| && EncodeEntry(e, rest) <= b[at..]
    ensures at + ENTRY_BYTES <= |b| && EntryAt(b, at) == e
  {
    var w := EncodeEntry(e, rest);
    assert forall i :: 0 <= i < |w| ==> b[at + i] == w[i];
    assert b[at..at + 4] == Bytes32(e.size);
    assert b[at + 4..at + 12] == Bytes64(e.base);
    assert b[at + 12..at + 20] == Bytes64(e.length);
    assert b[at + 20..at + 24] == Bytes32(e.kind);
    Le32Back(b, at, e.size);
    Le64Back(b, at + 4, e.base);
    Le64Back(b, at + 12, e.length);
    Le32Back(b, at + 20, e.kind);
  }

  /** The bytes from `at` on are these entries, one after the other, to the end. */
  predicate LaidOut(b: seq<Byte>, at: nat, entries: seq<MapEntry>, rests: seq<seq<Byte>>)
    requires |entries| == |rests|
    decreases |entries|
  {
    if entries == [] then at == |b|
    else
      && at <= |b| && Encodable(entries[0], rests[0]) && EncodeEntry(entries[0], rests[0]) <= b[at..]
      && LaidOut(b, at + entries[0].size + 4, entries[1..], rests[1..])
  }

  lemma MapOfFirst(b: seq<Byte>, at: nat, e: MapEntry)
    requires at + ENTRY_BYTES <= |b| && EntryAt(b, at) == e && WellFormed(b, at + e.size + 4)
    ensures WellFormed(b, at) && MapOf(b, at) == [e] + MapOf(b, at + e.size + 4)
  {
  }

  /** The walk over a map finds exactly the entries laid out in it, whatever their sizes. */
  lemma {:induction false} MapRoundTrip(b: seq<Byte>, at: nat, entries: seq<MapEntry>, rests: seq<seq<Byte>>)
    requires |entries| == |rests| && LaidOut(b, at, entries, rests)
    ensures WellFormed(b, at) && MapOf(b, at) == entries
    decreases |entries|
  {
    if entries != [] {
      var e := entries[0];
      EntryBack(b, at, e, rests[0]);
      MapRoundTrip(b, at + e.size + 4, entries[1..], rests[1..]);
      MapOfFirst(b, at, e);
    }
  }

  lemma {:induction false} FieldsOfMap(bytes: seq<Byte>, at: nat)
    requires WellFormed(bytes, at)
    ensures forall i :: 0 <= i < |MapOf(bytes, at)| ==> Fields64(MapOf(bytes, at)[i])
    decreases |bytes| - at
  {
    if at < |bytes| {
      FieldsOfMap(bytes, at + Le32(bytes, at) + 4);
    }
  }

  /** The pages that one entry frees, in the source's 64- and 32-bit arithmetic. */
  function FirstPage(e: MapEntry): nat {
    e.base / PAGE_SIZE % 0x1_0000_0000
  }

  function RegionEnd(e: MapEntry): nat {
    var end := (e.base + e.length) % 0x1_0000_0000_0000_0000;
    if end > MAX_MANAGED_MEMORY then MAX_MANAGED_MEMORY else end
  }

  predicate Usable(e: MapEntry, p: int) {
    e.kind == 1 && FirstPage(e) <= p < RegionEnd(e) / PAGE_SIZE
  }

  function UsablePages(e: MapEntry): PageSet {
    set p: int | 0 <= p < MAX_PAGES && Usable(e, p)
  }

  function AllUsable(entries: seq<MapEntry>): PageSet {
    if entries == [] then {} else UsablePages(entries[0]) + AllUsable(entries[1..])
  }

  function KernelEndPage(kernelEnd: U32): nat {
    kernelEnd / PAGE_SIZE + 1
  }

  /** The free pages after initialisation. */
  function InitiallyFree(entries: seq<MapEntry>, kernelEnd: U32): PageSet {
    set p | p in AllUsable(entries) && p >= KernelEndPage(kernelEnd)
  }

  /** The entry describes memory without arithmetic wrap. */
  predicate Sane(e: MapEntry) {
    e.base < 0x1000_0000_0000 && e.base + e.length < 0x1_0000_0000_0000_0000
  }

  /** Base and length fit their 64-bit fields, as all do that are read from the map. */
  predicate Fields64(e: MapEntry) {
    e.base < 0x1_0000_0000_0000_0000 && e.length < 0x1_0000_0000_0000_0000
  }

  /** The page lies wholly in the entry's memory, counted from the page holding its base. */
  predicate Describes(e: MapEntry, p: int) {
    var end := e.base + e.length;
    e.kind == 1 && e.base / 4096 <= p < (if end < 0x800_0000 then end else 0x800_0000) / 4096
  }

  /** The entry is not usable, or its arithmetic does not wrap, or it lies above the managed
      memory and what wraps leaves the page loop without a turn. */
  predicate Harmless(e: MapEntry) {
    || e.kind != 1 || Sane(e)
    || (e.base >= MAX_MANAGED_MEMORY && FirstPage(e) >= RegionEnd(e) / PAGE_SIZE)
  }

  ghost predicate FreesWhatItDescribes(e: MapEntry) {
    forall p :: 0 <= p < MAX_PAGES ==> (Usable(e, p) <==> Describes(e, p))
  }

  /** Exactly the harmless entries free the pages they describe. */
  lemma FreesIffHarmless(e: MapEntry)
    requires Fields64(e)
    ensures FreesWhatItDescribes(e) <==> Harmless(e)
  {
    if Sane(e) {
      assert FirstPage(e) == e.base / PAGE_SIZE;
    } else if e.kind == 1 {
      if e.base < MAX_MANAGED_MEMORY {
        WrapsBelow(e);
      } else {
        NothingDescribed(e);
        if FirstPage(e) < RegionEnd(e) / PAGE_SIZE {
          assert Usable(e, FirstPage(e)) && !Describes(e, FirstPage(e)) && FirstPage(e) < MAX_PAGES;
        }
      }
    }
  }

  lemma NothingDescribed(e: MapEntry)
    requires e.base >= MAX_MANAGED_MEMORY
    ensures forall p :: !Describes(e, p)
  {
    assert e.base / PAGE_SIZE >= MAX_PAGES;
  }

  /** A managed region whose end wraps loses its last managed page. */
  lemma WrapsBelow(e: MapEntry)
    requires Fields64(e) && e.kind == 1 && e.base < MAX_MANAGED_MEMORY && !Sane(e)
    ensures Describes(e, MAX_PAGES - 1) && !Usable(e, MAX_PAGES - 1)
  {
    assert RegionEnd(e) < e.base || RegionEnd(e) == e.base + e.length - 0x1_0000_0000_0000_0000;
  }

  /** The pages kept back are those that start at or below the kernel's end. */
  lemma PastKernel(kernelEnd: U32, p: int)
    ensures p >= KernelEndPage(kernelEnd) <==> p * PAGE_SIZE > kernelEnd
  {
  }

  /** For a map of harmless entries, a page is free after initialisation exactly when it starts
      past the kernel's end and some usable entry describes it. */
  lemma InitMeaning(entries: seq<MapEntry>, kernelEnd: U32, p: int)
    requires forall i :: 0 <= i < |entries| ==> Fields64(entries[i]) && Harmless(entries[i])
    ensures p in InitiallyFree(entries, kernelEnd)
       <==> 4096 * p > kernelEnd && exists i :: 0 <= i < |entries| && Describes(entries[i], p)
  {
    PastKernel(kernelEnd, p);
    UsableMeaning(entries, p);
  }

  /** Whatever the map says, no page that starts at or below the kernel's end is free. */
  lemma KernelReserved(entries: seq<MapEntry>, kernelEnd: U32, p: int)
    requires p in InitiallyFree(entries, kernelEnd)
    ensures p * PAGE_SIZE > kernelEnd
  {
    PastKernel(kernelEnd, p);
  }

  lemma UsableIsDescribed(e: MapEntry, p: int)
    requires Fields64(e) && Harmless(e)
    ensures p in UsablePages(e) <==> Describes(e, p)
  {
    FreesIffHarmless(e);
    assert Describes(e, p) ==> 0 <= p < MAX_PAGES;
  }

  lemma {:induction false} UsableMeaning(entries: seq<MapEntry>, p: int)
    requires forall i :: 0 <= i < |entries| ==> Fields64(entries[i]) && Harmless(entries[i])
    ensures p in AllUsable(entries) <==> exists i :: 0 <= i < |entries| && Describes(entries[i], p)
  {
    if entries != [] {
      var rest := entries[1..];
      assert forall i :: 0 <= i < |rest| ==> rest[i] == entries[i + 1];
      UsableMeaning(rest, p);
      assert Harmless(entries[0]);
      UsableIsDescribed(entries[0], p);
      if exists i :: 0 <= i < |entries| && Describes(entries[i], p) {
        var i :| 0 <= i < |entries| && Describes(entries[i], p);
        assert i > 0 ==> Describes(rest[i - 1], p);
      }
      if exists i :: 0 <= i < |rest| && Describes(rest[i], p) {
        var i :| 0 <= i < |rest| && Describes(rest[i], p);
        assert Describes(entries[i + 1], p);
      }
    }
  }

  lemma OneEntry(e: MapEntry, kernelEnd: U32, p: nat)
    requires KernelEndPage(kernelEnd) <= p < MAX_PAGES
    ensures p in InitiallyFree([e], kernelEnd) <==> Usable(e, p)
  {
    assert AllUsable([e]) == UsablePages(e) + AllUsable([]);
    assert p in UsablePages(e) <==> Usable(e, p);
  }

  /** A harmful map: a region at 2^44 is taken for one at page 0. */
  lemma HugeBaseAliases(kernelEnd: U32)
    requires KernelEndPage(kernelEnd) < MAX_PAGES
    ensures var e := MapEntry(20, 0x1000_0000_0000, 0x1000_0000, 1);
            MAX_PAGES - 1 in InitiallyFree([e], kernelEnd) && !Describes(e, MAX_PAGES - 1)
  {
    var e := MapEntry(20, 0x1000_0000_0000, 0x1000_0000, 1);
    assert FirstPage(e) == 0 && RegionEnd(e) == MAX_MANAGED_MEMORY;
    OneEntry(e, kernelEnd, MAX_PAGES - 1);
  }

  /** Another: a region from 1 MB on whose end wraps to just below 1 MB frees nothing. */
  lemma WrappingEndLoses(kernelEnd: U32)
    requires KernelEndPage(kernelEnd) < MAX_PAGES
    ensures var e := MapEntry(20, 0x10_0000, 0xFFFF_FFFF_FFFF_FFFF, 1);
            MAX_PAGES - 1 !in InitiallyFree([e], kernelEnd) && Describes(e, MAX_PAGES - 1)
  {
    var e := MapEntry(20, 0x10_0000, 0xFFFF_FFFF_FFFF_FFFF, 1);
    WrapsBelow(e);
    OneEntry(e, kernelEnd, MAX_PAGES - 1);
  }

  /** The pages below 1 MB. */
  const LOW_PAGES := 256

  /** No map makes a low page free, if and only if the kernel ends at 0xFF000 or later; loaded at
      1 MB it does. */
  lemma LowPagesReserved(kernelEnd: U32)
    ensures (forall entries, p :: p in InitiallyFree(entries, kernelEnd) ==> p >= LOW_PAGES) <==> kernelEnd >= 0xF_F000
  {
    if kernelEnd < 0xF_F000 {
      var e := MapEntry(20, 0, 0x10_0000, 1);
      assert FirstPage(e) == 0 && RegionEnd(e) == 0x10_0000;
      OneEntry(e, kernelEnd, LOW_PAGES - 1);
    }
  }

  // ---------------------------------------------------------------- clients

  /** `held` is what the clients own. */
  datatype Ledger = Ledger(free: PageSet, held: PageSet)

  datatype PageOp = Take | Give(page: int)

  /** Clients give back only what they hold. */
  predicate Permitted(l: Ledger, op: PageOp) {
    op.Give? ==> op.page in l.held
  }

  ghost function Apply(l: Ledger, op: PageOp): Ledger
    requires Permitted(l, op)
  {
    match op
    case Take =>
      if l.free == {} then l
      else Ledger(l.free - {Lowest(l.free)}, l.held + {Lowest(l.free)})
    case Give(p) => Ledger(l.free + {p}, l.held - {p})
  }

  ghost predicate PermittedRun(l: Ledger, ops: seq<PageOp>)
    decreases |ops|
  {
    ops != [] ==> Permitted(l, ops[0]) && PermittedRun(Apply(l, ops[0]), ops[1..])
  }

  ghost function ApplyAll(l: Ledger, ops: seq<PageOp>): Ledger
    requires PermittedRun(l, ops)
    decreases |ops|
  {
    if ops == [] then l else ApplyAll(Apply(l, ops[0]), ops[1..])
  }

  /** Pages are conserved over every run: none is both free and held, and none appears or
      disappears. So a page handed out is held by nobody, and a page that was neither free
      nor held at the start, such as a kernel page, is never handed out. */
  lemma {:induction false} PagesConserved(l: Ledger, ops: seq<PageOp>)
    requires l.free !! l.held && PermittedRun(l, ops)
    ensures var m := ApplyAll(l, ops);
            && m.free !! m.held && m.free + m.held == l.free + l.held
            && (m.free != {} ==> Lowest(m.free) !in m.held && Lowest(m.free) in l.free + l.held)
    decreases |ops|
  {
    if ops != [] {
      var m := Apply(l, ops[0]);
      assert m.free + m.held == l.free + l.held;
      PagesConserved(m, ops[1..]);
    }
  }

  /** So no low page and no kernel page is ever free or held by a client, on any run. */
  lemma NeverLowOrKernel(entries: seq<MapEntry>, kernelEnd: U32, ops: seq<PageOp>)
    requires kernelEnd >= 0xF_F000
    requires PermittedRun(Ledger(InitiallyFree(entries, kernelEnd), {}), ops)
    ensures var m := ApplyAll(Ledger(InitiallyFree(entries, kernelEnd), {}), ops);
            forall p :: p in m.free || p in m.held ==> p >= LOW_PAGES && p * PAGE_SIZE > kernelEnd
  {
    var l := Ledger(InitiallyFree(entries, kernelEnd), {});
    PagesConserved(l, ops);
    var m := ApplyAll(l, ops);
    assert m.free + m.held == l.free + l.held == l.free;
    forall p | p in m.free || p in m.held ensures p >= LOW_PAGES && p * PAGE_SIZE > kernelEnd {
      assert p in m.free + m.held;
      KernelReserved(entries, kernelEnd, p);
    }
  }
}
