/** The bitmap page allocator, proved against the sets of `Pages`. */
module Pmm {
  import opened Words
  import opened Pages

  const BITMAP_SIZE := 4096

  // ---------------------------------------------------------------- bits

  /** A byte of the bitmap as its eight bits: `b | 1 << k` sets bit `k`, `b & ~(1 << k)`
      clears it, `b & 1 << k` tests it. A set bit marks a taken page. */
  type Octet = s: seq<bool> | |s| == 8 witness [false, false, false, false, false, false, false, false]

  predicate IsFree(bits: seq<Octet>, p: int)
    requires |bits| == BITMAP_SIZE && 0 <= p < MAX_PAGES
  {
    !bits[p / 8][p % 8]
  }

  /** From page `k` on, the set holds exactly the pages whose bit is clear. */
  ghost predicate Agrees(free: PageSet, bits: seq<Octet>, k: nat)
    requires |bits| == BITMAP_SIZE
    decreases MAX_PAGES - k
  {
    k < MAX_PAGES ==> (k in free <==> IsFree(bits, k)) && Agrees(free, bits, k + 1)
  }

  lemma {:induction false} AgreesAt(free: PageSet, bits: seq<Octet>, k: nat, p: nat)
    requires |bits| == BITMAP_SIZE && Agrees(free, bits, k) && k <= p < MAX_PAGES
    ensures p in free <==> IsFree(bits, p)
    decreases p - k
  {
    if k < p {
      AgreesAt(free, bits, k + 1, p);
    }
  }

  lemma {:induction false} AgreesIf(free: PageSet, bits: seq<Octet>, k: nat)
    requires |bits| == BITMAP_SIZE
    requires forall p :: k <= p < MAX_PAGES ==> (p in free <==> IsFree(bits, p))
    ensures Agrees(free, bits, k)
    decreases MAX_PAGES - k
  {
    if k < MAX_PAGES {
      AgreesIf(free, bits, k + 1);
    }
  }

  /** The pages whose bit is clear. */
  ghost function FreePages(bits: seq<Octet>): (free: PageSet)
    requires |bits| == BITMAP_SIZE
    ensures Agrees(free, bits, 0)
  {
    var free: PageSet := set p: int | 0 <= p < MAX_PAGES && IsFree(bits, p);
    AgreesIf(free, bits, 0);
    free
  }

  /** One bit written: one page changes sides. */
  lemma AgreesAfterWrite(free: PageSet, bits: seq<Octet>, page: int, taken: bool)
    requires |bits| == BITMAP_SIZE && 0 <= page < MAX_PAGES && Agrees(free, bits, 0)
    ensures var after := bits[page / 8 := bits[page / 8][page % 8 := taken]];
            Agrees(if taken then free - {page} else free + {page}, after, 0)
  {
    var after := bits[page / 8 := bits[page / 8][page % 8 := taken]];
    var now: PageSet := if taken then free - {page} else free + {page};
    forall p | 0 <= p < MAX_PAGES ensures p in now <==> IsFree(after, p) {
      AgreesAt(free, bits, 0, p);
      assert p / 8 == page / 8 && p % 8 == page % 8 ==> p == page;
    }
    AgreesIf(now, after, 0);
  }

  // ---------------------------------------------------------------- the allocator

  class PageAllocator {
    const bitmap: array<Octet>
    var freePagesCount: int
    /** The pages whose bit is clear. */
    ghost var free: PageSet

    ghost predicate Mapped()
      reads this, bitmap
    {
      bitmap.Length == BITMAP_SIZE && Agrees(free, bitmap[..], 0)
    }

    /** The counter is the number of clear bits. */
    ghost predicate Valid()
      reads this, bitmap
    {
      Mapped() && freePagesCount == |free|
    }

    constructor ()
      ensures fresh(bitmap) && Mapped()
    {
      bitmap := new Octet[BITMAP_SIZE];
      freePagesCount := 0;
      new;
      free := FreePages(bitmap[..]);
    }

    method BitmapSet(page: nat)
      requires Mapped() && page < MAX_PAGES
      modifies this`free, bitmap
      ensures Mapped() && free == old(free) - {page}
    {
      AgreesAfterWrite(free, bitmap[..], page, true);
      ghost var bits := bitmap[..];
      bitmap[page / 8] := bitmap[page / 8][page % 8 := true];
      assert bitmap[..] == bits[page / 8 := bits[page / 8][page % 8 := true]];
      free := free - {page};
    }

    method BitmapClear(page: nat)
      requires Mapped() && page < MAX_PAGES
      modifies this`free, bitmap
      ensures Mapped() && free == old(free) + {page}
    {
      AgreesAfterWrite(free, bitmap[..], page, false);
      ghost var bits := bitmap[..];
      bitmap[page / 8] := bitmap[page / 8][page % 8 := false];
      assert bitmap[..] == bits[page / 8 := bits[page / 8][page % 8 := false]];
      free := free + {page};
    }

    /** True when the page is taken. */
    method BitmapTest(page: nat) returns (taken: bool)
      requires Mapped() && page < MAX_PAGES
      ensures taken <==> page !in free
    {
      taken := bitmap[page / 8][page % 8];
      AgreesAt(free, bitmap[..], 0, page);
    }

    method ReservePage(page: nat)
      requires Valid()
      modifies this, bitmap
      ensures Valid() && free == old(free) - {page}
    {
      if page < MAX_PAGES {
        var taken := BitmapTest(page);
        if !taken {
          BitmapSet(page);
          freePagesCount := freePagesCount - 1;
        }
      }
    }

    method ReleasePage(page: nat)
      requires Valid()
      modifies this, bitmap
      ensures Valid() && free == if page < MAX_PAGES then old(free) + {page} else old(free)
    {
      if page < MAX_PAGES {
        var taken := BitmapTest(page);
        if taken {
          BitmapClear(page);
          freePagesCount := freePagesCount + 1;
        }
      }
    }

    /** Hands out the lowest free page; 0 when there is none. */
    method AllocPage() returns (addr: U32)
      requires Valid()
      modifies this, bitmap
      ensures Valid()
      ensures var p := Lowest(old(free));
              if p == MAX_PAGES then addr == 0 && free == old(free)
              else addr == PAGE_SIZE * p && free == old(free) - {p}
    {
      var i := 0;
      while i < MAX_PAGES
        invariant 0 <= i <= MAX_PAGES && Valid() && free == old(free)
        invariant forall q :: q in free ==> i <= q
      {
        var taken := BitmapTest(i);
        if !taken {
          BitmapSet(i);
          freePagesCount := freePagesCount - 1;
          return i * PAGE_SIZE;
        }
        i := i + 1;
      }
      return 0;
    }

    /** Freeing is not checked against the caller: any taken managed page becomes free. */
    method FreePage(addr: U32)
      requires Valid()
      modifies this, bitmap
      ensures Valid()
      ensures var p := addr / PAGE_SIZE; free == if p < MAX_PAGES then old(free) + {p} else old(free)
    {
      ReleasePage(addr / PAGE_SIZE);
    }

    /** First page and end page of an entry, clamped to the managed memory. */
    method RegionPages(e: MapEntry) returns (firstPage: nat, lastPage: nat)
      ensures firstPage == FirstPage(e) && lastPage == RegionEnd(e) / PAGE_SIZE
    {
      var regionEnd := (e.base + e.length) % 0x1_0000_0000_0000_0000;
      if regionEnd > MAX_MANAGED_MEMORY {
        regionEnd := MAX_MANAGED_MEMORY;
      }
      firstPage, lastPage := e.base / PAGE_SIZE % 0x1_0000_0000, regionEnd / PAGE_SIZE;
    }

    /** The page loop for one usable entry. */
    method FreeRegion(e: MapEntry)
      requires Valid() && e.kind == 1
      modifies this, bitmap
      ensures Valid() && free == old(free) + UsablePages(e)
    {
      var firstPage, lastPage := RegionPages(e);
      ghost var was := free;
      PartDone(e, firstPage);
      var p := firstPage;
      while p < lastPage && p < MAX_PAGES
        invariant Valid() && firstPage <= p
        invariant free == was + Part(e, p)
      {
        PartStep(e, p);
        ReleasePage(p);
        UnionAssociative(was, Part(e, p), {p as int});
        p := p + 1;
      }
      PartDone(e, p);
    }

    method ReserveAll()
      requires Mapped()
      modifies this, bitmap
      ensures Valid() && free == {}
    {
      var i := 0;
      while i < MAX_PAGES
        invariant 0 <= i <= MAX_PAGES && Mapped()
        invariant forall q :: q in free ==> i <= q
      {
        BitmapSet(i);
        i := i + 1;
      }
      assert forall q :: q !in free;
      assert free == {};
      freePagesCount := 0;
    }

    /** The walk over the memory map: entries are `size + 4` bytes apart. */
    method FreeMap(bytes: seq<Byte>)
      requires Valid() && WellFormed(bytes, 0) && free == {}
      modifies this, bitmap
      ensures Valid() && free == AllUsable(MapOf(bytes, 0))
    {
      ghost var all := AllUsable(MapOf(bytes, 0));
      var at := 0;
      while at < |bytes|
        invariant 0 <= at && Valid() && Remaining(bytes, at, free, all)
        decreases |bytes| - at
      {
        RemainingStep(bytes, at, free, all);
        var e := EntryAt(bytes, at);
        if e.kind == 1 {
          FreeRegion(e);
        }
        at := at + e.size + 4;
      }
    }

    method ReserveKernel(kernelEnd: U32)
      requires Valid()
      modifies this, bitmap
      ensures Valid() && free == From(old(free), KernelEndPage(kernelEnd))
    {
      ghost var all := free;
      FromStart(all);
      var kernelEndPage := kernelEnd / PAGE_SIZE + 1;
      var p := 0;
      while p < kernelEndPage && p < MAX_PAGES
        invariant 0 <= p <= kernelEndPage && Valid()
        invariant free == From(all, p)
      {
        ReservePage(p);
        FromStep(all, p);
        p := p + 1;
      }
      FromDone(all, p, kernelEndPage);
    }

    /** `bytes` is the memory map, empty when the boot loader gave none. */
    method Init(bytes: seq<Byte>, kernelEnd: U32)
      requires Mapped() && WellFormed(bytes, 0)
      modifies this, bitmap
      ensures Valid() && free == InitiallyFree(MapOf(bytes, 0), kernelEnd)
    {
      ReserveAll();
      FreeMap(bytes);
      ReserveKernel(kernelEnd);
    }
  }

  /** What the walk has freed and what is still ahead make up the whole. */
  ghost predicate Remaining(bytes: seq<Byte>, at: nat, free: PageSet, all: PageSet) {
    WellFormed(bytes, at) && free + AllUsable(MapOf(bytes, at)) == all
  }

  lemma RemainingStep(bytes: seq<Byte>, at: nat, free: PageSet, all: PageSet)
    requires at < |bytes| && Remaining(bytes, at, free, all)
    ensures at + ENTRY_BYTES <= |bytes|
    ensures var e := EntryAt(bytes, at);
            && Remaining(bytes, at + e.size + 4, free + UsablePages(e), all)
            && (e.kind != 1 ==> free + UsablePages(e) == free)
  {
    var e := EntryAt(bytes, at);
    AllUsableStep(bytes, at);
    var rest, here := AllUsable(MapOf(bytes, at + e.size + 4)), UsablePages(e);
    UnionAssociative(free, here, rest);
    assert free + here + rest == all;
  }

  /** The pages at or past `p`. */
  ghost function From(all: PageSet, p: nat): PageSet {
    set q | q in all && q >= p
  }

  lemma FromStart(all: PageSet)
    ensures From(all, 0) == all
  {
  }

  lemma FromStep(all: PageSet, p: nat)
    ensures From(all, p + 1) == From(all, p) - {p as int}
  {
  }

  lemma FromDone(all: PageSet, p: nat, end: nat)
    requires p <= end && (p == end || p >= MAX_PAGES)
    ensures From(all, p) == From(all, end)
  {
  }

  /** The pages of an entry below `p`. */
  ghost function Part(e: MapEntry, p: nat): PageSet {
    set q | q in UsablePages(e) && q < p
  }

  lemma PartStep(e: MapEntry, p: nat)
    requires e.kind == 1 && FirstPage(e) <= p < MAX_PAGES && p < RegionEnd(e) / PAGE_SIZE
    ensures Part(e, p + 1) == Part(e, p) + {p as int}
  {
    assert p in UsablePages(e);
  }

  lemma PartDone(e: MapEntry, p: nat)
    requires e.kind == 1 && (RegionEnd(e) / PAGE_SIZE <= p || MAX_PAGES <= p || p <= FirstPage(e))
    ensures p <= FirstPage(e) ==> Part(e, p) == {}
    ensures RegionEnd(e) / PAGE_SIZE <= p || MAX_PAGES <= p ==> Part(e, p) == UsablePages(e)
  {
  }

  lemma UnionAssociative(a: set<int>, b: set<int>, c: set<int>)
    ensures a + (b + c) == (a + b) + c
  {
  }

  lemma AllUsableStep(bytes: seq<Byte>, at: nat)
    requires WellFormed(bytes, at) && at < |bytes|
    ensures var e := EntryAt(bytes, at);
            && WellFormed(bytes, at + e.size + 4)
            && AllUsable(MapOf(bytes, at)) == UsablePages(e) + AllUsable(MapOf(bytes, at + e.size + 4))
            && (e.kind != 1 ==> UsablePages(e) == {})
  {
    var e := EntryAt(bytes, at);
    assert MapOf(bytes, at)[1..] == MapOf(bytes, at + e.size + 4);
  }
}
