/** The heap's block list as a sequence: layout, coverage and byte sums. */
module Blocks {
  import opened Pages

  const HEADER := 16

  /** A block at its header's address; `size` counts the payload only. */
  datatype Block = Block(addr: nat, size: nat, free: bool)

  function End(b: Block): nat {
    b.addr + HEADER + b.size
  }

  predicate Within(b: Block, a: int) {
    b.addr <= a < End(b)
  }

  // ---------------------------------------------------------------- layout

  /** Address order without overlap. */
  predicate Ordered(bs: seq<Block>) {
    forall i, j :: 0 <= i < j < |bs| ==> End(bs[i]) <= bs[j].addr
  }

  predicate Aligned(bs: seq<Block>) {
    forall i :: 0 <= i < |bs| ==> bs[i].addr % 8 == 0 && bs[i].size % 8 == 0
  }

  predicate Covered(bs: seq<Block>, a: int) {
    exists i :: 0 <= i < |bs| && Within(bs[i], a)
  }

  /** Headers and payloads together cover exactly the bytes of the pages. */
  ghost predicate Tiles(bs: seq<Block>, pages: PageSet) {
    forall a: int :: Covered(bs, a) <==> a / PAGE_SIZE in pages
  }

  /** `lower` and `higher` touch. */
  predicate Touch(lower: Block, higher: Block) {
    End(lower) == higher.addr
  }

  /** No two touching list neighbours are both free. */
  predicate Coalesced(bs: seq<Block>) {
    forall i :: 0 <= i < |bs| - 1 ==> !(bs[i].free && bs[i + 1].free && Touch(bs[i], bs[i + 1]))
  }

  lemma CoveredConcat(x: seq<Block>, y: seq<Block>, a: int)
    ensures Covered(x + y, a) <==> Covered(x, a) || Covered(y, a)
  {
    if Covered(x, a) {
      var i :| 0 <= i < |x| && Within(x[i], a);
      assert (x + y)[i] == x[i];
    }
    if Covered(y, a) {
      var i :| 0 <= i < |y| && Within(y[i], a);
      assert (x + y)[|x| + i] == y[i];
    }
  }

  lemma CoveredOne(b: Block, a: int)
    ensures Covered([b], a) <==> Within(b, a)
  {
    if Within(b, a) { assert Within([b][0], a); }
  }

  /** Replacing a stretch of the list by one covering the same bytes. */
  lemma CoveredReplace(pre: seq<Block>, x: seq<Block>, y: seq<Block>, post: seq<Block>, a: int)
    requires Covered(x, a) <==> Covered(y, a)
    ensures Covered(pre + x + post, a) <==> Covered(pre + y + post, a)
  {
    CoveredConcat(pre + x, post, a);
    CoveredConcat(pre, x, a);
    CoveredConcat(pre + y, post, a);
    CoveredConcat(pre, y, a);
  }

  // ---------------------------------------------------------------- sums

  function Used(bs: seq<Block>): nat {
    if bs == [] then 0 else (if bs[0].free then 0 else bs[0].size) + Used(bs[1..])
  }

  function Avail(bs: seq<Block>): nat {
    if bs == [] then 0 else (if bs[0].free then bs[0].size else 0) + Avail(bs[1..])
  }

  lemma {:induction false} SumsConcat(x: seq<Block>, y: seq<Block>)
    ensures Used(x + y) == Used(x) + Used(y) && Avail(x + y) == Avail(x) + Avail(y)
  {
    if x == [] {
      assert x + y == y;
    } else {
      assert (x + y)[1..] == x[1..] + y;
      SumsConcat(x[1..], y);
    }
  }

  lemma SumsReplace(pre: seq<Block>, x: seq<Block>, y: seq<Block>, post: seq<Block>)
    ensures Used(pre + y + post) - Used(pre + x + post) == Used(y) - Used(x)
    ensures Avail(pre + y + post) - Avail(pre + x + post) == Avail(y) - Avail(x)
  {
    SumsConcat(pre + x, post);
    SumsConcat(pre, x);
    SumsConcat(pre + y, post);
    SumsConcat(pre, y);
  }

  lemma SumsOne(b: Block)
    ensures Used([b]) == (if b.free then 0 else b.size) && Avail([b]) == if b.free then b.size else 0
  {
  }

  lemma SumsTwo(b: Block, c: Block)
    ensures Used([b, c]) == Used([b]) + Used([c]) && Avail([b, c]) == Avail([b]) + Avail([c])
  {
    assert [b, c] == [b] + [c];
    SumsConcat([b], [c]);
  }

  // ---------------------------------------------------------------- list operations

  /** First fit: the first free block of at least `size` bytes, or the length of the list. */
  function Fit(bs: seq<Block>, size: nat): (i: nat)
    ensures i <= |bs| && (i < |bs| ==> bs[i].free && size <= bs[i].size)
    ensures forall k :: 0 <= k < i ==> !(bs[k].free && size <= bs[k].size)
  {
    if bs == [] || (bs[0].free && size <= bs[0].size) then 0 else 1 + Fit(bs[1..], size)
  }

  /** What becomes of the chosen block: split when the rest is worth a header. */
  function Pieces(b: Block, size: nat): (r: seq<Block>)
    requires size <= b.size
    ensures 1 <= |r| <= 2
  {
    if b.size >= size + HEADER + 16
    then [Block(b.addr, size, false), Block(b.addr + HEADER + size, b.size - size - HEADER, true)]
    else [b.(free := false)]
  }

  function Carve(bs: seq<Block>, i: nat, size: nat): seq<Block>
    requires i < |bs| && size <= bs[i].size
  {
    bs[..i] + Pieces(bs[i], size) + bs[i + 1..]
  }

  /** Blocks `k` and `k + 1` joined. */
  function Merge(bs: seq<Block>, k: nat): seq<Block>
    requires k + 1 < |bs|
  {
    bs[..k] + [Block(bs[k].addr, bs[k].size + HEADER + bs[k + 1].size, bs[k].free)] + bs[k + 2..]
  }

  /** `try_merge` on the list: block `k` with its successor, if that touches and is free. */
  predicate Mergeable(bs: seq<Block>, k: int) {
    0 <= k && k + 1 < |bs| && bs[k].free && bs[k + 1].free && Touch(bs[k], bs[k + 1])
  }

  function TryMerge(bs: seq<Block>, k: int): seq<Block> {
    if Mergeable(bs, k) then Merge(bs, k) else bs
  }

  /** `kfree` on the list: free block `i`, then merge with the next and with the previous. */
  function Release(bs: seq<Block>, i: nat): seq<Block>
    requires i < |bs|
  {
    TryMerge(TryMerge(bs[i := bs[i].(free := true)], i), i as int - 1)
  }

  // ---------------------------------------------------------------- what they keep

  /** Every block of `x` lies below every block of `y`. */
  predicate Before(x: seq<Block>, y: seq<Block>) {
    forall i, j :: 0 <= i < |x| && 0 <= j < |y| ==> End(x[i]) <= y[j].addr
  }

  lemma OrderedConcat(x: seq<Block>, y: seq<Block>)
    ensures Ordered(x + y) <==> Ordered(x) && Ordered(y) && Before(x, y)
  {
    var z := x + y;
    assert forall i :: 0 <= i < |x| ==> z[i] == x[i];
    assert forall j :: 0 <= j < |y| ==> z[|x| + j] == y[j];
    if Ordered(z) {
      forall i, j | 0 <= i < |x| && 0 <= j < |y| ensures End(x[i]) <= y[j].addr {
        assert End(z[i]) <= z[|x| + j].addr;
      }
      forall i, j | 0 <= i < j < |y| ensures End(y[i]) <= y[j].addr {
        assert End(z[|x| + i]) <= z[|x| + j].addr;
      }
    }
  }

  lemma BeforeConcat(x: seq<Block>, y: seq<Block>, z: seq<Block>)
    ensures Before(x + y, z) <==> Before(x, z) && Before(y, z)
  {
    var xy := x + y;
    assert forall i :: 0 <= i < |x| ==> xy[i] == x[i];
    assert forall j :: 0 <= j < |y| ==> xy[|x| + j] == y[j];
  }

  lemma AlignedConcat(x: seq<Block>, y: seq<Block>)
    ensures Aligned(x + y) <==> Aligned(x) && Aligned(y)
  {
    var z := x + y;
    assert forall i :: 0 <= i < |x| ==> z[i] == x[i];
    assert forall j :: 0 <= j < |y| ==> z[|x| + j] == y[j];
  }

  /** Replacing a stretch of the list by an ordered one between the same bounds. */
  lemma KeepsReplace(pre: seq<Block>, x: seq<Block>, y: seq<Block>, post: seq<Block>)
    requires Ordered(pre + x + post) && Aligned(pre + x + post)
    requires x != [] && Ordered(y) && Aligned(y)
    requires forall k :: 0 <= k < |y| ==> x[0].addr <= y[k].addr && End(y[k]) <= End(x[|x| - 1])
    ensures Ordered(pre + y + post) && Aligned(pre + y + post)
  {
    OrderedConcat(pre + x, post);
    OrderedConcat(pre, x);
    BeforeConcat(pre, x, post);
    OrderedConcat(pre + y, post);
    OrderedConcat(pre, y);
    BeforeConcat(pre, y, post);
    AlignedConcat(pre + x, post);
    AlignedConcat(pre, x);
    AlignedConcat(pre + y, post);
    AlignedConcat(pre, y);
  }

  lemma CarveKeeps(bs: seq<Block>, i: nat, size: nat)
    requires i < |bs| && size <= bs[i].size && size % 8 == 0 && Ordered(bs) && Aligned(bs)
    ensures Ordered(Carve(bs, i, size)) && Aligned(Carve(bs, i, size))
  {
    assert bs == bs[..i] + [bs[i]] + bs[i + 1..];
    KeepsReplace(bs[..i], [bs[i]], Pieces(bs[i], size), bs[i + 1..]);
  }

  lemma CarveCovers(bs: seq<Block>, i: nat, size: nat, a: int)
    requires i < |bs| && size <= bs[i].size
    ensures Covered(Carve(bs, i, size), a) <==> Covered(bs, a)
  {
    var ps := Pieces(bs[i], size);
    assert Covered(ps, a) <==> Within(bs[i], a) by {
      if |ps| == 2 {
        assert ps == [ps[0]] + [ps[1]];
        CoveredConcat([ps[0]], [ps[1]], a);
        CoveredOne(ps[0], a);
        CoveredOne(ps[1], a);
      } else {
        CoveredOne(ps[0], a);
      }
    }
    CoveredOne(bs[i], a);
    CoveredReplace(bs[..i], [bs[i]], ps, bs[i + 1..], a);
    assert bs == bs[..i] + [bs[i]] + bs[i + 1..];
  }

  lemma CarveSums(bs: seq<Block>, i: nat, size: nat)
    requires i < |bs| && bs[i].free && size <= bs[i].size
    ensures var after := Carve(bs, i, size);
            var got := Pieces(bs[i], size)[0].size;
            && Used(after) == Used(bs) + got
            && Avail(after) + got + HEADER * (|after| - |bs|) == Avail(bs)
  {
    var ps := Pieces(bs[i], size);
    SumsReplace(bs[..i], [bs[i]], ps, bs[i + 1..]);
    assert bs == bs[..i] + [bs[i]] + bs[i + 1..];
    SumsOne(bs[i]);
    SumsOne(ps[0]);
    if |ps| == 2 {
      SumsOne(ps[1]);
      SumsTwo(ps[0], ps[1]);
      assert ps == [ps[0], ps[1]];
    } else {
      assert ps == [ps[0]];
    }
  }

  lemma MergeKeeps(bs: seq<Block>, k: nat)
    requires k + 1 < |bs| && Touch(bs[k], bs[k + 1]) && Ordered(bs) && Aligned(bs)
    ensures Ordered(Merge(bs, k)) && Aligned(Merge(bs, k))
  {
    var one := Block(bs[k].addr, bs[k].size + HEADER + bs[k + 1].size, bs[k].free);
    assert bs == bs[..k] + [bs[k], bs[k + 1]] + bs[k + 2..];
    KeepsReplace(bs[..k], [bs[k], bs[k + 1]], [one], bs[k + 2..]);
  }

  lemma MergeCovers(bs: seq<Block>, k: nat, a: int)
    requires k + 1 < |bs| && Touch(bs[k], bs[k + 1])
    ensures Covered(Merge(bs, k), a) <==> Covered(bs, a)
  {
    var one := Block(bs[k].addr, bs[k].size + HEADER + bs[k + 1].size, bs[k].free);
    CoveredOne(one, a);
    CoveredOne(bs[k], a);
    CoveredOne(bs[k + 1], a);
    CoveredConcat([bs[k]], [bs[k + 1]], a);
    CoveredReplace(bs[..k], [bs[k]] + [bs[k + 1]], [one], bs[k + 2..], a);
    assert bs == bs[..k] + ([bs[k]] + [bs[k + 1]]) + bs[k + 2..];
  }

  lemma MergeSums(bs: seq<Block>, k: nat)
    requires k + 1 < |bs| && bs[k].free && bs[k + 1].free
    ensures Used(Merge(bs, k)) == Used(bs) && Avail(Merge(bs, k)) == Avail(bs) + HEADER
  {
    var one := Block(bs[k].addr, bs[k].size + HEADER + bs[k + 1].size, bs[k].free);
    SumsReplace(bs[..k], [bs[k], bs[k + 1]], [one], bs[k + 2..]);
    assert bs == bs[..k] + [bs[k], bs[k + 1]] + bs[k + 2..];
    SumsOne(one);
    SumsOne(bs[k]);
    SumsOne(bs[k + 1]);
    SumsTwo(bs[k], bs[k + 1]);
  }

  lemma SetFreeKeeps(bs: seq<Block>, i: nat, a: int)
    requires i < |bs| && !bs[i].free
    ensures var after := bs[i := bs[i].(free := true)];
            && (Ordered(bs) ==> Ordered(after)) && (Aligned(bs) ==> Aligned(after))
            && (Covered(after, a) <==> Covered(bs, a))
            && Used(after) == Used(bs) - bs[i].size && Avail(after) == Avail(bs) + bs[i].size
  {
    var b := bs[i].(free := true);
    CoveredOne(b, a);
    CoveredOne(bs[i], a);
    CoveredReplace(bs[..i], [bs[i]], [b], bs[i + 1..], a);
    SumsReplace(bs[..i], [bs[i]], [b], bs[i + 1..]);
    SumsOne(b);
    SumsOne(bs[i]);
    assert bs == bs[..i] + [bs[i]] + bs[i + 1..];
    assert bs[i := b] == bs[..i] + [b] + bs[i + 1..];
  }
}
