/** Storing a file and reading it back: what a stored chain owns, how many entries it costs,
    when it stays inside the partition, and what the reader makes of it. */
module Storage {
  import opened Words
  import opened Sectors
  import opened FatTable
  import opened Volume

  // ---------------------------------------------------------------- taking clusters

  /** `chain` was taken out of the free entries and nothing else in the table changed. */
  predicate TakesFree(before: seq<U16>, after: seq<U16>, chain: seq<U16>)
    requires |before| == |after| == FAT_ENTRIES
  {
    && Proper(chain) && Distinct(chain)
    && (forall i :: 0 <= i < |chain| ==> before[chain[i]] == 0)
    && (forall i :: 0 <= i < |chain| ==> after[chain[i]] != 0)
    && (forall x: U16 :: x !in chain ==> after[x] == before[x])
  }

  /** No sector outside the clusters of `chain` changed. */
  predicate SameOutside(before: seq<Sector>, after: seq<Sector>, chain: seq<U16>) {
    && |before| == |after|
    && forall j :: 0 <= j < |before| && j / CLUSTER_SECTORS + 2 !in chain ==> after[j] == before[j]
  }

  /** The chain is complete, closed, on the disk, and carries exactly `bytes`. */
  predicate Stored(v: Vol, chain: seq<U16>, bytes: seq<Byte>)
    requires Shaped(v)
  {
    && |chain| == Clusters(|bytes|) && Proper(chain) && Distinct(chain)
    && Linked(v.fat, chain) && AllOnDisk(v.data, chain) && Holds(v.data, chain, bytes)
  }

  /** Whether it succeeds or runs out of space half-way, a store only takes free clusters and
      only writes there; when it succeeds the file is completely stored. */
  lemma StoreSound(v: Vol, bytes: seq<Byte>)
    requires Shaped(v)
    ensures var r := Store(v, bytes);
            && TakesFree(v.fat, r.vol.fat, r.chain) && SameOutside(v.data, r.vol.data, r.chain)
            && r.vol.root == v.root
            && (r.ok ==> Stored(r.vol, r.chain, bytes))
  {
    var c := Alloc(v.fat);
    if bytes != [] && c != 0 {
      var u := v.(fat := v.fat[c := END_OF_CHAIN]);
      WriteChainTakes(u, c, bytes);
      WriteChainFrame(u, c, bytes);
      var r := WriteChain(u, c, bytes);
      forall i | 0 <= i < |r.chain| ensures v.fat[r.chain[i]] == 0 {
        if i > 0 { assert u.fat[r.chain[i]] == 0; }
      }
      if r.ok {
        WriteChainLinks(u, c, bytes);
        WriteChainHolds(u, c, bytes);
      }
    }
  }

  /** A store of something is an allocation and then a chain of writes from there. */
  lemma StoreIsWrite(v: Vol, bytes: seq<Byte>)
    requires Shaped(v) && bytes != [] && Alloc(v.fat) != 0
    ensures var c := Alloc(v.fat);
            var w := WriteChain(v.(fat := v.fat[c := END_OF_CHAIN]), c, bytes);
            Store(v, bytes) == w && w.chain != [] && w.chain[0] == c
  {
    var c := Alloc(v.fat);
    WriteChainTakes(v.(fat := v.fat[c := END_OF_CHAIN]), c, bytes);
  }

  /** Behind the end of a stored file its last cluster holds zeros. */
  lemma RestIsZero(v: Vol, bytes: seq<Byte>)
    requires Shaped(v) && bytes != [] && Store(v, bytes).ok
    ensures var r := Store(v, bytes);
            && AllOnDisk(r.vol.data, r.chain) && |r.chain| == Clusters(|bytes|)
            && forall i :: |bytes| <= i < CLUSTER_BYTES * |r.chain| ==> ByteAt(r.vol.data, r.chain, i) == 0
  {
    var c, p := Alloc(v.fat), Padded(bytes);
    var u := v.(fat := v.fat[c := END_OF_CHAIN]);
    WriteChainPads(u, c, bytes);
    assert Clusters(|p|) == Clusters(|bytes|);
    WriteChainHolds(u, c, p);
    WriteChainLinks(u, c, p);
    var r := Store(v, bytes);
    forall i | |bytes| <= i < CLUSTER_BYTES * |r.chain| ensures ByteAt(r.vol.data, r.chain, i) == 0 {
      assert ByteAt(r.vol.data, r.chain, i) == p[i];
    }
  }

  function ToSet(chain: seq<U16>): set<int> {
    set x | x in chain
  }

  lemma {:induction false} DistinctCardinality(chain: seq<U16>)
    requires Distinct(chain)
    ensures |ToSet(chain)| == |chain|
  {
    if chain != [] {
      var last, front := chain[|chain| - 1], chain[..|chain| - 1];
      DistinctCardinality(front);
      assert ToSet(chain) == ToSet(front) + {last as int};
    }
  }

  /** The free entries shrink by exactly the clusters taken. */
  lemma FreeAfter(before: seq<U16>, after: seq<U16>, chain: seq<U16>)
    requires |before| == |after| == FAT_ENTRIES && TakesFree(before, after, chain)
    ensures FreeBelow(after, FAT_ENTRIES) == FreeBelow(before, FAT_ENTRIES) - ToSet(chain)
    ensures |FreeBelow(after, FAT_ENTRIES)| + |chain| == |FreeBelow(before, FAT_ENTRIES)|
  {
    var b, a := FreeBelow(before, FAT_ENTRIES), FreeBelow(after, FAT_ENTRIES);
    forall x | x in ToSet(chain) ensures x in b {
      var i :| 0 <= i < |chain| && chain[i] == x;
    }
    assert a == b - ToSet(chain);
    DistinctCardinality(chain);
  }

  // ---------------------------------------------------------------- staying in the partition

  /** The allocator looks at table entries, not at the cluster count: it answers with a
      cluster below `limit` exactly when one is free there. */
  lemma AllocInRange(fat: seq<U16>, limit: nat)
    requires |fat| == FAT_ENTRIES && 2 <= limit <= FAT_ENTRIES
    ensures 2 <= Alloc(fat) < limit <==> FreeBelow(fat, limit) != {}
  {
    var c := Alloc(fat);
    if c < limit && c != 0 {
      assert c in FreeBelow(fat, limit);
    }
    if FreeBelow(fat, limit) != {} {
      var x :| x in FreeBelow(fat, limit);
    }
  }

  predicate Below(chain: seq<U16>, limit: nat) {
    forall i :: 0 <= i < |chain| ==> chain[i] < limit
  }

  /** While the free clusters below `limit` suffice, no other is taken, and the write succeeds if
      all of them are on the disk. */
  lemma {:induction false} WriteChainFits(v: Vol, c: U16, bytes: seq<Byte>, limit: nat)
    requires Shaped(v) && 2 <= c < limit <= FAT_ENTRIES && v.fat[c] != 0 && bytes != []
    requires Clusters(|bytes|) <= |FreeBelow(v.fat, limit)| + 1
    ensures var r := WriteChain(v, c, bytes);
            Below(r.chain, limit) && (CLUSTER_SECTORS * (limit - 2) <= |v.data| ==> r.ok)
    decreases |bytes|
  {
    if |bytes| > CLUSTER_BYTES {
      var free := FreeBelow(v.fat, limit);
      AllocInRange(v.fat, limit);
      var next := Alloc(v.fat);
      var g := Grown(v, c, next, bytes[..CLUSTER_BYTES]);
      assert FreeBelow(g.fat, limit) == free - {next as int};
      WriteChainFits(g, next, bytes[CLUSTER_BYTES..], limit);
    }
  }

  /** A store succeeds inside the partition exactly when the free in-range clusters suffice.
      Otherwise it fails or it takes a cluster past the end of the partition. */
  lemma StoreConfined(v: Vol, bytes: seq<Byte>, limit: nat)
    requires Shaped(v) && 2 <= limit <= FAT_ENTRIES
    requires CLUSTER_SECTORS * (limit - 2) <= |v.data|
    ensures var r := Store(v, bytes);
            r.ok && Below(r.chain, limit) <==> Clusters(|bytes|) <= |FreeBelow(v.fat, limit)|
  {
    var free := FreeBelow(v.fat, limit);
    StoreSound(v, bytes);
    BelowCount(v.fat, Store(v, bytes).vol.fat, Store(v, bytes).chain, limit);
    if Clusters(|bytes|) <= |free| {
      StoreFits(v, bytes, limit);
    }
  }

  /** A write that fails has come to a cluster off the disk or to a full table. */
  lemma {:induction false} WriteChainFails(v: Vol, c: U16, bytes: seq<Byte>)
    requires Shaped(v) && 2 <= c && !WriteChain(v, c, bytes).ok
    ensures var r := WriteChain(v, c, bytes);
            r.chain != [] && (!OnDisk(v.data, r.chain[|r.chain| - 1]) || Alloc(r.vol.fat) == 0)
    decreases |bytes|
  {
    if OnDisk(v.data, c) && |bytes| > CLUSTER_BYTES && Alloc(v.fat) != 0 {
      var next := Alloc(v.fat);
      WriteChainFails(Grown(v, c, next, bytes[..CLUSTER_BYTES]), next, bytes[CLUSTER_BYTES..]);
    }
  }

  lemma StoreFails(v: Vol, bytes: seq<Byte>)
    requires Shaped(v) && !Store(v, bytes).ok
    ensures var r := Store(v, bytes);
            Alloc(r.vol.fat) == 0 || (r.chain != [] && !OnDisk(v.data, r.chain[|r.chain| - 1]))
  {
    if Alloc(v.fat) != 0 {
      var c := Alloc(v.fat);
      WriteChainFails(v.(fat := v.fat[c := END_OF_CHAIN]), c, bytes);
    }
  }

  /** A store keeps below `limit` if and only if enough clusters are free there, or none is free
      anywhere else. */
  lemma StoreBelowIff(v: Vol, bytes: seq<Byte>, limit: nat)
    requires Shaped(v) && 2 <= limit <= FAT_ENTRIES
    requires CLUSTER_SECTORS * (limit - 2) <= |v.data|
    ensures Below(Store(v, bytes).chain, limit)
       <==> Clusters(|bytes|) <= |FreeBelow(v.fat, limit)| || FreeBelow(v.fat, FAT_ENTRIES) == FreeBelow(v.fat, limit)
  {
    var r := Store(v, bytes);
    StoreSound(v, bytes);
    StoreConfined(v, bytes, limit);
    if FreeBelow(v.fat, FAT_ENTRIES) == FreeBelow(v.fat, limit) {
      forall i | 0 <= i < |r.chain| ensures r.chain[i] < limit {
        assert r.chain[i] as int in FreeBelow(v.fat, FAT_ENTRIES);
      }
    }
    if Below(r.chain, limit) && !r.ok {
      StoreFails(v, bytes);
      FullAfter(v.fat, r.vol.fat, r.chain, limit);
    }
    if Clusters(|bytes|) <= |FreeBelow(v.fat, limit)| {
      StoreFits(v, bytes, limit);
    }
  }

  lemma FullAfter(before: seq<U16>, after: seq<U16>, chain: seq<U16>, limit: nat)
    requires |before| == |after| == FAT_ENTRIES && TakesFree(before, after, chain)
    requires Alloc(after) == 0 && Below(chain, limit) && limit <= FAT_ENTRIES
    ensures FreeBelow(before, FAT_ENTRIES) == FreeBelow(before, limit)
  {
    forall c | c in FreeBelow(before, FAT_ENTRIES) ensures c < limit {
      var x: U16 := c;
      assert after[x] != 0;
      assert x in chain;
    }
  }

  lemma StoreFits(v: Vol, bytes: seq<Byte>, limit: nat)
    requires Shaped(v) && 2 <= limit <= FAT_ENTRIES
    requires Clusters(|bytes|) <= |FreeBelow(v.fat, limit)|
    ensures var r := Store(v, bytes);
            Below(r.chain, limit) && (CLUSTER_SECTORS * (limit - 2) <= |v.data| ==> r.ok)
  {
    if bytes != [] {
      AllocInRange(v.fat, limit);
      var c := Alloc(v.fat);
      var u := v.(fat := v.fat[c := END_OF_CHAIN]);
      assert FreeBelow(u.fat, limit) == FreeBelow(v.fat, limit) - {c as int};
      WriteChainFits(u, c, bytes, limit);
    }
  }

  /** The reader will follow a file of this size to its end, if it is stored now. */
  predicate LinksBelowEndMarks(fat: seq<U16>, size: nat)
    requires |fat| == FAT_ENTRIES
  {
    Clusters(size) <= 1 || Clusters(size) <= |FreeBelow(fat, END_MARKS)|
  }

  /** When a store gives a chain without a link that looks like an end mark: exactly when the
      file needs one cluster or the free clusters below the end marks suffice. */
  lemma ReadableIff(v: Vol, bytes: seq<Byte>)
    requires Shaped(v) && Store(v, bytes).ok
    ensures Readable(Store(v, bytes).chain) <==> LinksBelowEndMarks(v.fat, |bytes|)
  {
    var r := Store(v, bytes);
    StoreSound(v, bytes);
    if Clusters(|bytes|) <= |FreeBelow(v.fat, END_MARKS)| {
      StoreFits(v, bytes, END_MARKS);
    }
    if Readable(r.chain) && |r.chain| > 1 {
      FirstIsLowest(v, bytes);
      assert Below(r.chain, END_MARKS);
      BelowCount(v.fat, r.vol.fat, r.chain, END_MARKS);
    }
  }

  lemma FirstIsLowest(v: Vol, bytes: seq<Byte>)
    requires Shaped(v)
    ensures var r := Store(v, bytes); forall i :: 0 <= i < |r.chain| ==> r.chain[0] <= r.chain[i]
  {
    StoreSound(v, bytes);
    var r, c := Store(v, bytes), Alloc(v.fat);
    if bytes != [] && c != 0 {
      WriteChainTakes(v.(fat := v.fat[c := END_OF_CHAIN]), c, bytes);
      assert r.chain[0] == c;
    }
  }

  /** Clusters taken below `limit` were free there. */
  lemma BelowCount(before: seq<U16>, after: seq<U16>, chain: seq<U16>, limit: nat)
    requires |before| == |after| == FAT_ENTRIES && TakesFree(before, after, chain) && limit <= FAT_ENTRIES
    ensures Below(chain, limit) ==> |chain| <= |FreeBelow(before, limit)|
  {
    if Below(chain, limit) {
      var taken, free := ToSet(chain), FreeBelow(before, limit);
      forall x | x in taken ensures x in free {
        var i :| 0 <= i < |chain| && chain[i] == x;
      }
      assert free == taken + (free - taken);
      DistinctCardinality(chain);
    }
  }

  /** A confined store leaves every sector past the partition's clusters alone. */
  lemma ConfinedFrame(before: seq<Sector>, after: seq<Sector>, chain: seq<U16>, limit: nat)
    requires SameOutside(before, after, chain) && Below(chain, limit) && 2 <= limit
    requires CLUSTER_SECTORS * (limit - 2) <= |before|
    ensures after[CLUSTER_SECTORS * (limit - 2)..] == before[CLUSTER_SECTORS * (limit - 2)..]
  {
  }

  // ---------------------------------------------------------------- reading back

  /** What reading a chain yields. `Stray` is a link below 2, which leaves the data region. */
  datatype Delivery = Delivered(bytes: seq<Byte>) | Failed | Stray

  /** The first `n` bytes of cluster `c`. */
  function ReadChunk(data: seq<Sector>, c: U16, n: nat): (r: seq<Byte>)
    requires 2 <= c && n <= CLUSTER_BYTES && CLUSTER_SECTORS * (c - 2) + (n + 511) / 512 <= |data|
    ensures |r| == n
  {
    seq(n, i requires 0 <= i < n => data[CLUSTER_SECTORS * (c - 2) + i / 512][i % 512])
  }

  /** `fat16_read_file` on a buffer large enough: the bytes it stores, in order. The number of
      bytes left is the termination measure, so a cyclic table cannot make it run for ever. */
  function Deliver(v: Vol, c: U16, size: nat): (r: Delivery)
    requires Shaped(v)
    ensures r.Delivered? ==> |r.bytes| <= size
    decreases size
  {
    if size == 0 then Delivered([])
    else if c < 2 then Stray
    else
      var n := if size < CLUSTER_BYTES then size else CLUSTER_BYTES;
      if |v.data| < CLUSTER_SECTORS * (c - 2) + (n + 511) / 512 then Failed
      else
        var chunk := ReadChunk(v.data, c, n);
        if n == size || v.fat[c] >= END_MARKS then Delivered(chunk)
        else
          match Deliver(v, v.fat[c], size - n)
          case Delivered(rest) => Delivered(chunk + rest)
          case other => other
  }

  /** A read came to the result `d`, turning the buffer `was` into `now`. */
  predicate Reads(d: Delivery, ok: bool, was: seq<Byte>, now: seq<Byte>, bufferSize: nat) {
    match d
    case Delivered(bytes) => ok && now == Filled(was, bytes, bufferSize)
    case Failed => !ok
    case Stray => true
  }

  /** Nothing changed at or past the lesser of `size` and `bufferSize`. */
  predicate SameTail(was: seq<Byte>, now: seq<Byte>, size: nat, bufferSize: nat) {
    |now| == |was| && forall k :: 0 <= k < |was| && (k >= size || k >= bufferSize) ==> now[k] == was[k]
  }

  function Prepend(done: seq<Byte>, d: Delivery): Delivery {
    match d
    case Delivered(rest) => Delivered(done + rest)
    case other => other
  }

  /** One turn of the read loop: `done` has been delivered already. */
  lemma DeliverTurn(v: Vol, c: U16, size: nat, done: seq<Byte>)
    requires Shaped(v) && size > 0 && 2 <= c
    ensures var n := if size < CLUSTER_BYTES then size else CLUSTER_BYTES;
            if |v.data| < CLUSTER_SECTORS * (c - 2) + (n + 511) / 512 then Deliver(v, c, size) == Failed
            else
              var chunk := ReadChunk(v.data, c, n);
              if n == size || v.fat[c] >= END_MARKS then Prepend(done, Deliver(v, c, size)) == Delivered(done + chunk)
              else Prepend(done, Deliver(v, c, size)) == Prepend(done + chunk, Deliver(v, v.fat[c], size - n))
  {
    var n := if size < CLUSTER_BYTES then size else CLUSTER_BYTES;
    if CLUSTER_SECTORS * (c - 2) + (n + 511) / 512 <= |v.data| && n != size && v.fat[c] < END_MARKS {
      var chunk, d := ReadChunk(v.data, c, n), Deliver(v, v.fat[c], size - n);
      if d.Delivered? {
        assert done + (chunk + d.bytes) == done + chunk + d.bytes;
      }
    }
  }

  /** The bytes of `n` clusters. */
  ghost function Span(n: nat, bytesPerCluster: nat): nat {
    if n == 0 then 0 else Span(n - 1, bytesPerCluster) + bytesPerCluster
  }

  lemma {:induction false} SpanIs(n: nat, bytesPerCluster: nat)
    ensures Span(n, bytesPerCluster) == n * bytesPerCluster
  {
    if n > 0 {
      SpanIs(n - 1, bytesPerCluster);
      assert n * bytesPerCluster == (n - 1) * bytesPerCluster + bytesPerCluster;
    }
  }

  /** Reading on from `c` comes to `goal`, when `done` has been delivered already. */
  ghost predicate Toward(v: Vol, c: U16, size: nat, done: seq<Byte>, goal: Delivery)
    requires Shaped(v)
  {
    !goal.Stray? ==> Prepend(done, Deliver(v, c, size)) == goal
  }

  /** The chunk of a turn, and whether it could be read. */
  predicate ChunkRead(v: Vol, c: U16, n: nat, ok: bool, chunk: seq<Byte>)
    requires n <= CLUSTER_BYTES
  {
    2 <= c ==>
      && (ok <==> CLUSTER_SECTORS * (c - 2) + (n + 511) / 512 <= |v.data|)
      && (ok ==> chunk == ReadChunk(v.data, c, n))
  }

  lemma TowardTurn(v: Vol, c: U16, size: nat, done: seq<Byte>, goal: Delivery, ok: bool, chunk: seq<Byte>)
    requires Shaped(v) && size > 0 && Toward(v, c, size, done, goal)
    requires ChunkRead(v, c, if size < CLUSTER_BYTES then size else CLUSTER_BYTES, ok, chunk)
    ensures var n := if size < CLUSTER_BYTES then size else CLUSTER_BYTES;
            !goal.Stray? ==>
              if !ok then goal == Failed
              else if n == size || v.fat[c] >= END_MARKS then goal == Delivered(done + chunk)
              else Toward(v, v.fat[c], size - n, done + chunk, goal)
  {
    if !goal.Stray? && 2 <= c {
      DeliverTurn(v, c, size, done);
    }
  }

  /** How many clusters of a chain the reader visits before a link that looks like an end mark. */
  function ReadablePart(chain: seq<U16>): (k: nat)
    requires chain != []
    ensures 1 <= k <= |chain|
    ensures k == |chain| <==> Readable(chain)
  {
    if |chain| == 1 || chain[1] >= END_MARKS then 1
    else
      assert forall i :: 1 <= i < |chain| ==> chain[i] == chain[1..][i - 1];
      1 + ReadablePart(chain[1..])
  }

  lemma LinkedTail(v: Vol, chain: seq<U16>)
    requires Shaped(v) && |chain| > 1 && Linked(v.fat, chain) && AllOnDisk(v.data, chain)
    ensures v.fat[chain[0]] == chain[1]
    ensures Linked(v.fat, chain[1..]) && AllOnDisk(v.data, chain[1..])
  {
    var tail := chain[1..];
    assert v.fat[chain[0]] == Link(chain, 0);
    forall i | 0 <= i < |tail|
      ensures v.fat[tail[i]] == Link(tail, i) && OnDisk(v.data, tail[i])
    {
      assert tail[i] == chain[i + 1] && Link(tail, i) == Link(chain, i + 1);
    }
  }

  lemma HoldsRest(data: seq<Sector>, chain: seq<U16>, bytes: seq<Byte>)
    requires |chain| > 1 && AllOnDisk(data, chain) && AllOnDisk(data, chain[1..])
    requires CLUSTER_BYTES < |bytes| <= CLUSTER_BYTES * |chain| && Holds(data, chain, bytes)
    ensures Holds(data, chain[1..], bytes[CLUSTER_BYTES..])
  {
    var tail, rest := chain[1..], bytes[CLUSTER_BYTES..];
    assert chain == [chain[0]] + tail;
    forall i | 0 <= i < |rest|
      ensures ByteAt(data, tail, i) == rest[i]
    {
      HoldsTail(data, chain[0], tail, i + CLUSTER_BYTES);
      assert ByteAt(data, chain, i + CLUSTER_BYTES) == bytes[i + CLUSTER_BYTES];
    }
  }

  lemma StoredTail(v: Vol, chain: seq<U16>, bytes: seq<Byte>)
    requires Shaped(v) && Stored(v, chain, bytes) && |chain| > 1
    ensures |bytes| > CLUSTER_BYTES && v.fat[chain[0]] == chain[1]
    ensures Stored(v, chain[1..], bytes[CLUSTER_BYTES..])
  {
    LinkedTail(v, chain);
    HoldsRest(v.data, chain, bytes);
  }

  lemma FirstChunk(v: Vol, chain: seq<U16>, bytes: seq<Byte>, n: nat)
    requires Shaped(v) && Stored(v, chain, bytes) && chain != []
    requires n <= |bytes| && n <= CLUSTER_BYTES
    ensures ReadChunk(v.data, chain[0], n) == bytes[..n]
  {
    assert OnDisk(v.data, chain[0]);
    forall i | 0 <= i < n
      ensures ReadChunk(v.data, chain[0], n)[i] == bytes[i]
    {
      assert ByteAt(v.data, chain, i) == bytes[i];
      assert i % CLUSTER_BYTES / 512 == i / 512 || i == CLUSTER_BYTES;
    }
  }

  lemma DeliverStep(v: Vol, c: U16, next: U16, bytes: seq<Byte>, part: seq<Byte>, whole: seq<Byte>)
    requires Shaped(v) && OnDisk(v.data, c) && |bytes| > CLUSTER_BYTES && v.fat[c] == next < END_MARKS
    requires ReadChunk(v.data, c, CLUSTER_BYTES) == bytes[..CLUSTER_BYTES]
    requires Deliver(v, next, |bytes[CLUSTER_BYTES..]|) == Delivered(part)
    requires bytes[..CLUSTER_BYTES] + part == whole
    ensures Deliver(v, c, |bytes|) == Delivered(whole)
  {
  }

  lemma DeliverLast(v: Vol, c: U16, size: nat)
    requires Shaped(v) && OnDisk(v.data, c) && size > 0
    requires size <= CLUSTER_BYTES || v.fat[c] >= END_MARKS
    ensures Deliver(v, c, size) == Delivered(ReadChunk(v.data, c, if size < CLUSTER_BYTES then size else CLUSTER_BYTES))
  {
  }

  /** The bytes held by the first `k` clusters of a chain of `n`. */
  function Part(bytes: seq<Byte>, k: nat, n: nat): seq<Byte> {
    if k < n && CLUSTER_BYTES * k <= |bytes| then bytes[..CLUSTER_BYTES * k] else bytes
  }

  lemma PartTail(bytes: seq<Byte>, k: nat, n: nat)
    requires |bytes| > CLUSTER_BYTES && k <= n == Clusters(|bytes|) - 1
    ensures bytes[..CLUSTER_BYTES] + Part(bytes[CLUSTER_BYTES..], k, n) == Part(bytes, k + 1, n + 1)
  {
    assert bytes == bytes[..CLUSTER_BYTES] + bytes[CLUSTER_BYTES..];
  }

  lemma JoinParts(chain: seq<U16>, bytes: seq<Byte>)
    requires |chain| > 1 && chain[1] < END_MARKS && |bytes| > CLUSTER_BYTES && |chain| == Clusters(|bytes|)
    ensures bytes[..CLUSTER_BYTES] + Part(bytes[CLUSTER_BYTES..], ReadablePart(chain[1..]), |chain| - 1)
         == Part(bytes, ReadablePart(chain), |chain|)
  {
    PartTail(bytes, ReadablePart(chain[1..]), |chain| - 1);
  }

  lemma ReadBackLast(v: Vol, chain: seq<U16>, bytes: seq<Byte>)
    requires Shaped(v) && Stored(v, chain, bytes) && chain != []
    requires |chain| == 1 || chain[1] >= END_MARKS
    ensures Deliver(v, chain[0], |bytes|) == Delivered(Part(bytes, 1, |chain|))
  {
    var n := if |bytes| < CLUSTER_BYTES then |bytes| else CLUSTER_BYTES;
    assert OnDisk(v.data, chain[0]) && v.fat[chain[0]] == Link(chain, 0);
    FirstChunk(v, chain, bytes, n);
    DeliverLast(v, chain[0], |bytes|);
    assert bytes[..n] == Part(bytes, 1, |chain|);
  }

  /** Reading a stored file by its first cluster and size delivers its bytes up to the first
      link that the reader takes for an end mark. */
  lemma {:induction false} ReadBack(v: Vol, chain: seq<U16>, bytes: seq<Byte>)
    requires Shaped(v) && Stored(v, chain, bytes) && bytes != []
    ensures chain != []
    ensures Deliver(v, chain[0], |bytes|) == Delivered(Part(bytes, ReadablePart(chain), |chain|))
    decreases |bytes|
  {
    if |chain| == 1 || chain[1] >= END_MARKS {
      ReadBackLast(v, chain, bytes);
    } else {
      var tail, rest := chain[1..], bytes[CLUSTER_BYTES..];
      assert OnDisk(v.data, chain[0]);
      StoredTail(v, chain, bytes);
      ReadBack(v, tail, rest);
      FirstChunk(v, chain, bytes, CLUSTER_BYTES);
      JoinParts(chain, bytes);
      DeliverStep(v, chain[0], chain[1], bytes,
                  Part(rest, ReadablePart(tail), |tail|), Part(bytes, ReadablePart(chain), |chain|));
    }
  }

  /** The round trip of one file: exact if and only if no link looks like an end mark. */
  lemma ReadBackExactly(v: Vol, chain: seq<U16>, bytes: seq<Byte>)
    requires Shaped(v) && Stored(v, chain, bytes) && bytes != []
    ensures chain != []
    ensures Deliver(v, chain[0], |bytes|) == Delivered(bytes) <==> Readable(chain)
  {
    ReadBack(v, chain, bytes);
    var k := ReadablePart(chain);
    if k < |chain| {
      assert |Part(bytes, k, |chain|)| < |bytes|;
    }
  }
}
