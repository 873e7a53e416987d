/** A mounted volume seen through its three regions: the allocation table as a sequence of
    entries, the root directory sectors, and every sector from the first cluster to the end
    of the disk. The drive may go on past the partition, so clusters past its end exist. */
module Volume {
  import opened Words
  import opened Sectors
  import opened FatTable

  const CLUSTER_SECTORS := 64
  const CLUSTER_BYTES := 0x8000
  const ROOT_SECTORS := 32
  /** Cluster numbers 0 and 1 name no cluster. */
  const FIRST_CLUSTER := 2
  /** The reader takes any link from here on for the end of the chain. */
  const END_MARKS := 0xFFF8

  datatype Vol = Vol(fat: seq<U16>, root: seq<Sector>, data: seq<Sector>)

  predicate Shaped(v: Vol) {
    |v.fat| == FAT_ENTRIES && |v.root| == ROOT_SECTORS
  }

  // ---------------------------------------------------------------- allocation

  function AllocFrom(fat: seq<U16>, c: nat): (r: U16)
    requires |fat| == FAT_ENTRIES && 2 <= c <= FAT_ENTRIES
    ensures r == 0 ==> forall k :: c <= k < FAT_ENTRIES ==> fat[k] != 0
    ensures r != 0 ==> c <= r && fat[r] == 0 && forall k :: c <= k < r ==> fat[k] != 0
    decreases FAT_ENTRIES - c
  {
    if c == FAT_ENTRIES then 0 else if fat[c] == 0 then c else AllocFrom(fat, c + 1)
  }

  /** First fit over the whole table, whatever the number of clusters; 0 when it is full. */
  function Alloc(fat: seq<U16>): (r: U16)
    requires |fat| == FAT_ENTRIES
    ensures r == 0 ==> forall k :: 2 <= k < FAT_ENTRIES ==> fat[k] != 0
    ensures r != 0 ==> 2 <= r && fat[r] == 0 && forall k :: 2 <= k < r ==> fat[k] != 0
  {
    AllocFrom(fat, FIRST_CLUSTER)
  }

  /** The free entries among clusters 2 .. limit - 1. */
  function FreeBelow(fat: seq<U16>, limit: nat): set<int>
    requires |fat| == FAT_ENTRIES && limit <= FAT_ENTRIES
  {
    set c | FIRST_CLUSTER <= c < limit && fat[c] == 0
  }

  // ---------------------------------------------------------------- cluster data

  predicate OnDisk(data: seq<Sector>, c: int) {
    FIRST_CLUSTER <= c && CLUSTER_SECTORS * (c - 1) <= |data|
  }

  /** Writing a cluster image sector by sector: what lies past the end of the disk is lost. */
  function Blit(data: seq<Sector>, c: nat, image: seq<Sector>): (r: seq<Sector>)
    requires 2 <= c && |image| == CLUSTER_SECTORS
    ensures |r| == |data|
  {
    var base := CLUSTER_SECTORS * (c - 2);
    seq(|data|, j requires 0 <= j < |data| =>
      if base <= j < base + CLUSTER_SECTORS then image[j - base] else data[j])
  }

  /** Sector `s` of a chunk of a file, zero-filled. */
  function SectorOf(chunk: seq<Byte>, s: nat): Sector {
    seq(512, b requires 0 <= b < 512 => if 512 * s + b < |chunk| then chunk[512 * s + b] else 0)
  }

  function Image(chunk: seq<Byte>): (r: seq<Sector>)
    ensures |r| == CLUSTER_SECTORS
  {
    seq(CLUSTER_SECTORS, s requires 0 <= s < CLUSTER_SECTORS => SectorOf(chunk, s))
  }

  function ClusterSectors(data: seq<Sector>, c: nat): (r: seq<Sector>)
    requires OnDisk(data, c)
    ensures |r| == CLUSTER_SECTORS
  {
    data[CLUSTER_SECTORS * (c - 2)..CLUSTER_SECTORS * (c - 1)]
  }

  // ---------------------------------------------------------------- chains

  /** Clusters needed for `size` bytes. */
  function Clusters(size: nat): nat {
    (size + CLUSTER_BYTES - 1) / CLUSTER_BYTES
  }

  predicate Distinct(s: seq<U16>) {
    forall i, j :: 0 <= i < j < |s| ==> s[i] != s[j]
  }

  predicate Proper(chain: seq<U16>) {
    forall i :: 0 <= i < |chain| ==> FIRST_CLUSTER <= chain[i]
  }

  /** The table links the chain in order and closes it with 0xFFFF. */
  predicate Linked(fat: seq<U16>, chain: seq<U16>)
    requires |fat| == FAT_ENTRIES
  {
    forall i :: 0 <= i < |chain| ==> fat[chain[i]] == Link(chain, i)
  }

  /** What the table must hold for the cluster at position `i` of a chain. */
  function Link(chain: seq<U16>, i: nat): U16
    requires i < |chain|
  {
    if i + 1 < |chain| then chain[i + 1] else END_OF_CHAIN
  }

  predicate AllOnDisk(data: seq<Sector>, chain: seq<U16>) {
    forall i :: 0 <= i < |chain| ==> OnDisk(data, chain[i])
  }

  /** Byte `i` of the file stored along `chain`. */
  function ByteAt(data: seq<Sector>, chain: seq<U16>, i: nat): Byte
    requires AllOnDisk(data, chain) && i < CLUSTER_BYTES * |chain|
  {
    assert OnDisk(data, chain[i / CLUSTER_BYTES]);
    data[CLUSTER_SECTORS * (chain[i / CLUSTER_BYTES] - 2) + i % CLUSTER_BYTES / 512][i % 512]
  }

  predicate Holds(data: seq<Sector>, chain: seq<U16>, bytes: seq<Byte>)
    requires AllOnDisk(data, chain) && |bytes| <= CLUSTER_BYTES * |chain|
  {
    forall i :: 0 <= i < |bytes| ==> ByteAt(data, chain, i) == bytes[i]
  }

  /** No link of the chain looks like an end mark to the reader. */
  predicate Readable(chain: seq<U16>) {
    forall i :: 1 <= i < |chain| ==> chain[i] < END_MARKS
  }

  // ---------------------------------------------------------------- writing a file

  /** `chain` lists the clusters taken, also when the write failed half-way. */
  datatype Written = Written(vol: Vol, ok: bool, chain: seq<U16>)

  /** Cluster `c` filled with `chunk`, and `next` allocated and linked behind it. */
  function Grown(v: Vol, c: U16, next: U16, chunk: seq<Byte>): (r: Vol)
    requires Shaped(v) && 2 <= c
    ensures Shaped(r)
  {
    v.(data := Blit(v.data, c, Image(chunk)), fat := v.fat[next := END_OF_CHAIN][c := next])
  }

  /** `write_file_data`: fill cluster `c`, then allocate and link one cluster at a time. */
  function WriteChain(v: Vol, c: U16, bytes: seq<Byte>): (r: Written)
    requires Shaped(v) && 2 <= c
    ensures Shaped(r.vol)
    decreases |bytes|
  {
    var last := |bytes| <= CLUSTER_BYTES;
    var chunk := if last then bytes else bytes[..CLUSTER_BYTES];
    var stored := v.(data := Blit(v.data, c, Image(chunk)));
    if !OnDisk(v.data, c) then Written(stored, false, [c])
    else if last then Written(stored.(fat := v.fat[c := END_OF_CHAIN]), true, [c])
    else
      var next := Alloc(v.fat);
      if next == 0 then Written(stored, false, [c])
      else
        var r := WriteChain(Grown(v, c, next, chunk), next, bytes[CLUSTER_BYTES..]);
        r.(chain := [c] + r.chain)
  }

  /** What is left to write comes to the same end as the whole write. */
  predicate Continues(v: Vol, c: U16, rest: seq<Byte>, target: Written)
    requires Shaped(v) && 2 <= c
  {
    var w := WriteChain(v, c, rest);
    w.ok == target.ok && w.vol == target.vol
  }

  function ChunkOf(rest: seq<Byte>): seq<Byte> {
    if |rest| <= CLUSTER_BYTES then rest else rest[..CLUSTER_BYTES]
  }

  /** One turn of the write loop, from `v` to `after`: the chunk is stored, then the chain is
      closed or extended by `next`. */
  predicate Turn(v: Vol, c: U16, chunk: seq<Byte>, last: bool, after: Vol, ok: bool, next: U16)
    requires Shaped(v) && 2 <= c
  {
    var stored := v.(data := Blit(v.data, c, Image(chunk)));
    if !OnDisk(v.data, c) then !ok && after == stored
    else if last then ok && after == stored.(fat := v.fat[c := END_OF_CHAIN])
    else if Alloc(v.fat) == 0 then !ok && after == stored
    else ok && next == Alloc(v.fat) && after == Grown(v, c, next, chunk)
  }

  lemma TurnContinues(v: Vol, c: U16, rest: seq<Byte>, target: Written, after: Vol, ok: bool, next: U16)
    requires Shaped(v) && 2 <= c && Continues(v, c, rest, target)
    requires Turn(v, c, ChunkOf(rest), |rest| <= CLUSTER_BYTES, after, ok, next)
    ensures if !ok || |rest| <= CLUSTER_BYTES then target.ok == ok && target.vol == after
            else 2 <= next && Shaped(after) && Continues(after, next, rest[CLUSTER_BYTES..], target)
  {
  }

  /** As `Continues`, for the rest of `data` from `offset` on. */
  predicate Aims(v: Vol, c: U16, data: seq<Byte>, offset: nat, target: Written)
    requires Shaped(v) && 2 <= c && offset <= |data|
  {
    Continues(v, c, data[offset..], target)
  }

  lemma AimsAtStart(v: Vol, c: U16, data: seq<Byte>)
    requires Shaped(v) && 2 <= c
    ensures Aims(v, c, data, 0, WriteChain(v, c, data))
  {
    assert data[0..] == data;
  }

  lemma TurnAims(v: Vol, c: U16, data: seq<Byte>, offset: nat, n: nat, target: Written, after: Vol, ok: bool, next: U16)
    requires Shaped(v) && 2 <= c && offset <= |data| && Aims(v, c, data, offset, target)
    requires n == if |data| - offset < CLUSTER_BYTES then |data| - offset else CLUSTER_BYTES
    requires Turn(v, c, data[offset..offset + n], offset + n == |data|, after, ok, next)
    ensures if !ok || offset + n == |data| then target.ok == ok && target.vol == after
            else 2 <= next && Shaped(after) && Aims(after, next, data, offset + n, target)
  {
    var rest := data[offset..];
    assert ChunkOf(rest) == data[offset..offset + n];
    TurnContinues(v, c, rest, target, after, ok, next);
    if |rest| > CLUSTER_BYTES {
      assert rest[CLUSTER_BYTES..] == data[offset + n..];
    }
  }

  /** The data part of both create functions: nothing is allocated for an empty file. */
  function Store(v: Vol, bytes: seq<Byte>): (r: Written)
    requires Shaped(v)
    ensures Shaped(r.vol)
  {
    if bytes == [] then Written(v, true, [])
    else
      var c := Alloc(v.fat);
      if c == 0 then Written(v, false, [])
      else WriteChain(v.(fat := v.fat[c := END_OF_CHAIN]), c, bytes)
  }

  /** Clusters `chain` were taken: all but the first were free, they are in use now, and no
      other entry of the table changed. */
  predicate Takes(before: seq<U16>, after: seq<U16>, chain: seq<U16>)
    requires |before| == |after| == FAT_ENTRIES
  {
    && chain != [] && Proper(chain) && Distinct(chain)
    && (forall i :: 1 <= i < |chain| ==> before[chain[i]] == 0)
    && (forall i :: 0 <= i < |chain| ==> after[chain[i]] != 0)
    && (forall x: U16 :: x !in chain ==> after[x] == before[x])
  }

  lemma TakesCons(before: seq<U16>, c: U16, next: U16, after: seq<U16>, chain: seq<U16>)
    requires |before| == |after| == FAT_ENTRIES && 2 <= c && 2 <= next
    requires before[c] != 0 && before[next] == 0
    requires Takes(before[next := END_OF_CHAIN][c := next], after, chain) && chain[0] == next
    ensures c !in chain && after[c] == next && Takes(before, after, [c] + chain)
  {
    var all := [c] + chain;
    assert forall i :: 1 <= i < |all| ==> all[i] == chain[i - 1];
    assert c !in chain;
    forall i | 1 <= i < |all| ensures before[all[i]] == 0 && after[all[i]] != 0 {
      assert all[i] == chain[i - 1];
    }
    forall x: U16 | x !in all ensures after[x] == before[x] {
      assert x !in chain && x != c && x != next;
    }
  }

  lemma {:induction false} WriteChainTakes(v: Vol, c: U16, bytes: seq<Byte>)
    requires Shaped(v) && 2 <= c && v.fat[c] != 0
    ensures var r := WriteChain(v, c, bytes);
            Takes(v.fat, r.vol.fat, r.chain) && r.chain[0] == c
    decreases |bytes|
  {
    if |bytes| > CLUSTER_BYTES && OnDisk(v.data, c) && Alloc(v.fat) != 0 {
      var next := Alloc(v.fat);
      var g, rest := Grown(v, c, next, bytes[..CLUSTER_BYTES]), bytes[CLUSTER_BYTES..];
      WriteChainTakes(g, next, rest);
      var s := WriteChain(g, next, rest);
      TakesCons(v.fat, c, next, s.vol.fat, s.chain);
    }
  }

  /** A write changes no sector outside the clusters it takes. */
  lemma {:induction false} WriteChainFrame(v: Vol, c: U16, bytes: seq<Byte>)
    requires Shaped(v) && 2 <= c
    ensures var r := WriteChain(v, c, bytes);
            && r.vol.root == v.root && |r.vol.data| == |v.data|
            && (forall j :: 0 <= j < |v.data| && j / CLUSTER_SECTORS + 2 !in r.chain ==> r.vol.data[j] == v.data[j])
    decreases |bytes|
  {
    if |bytes| > CLUSTER_BYTES && OnDisk(v.data, c) && Alloc(v.fat) != 0 {
      var next := Alloc(v.fat);
      WriteChainFrame(Grown(v, c, next, bytes[..CLUSTER_BYTES]), next, bytes[CLUSTER_BYTES..]);
    }
  }

  lemma LinkedCons(fat: seq<U16>, c: U16, chain: seq<U16>)
    requires |fat| == FAT_ENTRIES && chain != [] && Linked(fat, chain) && fat[c] == chain[0]
    ensures Linked(fat, [c] + chain)
  {
    var all := [c] + chain;
    forall i | 0 <= i < |all|
      ensures fat[all[i]] == Link(all, i)
    {
      if i > 0 {
        assert all[i] == chain[i - 1] && Link(all, i) == Link(chain, i - 1);
      }
    }
  }

  /** A successful write links exactly ceil(size / 32768) clusters, all of them on the disk. */
  lemma {:induction false} WriteChainLinks(v: Vol, c: U16, bytes: seq<Byte>)
    requires Shaped(v) && 2 <= c && v.fat[c] != 0 && bytes != []
    requires WriteChain(v, c, bytes).ok
    ensures var r := WriteChain(v, c, bytes);
            |r.chain| == Clusters(|bytes|) && Linked(r.vol.fat, r.chain) && AllOnDisk(r.vol.data, r.chain)
    decreases |bytes|
  {
    if |bytes| > CLUSTER_BYTES {
      var next := Alloc(v.fat);
      var stored, rest := Grown(v, c, next, bytes[..CLUSTER_BYTES]), bytes[CLUSTER_BYTES..];
      WriteChainLinks(stored, next, rest);
      WriteChainTakes(stored, next, rest);
      var s := WriteChain(stored, next, rest);
      TakesCons(v.fat, c, next, s.vol.fat, s.chain);
      WriteChainFrame(stored, next, rest);
      LinkedCons(s.vol.fat, c, s.chain);
    }
  }

  /** One cluster image: byte `i` of the chunk is byte `i % 512` of sector `i / 512`. */
  lemma BlitHolds(data: seq<Sector>, c: U16, chunk: seq<Byte>, i: nat)
    requires OnDisk(data, c) && i < |chunk| <= CLUSTER_BYTES
    ensures Blit(data, c, Image(chunk))[CLUSTER_SECTORS * (c - 2) + i / 512][i % 512] == chunk[i]
  {
  }

  lemma HoldsCons(data: seq<Sector>, c: U16, chunk: seq<Byte>, chain: seq<U16>, rest: seq<Byte>)
    requires OnDisk(data, c) && AllOnDisk(data, chain)
    requires |chunk| == CLUSTER_BYTES && |rest| <= CLUSTER_BYTES * |chain|
    requires forall i :: 0 <= i < CLUSTER_BYTES ==> data[CLUSTER_SECTORS * (c - 2) + i / 512][i % 512] == chunk[i]
    requires Holds(data, chain, rest)
    ensures AllOnDisk(data, [c] + chain)
    ensures Holds(data, [c] + chain, chunk + rest)
  {
    assert forall k :: 1 <= k < |chain| + 1 ==> ([c] + chain)[k] == chain[k - 1];
    forall i | 0 <= i < |chunk| + |rest|
      ensures ByteAt(data, [c] + chain, i) == (chunk + rest)[i]
    {
      if i >= CLUSTER_BYTES {
        HoldsTail(data, c, chain, i);
        assert ByteAt(data, chain, i - CLUSTER_BYTES) == rest[i - CLUSTER_BYTES];
      } else {
        assert i / CLUSTER_BYTES == 0 && i % CLUSTER_BYTES == i;
      }
    }
  }

  lemma HoldsTail(data: seq<Sector>, c: U16, chain: seq<U16>, i: nat)
    requires AllOnDisk(data, chain) && AllOnDisk(data, [c] + chain)
    requires CLUSTER_BYTES <= i < CLUSTER_BYTES * (|chain| + 1)
    ensures ByteAt(data, [c] + chain, i) == ByteAt(data, chain, i - CLUSTER_BYTES)
  {
    var k := i / CLUSTER_BYTES;
    assert (i - CLUSTER_BYTES) / CLUSTER_BYTES == k - 1 && (i - CLUSTER_BYTES) % CLUSTER_BYTES == i % CLUSTER_BYTES;
    assert (i - CLUSTER_BYTES) % 512 == i % 512;
    assert ([c] + chain)[k] == chain[k - 1];
  }

  /** A successful write leaves the file's bytes along its chain. */
  lemma {:induction false} WriteChainHolds(v: Vol, c: U16, bytes: seq<Byte>)
    requires Shaped(v) && 2 <= c && v.fat[c] != 0 && bytes != []
    requires WriteChain(v, c, bytes).ok
    ensures var r := WriteChain(v, c, bytes);
            && |r.chain| == Clusters(|bytes|) && AllOnDisk(r.vol.data, r.chain)
            && Holds(r.vol.data, r.chain, bytes)
    decreases |bytes|
  {
    WriteChainLinks(v, c, bytes);
    if |bytes| <= CLUSTER_BYTES {
      forall i | 0 <= i < |bytes|
        ensures ByteAt(WriteChain(v, c, bytes).vol.data, [c], i) == bytes[i]
      {
        BlitHolds(v.data, c, bytes, i);
      }
    } else {
      var next := Alloc(v.fat);
      var chunk, rest := bytes[..CLUSTER_BYTES], bytes[CLUSTER_BYTES..];
      WriteChainHolds(Grown(v, c, next, chunk), next, rest);
      FirstChunkStays(v, c, next, chunk, rest);
      var s := WriteChain(Grown(v, c, next, chunk), next, rest);
      HoldsCons(s.vol.data, c, chunk, s.chain, rest);
      assert bytes == chunk + rest;
    }
  }

  /** Writing the rest of a file leaves its first cluster alone. */
  /** The bytes padded with zeros to whole clusters. */
  function Padded(bytes: seq<Byte>): (p: seq<Byte>)
    ensures |p| == CLUSTER_BYTES * Clusters(|bytes|) && bytes <= p
    ensures forall i :: |bytes| <= i < |p| ==> p[i] == 0
  {
    bytes + seq(CLUSTER_BYTES * Clusters(|bytes|) - |bytes|, _ => 0)
  }

  lemma ImageOfPadded(chunk: seq<Byte>, p: seq<Byte>)
    requires chunk <= p && |p| == CLUSTER_BYTES && forall i :: |chunk| <= i < |p| ==> p[i] == 0
    ensures Image(chunk) == Image(p)
  {
    forall s | 0 <= s < CLUSTER_SECTORS ensures Image(chunk)[s] == Image(p)[s] {
      assert SectorOf(chunk, s) == SectorOf(p, s);
    }
  }

  /** A file is written exactly as if it were padded with zeros to whole clusters. */
  lemma {:induction false} WriteChainPads(v: Vol, c: U16, bytes: seq<Byte>)
    requires Shaped(v) && 2 <= c && bytes != []
    ensures WriteChain(v, c, bytes) == WriteChain(v, c, Padded(bytes))
    decreases |bytes|
  {
    var p := Padded(bytes);
    if |bytes| <= CLUSTER_BYTES {
      ImageOfPadded(bytes, p);
    } else {
      assert p[..CLUSTER_BYTES] == bytes[..CLUSTER_BYTES];
      assert p[CLUSTER_BYTES..] == Padded(bytes[CLUSTER_BYTES..]);
      if OnDisk(v.data, c) && Alloc(v.fat) != 0 {
        WriteChainPads(Grown(v, c, Alloc(v.fat), bytes[..CLUSTER_BYTES]), Alloc(v.fat), bytes[CLUSTER_BYTES..]);
      }
    }
  }

  lemma FirstChunkStays(v: Vol, c: U16, next: U16, chunk: seq<Byte>, rest: seq<Byte>)
    requires Shaped(v) && 2 <= c && v.fat[c] != 0 && OnDisk(v.data, c) && next == Alloc(v.fat) != 0
    requires |chunk| == CLUSTER_BYTES
    ensures var s := WriteChain(Grown(v, c, next, chunk), next, rest);
            && |s.vol.data| == |v.data|
            && forall i :: 0 <= i < CLUSTER_BYTES ==>
                 s.vol.data[CLUSTER_SECTORS * (c - 2) + i / 512][i % 512] == chunk[i]
  {
    var g := Grown(v, c, next, chunk);
    WriteChainFrame(g, next, rest);
    WriteChainTakes(g, next, rest);
    var s := WriteChain(g, next, rest);
    TakesCons(v.fat, c, next, s.vol.fat, s.chain);
    forall i | 0 <= i < CLUSTER_BYTES
      ensures s.vol.data[CLUSTER_SECTORS * (c - 2) + i / 512][i % 512] == chunk[i]
    {
      BlitHolds(v.data, c, chunk, i);
      var j := CLUSTER_SECTORS * (c - 2) + i / 512;
      assert j / CLUSTER_SECTORS + 2 == c;
    }
  }
}
