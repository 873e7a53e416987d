/** The ELF32 loader: what it accepts and what it leaves in memory. `bytes` is the image and
    whatever follows it in memory; the image is its first `size` bytes. */
module Elf {
  import opened Words

  const FILE_HEADER := 52
  /** The loader reads the first 24 bytes of a program header. */
  const ENTRY_READ := 24

  type Memory = map<U32, Byte>

  datatype Segment = Segment(kind: U32, offset: U32, vaddr: U32, filesz: U32, memsz: U32)

  function SegmentAt(bytes: seq<Byte>, at: nat): Segment
    requires at + ENTRY_READ <= |bytes|
  {
    Segment(Le32(bytes, at), Le32(bytes, at + 4), Le32(bytes, at + 8), Le32(bytes, at + 16), Le32(bytes, at + 20))
  }

  function TableAt(bytes: seq<Byte>): U32
    requires FILE_HEADER <= |bytes|
  {
    Le32(bytes, 28)
  }

  function EntrySize(bytes: seq<Byte>): U16
    requires FILE_HEADER <= |bytes|
  {
    Le16(bytes, 42)
  }

  function EntryCount(bytes: seq<Byte>): U16
    requires FILE_HEADER <= |bytes|
  {
    Le16(bytes, 44)
  }

  /** A little-endian 32-bit i386 executable. */
  predicate IsExecutable(bytes: seq<Byte>)
    requires FILE_HEADER <= |bytes|
  {
    && bytes[0] == 0x7F && bytes[1] == 'E' as int && bytes[2] == 'L' as int && bytes[3] == 'F' as int
    && bytes[4] == 1 && bytes[5] == 1
    && Le16(bytes, 16) == 2 && Le16(bytes, 18) == 3
  }

  /** There are program headers and their table lies in the image. The product of two 16-bit
      fields never wraps. */
  predicate TableFits(bytes: seq<Byte>, size: nat)
    requires FILE_HEADER <= |bytes|
  {
    EntryCount(bytes) > 0 && TableAt(bytes) + EntrySize(bytes) * EntryCount(bytes) <= size
  }

  predicate HeaderOk(bytes: seq<Byte>, size: nat)
    requires size <= |bytes|
  {
    FILE_HEADER <= size && IsExecutable(bytes) && TableFits(bytes, size)
  }

  /** Any image in its surroundings. */
  predicate Placed(bytes: seq<Byte>, size: nat) {
    size + ENTRY_READ <= |bytes|
  }

  /** The i-th program header. */
  function Entry(bytes: seq<Byte>, size: nat, i: nat): Segment
    requires Placed(bytes, size) && HeaderOk(bytes, size) && i < EntryCount(bytes)
  {
    EntryInPlace(bytes, size, i);
    SegmentAt(bytes, TableAt(bytes) + i * EntrySize(bytes))
  }

  lemma StepsFit(i: nat, n: nat, e: nat)
    requires i < n
    ensures 0 <= i * e && i * e + e <= e * n
  {
    assert (n - i - 1) * e >= 0;
    assert i * e + e + (n - i - 1) * e == n * e;
  }

  lemma EntryInPlace(bytes: seq<Byte>, size: nat, i: nat)
    requires Placed(bytes, size) && HeaderOk(bytes, size) && i < EntryCount(bytes)
    ensures 0 <= i * EntrySize(bytes)
    ensures TableAt(bytes) + i * EntrySize(bytes) + EntrySize(bytes) <= size
  {
    StepsFit(i, EntryCount(bytes), EntrySize(bytes));
  }

  /** All program headers, in the order of the table. */
  function Headers(bytes: seq<Byte>, size: nat): (ss: seq<Segment>)
    requires Placed(bytes, size) && HeaderOk(bytes, size)
    ensures |ss| == EntryCount(bytes)
    ensures forall i :: 0 <= i < |ss| ==> ss[i] == Entry(bytes, size, i)
  {
    seq(EntryCount(bytes), i requires 0 <= i < EntryCount(bytes) => Entry(bytes, size, i))
  }

  predicate IsLoad(s: Segment) {
    s.kind == 1
  }

  /** Nothing to load, or file data inside the image and no longer than the memory range. */
  predicate SegmentOk(s: Segment, size: nat) {
    IsLoad(s) ==> s.offset + s.filesz <= size && s.filesz <= s.memsz
  }

  // ---------------------------------------------------------------- what the loops do

  function CopyBytes(m: Memory, bytes: seq<Byte>, s: Segment, n: nat): Memory
    requires s.offset + n <= |bytes|
  {
    if n == 0 then m
    else CopyBytes(m, bytes, s, n - 1)[Wrap32(s.vaddr + n - 1) := bytes[s.offset + n - 1]]
  }

  /** Zeros at the segment's positions `from` to `n`. */
  function ZeroFill(m: Memory, s: Segment, from: nat, n: nat): Memory
    decreases n
  {
    if n <= from then m else ZeroFill(m, s, from, n - 1)[Wrap32(s.vaddr + n - 1) := 0]
  }

  function LoadSegment(m: Memory, bytes: seq<Byte>, s: Segment): Memory
    requires SegmentOk(s, |bytes|)
  {
    if IsLoad(s) then ZeroFill(CopyBytes(m, bytes, s, s.filesz), s, s.filesz, s.memsz) else m
  }

  /** `entry` is what the caller's variable holds afterwards. */
  datatype Outcome = Outcome(ok: bool, memory: Memory, entry: U32)

  /** The program headers from the i-th on, in order, up to the first bad one. */
  function LoadFrom(m: Memory, bytes: seq<Byte>, size: nat, ss: seq<Segment>, i: nat): (bool, Memory)
    requires size <= |bytes| && i <= |ss|
    decreases |ss| - i
  {
    if i == |ss| then (true, m)
    else if !SegmentOk(ss[i], size) then (false, m)
    else LoadFrom(LoadSegment(m, bytes, ss[i]), bytes, size, ss, i + 1)
  }

  function Load(m: Memory, bytes: seq<Byte>, size: nat, entry: U32): Outcome
    requires Placed(bytes, size)
  {
    if HeaderOk(bytes, size) then
      var (ok, r) := LoadFrom(m, bytes, size, Headers(bytes, size), 0);
      Outcome(ok, r, if ok then Le32(bytes, 24) else entry)
    else Outcome(false, m, entry)
  }

  // ---------------------------------------------------------------- what it means

  /** How far address `a` lies behind the start of the segment, around the address space. */
  function Offset(s: Segment, a: U32): U32 {
    Wrap32(a - s.vaddr)
  }

  predicate Covers(s: Segment, a: U32) {
    IsLoad(s) && Offset(s, a) < s.memsz
  }

  /** The byte the segment puts at `a`: file data first, then zeros. */
  function ByteOf(bytes: seq<Byte>, s: Segment, a: U32): Byte
    requires IsLoad(s) && SegmentOk(s, |bytes|)
  {
    if Offset(s, a) < s.filesz then bytes[s.offset + Offset(s, a)] else 0
  }

  lemma OffsetIs(s: Segment, a: U32, k: nat)
    requires k < 0x1_0000_0000
    ensures a == Wrap32(s.vaddr + k) <==> Offset(s, a) == k
  {
  }

  predicate SameAt(m: Memory, r: Memory, a: U32) {
    (a in r <==> a in m) && (a in m ==> r[a] == m[a])
  }

  predicate Holds(m: Memory, a: U32, b: Byte) {
    a in m && m[a] == b
  }

  lemma {:induction false} CopyAt(m: Memory, bytes: seq<Byte>, s: Segment, n: nat, a: U32)
    requires s.offset + n <= |bytes| && n < 0x1_0000_0000
    ensures var r, k := CopyBytes(m, bytes, s, n), Offset(s, a);
            if k < n then Holds(r, a, bytes[s.offset + k]) else SameAt(m, r, a)
  {
    if n > 0 {
      CopyAt(m, bytes, s, n - 1, a);
      OffsetIs(s, a, n - 1);
    }
  }

  lemma {:induction false} ZeroAt(m: Memory, s: Segment, from: nat, n: nat, a: U32)
    requires n < 0x1_0000_0000
    ensures var r, k := ZeroFill(m, s, from, n), Offset(s, a);
            if from <= k < n then Holds(r, a, 0) else SameAt(m, r, a)
    decreases n
  {
    if n > from {
      ZeroAt(m, s, from, n - 1, a);
      OffsetIs(s, a, n - 1);
    }
  }

  /** One segment: file data then zeros over its range, everything else as before. */
  lemma SegmentMeaning(m: Memory, bytes: seq<Byte>, s: Segment, a: U32)
    requires SegmentOk(s, |bytes|)
    ensures var r := LoadSegment(m, bytes, s);
            if Covers(s, a) then Holds(r, a, ByteOf(bytes, s, a)) else SameAt(m, r, a)
  {
    if IsLoad(s) {
      var c := CopyBytes(m, bytes, s, s.filesz);
      CopyAt(m, bytes, s, s.filesz, a);
      ZeroAt(c, s, s.filesz, s.memsz, a);
    }
  }

  predicate AllOk(ss: seq<Segment>, size: nat, i: nat, n: nat)
    requires n <= |ss|
  {
    forall j :: i <= j < n ==> SegmentOk(ss[j], size)
  }

  /** The first bad header from the i-th on, or their number if there is none. */
  function FirstBad(ss: seq<Segment>, size: nat, i: nat): (n: nat)
    requires i <= |ss|
    ensures i <= n <= |ss| && AllOk(ss, size, i, n)
    ensures n < |ss| ==> !SegmentOk(ss[n], size)
    decreases |ss| - i
  {
    if i == |ss| || !SegmentOk(ss[i], size) then i else FirstBad(ss, size, i + 1)
  }

  /** Header `j` is the last one before `n` and from `i` on that covers `a`. */
  predicate LastCover(ss: seq<Segment>, i: nat, n: nat, a: U32, j: nat)
    requires n <= |ss|
  {
    i <= j < n && Covers(ss[j], a) && Uncovered(ss, j + 1, n, a)
  }

  predicate Uncovered(ss: seq<Segment>, i: nat, n: nat, a: U32)
    requires n <= |ss|
  {
    forall k :: i <= k < n ==> !Covers(ss[k], a)
  }

  /** What the headers `i` to `n` make of address `a`: the last one that covers it decides. */
  ghost predicate Settled(m: Memory, r: Memory, bytes: seq<Byte>, ss: seq<Segment>, i: nat, n: nat, a: U32)
    requires n <= |ss| && AllOk(ss, |bytes|, i, n)
  {
    && (Uncovered(ss, i, n, a) ==> SameAt(m, r, a))
    && forall j: nat :: LastCover(ss, i, n, a, j) ==> Holds(r, a, ByteOf(bytes, ss[j], a))
  }

  lemma SettledStep(m: Memory, r: Memory, bytes: seq<Byte>, ss: seq<Segment>, i: nat, n: nat, a: U32)
    requires i < n <= |ss| && AllOk(ss, |bytes|, i, n)
    requires Settled(LoadSegment(m, bytes, ss[i]), r, bytes, ss, i + 1, n, a)
    ensures Settled(m, r, bytes, ss, i, n, a)
  {
    SegmentMeaning(m, bytes, ss[i], a);
    if Uncovered(ss, i, n, a) {
      assert !Covers(ss[i], a) && Uncovered(ss, i + 1, n, a);
    }
    forall j: nat | LastCover(ss, i, n, a, j) ensures Holds(r, a, ByteOf(bytes, ss[j], a)) {
      if j > i { assert LastCover(ss, i + 1, n, a, j); }
    }
  }

  lemma {:induction false} LoadFromSettles(m: Memory, bytes: seq<Byte>, size: nat, ss: seq<Segment>, i: nat, a: U32)
    requires size <= |bytes| && i <= |ss|
    ensures var n, r := FirstBad(ss, size, i), LoadFrom(m, bytes, size, ss, i);
            (r.0 <==> n == |ss|) && Settled(m, r.1, bytes, ss, i, n, a)
    decreases |ss| - i
  {
    var n := FirstBad(ss, size, i);
    if i < n {
      var q := LoadSegment(m, bytes, ss[i]);
      LoadFromSettles(q, bytes, size, ss, i + 1, a);
      SettledStep(m, LoadFrom(q, bytes, size, ss, i + 1).1, bytes, ss, i, n, a);
    }
  }

  /** The image passes every check. */
  predicate Accepts(bytes: seq<Byte>, size: nat)
    requires Placed(bytes, size)
  {
    HeaderOk(bytes, size) && forall i :: 0 <= i < EntryCount(bytes) ==> SegmentOk(Entry(bytes, size, i), size)
  }

  lemma AcceptsIffNoBad(bytes: seq<Byte>, size: nat)
    requires Placed(bytes, size) && HeaderOk(bytes, size)
    ensures Accepts(bytes, size) <==> FirstBad(Headers(bytes, size), size, 0) == EntryCount(bytes)
  {
    var ss := Headers(bytes, size);
    var n := FirstBad(ss, size, 0);
    if n < |ss| {
      assert !SegmentOk(Entry(bytes, size, n), size);
    } else {
      forall i | 0 <= i < EntryCount(bytes) ensures SegmentOk(Entry(bytes, size, i), size) {
        assert ss[i] == Entry(bytes, size, i);
      }
    }
  }

  /** The loader succeeds exactly on acceptable images, and only then sets the entry point. */
  lemma SucceedsIffAccepts(m: Memory, bytes: seq<Byte>, size: nat, entry: U32)
    requires Placed(bytes, size)
    ensures var r := Load(m, bytes, size, entry);
            && (r.ok <==> Accepts(bytes, size))
            && r.entry == (if r.ok then Le32(bytes, 24) else entry)
            && (!HeaderOk(bytes, size) ==> r.memory == m)
  {
    if HeaderOk(bytes, size) {
      LoadFromSettles(m, bytes, size, Headers(bytes, size), 0, 0);
      AcceptsIffNoBad(bytes, size);
    }
  }

  /** Memory afterwards, address by address and whether or not the load succeeds: the last
      processed segment that covers the address decides; no other address changes. */
  lemma LastSegmentWins(m: Memory, bytes: seq<Byte>, size: nat, entry: U32, a: U32)
    requires Placed(bytes, size) && HeaderOk(bytes, size)
    ensures var ss := Headers(bytes, size);
            Settled(m, Load(m, bytes, size, entry).memory, bytes, ss, 0, FirstBad(ss, size, 0), a)
  {
    LoadFromSettles(m, bytes, size, Headers(bytes, size), 0, a);
  }

  /** No segment but the j-th covers `a`. */
  predicate AloneAt(ss: seq<Segment>, j: nat, a: U32) {
    forall i :: 0 <= i < |ss| && i != j ==> !Covers(ss[i], a)
  }

  lemma AloneSettled(m: Memory, r: Memory, bytes: seq<Byte>, ss: seq<Segment>, j: nat, k: nat)
    requires AllOk(ss, |bytes|, 0, |ss|) && j < |ss| && IsLoad(ss[j]) && k < ss[j].memsz
    requires AloneAt(ss, j, Wrap32(ss[j].vaddr + k))
    requires Settled(m, r, bytes, ss, 0, |ss|, Wrap32(ss[j].vaddr + k))
    ensures Holds(r, Wrap32(ss[j].vaddr + k), if k < ss[j].filesz then bytes[ss[j].offset + k] else 0)
  {
    var a := Wrap32(ss[j].vaddr + k);
    OffsetIs(ss[j], a, k);
    assert LastCover(ss, 0, |ss|, a, j);
  }

  /** After a successful load a segment stands in memory wherever no other overlaps it: the
      k-th byte of its range is the k-th byte of its file data, or zero behind that. */
  lemma DisjointSegmentLoaded(m: Memory, bytes: seq<Byte>, size: nat, entry: U32, j: nat, k: nat)
    requires Placed(bytes, size) && Accepts(bytes, size) && j < EntryCount(bytes)
    requires var s := Headers(bytes, size)[j];
             IsLoad(s) && k < s.memsz && AloneAt(Headers(bytes, size), j, Wrap32(s.vaddr + k))
    ensures var s := Headers(bytes, size)[j];
            Holds(Load(m, bytes, size, entry).memory, Wrap32(s.vaddr + k),
                  if k < s.filesz then bytes[s.offset + k] else 0)
  {
    var ss := Headers(bytes, size);
    AcceptsIffNoBad(bytes, size);
    LastSegmentWins(m, bytes, size, entry, Wrap32(ss[j].vaddr + k));
    AloneSettled(m, Load(m, bytes, size, entry).memory, bytes, ss, j, k);
  }

  // ---------------------------------------------------------------- reads inside the image

  /** With program headers of at least 24 bytes nothing behind the image matters. */
  lemma BehindDoesNotMatter(m: Memory, one: seq<Byte>, other: seq<Byte>, size: nat, entry: U32)
    requires Placed(one, size) && Placed(other, size) && one[..size] == other[..size]
    requires HeaderOk(one, size) ==> EntrySize(one) >= ENTRY_READ
    ensures Load(m, one, size, entry) == Load(m, other, size, entry)
  {
    SameFields(one, other, size);
    if HeaderOk(one, size) {
      forall i | 0 <= i < EntryCount(one) ensures Entry(one, size, i) == Entry(other, size, i) {
        EntryInPlace(one, size, i);
        SameWords(one, other, size, TableAt(one) + i * EntrySize(one));
      }
      assert Headers(one, size) == Headers(other, size);
      SameLoad(m, one, other, size, Headers(one, size), 0);
    }
  }

  lemma SameAtIndex(one: seq<Byte>, other: seq<Byte>, size: nat, i: nat)
    requires i < size <= |one| && size <= |other| && one[..size] == other[..size]
    ensures one[i] == other[i]
  {
    assert one[..size][i] == other[..size][i];
  }

  lemma SameWords(one: seq<Byte>, other: seq<Byte>, size: nat, at: nat)
    requires at + ENTRY_READ <= size <= |one| && size <= |other| && one[..size] == other[..size]
    ensures SegmentAt(one, at) == SegmentAt(other, at)
  {
    forall i | 0 <= i < size ensures one[i] == other[i] { SameAtIndex(one, other, size, i); }
  }

  lemma SameFields(one: seq<Byte>, other: seq<Byte>, size: nat)
    requires size <= |one| && size <= |other| && one[..size] == other[..size]
    ensures HeaderOk(one, size) == HeaderOk(other, size)
    ensures FILE_HEADER <= size ==>
              && TableAt(one) == TableAt(other) && EntrySize(one) == EntrySize(other)
              && EntryCount(one) == EntryCount(other) && Le32(one, 24) == Le32(other, 24)
  {
    forall i | 0 <= i < size ensures one[i] == other[i] { SameAtIndex(one, other, size, i); }
  }

  lemma {:induction false} SameCopy(m: Memory, one: seq<Byte>, other: seq<Byte>, size: nat, s: Segment, n: nat)
    requires size <= |one| && size <= |other| && one[..size] == other[..size] && s.offset + n <= size
    ensures CopyBytes(m, one, s, n) == CopyBytes(m, other, s, n)
  {
    if n > 0 {
      SameCopy(m, one, other, size, s, n - 1);
      SameAtIndex(one, other, size, s.offset + n - 1);
    }
  }

  lemma {:induction false} SameLoad(m: Memory, one: seq<Byte>, other: seq<Byte>, size: nat, ss: seq<Segment>, i: nat)
    requires size <= |one| && size <= |other| && one[..size] == other[..size] && i <= |ss|
    ensures LoadFrom(m, one, size, ss, i) == LoadFrom(m, other, size, ss, i)
    decreases |ss| - i
  {
    if i < |ss| && SegmentOk(ss[i], size) {
      if IsLoad(ss[i]) { SameCopy(m, one, other, size, ss[i], ss[i].filesz); }
      SameLoad(LoadSegment(m, one, ss[i]), one, other, size, ss, i + 1);
    }
  }

  /** A file of one program header of `e` bytes at offset 52, followed in memory by the rest
      of a header: a loadable segment at address 0 without file data, of 0 or 2^24 bytes. */
  function ShortByte(e: Byte, big: bool, i: nat): Byte {
    match i
    case 0 => 0x7F
    case 1 => 'E' as int
    case 2 => 'L' as int
    case 3 => 'F' as int
    case 4 => 1
    case 5 => 1
    case 16 => 2
    case 18 => 3
    case 28 => 52
    case 42 => e
    case 44 => 1
    case 52 => 1
    case 75 => if big then 1 else 0
    case _ => 0
  }

  function Short(e: Byte, big: bool): (b: seq<Byte>)
    ensures |b| == FILE_HEADER + e + ENTRY_READ
    ensures forall i :: 0 <= i < |b| ==> b[i] == ShortByte(e, big, i)
  {
    seq(FILE_HEADER + e + ENTRY_READ, i requires 0 <= i => ShortByte(e, big, i))
  }

  lemma ShortFields(e: Byte, big: bool)
    ensures var bytes, size := Short(e, big), FILE_HEADER + e;
            HeaderOk(bytes, size) && EntryCount(bytes) == 1 && TableAt(bytes) == FILE_HEADER && EntrySize(bytes) == e
  {
  }

  lemma ShortEntry(e: Byte, big: bool)
    ensures SegmentAt(Short(e, big), FILE_HEADER) == Segment(1, 0, 0, 0, if big then 0x100_0000 else 0)
  {
  }

  lemma ShortLoads(e: Byte, big: bool)
    requires e < ENTRY_READ
    ensures Holds(Load(map[0 := 7], Short(e, big), FILE_HEADER + e, 0).memory, 0, if big then 0 else 7)
  {
    var bytes, size, m: Memory := Short(e, big), FILE_HEADER + e, map[0 := 7];
    ShortFields(e, big);
    ShortEntry(e, big);
    var ss := Headers(bytes, size);
    assert ss[0] == Entry(bytes, size, 0) == SegmentAt(bytes, FILE_HEADER);
    var r := LoadSegment(m, bytes, ss[0]);
    assert LoadFrom(r, bytes, size, ss, 1) == (true, r);
    assert LoadFrom(m, bytes, size, ss, 0) == (true, r);
    SegmentMeaning(m, bytes, ss[0], 0);
  }

  lemma ShortFilesEqual(e: Byte)
    requires e < ENTRY_READ
    ensures Short(e, false)[..FILE_HEADER + e] == Short(e, true)[..FILE_HEADER + e]
  {
    var one, other := Short(e, false), Short(e, true);
    assert forall i :: 0 <= i < FILE_HEADER + e ==> one[i] == other[i];
  }

  /** The same file with the given entry size loads differently in two surroundings. */
  ghost predicate LoadsDifferently(e: Byte, m: Memory, one: seq<Byte>, other: seq<Byte>, size: nat) {
    && Placed(one, size) && Placed(other, size) && one[..size] == other[..size]
    && HeaderOk(one, size) && EntrySize(one) == e
    && Load(m, one, size, 0) != Load(m, other, size, 0)
  }

  /** And only then: for every smaller entry size some image loads differently depending on
      the bytes behind it. */
  lemma ShortEntriesReadBehind(e: Byte)
    requires e < ENTRY_READ
    ensures exists m, one, other, size :: LoadsDifferently(e, m, one, other, size)
  {
    ShortLoads(e, false);
    ShortLoads(e, true);
    ShortFields(e, false);
    ShortFilesEqual(e);
    assert LoadsDifferently(e, map[0 := 7], Short(e, false), Short(e, true), FILE_HEADER + e);
  }
}
