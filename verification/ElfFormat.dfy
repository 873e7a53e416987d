/** ELF32 files as the System V gABI lays them out (chapter 4, "ELF Header", and chapter 5,
    "Program Header"), and what the loader makes of a file laid out so. */
module ElfFormat {
  import opened Words
  import opened Elf

  datatype FileHeader = FileHeader(
    ident: seq<Byte>, kind: U16, machine: U16, version: U32, entry: U32, phoff: U32, shoff: U32, flags: U32,
    ehsize: U16, phentsize: U16, phnum: U16, shentsize: U16, shnum: U16, shstrndx: U16)

  datatype ProgramHeader = ProgramHeader(
    kind: U32, offset: U32, vaddr: U32, paddr: U32, filesz: U32, memsz: U32, flags: U32, align: U32)

  function EncodeFile(h: FileHeader): (b: seq<Byte>)
    requires |h.ident| == 16
    ensures |b| == 52
  {
    h.ident + Bytes16(h.kind) + Bytes16(h.machine) + Bytes32(h.version) + Bytes32(h.entry) + Bytes32(h.phoff)
    + Bytes32(h.shoff) + Bytes32(h.flags) + Bytes16(h.ehsize) + Bytes16(h.phentsize) + Bytes16(h.phnum)
    + Bytes16(h.shentsize) + Bytes16(h.shnum) + Bytes16(h.shstrndx)
  }

  function EncodeProgram(p: ProgramHeader): (b: seq<Byte>)
    ensures |b| == 32
  {
    Bytes32(p.kind) + Bytes32(p.offset) + Bytes32(p.vaddr) + Bytes32(p.paddr)
    + Bytes32(p.filesz) + Bytes32(p.memsz) + Bytes32(p.flags) + Bytes32(p.align)
  }

  /** `w` stands in `b` at `at`. */
  predicate Stands(b: seq<Byte>, at: nat, w: seq<Byte>) {
    at + |w| <= |b| && b[at..at + |w|] == w
  }

  lemma PartStands(b: seq<Byte>, at: nat, w: seq<Byte>, lo: nat, hi: nat)
    requires Stands(b, at, w) && lo <= hi <= |w|
    ensures Stands(b, at + lo, w[lo..hi])
  {
    forall k | 0 <= k < hi - lo ensures b[at + lo..at + hi][k] == w[lo..hi][k] {
      assert b[at..at + |w|][lo + k] == w[lo + k];
    }
  }

  /** The program header read back. */
  lemma ProgramRoundTrip(b: seq<Byte>, at: nat, p: ProgramHeader)
    requires Stands(b, at, EncodeProgram(p))
    ensures SegmentAt(b, at) == Segment(p.kind, p.offset, p.vaddr, p.filesz, p.memsz)
  {
    var w := EncodeProgram(p);
    assert w[0..4] == Bytes32(p.kind) && w[4..8] == Bytes32(p.offset) && w[8..12] == Bytes32(p.vaddr);
    assert w[16..20] == Bytes32(p.filesz) && w[20..24] == Bytes32(p.memsz);
    PartStands(b, at, w, 0, 4);
    PartStands(b, at, w, 4, 8);
    PartStands(b, at, w, 8, 12);
    PartStands(b, at, w, 16, 20);
    PartStands(b, at, w, 20, 24);
    Le32Back(b, at, p.kind);
    Le32Back(b, at + 4, p.offset);
    Le32Back(b, at + 8, p.vaddr);
    Le32Back(b, at + 16, p.filesz);
    Le32Back(b, at + 20, p.memsz);
  }

  /** The file header read back: the fields the loader uses. */
  lemma FileRoundTrip(b: seq<Byte>, h: FileHeader)
    requires |h.ident| == 16 && Stands(b, 0, EncodeFile(h))
    ensures |b| >= 52 && b[..16] == h.ident
    ensures Le16(b, 16) == h.kind && Le16(b, 18) == h.machine && Le32(b, 24) == h.entry
    ensures TableAt(b) == h.phoff && EntrySize(b) == h.phentsize && EntryCount(b) == h.phnum
  {
    var w := EncodeFile(h);
    assert w[0..16] == h.ident && w[16..18] == Bytes16(h.kind) && w[18..20] == Bytes16(h.machine);
    assert w[24..28] == Bytes32(h.entry) && w[28..32] == Bytes32(h.phoff);
    assert w[42..44] == Bytes16(h.phentsize) && w[44..46] == Bytes16(h.phnum);
    PartStands(b, 0, w, 0, 16);
    PartStands(b, 0, w, 16, 18);
    PartStands(b, 0, w, 18, 20);
    PartStands(b, 0, w, 24, 28);
    PartStands(b, 0, w, 28, 32);
    PartStands(b, 0, w, 42, 44);
    PartStands(b, 0, w, 44, 46);
    Le16Back(b, 16, h.kind);
    Le16Back(b, 18, h.machine);
    Le32Back(b, 24, h.entry);
    Le32Back(b, 28, h.phoff);
    Le16Back(b, 42, h.phentsize);
    Le16Back(b, 44, h.phnum);
  }

  /** The bytes are a file with this header and these program headers, in some surroundings. */
  ghost predicate IsFile(b: seq<Byte>, size: nat, h: FileHeader, ps: seq<ProgramHeader>) {
    && 52 <= size && Placed(b, size) && |h.ident| == 16 && Stands(b, 0, EncodeFile(h)) && |ps| == h.phnum
    && forall i :: 0 <= i < |ps| ==> EntryStands(b, h, i, ps[i])
  }

  predicate EntryStands(b: seq<Byte>, h: FileHeader, i: nat, p: ProgramHeader) {
    Stands(b, h.phoff + i * h.phentsize, EncodeProgram(p))
  }

  /** A 32-bit little-endian executable for the i386 with at least one program header, the whole
      table inside the file. */
  predicate GoodHeader(h: FileHeader, size: nat)
    requires |h.ident| == 16
  {
    && h.ident[..6] == [0x7F, 0x45, 0x4C, 0x46, 1, 1] && h.kind == 2 && h.machine == 3
    && h.phnum > 0 && h.phoff + h.phentsize * h.phnum <= size
  }

  predicate GoodProgram(p: ProgramHeader, size: nat) {
    p.kind == 1 ==> p.offset + p.filesz <= size && p.filesz <= p.memsz
  }

  lemma HeaderOkIff(b: seq<Byte>, size: nat, h: FileHeader)
    requires 52 <= size <= |b| && |h.ident| == 16 && Stands(b, 0, EncodeFile(h))
    ensures HeaderOk(b, size) <==> GoodHeader(h, size)
  {
    FileRoundTrip(b, h);
    var m := h.ident[..6];
    assert forall i :: 0 <= i < 6 ==> m[i] == b[..16][i] == b[i];
    if IsExecutable(b) {
      assert m == [0x7F, 0x45, 0x4C, 0x46, 1, 1];
    }
  }

  lemma HeadersAre(b: seq<Byte>, size: nat, h: FileHeader, ps: seq<ProgramHeader>, i: nat)
    requires IsFile(b, size, h, ps) && HeaderOk(b, size) && i < |ps|
    ensures i < EntryCount(b)
    ensures Headers(b, size)[i] == Segment(ps[i].kind, ps[i].offset, ps[i].vaddr, ps[i].filesz, ps[i].memsz)
  {
    FileRoundTrip(b, h);
    assert EntryStands(b, h, i, ps[i]);
    EntryIs(b, size, h, ps[i], i);
    assert Headers(b, size)[i] == Entry(b, size, i);
  }

  lemma EntryIs(b: seq<Byte>, size: nat, h: FileHeader, p: ProgramHeader, i: nat)
    requires Placed(b, size) && HeaderOk(b, size) && i < EntryCount(b) && EntryStands(b, h, i, p)
    requires TableAt(b) == h.phoff && EntrySize(b) == h.phentsize
    ensures Entry(b, size, i) == Segment(p.kind, p.offset, p.vaddr, p.filesz, p.memsz)
  {
    EntryInPlace(b, size, i);
    ProgramRoundTrip(b, h.phoff + i * h.phentsize, p);
  }

  /** The loader accepts a file exactly when its header is good and every loadable segment lies in
      the file and is no longer there than in memory. */
  lemma LoadsIff(m: Memory, b: seq<Byte>, size: nat, entry: U32, h: FileHeader, ps: seq<ProgramHeader>)
    requires IsFile(b, size, h, ps)
    ensures var r := Load(m, b, size, entry);
            && (r.ok <==> GoodHeader(h, size) && forall i :: 0 <= i < |ps| ==> GoodProgram(ps[i], size))
            && r.entry == if r.ok then h.entry else entry
  {
    FileRoundTrip(b, h);
    HeaderOkIff(b, size, h);
    SucceedsIffAccepts(m, b, size, entry);
    if HeaderOk(b, size) {
      forall i | 0 <= i < |ps| ensures SegmentOk(Entry(b, size, i), size) <==> GoodProgram(ps[i], size) {
        HeadersAre(b, size, h, ps, i);
        assert Headers(b, size)[i] == Entry(b, size, i);
      }
    }
  }

  /** The address belongs to the memory range of the segment, around the address space. */
  predicate Occupies(p: ProgramHeader, a: U32) {
    p.kind == 1 && (a - p.vaddr) % 0x1_0000_0000 < p.memsz
  }

  /** After a successful load, wherever no other segment overlaps it, the k-th byte of a loadable
      segment is the byte `p_offset + k` of the file, or zero behind the file's part. */
  lemma SegmentLoaded(m: Memory, b: seq<Byte>, size: nat, entry: U32, h: FileHeader, ps: seq<ProgramHeader>,
                      j: nat, k: nat)
    requires IsFile(b, size, h, ps) && Load(m, b, size, entry).ok
    requires j < |ps| && ps[j].kind == 1 && k < ps[j].memsz
    requires forall i :: 0 <= i < |ps| && i != j ==> !Occupies(ps[i], (ps[j].vaddr + k) % 0x1_0000_0000)
    ensures k < ps[j].filesz ==> ps[j].offset + k < |b|
    ensures Elf.Holds(Load(m, b, size, entry).memory, (ps[j].vaddr + k) % 0x1_0000_0000,
                      if k < ps[j].filesz then b[ps[j].offset + k] else 0)
  {
    FileRoundTrip(b, h);
    LoadsIff(m, b, size, entry, h, ps);
    HeaderOkIff(b, size, h);
    SucceedsIffAccepts(m, b, size, entry);
    var ss, a := Headers(b, size), Wrap32(ps[j].vaddr + k);
    forall i | 0 <= i < |ss| ensures ss[i] == Segment(ps[i].kind, ps[i].offset, ps[i].vaddr, ps[i].filesz, ps[i].memsz) {
      HeadersAre(b, size, h, ps, i);
    }
    assert GoodProgram(ps[j], size);
    forall i | 0 <= i < |ss| && i != j ensures !Covers(ss[i], a) {
      assert !Occupies(ps[i], a);
    }
    DisjointSegmentLoaded(m, b, size, entry, j, k);
  }
}
