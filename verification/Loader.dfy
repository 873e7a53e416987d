/** The loader as it runs, storing byte by byte, proved against `Elf`. */
module Loader {
  import opened Words
  import opened Elf

  /** The caller's variable for the entry point. */
  class Cell {
    var value: U32
    constructor () { value := 0; }
  }

  class Machine {
    var memory: Memory

    constructor (m: Memory)
      ensures memory == m
    {
      memory := m;
    }

    method StoreSegment(image: array<Byte>, s: Segment)
      requires IsLoad(s) && SegmentOk(s, image.Length)
      modifies this
      ensures memory == LoadSegment(old(memory), image[..], s)
    {
      ghost var was, bytes := memory, image[..];
      var b := 0;
      while b < s.filesz
        invariant 0 <= b <= s.filesz
        invariant memory == CopyBytes(was, bytes, s, b)
      {
        memory := memory[Wrap32(s.vaddr + b) := image[s.offset + b]];
        b := b + 1;
      }
      ghost var copied := memory;
      while b < s.memsz
        invariant s.filesz <= b <= s.memsz
        invariant memory == ZeroFill(copied, s, s.filesz, b)
      {
        memory := memory[Wrap32(s.vaddr + b) := 0];
        b := b + 1;
      }
    }

    method IdentAccepted(image: array<Byte>) returns (ok: bool)
      requires FILE_HEADER <= image.Length
      ensures ok <==> IsExecutable(image[..])
    {
      if image[0] != 0x7F || image[1] != 'E' as int || image[2] != 'L' as int || image[3] != 'F' as int {
        return false;
      }
      if image[4] != 1 || image[5] != 1 {
        return false;
      }
      return Le16(image[..], 16) == 2 && Le16(image[..], 18) == 3;
    }

    method HeaderAccepted(image: array<Byte>, size: U32) returns (ok: bool)
      requires Placed(image[..], size)
      ensures ok <==> HeaderOk(image[..], size)
    {
      if size < FILE_HEADER {
        return false;
      }
      ok := IdentAccepted(image);
      if !ok {
        return;
      }
      var phoff, phentsize, phnum := Le32(image[..], 28), Le16(image[..], 42), Le16(image[..], 44);
      if phnum == 0 {
        return false;
      }
      var tableSize: int := phentsize as int * phnum as int;
      return phoff <= size && tableSize <= size - phoff;
    }

    /** Null pointers are refused first; `image` reaches past the `size` bytes of the file. */
    method Load32(image: array?<Byte>, size: U32, out: Cell?) returns (ok: bool)
      requires image != null ==> Placed(image[..], size)
      modifies this, out
      ensures image == null || out == null ==> !ok && memory == old(memory)
      ensures image == null && out != null ==> out.value == old(out.value)
      ensures image != null && out != null ==>
                Outcome(ok, memory, out.value) == Load(old(memory), image[..], size, old(out.value))
    {
      if image == null || out == null {
        return false;
      }
      ok := HeaderAccepted(image, size);
      if !ok {
        return;
      }
      ghost var bytes := image[..];
      ghost var ss := Headers(bytes, size);
      ghost var done := LoadFrom(memory, bytes, size, ss, 0);
      var phoff, phentsize, phnum := Le32(image[..], 28), Le16(image[..], 42), Le16(image[..], 44);
      var i := 0;
      while i < phnum
        invariant 0 <= i <= phnum && out.value == old(out.value)
        invariant LoadFrom(memory, bytes, size, ss, i) == done
      {
        EntryInPlace(bytes, size, i);
        var s := SegmentAt(image[..], phoff + i * phentsize);
        assert s == ss[i];
        if IsLoad(s) {
          if s.offset > size || s.filesz > size - s.offset || s.memsz < s.filesz {
            return false;
          }
          StoreSegment(image, s);
        }
        i := i + 1;
      }
      out.value := Le32(image[..], 24);
    }
  }
}
