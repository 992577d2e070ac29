/**
  kheap.c: the kernel heap over physical memory.
*/
module Kheap {
  import opened Words
  import opened HeapTable
  import opened PhysicalMemory
  import opened Heap

  class Machine {
    const heap: Heap
    const mem: array<Word>

    constructor (h: Heap, m: array<Word>)
      requires h.Valid() && m.Length == MEM_WORDS
      ensures Valid() && heap == h && mem == m
    {
      heap, mem := h, m;
    }

    predicate Valid()
      reads this, heap
    {
      heap.Valid() && mem.Length == MEM_WORDS
    }

    /** Frame of the first block of the pool. */
    function Hb(): int
      requires Valid()
      reads this, heap
    {
      heap.saddr / PAGE_SIZE
    }

    function T(): Table
      requires Valid()
      reads this, heap, heap.table
      ensures PoolBounds(Hb(), |T()|)
    {
      heap.table[..]
    }

    ghost function M(): Memory
      requires Valid()
      reads this, heap, mem
    {
      mem[..]
    }

    method Kmalloc(size: Word) returns (ptr: Word)
      requires Valid() && Safe(T(), Blocks(size))
      modifies heap.table
      ensures T() == MallocBlocks(old(T()), Blocks(size)).0
      ensures ptr == var s := MallocBlocks(old(T()), Blocks(size)).1; if s < 0 then 0 else PAGE_SIZE * (Hb() + s)
    {
      ptr := heap.Malloc(size);
    }

    /** kzalloc: allocate, then memset byte by byte. */
    method Kzalloc(size: Size) returns (ptr: Word)
      requires Valid() && Safe(T(), Blocks(size))
      modifies heap.table, mem
      ensures (T(), M(), ptr) == KzallocSpec(Hb(), old(T()), old(M()), size)
    {
      ptr := Kmalloc(size);
      if ptr == 0 {
        return;
      }
      assert ZeroFill(M(), ptr, 0) == M();
      for i := 0 to size
        invariant M() == ZeroFill(old(M()), ptr, i)
        modifies mem
      {
        ZeroFillStep(old(M()), ptr, i);
        StoreByte(ptr + i, 0);
      }
    }

    method Kfree(ptr: Word)
      requires Valid() && Hb() <= ptr / PAGE_SIZE < Hb() + 0x8_0000
      modifies heap.table
      ensures T() == KfreeSpec(Hb(), old(T()), ptr)
    {
      heap.Free(ptr);
    }

    method LoadByte(a: Word) returns (b: Byte)
      requires Valid()
      ensures b == ByteAt(M(), a)
    {
      b := ByteOf(mem[a / 4], a % 4);
    }

    method StoreByte(a: Word, b: Byte)
      requires Valid()
      modifies mem
      ensures M() == WithByte(old(M()), a, b)
    {
      mem[a / 4] := SetByte(mem[a / 4], a % 4, b);
    }

    method StoreWord(f: Frame, w: Index, v: Word)
      requires Valid()
      modifies mem
      ensures M() == WithCell(old(M()), f, w, v)
    {
      mem[PAGE_WORDS * f + w] := v;
    }
  }
}
