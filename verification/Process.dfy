/**
  process.c: the allocation ledger of a process, its directory and the kernel heap, updated in place.
*/
module Process {
  import opened Words
  import opened HeapTable
  import opened PhysicalMemory
  import opened PageTable
  import opened Paging
  import opened Kheap
  import opened Ledger

  class Process {
    /** Page directory of the process's task. */
    const directory: Word
    const allocations: array<Slot>

    /** process_init, for a task whose directory is at `d`. */
    constructor (d: Word)
      requires d % PAGE_SIZE == 0
      ensures Valid() && directory == d && fresh(allocations)
      ensures forall i | 0 <= i < MAX_ALLOCATIONS :: allocations[i] == EMPTY
    {
      directory := d;
      allocations := new Slot[MAX_ALLOCATIONS](_ => EMPTY);
    }

    predicate Valid() {
      directory % PAGE_SIZE == 0 && allocations.Length == MAX_ALLOCATIONS
    }

    /** The ledger is not the heap's table: in the kernel the process structure and the table lie at
        different addresses. */
    predicate Apart(k: Machine)
      reads k.heap
    {
      allocations as object != k.heap.table
    }

    ghost function L(): Slots
      requires Valid()
      reads allocations
    {
      allocations[..]
    }

    /** process_find_free_allocation_index */
    method FindFreeAllocationIndex() returns (res: int)
      requires Valid()
      ensures res == FreeIndex(L())
    {
      res := -ENOMEM;
      for i := 0 to MAX_ALLOCATIONS
        invariant res == -ENOMEM
        invariant forall j | 0 <= j < i :: allocations[j].ptr != 0
      {
        if allocations[i].ptr == 0 {
          res := i;
          break;
        }
      }
    }

    /** process_get_allocation_by_addr: the index of the slot, -1 for none. */
    method GetAllocationByAddr(addr: Word) returns (res: int)
      requires Valid()
      ensures res == FindByAddr(L(), addr)
    {
      for i := 0 to MAX_ALLOCATIONS
        invariant forall j | 0 <= j < i :: allocations[j].ptr != addr
      {
        if allocations[i].ptr == addr {
          return i;
        }
      }
      return -1;
    }

    /** process_allocation_unjoin */
    method AllocationUnjoin(ptr: Word)
      requires Valid()
      modifies allocations
      ensures L() == Unjoin(old(L()), ptr)
    {
      for i := 0 to MAX_ALLOCATIONS
        invariant forall j | 0 <= j < MAX_ALLOCATIONS ::
                    allocations[j] == if j < i && old(allocations[j]).ptr == ptr then EMPTY else old(allocations[j])
      {
        if allocations[i].ptr == ptr {
          allocations[i] := Slot(0x00, 0);
        }
      }
    }

    /** process_malloc */
    method Malloc(k: Machine, size: Size) returns (ptr: Word)
      requires Valid() && k.Valid() && Apart(k) && Safe(k.T(), Blocks(size))
      modifies k.heap.table, k.mem, allocations
      ensures Outcome(k.T(), k.M(), L(), ptr)
              == ProcessMallocSpec(k.Hb(), old(k.T()), old(k.M()), FrameOf(directory), old(L()), size)
    {
      hide ZeroFill;
      hide MapPages;
      hide MarkTaken;
      hide StartBlock;
      ptr := k.Kzalloc(size);
      if ptr == 0 {
        return;
      }
      var index := FindFreeAllocationIndex();
      if index < 0 {
        k.Kfree(ptr);
        return 0;
      }
      var res := PagingMapTo(k, directory, ptr, ptr, AlignUp(Wrap(ptr + size)), USER_FLAGS);
      if res < 0 {
        k.Kfree(ptr);
        return 0;
      }
      allocations[index] := Slot(ptr, size);
    }

    /** process_free. A slot that matches must hold a pointer into the pool: freeing null while a slot is
        empty is not allowed. */
    method Free(k: Machine, ptr: Word)
      requires Valid() && k.Valid() && Apart(k)
      requires FindByAddr(L(), ptr) >= 0 ==> k.Hb() <= ptr / PAGE_SIZE < k.Hb() + |k.T()|
      modifies k.heap.table, k.mem, allocations
      ensures Outcome(k.T(), k.M(), L(), 0)
              == ProcessFreeSpec(k.Hb(), old(k.T()), old(k.M()), FrameOf(directory), old(L()), ptr)
    {
      hide MapPages;
      hide FreeChain;
      var i := GetAllocationByAddr(ptr);
      if i < 0 {
        return;
      }
      var allocation := allocations[i];
      var res := PagingMapTo(k, directory, allocation.ptr, allocation.ptr,
                             AlignUp(Wrap(allocation.ptr + allocation.size)), 0x00);
      if res < 0 {
        return;
      }
      AllocationUnjoin(ptr);
      k.Kfree(ptr);
    }

    /** process_terminate_allocations, over the slots that are not empty. */
    method TerminateAllocations(k: Machine)
      requires Valid() && k.Valid() && Apart(k) && InPoolSlots(k.Hb(), |k.T()|, L())
      modifies k.heap.table, k.mem, allocations
      ensures Outcome(k.T(), k.M(), L(), 0)
              == TerminateSpec(k.Hb(), old(k.T()), old(k.M()), FrameOf(directory), old(L()), MAX_ALLOCATIONS).(ptr := 0)
    {
      hide ProcessFreeSpec;
      for i := 0 to MAX_ALLOCATIONS
        invariant Outcome(k.T(), k.M(), L(), 0)
                  == TerminateSpec(k.Hb(), old(k.T()), old(k.M()), FrameOf(directory), old(L()), i).(ptr := 0)
        invariant |k.T()| == |old(k.T())| && InPoolSlots(k.Hb(), |k.T()|, L())
      {
        if allocations[i].ptr != 0 {
          InPoolPointer(k.Hb(), |k.T()|, L(), i);
          Free(k, allocations[i].ptr);
        }
      }
    }
  }

  lemma InPoolPointer(hb: int, blocks: nat, l: Slots, i: nat)
    requires InPoolSlots(hb, blocks, l) && i < MAX_ALLOCATIONS && l[i].ptr != 0
    ensures hb <= l[i].ptr / PAGE_SIZE < hb + blocks
  {
    BlocksPositive(l[i].size);
  }
}
