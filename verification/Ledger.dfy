/**
  process.c, the allocation ledger of one process: process_malloc and process_free as functions of the
  heap table, physical memory, the process's directory and its ledger.
*/
module Ledger {
  import opened Words
  import opened HeapTable
  import opened PhysicalMemory
  import opened PageTable

  const MAX_ALLOCATIONS := 1024
  const USER_FLAGS := 7

  datatype Slot = Slot(ptr: Word, size: Word)

  type Slots = l: seq<Slot> | |l| == MAX_ALLOCATIONS ghost witness seq(MAX_ALLOCATIONS, _ => Slot(0, 0))

  const EMPTY := Slot(0, 0)

  /** process_find_free_allocation_index */
  function FreeIndex(l: seq<Slot>): (r: int)
    ensures r == -ENOMEM || 0 <= r < |l|
    ensures 0 <= r ==> l[r].ptr == 0 && forall i | 0 <= i < r :: l[i].ptr != 0
    ensures r < 0 ==> forall i | 0 <= i < |l| :: l[i].ptr != 0
  {
    IndexOf(l, 0, -ENOMEM)
  }

  /** process_get_allocation_by_addr */
  function FindByAddr(l: seq<Slot>, addr: Word): (r: int)
    ensures r == -1 || 0 <= r < |l|
    ensures 0 <= r ==> l[r].ptr == addr && forall i | 0 <= i < r :: l[i].ptr != addr
    ensures r < 0 ==> forall i | 0 <= i < |l| :: l[i].ptr != addr
  {
    IndexOf(l, addr, -1)
  }

  /** The first slot whose pointer is `addr`, or `none`. */
  function IndexOf(l: seq<Slot>, addr: Word, none: int): (r: int)
    requires none < 0
    ensures r == none || 0 <= r < |l|
    ensures 0 <= r ==> l[r].ptr == addr && forall i | 0 <= i < r :: l[i].ptr != addr
    ensures r < 0 ==> forall i | 0 <= i < |l| :: l[i].ptr != addr
  {
    if l == [] then none
    else
      var r := IndexOf(l[..|l| - 1], addr, none);
      if r >= 0 then r
      else if l[|l| - 1].ptr == addr then |l| - 1
      else none
  }

  /** process_allocation_unjoin: every slot with the pointer is emptied. */
  function Unjoin(l: Slots, ptr: Word): (r: Slots)
    ensures forall i | 0 <= i < MAX_ALLOCATIONS :: r[i] == if l[i].ptr == ptr then EMPTY else l[i]
  {
    seq(MAX_ALLOCATIONS, i requires 0 <= i < MAX_ALLOCATIONS => if l[i].ptr == ptr then EMPTY else l[i])
  }

  datatype Outcome = Outcome(table: Table, mem: Memory, slots: Slots, ptr: Word)

  /** process_malloc */
  function ProcessMallocSpec(hb: int, t: Table, m: Memory, d: Frame, l: Slots, size: Size): Outcome
    requires PoolBounds(hb, |t|) && Safe(t, Blocks(size))
  {
    var (t1, m1, ptr) := KzallocSpec(hb, t, m, size);
    if ptr == 0 then Outcome(t1, m1, l, 0)
    else
      var index := FreeIndex(l);
      if index < 0 then Outcome(KfreeSpec(hb, t1, ptr), m1, l, 0)
      else
        var (res, m2) := MapTo(m1, d, ptr, ptr, AlignUp(Wrap(ptr + size)), USER_FLAGS);
        if res < 0 then Outcome(KfreeSpec(hb, t1, ptr), m2, l, 0)
        else Outcome(t1, m2, l[index := Slot(ptr, size)], ptr)
  }

  /** process_free */
  function ProcessFreeSpec(hb: int, t: Table, m: Memory, d: Frame, l: Slots, ptr: Word): Outcome
    requires FindByAddr(l, ptr) >= 0 ==> ptr / PAGE_SIZE >= hb
  {
    var i := FindByAddr(l, ptr);
    if i < 0 then Outcome(t, m, l, 0)
    else
      var (res, m') := MapTo(m, d, l[i].ptr, l[i].ptr, AlignUp(Wrap(l[i].ptr + l[i].size)), 0);
      if res < 0 then Outcome(t, m', l, 0)
      else Outcome(KfreeSpec(hb, t, ptr), m', Unjoin(l, ptr), 0)
  }

  /** The pages of an allocation are exactly the blocks its size is rounded to. */
  lemma PagesAreBlocks(hb: int, blocks: nat, s: nat, size: Size)
    requires PoolBounds(hb, blocks) && s + Blocks(size) <= blocks
    ensures PAGE_SIZE * (hb + s) + size < 0x1_0000_0000
    ensures AlignUp(Wrap(PAGE_SIZE * (hb + s) + size)) == PAGE_SIZE * (hb + s + Blocks(size))
  {
    BlocksExact(size);
    var p := PAGE_SIZE * (hb + s) + size;
    WrapSmall(p);
    assert p % PAGE_SIZE == size % PAGE_SIZE;
    assert PAGE_SIZE * (hb + s + Blocks(size)) < 0x1_0000_0000;
    if size % PAGE_SIZE != 0 {
      WrapSmall(p + PAGE_SIZE - p % PAGE_SIZE);
      WrapSmall(size + PAGE_SIZE - size % PAGE_SIZE);
    }
  }

  /** The three ways process_malloc ends for a positive size: no block run, no slot, or the allocation.
      The mapping never fails, and a full ledger leaves the table bit for bit as it was. */
  lemma MallocCases(hb: int, t: Table, m: Memory, d: Frame, l: Slots, size: Size)
    requires PoolBounds(hb, |t|) && WellFormed(t) && size > 0 && Safe(t, Blocks(size))
    ensures var r := ProcessMallocSpec(hb, t, m, d, l, size);
            var s := StartBlock(t, Blocks(size));
            && (r.ptr == 0 <==> !CanFit(t, Blocks(size)) || FreeIndex(l) < 0)
            && (!CanFit(t, Blocks(size)) ==> r == Outcome(t, m, l, 0))
            && (CanFit(t, Blocks(size)) ==> 0 <= s && s + Blocks(size) <= |t| && FreeRun(t, s, Blocks(size)))
            && (CanFit(t, Blocks(size)) && FreeIndex(l) < 0 ==>
                  r == Outcome(t, ZeroFill(m, PAGE_SIZE * (hb + s), size), l, 0))
            && (r.ptr != 0 ==>
                  r == Outcome(MarkTaken(t, s, Blocks(size)),
                               MapPages(ZeroFill(m, PAGE_SIZE * (hb + s), size), d, hb + s, hb + s, Blocks(size),
                                        USER_FLAGS),
                               l[FreeIndex(l) := Slot(PAGE_SIZE * (hb + s), size)],
                               PAGE_SIZE * (hb + s)))
  {
    hide WellFormed;
    hide MarkTaken;
    hide ZeroFill;
    hide MapPages;
    hide FreeRun;
    hide StartBlock;
    hide Wrap;
    hide AlignUp;
    hide FreeChain;
    hide FreeIndex;
    BlocksPositive(size);
    var n := Blocks(size);
    MallocBlocksLive(t, n);
    FirstFitExact(t, n);
    var s := MallocBlocks(t, n).1;
    if s >= 0 {
      PagesAreBlocks(hb, |t|, s, size);
      FreeUndoesMalloc(t, n);
      WrapSmall(PAGE_SIZE * (hb + s) + size);
    }
  }

  /** Freeing an allocation the ledger holds: its pages are unmapped, its slot emptied, its chain freed. */
  lemma FreeCase(hb: int, t: Table, m: Memory, d: Frame, l: Slots, ptr: Word, s: nat)
    requires PoolBounds(hb, |t|) && FindByAddr(l, ptr) >= 0 && ptr == PAGE_SIZE * (hb + s)
    requires l[FindByAddr(l, ptr)].size <= 0x1_0000_0000 - PAGE_SIZE
    requires s + Blocks(l[FindByAddr(l, ptr)].size) <= |t|
    ensures ProcessFreeSpec(hb, t, m, d, l, ptr)
            == Outcome(FreeChain(t, s), MapPages(m, d, hb + s, hb + s, Blocks(l[FindByAddr(l, ptr)].size), 0),
                       Unjoin(l, ptr), 0)
  {
    hide MapPages;
    hide FreeChain;
    hide Unjoin;
    hide FindByAddr;
    hide Wrap;
    hide AlignUp;
    PagesAreBlocks(hb, |t|, s, l[FindByAddr(l, ptr)].size);
    WrapSmall(ptr + l[FindByAddr(l, ptr)].size);
  }

  lemma BlocksPositive(size: Size)
    requires size > 0
    ensures Blocks(size) >= 1
  {
    BlocksExact(size);
  }

  // ---------------------------------------------------------------- process_terminate_allocations

  /** Every held allocation is an aligned chain of the pool. */
  ghost predicate InPoolSlots(hb: int, blocks: nat, l: Slots) {
    forall i | 0 <= i < MAX_ALLOCATIONS && l[i].ptr != 0 ::
      && l[i].ptr % PAGE_SIZE == 0 && hb <= l[i].ptr / PAGE_SIZE
      && 0 < l[i].size <= 0x1_0000_0000 - PAGE_SIZE
      && l[i].ptr / PAGE_SIZE + Blocks(l[i].size) <= hb + blocks
  }

  /** process_terminate_allocations over its first `n` slots, the empty ones passed over. */
  ghost function TerminateSpec(hb: int, t: Table, m: Memory, d: Frame, l: Slots, n: nat): (r: Outcome)
    requires PoolBounds(hb, |t|) && InPoolSlots(hb, |t|, l) && n <= MAX_ALLOCATIONS
    ensures |r.table| == |t| && InPoolSlots(hb, |t|, r.slots)
  {
    if n == 0 then Outcome(t, m, l, 0)
    else
      var r := TerminateSpec(hb, t, m, d, l, n - 1);
      if r.slots[n - 1].ptr == 0 then r
      else
        ProcessFreeKeepsPool(hb, r.table, r.mem, d, r.slots, r.slots[n - 1].ptr);
        ProcessFreeSpec(hb, r.table, r.mem, d, r.slots, r.slots[n - 1].ptr)
  }

  lemma ProcessFreeKeepsPool(hb: int, t: Table, m: Memory, d: Frame, l: Slots, ptr: Word)
    requires InPoolSlots(hb, |t|, l) && ptr != 0
    ensures FindByAddr(l, ptr) >= 0 ==> ptr / PAGE_SIZE >= hb
    ensures |ProcessFreeSpec(hb, t, m, d, l, ptr).table| == |t|
    ensures InPoolSlots(hb, |t|, ProcessFreeSpec(hb, t, m, d, l, ptr).slots)
  {
    hide MapTo;
    hide AlignUp;
    hide Blocks;
  }
}
