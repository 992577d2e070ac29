/**
  heap.c: the block allocator over its table of entries.

  Every method is tied to the value of the table by the functions of HeapTable.
*/
module Heap {
  import opened Words
  import opened HeapTable

  class Heap {
    var saddr: Word
    var table: array<bv8>

    constructor (t: array<bv8>)
      ensures table == t && saddr == 0
    {
      saddr, table := 0, t;
    }

    /** An aligned pool whose blocks all have addresses, with offsets that fit a signed integer. */
    predicate Valid()
      reads this
    {
      && 0 < saddr && saddr % PAGE_SIZE == 0
      && table.Length < 0x8_0000
      && saddr + PAGE_SIZE * table.Length < 0x1_0000_0000
    }

    /** heap_create: refuses an unaligned pool and a table of the wrong size; clears the table. */
    method Create(ptr: Word, end: Word, t: array<bv8>) returns (res: int)
      modifies this, t
      ensures res == 0 <==> ptr % PAGE_SIZE == 0 && end % PAGE_SIZE == 0 && t.Length == Wrap(end - ptr) / PAGE_SIZE
      ensures res == 0 || res == -EINVARG
      ensures res == 0 ==> saddr == ptr && table == t && forall i | 0 <= i < t.Length :: t[i] == FREE
      ensures res != 0 ==> t[..] == old(t[..])
    {
      if ptr % PAGE_SIZE != 0 || end % PAGE_SIZE != 0 {
        return -EINVARG;
      }
      saddr, table := ptr, t;
      if t.Length != Wrap(end - ptr) / PAGE_SIZE {
        return -EINVARG;
      }
      for i := 0 to t.Length
        modifies t
        invariant forall j | 0 <= j < i :: t[j] == FREE
      {
        t[i] := FREE;
      }
      return 0;
    }

    function BlockToAddress(block: nat): Word
      requires Valid() && block < table.Length
      reads this
    {
      saddr + block * PAGE_SIZE
    }

    function AddressToBlock(address: Word): int
      reads this
    {
      TruncDiv(Signed(Wrap(address - saddr)), PAGE_SIZE)
    }

    /** heap_get_start_block */
    method GetStartBlock(totalBlocks: nat) returns (r: int)
      ensures r == StartBlock(table[..], totalBlocks)
    {
      ghost var t := table[..];
      var bc, bs := 0, -1;
      var i := 0;
      while i < table.Length
        invariant 0 <= i <= table.Length
        invariant if bs == -1 then bc == 0 else 0 <= bs < i && bs + bc == i && FreeRun(t, bs, bc)
        invariant i > 0 && bs == -1 ==> !IsFree(t[i - 1])
        invariant bs > 0 ==> !IsFree(t[bs - 1])
        invariant totalBlocks >= 1 ==> bc < totalBlocks
        invariant totalBlocks >= 1 ==> forall s | 0 <= s && s + totalBlocks <= i :: !FreeRun(t, s, totalBlocks)
      {
        if !IsFree(table[i]) {
          bc, bs := 0, -1;
          assert forall s | 0 <= s && s + totalBlocks == i + 1 && totalBlocks >= 1 ::
              s <= i < s + totalBlocks && !FreeRun(t, s, totalBlocks);
          i := i + 1;
          continue;
        }
        if bs == -1 { bs := i; }
        bc := bc + 1;
        if bc == totalBlocks {
          FoundRun(t, bs, totalBlocks, i);
          return bs;
        }
        assert forall s | 0 <= s && s + totalBlocks == i + 1 && bs > 0 && totalBlocks > bc ::
            s <= bs - 1 < s + totalBlocks && !FreeRun(t, s, totalBlocks);
        i := i + 1;
      }
      NoRun(t, totalBlocks, bs);
      r := if bs == -1 then -ENOMEM else bs;
    }

    /** heap_mark_blocks_taken */
    method MarkBlocksTaken(startBlock: nat, totalBlocks: nat)
      requires startBlock + totalBlocks <= table.Length
      modifies table
      ensures table[..] == MarkTaken(old(table[..]), startBlock, totalBlocks)
    {
      var endBlock := startBlock + totalBlocks - 1;
      var entry: bv8 := TAKEN | IS_FIRST;
      if totalBlocks > 1 {
        entry := entry | HAS_NEXT;
      }
      var i := startBlock;
      while i <= endBlock
        invariant startBlock <= i <= endBlock + 1
        invariant i <= endBlock ==> entry == ChainByte(i - startBlock, totalBlocks)
        invariant forall j | 0 <= j < table.Length ::
                    table[j] == if startBlock <= j < i then ChainByte(j - startBlock, totalBlocks) else old(table[j])
      {
        table[i] := entry;
        entry := TAKEN;
        if i != endBlock - 1 {
          entry := entry | HAS_NEXT;
        }
        i := i + 1;
      }
    }

    /** heap_malloc_blocks */
    method MallocTotal(totalBlocks: nat) returns (address: Word)
      requires Valid() && Safe(table[..], totalBlocks)
      modifies table
      ensures table[..] == MallocBlocks(old(table[..]), totalBlocks).0
      ensures address == StartAddress(saddr, MallocBlocks(old(table[..]), totalBlocks).1)
    {
      SafeExact(table[..], totalBlocks);
      var startBlock := GetStartBlock(totalBlocks);
      if startBlock < 0 {
        return 0;
      }
      address := BlockToAddress(startBlock);
      MarkBlocksTaken(startBlock, totalBlocks);
    }

    /** heap_mark_blocks_free */
    method MarkBlocksFree(startingBlock: nat)
      modifies table
      ensures table[..] == FreeChain(old(table[..]), startingBlock)
    {
      var i := startingBlock;
      while i < table.Length
        invariant startingBlock <= i
        invariant FreeChain(table[..], i) == FreeChain(old(table[..]), startingBlock)
      {
        var entry := table[i];
        ghost var before := table[..];
        table[i] := FREE;
        assert table[..] == before[i := FREE];
        if !HasNext(entry) {
          break;
        }
        i := i + 1;
      }
    }

    /** heap_malloc */
    method Malloc(size: Word) returns (address: Word)
      requires Valid() && Safe(table[..], Blocks(size))
      modifies table
      ensures table[..] == MallocBlocks(old(table[..]), Blocks(size)).0
      ensures address == StartAddress(saddr, MallocBlocks(old(table[..]), Blocks(size)).1)
    {
      var alignedSize := AlignUp(size);
      address := MallocTotal(alignedSize / PAGE_SIZE);
    }

    /** heap_free */
    method Free(ptr: Word)
      requires AddressToBlock(ptr) >= 0
      modifies table
      ensures table[..] == FreeChain(old(table[..]), AddressToBlock(ptr))
    {
      MarkBlocksFree(AddressToBlock(ptr));
    }
  }

  /** The pointer for a start block: null for a failed search. */
  function StartAddress(saddr: Word, s: int): Word {
    if s < 0 then 0 else Wrap(saddr + s * PAGE_SIZE)
  }

  lemma FoundRun(t: Table, bs: nat, n: nat, i: nat)
    requires n >= 1 && FreeRun(t, bs, n) && bs + n == i + 1
    requires forall s | 0 <= s && s + n <= i :: !FreeRun(t, s, n)
    ensures StartBlock(t, n) == bs
  {
  }

  lemma NoRun(t: Table, n: nat, bs: int)
    requires n >= 1 ==> forall s | 0 <= s && s + n <= |t| :: !FreeRun(t, s, n)
    requires bs == -1 || (0 <= bs < |t| && FreeRun(t, bs, |t| - bs) && (bs > 0 ==> !IsFree(t[bs - 1])))
    requires |t| > 0 && bs == -1 ==> !IsFree(t[|t| - 1])
    ensures StartBlock(t, n) == if bs == -1 then -ENOMEM else bs
  {
  }
}
