/**
  paging.c: page directories built from heap blocks and edited in memory.
*/
module Paging {
  import opened Words
  import opened HeapTable
  import opened HeapRuns
  import opened PhysicalMemory
  import opened PageTable
  import opened Directory
  import opened Kheap

  /** paging_get. An unaligned address leaves both indexes at 0, so the entry of page 0 is returned. */
  function PagingGet(m: Memory, directory: Word, virt: Word): Word {
    Entry(m, FrameOf(directory), if virt % PAGE_SIZE == 0 then virt / PAGE_SIZE else 0)
  }

  /** paging_get */
  method PagingGetEntry(k: Machine, directory: Word, virt: Word) returns (entry: Word)
    requires k.Valid() && directory % PAGE_SIZE == 0
    ensures entry == PagingGet(k.M(), directory, virt)
  {
    var directoryIndex, tableIndex := 0, 0;
    if virt % PAGE_SIZE == 0 {
      directoryIndex, tableIndex := virt / (PAGE_WORDS * PAGE_SIZE), virt % (PAGE_WORDS * PAGE_SIZE) / PAGE_SIZE;
      IndexesOfPage(virt);
    }
    var table := AlignDown(k.mem[directory / 4 + directoryIndex]);
    entry := k.mem[table / 4 + tableIndex];
  }

  /** paging_set */
  method PagingSet(k: Machine, directory: Word, virt: Word, val: Word) returns (res: int)
    requires k.Valid() && directory % PAGE_SIZE == 0
    modifies k.mem
    ensures virt % PAGE_SIZE != 0 ==> res == -EINVARG && k.M() == old(k.M())
    ensures virt % PAGE_SIZE == 0 ==>
              res == 0 && k.M() == WithEntry(old(k.M()), FrameOf(directory), virt / PAGE_SIZE, val)
  {
    if virt % PAGE_SIZE != 0 {
      return -EINVARG;
    }
    var directoryIndex := virt / (PAGE_WORDS * PAGE_SIZE);
    var tableIndex := virt % (PAGE_WORDS * PAGE_SIZE) / PAGE_SIZE;
    var entry := k.mem[directory / 4 + directoryIndex];
    var table := AlignDown(entry);
    IndexesOfPage(virt);
    k.StoreWord(FrameOf(table), tableIndex, val);
    return 0;
  }

  lemma IndexesOfPage(virt: Word)
    requires virt % PAGE_SIZE == 0
    ensures virt / (PAGE_WORDS * PAGE_SIZE) == virt / PAGE_SIZE / PAGE_WORDS
    ensures virt % (PAGE_WORDS * PAGE_SIZE) / PAGE_SIZE == virt / PAGE_SIZE % PAGE_WORDS
  {
  }

  /** paging_get_physical_address: lower the address to its page, look the page up, add the offset. */
  method PagingGetPhysicalAddress(k: Machine, directory: Word, virt: Word) returns (phys: Word)
    requires k.Valid() && directory % PAGE_SIZE == 0
    ensures phys == Translate(k.M(), FrameOf(directory), virt)
  {
    var page := AlignDown(virt);
    var directoryIndex := page / (PAGE_WORDS * PAGE_SIZE);
    var tableIndex := page % (PAGE_WORDS * PAGE_SIZE) / PAGE_SIZE;
    IndexesOfPage(page);
    var table := AlignDown(k.mem[directory / 4 + directoryIndex]);
    var entry := k.mem[table / 4 + tableIndex];
    assert entry == Entry(k.M(), FrameOf(directory), virt / PAGE_SIZE);
    phys := AlignDown(entry) + (virt - page);
  }

  /** paging_map */
  method PagingMap(k: Machine, directory: Word, virt: Word, phys: Word, flags: Flags) returns (res: int)
    requires k.Valid() && directory % PAGE_SIZE == 0
    modifies k.mem
    ensures virt % PAGE_SIZE != 0 || phys % PAGE_SIZE != 0 ==> res == -EINVARG && k.M() == old(k.M())
    ensures virt % PAGE_SIZE == 0 && phys % PAGE_SIZE == 0 ==>
              && res == 0
              && k.M() == WithEntry(old(k.M()), FrameOf(directory), virt / PAGE_SIZE, MakeEntry(FrameOf(phys), flags))
  {
    if virt % PAGE_SIZE != 0 || phys % PAGE_SIZE != 0 {
      return -EINVARG;
    }
    res := PagingSet(k, directory, virt, phys + flags);
  }

  lemma RangeStart(m: Memory, d: Frame, virt: Word, phys: Word, flags: Flags)
    ensures Wrap(virt + 0 * PAGE_SIZE) == virt && Wrap(phys + 0 * PAGE_SIZE) == phys
    ensures MapPages(m, d, virt / PAGE_SIZE, phys / PAGE_SIZE, 0, flags) == m
  {
  }

  lemma RangeStep(m: Memory, d: Frame, virt: Word, phys: Word, i: nat, flags: Flags)
    requires phys / PAGE_SIZE + i < FRAMES
    ensures MapPages(m, d, virt / PAGE_SIZE, phys / PAGE_SIZE, i + 1, flags)
            == WithEntry(MapPages(m, d, virt / PAGE_SIZE, phys / PAGE_SIZE, i, flags), d,
                         (virt / PAGE_SIZE + i) % FRAMES, MakeEntry(phys / PAGE_SIZE + i, flags))
    ensures virt % PAGE_SIZE == 0 ==> Wrap(virt + i * PAGE_SIZE) % PAGE_SIZE == 0
    ensures virt % PAGE_SIZE == 0 ==> Wrap(virt + i * PAGE_SIZE) / PAGE_SIZE == (virt / PAGE_SIZE + i) % FRAMES
    ensures Wrap(phys + i * PAGE_SIZE) == phys + i * PAGE_SIZE
    ensures Wrap(Wrap(virt + i * PAGE_SIZE) + PAGE_SIZE) == Wrap(virt + (i + 1) * PAGE_SIZE)
    ensures Wrap(Wrap(phys + i * PAGE_SIZE) + PAGE_SIZE) == Wrap(phys + (i + 1) * PAGE_SIZE)
  {
    hide Wrap;
    WrapNext(virt, i);
    WrapNext(phys, i);
    if virt % PAGE_SIZE == 0 { WrappedPage(virt, i); }
    WrapSmall(phys + i * PAGE_SIZE);
  }

  lemma WrapNext(x: Word, i: nat)
    ensures Wrap(Wrap(x + i * PAGE_SIZE) + PAGE_SIZE) == Wrap(x + (i + 1) * PAGE_SIZE)
    ensures x % PAGE_SIZE == 0 ==> Wrap(x + i * PAGE_SIZE) % PAGE_SIZE == 0
  {
    WrapAdd(x + i * PAGE_SIZE, PAGE_SIZE);
    assert (x + i * PAGE_SIZE) % PAGE_SIZE == x % PAGE_SIZE;
    WrapPage(x + i * PAGE_SIZE);
  }

  lemma WrapAdd(y: int, c: int)
    ensures Wrap(Wrap(y) + c) == Wrap(y + c)
  {
    assert y == 0x1_0000_0000 * (y / 0x1_0000_0000) + Wrap(y);
  }

  lemma WrapPage(y: int)
    ensures Wrap(y) % PAGE_SIZE == y % PAGE_SIZE
  {
    assert y == 0x1_0000_0000 * (y / 0x1_0000_0000) + Wrap(y);
  }

  /** paging_map_range: no call in the loop can fail once the first has succeeded. */
  method PagingMapRange(k: Machine, directory: Word, virt: Word, phys: Word, count: nat, flags: Flags)
      returns (res: int)
    requires k.Valid() && directory % PAGE_SIZE == 0 && phys / PAGE_SIZE + count <= FRAMES
    modifies k.mem
    ensures res == 0 <==> count == 0 || (virt % PAGE_SIZE == 0 && phys % PAGE_SIZE == 0)
    ensures res != 0 ==> res == -EINVARG && k.M() == old(k.M())
    ensures res == 0 ==>
              k.M() == MapPages(old(k.M()), FrameOf(directory), virt / PAGE_SIZE, phys / PAGE_SIZE, count, flags)
  {
    hide Wrap;
    hide MapPages;
    RangeStart(k.M(), FrameOf(directory), virt, phys, flags);
    res := 0;
    var v, p := virt, phys;
    for i := 0 to count
      invariant res == 0
      invariant i > 0 ==> virt % PAGE_SIZE == 0 && phys % PAGE_SIZE == 0
      invariant v == Wrap(virt + i * PAGE_SIZE) && p == Wrap(phys + i * PAGE_SIZE)
      invariant k.M() == MapPages(old(k.M()), FrameOf(directory), virt / PAGE_SIZE, phys / PAGE_SIZE, i, flags)
    {
      RangeStep(old(k.M()), FrameOf(directory), virt, phys, i, flags);
      res := PagingMap(k, directory, v, p, flags);
      if res < 0 {
        break;
      }
      v, p := Wrap(v + PAGE_SIZE), Wrap(p + PAGE_SIZE);
    }
  }

  /** paging_map_to */
  method PagingMapTo(k: Machine, directory: Word, virt: Word, phys: Word, physEnd: Word, flags: Flags)
      returns (res: int)
    requires k.Valid() && directory % PAGE_SIZE == 0
    modifies k.mem
    ensures (res, k.M()) == MapTo(old(k.M()), FrameOf(directory), virt, phys, physEnd, flags)
  {
    if virt % PAGE_SIZE != 0 {
      return -EINVARG;
    }
    if phys % PAGE_SIZE != 0 {
      return -EINVARG;
    }
    if physEnd % PAGE_SIZE != 0 {
      return -EINVARG;
    }
    if physEnd < phys {
      return -EINVARG;
    }
    var totalPages := (physEnd - phys) / PAGE_SIZE;
    res := PagingMapRange(k, directory, virt, phys, totalPages, flags);
  }

  /** The frames a new directory will take. */
  function NewFrames(hb: int, t: Table): (fs: seq<Frame>)
    requires PoolBounds(hb, |t|) && FreeCount(t) >= DIRECTORY_BLOCKS
    ensures |fs| == DIRECTORY_BLOCKS
    ensures forall i | 0 <= i < DIRECTORY_BLOCKS :: fs[i] == hb + TakeAll(t, DIRECTORY_BLOCKS).1[i]
  {
    Frames(hb, |t|, TakeAll(t, DIRECTORY_BLOCKS).1)
  }

  /** paging_new_4gb. Its allocations go unchecked, so the blocks must be there. */
  method PagingNew4gb(k: Machine, flags: NewFlags) returns (chunk: Word)
    requires k.Valid() && WellFormed(k.T()) && FreeCount(k.T()) >= DIRECTORY_BLOCKS
    modifies k.heap.table, k.mem
    ensures k.T() == TakeAll(old(k.T()), DIRECTORY_BLOCKS).0
    ensures chunk == PAGE_SIZE * NewFrames(k.Hb(), old(k.T()))[1025]
    ensures k.M() == NewDirectory(old(k.M()), NewFrames(k.Hb(), old(k.T())), flags)
  {
    hide TakeAll;
    hide FreeCount;
    hide WellFormed;
    hide FillTable;
    hide BuildTable;
    hide BuildTables;
    hide ZeroFill;
    ghost var t, m := k.T(), k.M();
    ghost var fs := NewFrames(k.Hb(), t);
    TakeNone(t);
    var directory := TakeBlock(k, t, 0, DIRECTORY_BLOCKS, PAGE_SIZE);
    BuildStart(m, fs, flags);
    var offset := 0;
    for i := 0 to PAGE_WORDS
      invariant k.T() == TakeAll(t, i + 1).0
      invariant offset == Wrap(i * PAGE_WORDS * PAGE_SIZE)
      invariant k.M() == BuildTables(m, fs, flags, i)
    {
      AddTable(k, t, directory, i, offset, flags);
      offset := Wrap(offset + PAGE_WORDS * PAGE_SIZE);
      BuildNext(m, fs, flags, i);
    }
    chunk := TakeBlock(k, t, 1025, DIRECTORY_BLOCKS, 4);
    k.StoreWord(FrameOf(chunk), 0, directory);
  }

  /** One turn of the outer loop of paging_new_4gb: table `i` is taken, filled and linked. */
  method AddTable(k: Machine, ghost t: Table, directory: Word, i: Index, offset: Word, flags: NewFlags)
    requires k.Valid() && WellFormed(t) && FreeCount(t) >= DIRECTORY_BLOCKS && k.T() == TakeAll(t, i + 1).0
    requires directory == PAGE_SIZE * NewFrames(k.Hb(), t)[0] && offset == Wrap(i * PAGE_WORDS * PAGE_SIZE)
    modifies k.heap.table, k.mem
    ensures k.T() == TakeAll(t, i + 2).0
    ensures k.M() == BuildTable(old(k.M()), NewFrames(k.Hb(), t), i, flags)
  {
    hide TakeAll, FreeCount, WellFormed, FillTable, ZeroFill;
    var entry := TakeBlock(k, t, i + 1, DIRECTORY_BLOCKS, PAGE_SIZE);
    FillLoop(k, entry, i, offset, flags);
    k.StoreWord(FrameOf(directory), i, entry + OrWriteable(flags));
  }

  /** The inner loop of paging_new_4gb: the entries of table `i`. */
  method FillLoop(k: Machine, entry: Word, ghost i: Index, offset: Word, flags: NewFlags)
    requires k.Valid() && entry % PAGE_SIZE == 0 && offset == i * PAGE_WORDS * PAGE_SIZE
    modifies k.mem
    ensures k.M() == FillTable(old(k.M()), FrameOf(entry), i, flags, PAGE_WORDS)
  {
    for b := 0 to PAGE_WORDS
      invariant k.M() == FillTable(old(k.M()), FrameOf(entry), i, flags, b)
    {
      k.StoreWord(FrameOf(entry), b, offset + b * PAGE_SIZE + flags);
    }
  }

  lemma TakeNone(t: Table)
    ensures TakeAll(t, 0) == (t, [])
  {
  }

  lemma BuildStart(m: Memory, fs: seq<Frame>, flags: NewFlags)
    requires |fs| == DIRECTORY_BLOCKS
    ensures BuildTables(m, fs, flags, 0) == ZeroFill(m, PAGE_SIZE * fs[0], PAGE_SIZE)
  {
  }

  lemma BuildNext(m: Memory, fs: seq<Frame>, flags: NewFlags, i: Index)
    requires |fs| == DIRECTORY_BLOCKS
    ensures BuildTables(m, fs, flags, i + 1) == BuildTable(BuildTables(m, fs, flags, i), fs, i, flags)
  {
  }

  /** kzalloc of at most one block, as the `i`-th of a batch of `n`. */
  method TakeBlock(k: Machine, ghost t: Table, ghost i: nat, ghost n: nat, size: Size) returns (ptr: Word)
    requires k.Valid() && WellFormed(t) && i < n <= FreeCount(t) && 0 < size <= PAGE_SIZE
    requires k.T() == TakeAll(t, i).0
    modifies k.heap.table, k.mem
    ensures k.T() == TakeAll(t, i + 1).0
    ensures ptr == PAGE_SIZE * (k.Hb() + TakeAll(t, n).1[i])
    ensures k.M() == ZeroFill(old(k.M()), ptr, size)
  {
    KzallocOne(k.Hb(), t, k.M(), i, n, size);
    ptr := k.Kzalloc(size);
  }

  lemma KzallocOne(hb: int, t: Table, m: Memory, i: nat, n: nat, size: Size)
    requires PoolBounds(hb, |t|) && WellFormed(t) && i < n <= FreeCount(t) && 0 < size <= PAGE_SIZE
    ensures Blocks(size) == 1 && Safe(TakeAll(t, i).0, 1) && TakeAll(t, n).1[i] < |t|
    ensures KzallocSpec(hb, TakeAll(t, i).0, m, size)
            == (TakeAll(t, i + 1).0, ZeroFill(m, PAGE_SIZE * (hb + TakeAll(t, n).1[i]), size),
                PAGE_SIZE * (hb + TakeAll(t, n).1[i]))
  {
    hide TakeAll;
    TakeStep(t, i, n);
    KzallocGranted(hb, TakeAll(t, i).0, m, size, TakeAll(t, i + 1).0, TakeAll(t, n).1[i]);
  }

  lemma KzallocGranted(hb: int, t: Table, m: Memory, size: Size, u: Table, s: nat)
    requires PoolBounds(hb, |t|) && 0 < size <= PAGE_SIZE && Safe(t, 1) && MallocBlocks(t, 1) == (u, s)
    ensures Blocks(size) == 1 && s < |t|
    ensures KzallocSpec(hb, t, m, size) == (u, ZeroFill(m, PAGE_SIZE * (hb + s), size), PAGE_SIZE * (hb + s))
  {
    assert Blocks(size) == 1;
  }

  /** paging_free_4gb */
  method PagingFree4gb(k: Machine, chunk: Word)
    requires k.Valid() && chunk % PAGE_SIZE == 0
    requires InPool(k.Hb(), |k.T()|, DirectoryFrames(k.M(), FrameOf(chunk)))
    modifies k.heap.table
    ensures k.T() == DropDirectory(k.Hb(), old(k.T()), k.M(), FrameOf(chunk))
  {
    hide FreeAll;
    hide PoolBlocks;
    hide DirectoryFrames;
    ghost var fs := DirectoryFrames(k.M(), FrameOf(chunk));
    ghost var t := k.T();
    DirectoryFramesAt(k.M(), FrameOf(chunk));
    NoneFreed(k.Hb(), t, fs);
    var directory := AlignDown(k.mem[chunk / 4]);
    for i := 0 to PAGE_WORDS
      modifies k.heap.table
      invariant k.T() == FreeAll(t, PoolBlocks(k.Hb(), fs[..i]))
    {
      var table := AlignDown(k.mem[directory / 4 + i]);
      assert FrameOf(table) == TableFrame(k.M(), FrameOf(directory), i);
      FreeNext(k.Hb(), t, fs, i);
      k.Kfree(table);
    }
    FreeNext(k.Hb(), t, fs, PAGE_WORDS);
    k.Kfree(directory);
    FreeNext(k.Hb(), t, fs, PAGE_WORDS + 1);
    k.Kfree(chunk);
    assert fs[..|fs|] == fs;
  }

  lemma DirectoryFramesAt(m: Memory, chunk: Frame)
    ensures |DirectoryFrames(m, chunk)| == DIRECTORY_BLOCKS
    ensures forall i: Index :: DirectoryFrames(m, chunk)[i] == TableFrame(m, FrameOf(Cell(m, chunk, 0)), i)
    ensures DirectoryFrames(m, chunk)[1024] == FrameOf(Cell(m, chunk, 0))
    ensures DirectoryFrames(m, chunk)[1025] == chunk
  {
  }

  lemma NoneFreed(hb: int, t: Table, fs: seq<Frame>)
    ensures FreeAll(t, PoolBlocks(hb, fs[..0])) == t
  {
  }

  lemma FreeNext(hb: int, t: Table, fs: seq<Frame>, i: nat)
    requires i < |fs| && forall j | 0 <= j < |fs| :: fs[j] >= hb
    ensures FreeAll(t, PoolBlocks(hb, fs[..i + 1])) == FreeChain(FreeAll(t, PoolBlocks(hb, fs[..i])), fs[i] - hb)
  {
    assert fs[..i + 1][..i] == fs[..i];
    var ss := PoolBlocks(hb, fs[..i + 1]);
    assert ss[..i] == PoolBlocks(hb, fs[..i]);
  }
}
