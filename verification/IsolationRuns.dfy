/**
  Safety over whole runs: whatever sequence of loads, allocations, frees, user stores and terminations the
  kernel goes through from boot, its heap, page tables and ledgers agree.
*/
module IsolationRuns {
  import opened Words
  import opened HeapTable
  import HeapRuns
  import opened PhysicalMemory
  import opened PageTable
  import opened Directory
  import opened Ledger
  import opened ImageMap
  import opened Isolation
  import opened IsolationSteps
  import opened IsolationLoad
  import opened IsolationFailures
  import opened IsolationLifetime

  datatype Action =
    | Load(pid: nat, file: File)
    | FailedLoad(file: File, allocations: nat)
    | FailedMap(file: File)
    | Malloc(pid: nat, size: Size)
    | Free(pid: nat, ptr: Word)
    | Store(pid: nat, v: Word, b: Byte)
    | Terminate(pid: nat)

  ghost predicate Inv(s: Sys) {
    exists o :: Consistent(s, o)
  }

  /** What the source asks of each call: room for what a load takes unchecked and a file that is confined, a
      positive size that is answered inside the table, and no null pointer freed while a slot is empty. */
  ghost predicate Enabled(s: Sys, a: Action) {
    match a
    case Load(p, f) => LoadGranted(s, p, f)
    case FailedLoad(f, n) => GivesUp(s, f, n)
    case FailedMap(f) => MapFails(s, f)
    case Malloc(p, size) => p in s.procs && size > 0 && Safe(s.heap, Blocks(size))
    case Free(p, ptr) => p in s.procs && (ptr != 0 || FreeIndex(s.procs[p].slots) < 0)
    case Store(p, _, _) => p in s.procs
    case Terminate(p) => p in s.procs
  }

  /** process_terminate */
  ghost function EndStep(s: Sys, p: nat): (s': Sys)
    requires Inv(s) && p in s.procs
    ensures Inv(s') && s'.procs.Keys == s.procs.Keys - {p}
  {
    EndInv(s, p);
    RetireStep(TerminateStep(s, p, MAX_ALLOCATIONS), p)
  }

  ghost function Apply(s: Sys, a: Action): (s': Sys)
    requires Inv(s) && Enabled(s, a)
    ensures Inv(s')
  {
    InvHeap(s);
    match a
    case Load(p, f) => LoadInv(s, p, f); LoadStep(s, p, f)
    case FailedLoad(f, n) => FailedLoadInv(s, f, n); FailedLoadStep(s, f, n)
    case FailedMap(f) => FailedMapInv(s, f); FailedMapStep(s, f)
    case Malloc(p, size) => MallocInv(s, p, size); MallocStep(s, p, size)
    case Free(p, ptr) => FreeInv(s, p, ptr); FreeStep(s, p, ptr)
    case Store(p, v, b) => StoreInv(s, p, v, b); StoreStep(s, p, v, b)
    case Terminate(p) => EndStep(s, p)
  }

  ghost predicate EnabledRun(s: Sys, actions: seq<Action>)
    requires Inv(s)
    decreases |actions|
  {
    actions == [] || (Enabled(s, actions[0]) && EnabledRun(Apply(s, actions[0]), actions[1..]))
  }

  ghost function Run(s: Sys, actions: seq<Action>): (s': Sys)
    requires Inv(s) && EnabledRun(s, actions)
    ensures Inv(s')
    decreases |actions|
  {
    if actions == [] then s else Run(Apply(s, actions[0]), actions[1..])
  }

  /** After kheap_init: every block free, no process. */
  ghost function Boot(hb: int, blocks: nat, m: Memory): Sys {
    Sys(hb, seq(blocks, _ => FREE), m, map[], map[])
  }

  lemma BootInv(hb: int, blocks: nat, m: Memory)
    requires PoolBounds(hb, blocks)
    ensures Inv(Boot(hb, blocks, m))
  {
    var s := Boot(hb, blocks, m);
    var o: Owners := map[];
    assert !IsFirst(FREE) && Legal(FREE) && !HasNext(FREE) && !IsInner(FREE);
    assert Live(s.heap) == map[];
    assert Consistent(s, o);
  }

  lemma InvHeap(s: Sys)
    requires Inv(s)
    ensures PoolBounds(s.hb, |s.heap|) && WellFormed(s.heap)
  {
    hide Tied, LoadsRight, PagesRight;
  }

  lemma LoadInv(s: Sys, p: nat, f: File)
    requires Inv(s) && LoadGranted(s, p, f)
    ensures Inv(LoadStep(s, p, f))
  {
    hide Consistent, LoadGranted, LoadStep;
    var o :| Consistent(s, o);
    var o' := LoadKeeps(s, o, p, f);
  }

  lemma FailedLoadInv(s: Sys, f: File, n: nat)
    requires Inv(s) && GivesUp(s, f, n)
    ensures Inv(FailedLoadStep(s, f, n))
  {
    hide Consistent, GivesUp, FailedLoadStep;
    var o :| Consistent(s, o);
    var o' := FailedLoadKeeps(s, o, f, n);
  }

  lemma FailedMapInv(s: Sys, f: File)
    requires Inv(s) && MapFails(s, f)
    ensures WellFormed(Taken(s, Wanted(f)).heap) && Inv(FailedMapStep(s, f))
  {
    hide Consistent, WellFormed, FailedMapStep, Taken, Granted, Wanted, HeapRuns.FreeCount, Spots, ImageMappable;
    var o :| Consistent(s, o);
    var o' := FailedMapKeeps(s, o, f);
  }

  lemma MallocInv(s: Sys, p: nat, size: Size)
    requires Inv(s) && p in s.procs && size > 0 && Safe(s.heap, Blocks(size))
    ensures PoolBounds(s.hb, |s.heap|) && Inv(MallocStep(s, p, size))
  {
    hide Consistent;
    InvHeap(s);
    var o :| Consistent(s, o);
    var o' := MallocKeeps(s, o, p, size);
  }

  lemma FreeInv(s: Sys, p: nat, ptr: Word)
    requires Inv(s) && p in s.procs && (ptr != 0 || FreeIndex(s.procs[p].slots) < 0)
    ensures FindByAddr(s.procs[p].slots, ptr) >= 0 ==> ptr / PAGE_SIZE >= s.hb
    ensures Inv(FreeStep(s, p, ptr))
  {
    hide Consistent, Releasable, Release;
    var o :| Consistent(s, o);
    FreeIsRelease(s, o, p, ptr);
    if FindByAddr(s.procs[p].slots, ptr) >= 0 {
      ReleaseKeeps(s, o, p, FindByAddr(s.procs[p].slots, ptr));
    }
  }

  lemma StoreInv(s: Sys, p: nat, v: Word, b: Byte)
    requires Inv(s) && p in s.procs
    ensures Inv(StoreStep(s, p, v, b))
  {
    hide Consistent;
    var o :| Consistent(s, o);
    StoreKeeps(s, o, p, v, b);
  }

  lemma EndInv(s: Sys, p: nat)
    requires Inv(s) && p in s.procs
    ensures PoolBounds(s.hb, |s.heap|) && InPoolSlots(s.hb, |s.heap|, s.procs[p].slots)
    ensures var s' := TerminateStep(s, p, MAX_ALLOCATIONS);
            && Untouched(s, s', p) && p in s'.procs && s'.procs[p].parts.Keys == PartsOf(s'.procs[p].program)
            && InPool(s'.hb, |s'.heap|, DirectoryFrames(s'.mem, s'.procs[p].chunk))
            && Inv(RetireStep(s', p))
  {
    hide Consistent, Retirable, TerminateStep, Untouched, RetireStep, DirectoryFrames;
    InvHeap(s);
    var o :| Consistent(s, o);
    SlotsInPool(s, o, p);
    var o' := TerminateKeeps(s, o, p, MAX_ALLOCATIONS);
    var s' := TerminateStep(s, p, MAX_ALLOCATIONS);
    UntouchedKeys(s, s', p);
    RetirableAt(s', o', p);
    RetireParts(s', o', p);
    RetireKeeps(s', o', p);
  }

  lemma UntouchedKeys(s: Sys, s': Sys, p: nat)
    requires Untouched(s, s', p)
    ensures s'.procs.Keys == s.procs.Keys && s'.chains == s.chains && s'.hb == s.hb && |s'.heap| == |s.heap|
  {
  }

  // ---------------------------------------------------------------- memory of a process

  /** Slot `i` of process `p` holds an allocation. */
  ghost predicate Holds(s: Sys, p: nat, i: nat) {
    p in s.procs && i < MAX_ALLOCATIONS && s.procs[p].slots[i].ptr != 0
  }

  /** Page `q` lies in the allocation in slot `i` of process `p`. */
  ghost predicate InSlot(s: Sys, p: nat, i: nat, q: Page) {
    && Holds(s, p, i)
    && s.procs[p].slots[i].ptr / PAGE_SIZE <= q
    && q < s.procs[p].slots[i].ptr / PAGE_SIZE + (s.procs[p].slots[i].size + PAGE_SIZE - 1) / PAGE_SIZE
  }

  /** Frame `f` lies in the chain of part `k` of process `p`. */
  ghost predicate InPart(s: Sys, p: nat, k: Part, f: Frame) {
    && p in s.procs && k in s.procs[p].parts && s.procs[p].parts[k] in s.chains
    && s.hb + s.procs[p].parts[k] <= f < s.hb + s.procs[p].parts[k] + s.chains[s.procs[p].parts[k]].blocks
  }

  /** Frame `f` is process memory of `p`: an allocation, the stack or the image. */
  ghost predicate OwnFrame(s: Sys, p: nat, f: Frame) {
    (exists i: nat :: InSlot(s, p, i, f)) || InPart(s, p, UserStack, f) || InPart(s, p, Image, f)
  }

  /** A ledger entry names a live heap chain of exactly the blocks its size needs. */
  lemma SlotIsChain(s: Sys, p: nat, i: nat)
    requires Inv(s) && Holds(s, p, i)
    ensures var x := s.procs[p].slots[i];
            && x.ptr % PAGE_SIZE == 0 && x.ptr / PAGE_SIZE - s.hb in Live(s.heap)
            && Live(s.heap)[x.ptr / PAGE_SIZE - s.hb] == (x.size + PAGE_SIZE - 1) / PAGE_SIZE
  {
    hide Consistent, Live;
    var o :| Consistent(s, o);
    SlotOwner(s, o, p, i);
    BlocksExact(s.procs[p].slots[i].size);
  }

  /** A part of a process is a live heap chain; the stack has four blocks, the image holds the program. */
  lemma PartIsChain(s: Sys, p: nat, k: Part)
    requires Inv(s) && p in s.procs && k in s.procs[p].parts
    ensures var x := s.procs[p];
            && x.parts[k] in s.chains && s.chains[x.parts[k]] == Chain(s.chains[x.parts[k]].blocks, k, Of(p))
            && x.parts[k] in Live(s.heap) && Live(s.heap)[x.parts[k]] == s.chains[x.parts[k]].blocks
            && (k == UserStack ==> s.chains[x.parts[k]].blocks == STACK_BLOCKS
                                   && x.stack == PAGE_SIZE * (s.hb + x.parts[k]))
            && (k == Image ==> ImageBase(x.program) == PAGE_SIZE * (s.hb + x.parts[k])
                               && ProgramFits(x.program, s.chains[x.parts[k]].blocks, s.hb))
  {
    hide Consistent, Live, ProgramFits;
    var o :| Consistent(s, o);
    LoadOf(s, o, p);
    assert Exists(s, OwnChain(s.procs[p].parts[k]));
    HeldPlace(s, o, OwnChain(s.procs[p].parts[k]));
  }

  lemma OwnsIsInSlot(s: Sys, o: Owners, p: nat, q: Page)
    requires Consistent(s, o)
    ensures Owns(s.hb, s.heap, o, p, q) <==> exists i: nat :: InSlot(s, p, i, q)
  {
    hide Consistent, Live, HeadOf, IsFree;
    if Owns(s.hb, s.heap, o, p, q) {
      OwnerOfBlock(s, o, q - s.hb);
      var w := o[HeadOf(s.heap, q - s.hb)];
      SlotOwner(s, o, p, w.slot);
      BlocksExact(s.procs[p].slots[w.slot].size);
      assert InSlot(s, p, w.slot, q);
    }
    if i: nat :| InSlot(s, p, i, q) {
      SlotOwner(s, o, p, i);
      BlocksExact(s.procs[p].slots[i].size);
      BlockOfChain(s, o, OwnSlot(p, i), q - s.hb);
    }
  }

  lemma PartOfOwner(s: Sys, o: Owners, p: nat, k: Part, f: Frame)
    requires Consistent(s, o) && k in {Image, UserStack} && InPart(s, p, k, f)
    ensures Writes(s, o, p, f)
  {
    hide Consistent, ProgramFits, Writes;
    LoadOf(s, o, p);
    PartWrites(s, o, p, k, f);
  }

  lemma WritesIsOwn(s: Sys, o: Owners, p: nat, f: Frame)
    requires Consistent(s, o)
    ensures Writes(s, o, p, f) <==> OwnFrame(s, p, f)
  {
    hide Consistent, InSlot, HeadOf, IsFree;
    OwnsIsInSlot(s, o, p, f);
    if Writes(s, o, p, f) {
      var w := o[HeadOf(s.heap, f - s.hb)];
      OwnerOfBlock(s, o, f - s.hb);
      if w.OwnChain? {
        HolderOf(s, o);
        assert InPart(s, p, s.chains[w.block].part, f);
      }
    }
    forall k | k in {Image, UserStack} && InPart(s, p, k, f) ensures Writes(s, o, p, f) {
      PartOfOwner(s, o, p, k, f);
    }
    if Owns(s.hb, s.heap, o, p, f) { OwnsWrites(s, o, p, f); }
  }

  /** No page lies in two allocations, of one process or of two. */
  lemma AllocationsDisjoint(s: Sys, p: nat, i: nat, p': nat, i': nat, q: Page)
    requires Inv(s) && InSlot(s, p, i, q) && InSlot(s, p', i', q)
    ensures p == p' && i == i'
  {
    hide Consistent, Live, HeadOf, IsFree;
    var o :| Consistent(s, o);
    SlotOwner(s, o, p, i);
    SlotOwner(s, o, p', i');
    BlocksExact(s.procs[p].slots[i].size);
    BlocksExact(s.procs[p'].slots[i'].size);
    BlockOfChain(s, o, OwnSlot(p, i), q - s.hb);
    BlockOfChain(s, o, OwnSlot(p', i'), q - s.hb);
  }

  /** No frame is memory of two processes, and none of a process's memory is a page table, a directory or a
      chunk of any, a process, ELF or task structure, or a free block. */
  lemma ProcessesDisjoint(s: Sys, p: nat, p': nat, f: Frame)
    requires Inv(s) && OwnFrame(s, p, f)
    ensures OwnFrame(s, p', f) ==> p' == p
    ensures p' in s.procs ==> f != s.procs[p'].chunk && f != s.procs[p'].dir
    ensures p' in s.procs ==> forall i: Index :: TableFrame(s.mem, s.procs[p'].dir, i) != f
    ensures s.hb <= f < s.hb + |s.heap| && !IsFree(s.heap[f - s.hb])
    ensures forall b | b in s.chains && s.chains[b].part !in {Image, UserStack} ::
              !(s.hb + b <= f < s.hb + b + s.chains[b].blocks)
  {
    hide Consistent, OwnFrame, IsFree, HeadOf;
    var o :| Consistent(s, o);
    WritesIsOwn(s, o, p, f);
    WritesIsOwn(s, o, p', f);
    forall b | b in s.chains && s.chains[b].part !in {Image, UserStack}
      ensures !(s.hb + b <= f < s.hb + b + s.chains[b].blocks)
    {
      assert Exists(s, OwnChain(b));
      if s.hb + b <= f < s.hb + b + s.chains[b].blocks { BlockOfChain(s, o, OwnChain(b), f - s.hb); }
    }
    if p' in s.procs {
      NotMeta(s, o, f, OwnDirectory(p'));
      NotMeta(s, o, f, OwnChunk(p'));
      forall i: Index ensures TableFrame(s.mem, s.procs[p'].dir, i) != f { NotMeta(s, o, f, OwnTable(p', i)); }
    }
  }

  // ---------------------------------------------------------------- what a process may write

  /** Over all 2^20 pages, a process can write exactly its stack window, its writeable segments and the pages of
      its live allocations; every such page leads to memory of its own, and those of allocations to
      themselves. */
  lemma WriteableIsOwned(s: Sys, p: nat, q: Page)
    requires Inv(s) && p in s.procs
    ensures var w, e := UserMayWrite(s.mem, s.procs[p].dir, q), Entry(s.mem, s.procs[p].dir, q);
            && (w <==> OnStack(q) || ProgramWrites(s.procs[p].program, q) || exists i: nat :: InSlot(s, p, i, q))
            && (w ==> OwnFrame(s, p, FrameOf(e)))
            && ((exists i: nat :: InSlot(s, p, i, q)) ==> q >= s.hb && e == MakeEntry(q, USER_FLAGS))
  {
    hide Consistent, Owns, InSlot, UserMayWrite, Entry, FrameOf, OnStack, ProgramWrites, OwnFrame, Writes, LoadedEntry;
    hide ProgramRight, WritesInFile;
    var o :| Consistent(s, o);
    WriteablePages(s, o, p, q);
    OwnsIsInSlot(s, o, p, q);
    WritesIsOwn(s, o, p, FrameOf(Entry(s.mem, s.procs[p].dir, q)));
    PageOf(s, o, p, q);
    OwnsAbove(s, o, p, q);
    LoadOf(s, o, p);
    StackBelow(s.hb, q);
    var x := s.procs[p];
    if ProgramWrites(x.program, q) { WritesAreMapped(x.program, q); }
  }

  lemma OwnsAbove(s: Sys, o: Owners, p: nat, q: Page)
    ensures Owns(s.hb, s.heap, o, p, q) ==> q >= s.hb
  {
  }

  lemma StackBelow(hb: int, q: int)
    requires STACK_VIRTUAL_END + STACK_SIZE <= PAGE_SIZE * hb
    ensures OnStack(q) ==> q < hb
  {
  }

  /** A user store changes at most the byte its address translates to, and only memory of the storing process:
      no page-table frame and no byte of another process. All translations stay. */
  lemma StoreIsConfined(s: Sys, p: nat, v: Word, b: Byte, a: Word)
    requires Inv(s) && p in s.procs
    ensures var s' := StoreStep(s, p, v, b);
            && s' == s.(mem := s'.mem)
            && (ByteAt(s'.mem, a) != ByteAt(s.mem, a) ==>
                  a == Translate(s.mem, s.procs[p].dir, v) && OwnFrame(s, p, a / PAGE_SIZE))
            && (forall p' | p' != p && OwnFrame(s, p', a / PAGE_SIZE) :: ByteAt(s'.mem, a) == ByteAt(s.mem, a))
            && (forall p' | p' in s.procs :: SameDirectory(s.mem, s'.mem, s.procs[p'].dir))
  {
    hide Consistent, WithByte, OwnFrame, Writes, UserMayWrite, Translate;
    var o :| Consistent(s, o);
    WriteablePages(s, o, p, v / PAGE_SIZE);
    TranslatedFrame(s.mem, s.procs[p].dir, v);
    if UserMayWrite(s.mem, s.procs[p].dir, v / PAGE_SIZE) {
      var c := Translate(s.mem, s.procs[p].dir, v);
      WithByteEffect(s.mem, c, b, a);
      StoreSpares(s, o, p, c, b);
      KeepDirectories(s, WithByte(s.mem, c, b));
      WritesIsOwn(s, o, p, c / PAGE_SIZE);
      forall p' | p' != p && OwnFrame(s, p', a / PAGE_SIZE) ensures a != c {
        ProcessesDisjoint(s, p', p, a / PAGE_SIZE);
      }
    } else {
      forall p' | p' in s.procs ensures SameDirectory(s.mem, s.mem, s.procs[p'].dir) {
        SameItself(s.mem, s.procs[p'].dir);
      }
    }
  }

  lemma SameItself(m: Memory, d: Frame)
    ensures SameDirectory(m, m, d)
  {
  }
}
