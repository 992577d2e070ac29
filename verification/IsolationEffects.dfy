/**
  What each action of a run does: which state it leads to, told without its step, and what stays as it was.
*/
module IsolationEffects {
  import opened Words
  import opened HeapTable
  import HeapRuns
  import opened PhysicalMemory
  import opened PageTable
  import opened Directory
  import opened Ledger
  import opened ElfLoader
  import opened ImageMap
  import opened Isolation
  import opened IsolationSteps
  import opened IsolationLoad
  import opened IsolationFailures
  import opened IsolationContents
  import opened IsolationLifetime
  import opened IsolationRuns

  // ---------------------------------------------------------------- runs

  /** A run is its actions, one after the other. */
  lemma {:induction false} RunSnoc(s: Sys, actions: seq<Action>, a: Action)
    requires Inv(s) && EnabledRun(s, actions) && Enabled(Run(s, actions), a)
    ensures EnabledRun(s, actions + [a]) && Run(s, actions + [a]) == Apply(Run(s, actions), a)
    decreases |actions|
  {
    hide Inv, Enabled, Apply;
    var all := actions + [a];
    if actions == [] {
      assert all[1..] == [];
    } else {
      assert all[0] == actions[0] && all[1..] == actions[1..] + [a];
      RunSnoc(Apply(s, actions[0]), actions[1..], a);
    }
  }

  // ---------------------------------------------------------------- process_malloc

  /** Pages that hold `size` bytes. */
  function Pages(size: int): int { (size + 4095) / 4096 }

  /** A request that is granted: slot `i` of process `p` is its first empty one, and the blocks from `b` on are the
      lowest free run of the size. */
  ghost predicate MallocFits(s: Sys, p: nat, size: Size, i: nat, b: nat) {
    && p in s.procs && size > 0
    && i < MAX_ALLOCATIONS && s.procs[p].slots[i].ptr == 0 && (forall j | 0 <= j < i :: s.procs[p].slots[j].ptr != 0)
    && FreeRun(s.heap, b, Pages(size)) && (forall r | 0 <= r < b :: !FreeRun(s.heap, r, Pages(size)))
  }

  /** `s'` is `s` but for slot `i`, which holds address and size of the run, and the chain that the run became. */
  ghost predicate SlotFilled(s: Sys, s': Sys, p: nat, size: Size, i: nat, b: nat)
    requires p in s.procs && i < MAX_ALLOCATIONS
  {
    && s'.hb == s.hb && s'.chains == s.chains && |s'.heap| == |s.heap|
    && s'.procs.Keys == s.procs.Keys && (forall p' | p' in s.procs && p' != p :: s'.procs[p'] == s.procs[p'])
    && s'.procs[p] == s.procs[p].(slots := s'.procs[p].slots)
    && s'.procs[p].slots[i].ptr == 4096 * (s.hb + b) && s'.procs[p].slots[i].size == size
    && (forall j | 0 <= j < MAX_ALLOCATIONS && j != i :: s'.procs[p].slots[j] == s.procs[p].slots[j])
    && b !in Live(s.heap) && Live(s'.heap) == Live(s.heap)[b := Pages(size)]
  }

  /** A request that is granted fills the first empty slot with the lowest free run of its size. */
  lemma MallocGrants(s: Sys, p: nat, size: Size, i: nat, b: nat)
    requires Inv(s) && MallocFits(s, p, size, i, b)
    ensures Enabled(s, Malloc(p, size)) && SlotFilled(s, Apply(s, Malloc(p, size)), p, size, i, b)
  {
    hide Consistent, WellFormed, Live, MarkTaken, ZeroFill, MapPages, FreeRun, MallocStep, Inv;
    var o := OwnersOf(s);
    GrantIs(s, o, p, size, i, b);
    InvHeap(s);
    MarkTakenLive(s.heap, b, Blocks(size));
  }

  lemma OwnersOf(s: Sys) returns (o: Owners)
    requires Inv(s)
    ensures Consistent(s, o)
  {
    hide Consistent;
    o :| Consistent(s, o);
  }

  lemma GrantIs(s: Sys, o: Owners, p: nat, size: Size, i: nat, b: nat)
    requires Consistent(s, o) && MallocFits(s, p, size, i, b)
    ensures PoolBounds(s.hb, |s.heap|) && Blocks(size) == Pages(size) && Blocks(size) >= 1
    ensures b + Blocks(size) <= |s.heap|
    ensures FreeRun(s.heap, b, Blocks(size)) && CanFit(s.heap, Blocks(size)) && size <= PAGE_SIZE * Blocks(size)
    ensures MallocStep(s, p, size)
            == Grant(s.(mem := ZeroFill(s.mem, PAGE_SIZE * (s.hb + b), size)), p, i, b, size)
  {
    hide Consistent, WellFormed, Live, MarkTaken, ZeroFill, MapPages;
    ConsistentHeap(s, o);
    BlocksExact(size);
    BlocksPositive(size);
    var n := Blocks(size);
    assert CanFit(s.heap, n);
    FirstFitExact(s.heap, n);
    assert StartBlock(s.heap, n) == b;
    assert FreeIndex(s.procs[p].slots) == i;
    hide FreeRun, StartBlock, FreeIndex;
    MallocCases(s.hb, s.heap, s.mem, s.procs[p].dir, s.procs[p].slots, size);
  }

  /** The new pages lead to themselves, writeable for the process; all other entries of all processes stay. */
  lemma MallocMaps(s: Sys, p: nat, size: Size, i: nat, b: nat, p': nat, q: Page)
    requires Inv(s) && MallocFits(s, p, size, i, b) && p' in s.procs
    ensures Enabled(s, Malloc(p, size)) && p' in Apply(s, Malloc(p, size)).procs
    ensures var s', mine := Apply(s, Malloc(p, size)), p' == p && s.hb + b <= q < s.hb + b + Pages(size);
            && s'.procs[p'].dir == s.procs[p'].dir
            && (mine ==> UserMayWrite(s'.mem, s'.procs[p].dir, q) && FrameOf(Entry(s'.mem, s'.procs[p].dir, q)) == q)
            && (!mine ==> Entry(s'.mem, s'.procs[p'].dir, q) == Entry(s.mem, s.procs[p'].dir, q))
  {
    hide Consistent, WellFormed, Live, MarkTaken, ZeroFill, MapPages, FreeRun, MallocStep, Entry, Inv, UserMayWrite,
      MetaKept;
    var o := OwnersOf(s);
    GrantIs(s, o, p, size, i, b);
    MallocGrants(s, p, size, i, b);
    var n := Blocks(size);
    var m := Cleared(s, o, b, size);
    assert SameDirectory(s.mem, m, s.procs[p'].dir);
    RemapEntry(s.(mem := m), o, p, s.hb + b, n, USER_FLAGS, p', q);
    var s' := Apply(s, Malloc(p, size));
    if p' == p && s.hb + b <= q < s.hb + b + n {
      var o' := OwnersOf(s');
      OpenOf(s', o', p);
      OpenDirectory(s'.mem, s'.procs[p].dir, q);
      FlagsDecide(q);
    }
  }

  /** The allocation reads zero; every other byte but those of the process's page tables stays. */
  lemma MallocClears(s: Sys, p: nat, size: Size, i: nat, b: nat, a: Word)
    requires Inv(s) && MallocFits(s, p, size, i, b)
    ensures Enabled(s, Malloc(p, size))
    ensures var m', base := Apply(s, Malloc(p, size)).mem, 4096 * (s.hb + b);
            && (base <= a < base + size ==> ByteAt(m', a) == 0)
            && (!(base <= a < base + size) && !IsTable(s.mem, s.procs[p].dir, a / PAGE_SIZE) ==>
                  ByteAt(m', a) == ByteAt(s.mem, a))
  {
    hide Consistent, WellFormed, Live, MarkTaken, ZeroFill, MapPages, FreeRun, MallocStep, Inv, ByteAt, IsTable,
      TableFrame, MetaKept;
    var o := OwnersOf(s);
    GrantIs(s, o, p, size, i, b);
    MallocGrants(s, p, size, i, b);
    var n, d := Blocks(size), s.procs[p].dir;
    var m := Cleared(s, o, b, size);
    ZeroFillEffect(s.mem, s.hb + b, size, a);
    DirectoryValid(s.(mem := m), o, p);
    MapPagesEffect(m, d, s.hb + b, s.hb + b, n, USER_FLAGS);
    SameTablesSame(s.mem, m, d, a / PAGE_SIZE);
    if s.hb + b <= a / PAGE_SIZE < s.hb + b + n { FreeNoTable(s, o, p, a / PAGE_SIZE, b, n); }
    if !IsTable(m, d, a / PAGE_SIZE) { ByteOfFrame(m, Apply(s, Malloc(p, size)).mem, a); }
  }

  /** Clearing the run first moves no table of any process. */
  lemma Cleared(s: Sys, o: Owners, b: nat, size: Size) returns (m: Memory)
    requires Consistent(s, o) && FreeRun(s.heap, b, Blocks(size)) && size <= PAGE_SIZE * Blocks(size)
    ensures 0 < s.hb && s.hb + b + Blocks(size) <= FRAMES && m == ZeroFill(s.mem, PAGE_SIZE * (s.hb + b), size)
    ensures Consistent(s.(mem := m), o) && Placed(s.(mem := m), o)
    ensures forall p | p in s.procs :: SameDirectory(s.mem, m, s.procs[p].dir)
  {
    hide Consistent, ZeroFill, MetaKept, FreeRun;
    ConsistentHeap(s, o);
    FillSpares(s, o, b, Blocks(size), size);
    m := ZeroFill(s.mem, PAGE_SIZE * (s.hb + b), size);
    KeepDirectories(s, m);
    MemKeeps(s, o, m);
    ConsistentHeap(s.(mem := m), o);
  }

  lemma SameTablesSame(m: Memory, n: Memory, d: Frame, g: Frame)
    requires SameDirectory(m, n, d)
    ensures IsTable(m, d, g) <==> IsTable(n, d, g)
  {
    SameWordsSameTables(m, n, d);
    if IsTable(m, d, g) {
      var i: Index :| TableFrame(m, d, i) == g;
      assert TableFrame(n, d, i) == g;
    }
  }

  lemma FreeNoTable(s: Sys, o: Owners, p: nat, g: Frame, b: nat, n: nat)
    requires Consistent(s, o) && p in s.procs && FreeRun(s.heap, b, n) && s.hb + b <= g < s.hb + b + n
    ensures !IsTable(s.mem, s.procs[p].dir, g)
  {
    hide Consistent;
    forall i: Index ensures TableFrame(s.mem, s.procs[p].dir, i) != g { NotMeta(s, o, g, OwnTable(p, i)); }
  }

  /** A request that no run of blocks fits changes nothing at all ... */
  lemma MallocFindsNoRoom(s: Sys, p: nat, size: Size)
    requires Inv(s) && Enabled(s, Malloc(p, size)) && forall b :: !FreeRun(s.heap, b, Pages(size))
    ensures Apply(s, Malloc(p, size)) == s
  {
    hide Consistent, WellFormed, FreeRun, FreeIndex, Inv, StartBlock;
    InvHeap(s);
    BlocksExact(size);
    var x := s.procs[p];
    MallocCases(s.hb, s.heap, s.mem, x.dir, x.slots, size);
    assert s.procs[p := x.(slots := x.slots)] == s.procs;
    assert CanFit(s.heap, Blocks(size)) ==> exists b :: FreeRun(s.heap, b, Pages(size));
  }

  /** ... and one that finds the ledger full clears free blocks and changes nothing else. */
  lemma MallocFindsNoSlot(s: Sys, p: nat, size: Size, a: Word)
    requires Inv(s) && Enabled(s, Malloc(p, size))
    requires forall i | 0 <= i < MAX_ALLOCATIONS :: s.procs[p].slots[i].ptr != 0
    ensures Apply(s, Malloc(p, size)) == s.(mem := Apply(s, Malloc(p, size)).mem)
    ensures Settled(s.hb, s.heap, a / PAGE_SIZE) ==> ByteAt(Apply(s, Malloc(p, size)).mem, a) == ByteAt(s.mem, a)
  {
    hide Consistent, WellFormed, Live, ZeroFill, FreeRun, FreeIndex, Inv, ByteAt, StartBlock;
    InvHeap(s);
    BlocksExact(size);
    var x := s.procs[p];
    MallocCases(s.hb, s.heap, s.mem, x.dir, x.slots, size);
    assert s.procs[p := x.(slots := x.slots)] == s.procs;
    if CanFit(s.heap, Blocks(size)) {
      ZeroFillEffect(s.mem, s.hb + StartBlock(s.heap, Blocks(size)), size, a);
      NoFreeSettled(s, StartBlock(s.heap, Blocks(size)), Blocks(size), a / PAGE_SIZE);
    }
  }

  lemma NoFreeSettled(s: Sys, b: nat, n: nat, g: Frame)
    requires FreeRun(s.heap, b, n)
    ensures s.hb + b <= g < s.hb + b + n ==> !Settled(s.hb, s.heap, g)
  {
  }

  /** A request for nothing is not refused: with an empty slot, and a free block at the end of the pool, the slot gets
      the address of free blocks. That is the one way it breaks the invariant. */
  lemma MallocOfNothing(s: Sys, p: nat)
    requires Inv(s) && p in s.procs
    ensures PoolBounds(s.hb, |s.heap|) && Safe(s.heap, 0)
    ensures Inv(MallocStep(s, p, 0)) <==>
            || s.heap == [] || !IsFree(s.heap[|s.heap| - 1])
            || (forall i | 0 <= i < MAX_ALLOCATIONS :: s.procs[p].slots[i].ptr != 0)
    ensures MallocStep(s, p, 0).heap == s.heap
    ensures !Inv(MallocStep(s, p, 0)) ==>
              exists i: nat | i < MAX_ALLOCATIONS ::
                var ptr := MallocStep(s, p, 0).procs[p].slots[i].ptr;
                ptr != 0 && 0 <= ptr / 4096 - s.hb < |s.heap| && IsFree(s.heap[ptr / 4096 - s.hb])
  {
    hide Consistent, Inv, IsFree, FreeIndex, MallocStep;
    InvHeap(s);
    var x := s.procs[p];
    NothingCases(s.hb, s.heap, s.mem, x.dir, x.slots);
    assert s.procs[p := x.(slots := x.slots)] == s.procs;
    var s' := NothingStep(s, p);
    var i := FreeIndex(x.slots);
    if s.heap != [] && IsFree(s.heap[|s.heap| - 1]) && i >= 0 {
      EmptyAllocation(s', p, i);
      var ptr := s'.procs[p].slots[i].ptr;
      assert ptr != 0 && 0 <= ptr / 4096 - s.hb < |s.heap| && IsFree(s.heap[ptr / 4096 - s.hb]);
    }
  }

  lemma NothingStep(s: Sys, p: nat) returns (s': Sys)
    requires PoolBounds(s.hb, |s.heap|) && p in s.procs && Safe(s.heap, 0)
    ensures Blocks(0) == 0 && s' == MallocStep(s, p, 0)
    ensures var x := s.procs[p];
            var r := ProcessMallocSpec(s.hb, s.heap, s.mem, x.dir, x.slots, 0);
            s' == s.(heap := r.table, mem := r.mem, procs := s.procs[p := x.(slots := r.slots)])
  {
    assert Blocks(0) == 0;
    s' := MallocStep(s, p, 0);
  }

  lemma EmptyAllocation(s: Sys, p: nat, i: nat)
    requires p in s.procs && i < MAX_ALLOCATIONS && s.procs[p].slots[i].ptr != 0 && s.procs[p].slots[i].size == 0
    ensures !Inv(s)
  {
    hide Tied, LoadsRight, PagesRight, DirectoriesRight, WellFormed;
    forall o ensures !Consistent(s, o) { assert !SlotRight(s.procs[p].slots[i]); }
  }

  /** What process_malloc does with a size of 0. */
  lemma NothingCases(hb: int, t: Table, m: Memory, d: Frame, l: Slots)
    requires PoolBounds(hb, |t|) && WellFormed(t)
    ensures Blocks(0) == 0 && Safe(t, 0)
    ensures var r := ProcessMallocSpec(hb, t, m, d, l, 0);
            && r.table == t && r.mem == m
            && (t == [] || !IsFree(t[|t| - 1]) || FreeIndex(l) < 0 ==> r.slots == l)
            && (t != [] && IsFree(t[|t| - 1]) && FreeIndex(l) >= 0 ==>
                  exists b: nat ::
                    b < |t| && IsFree(t[b]) && r.slots == l[FreeIndex(l) := Slot(PAGE_SIZE * (hb + b), 0)])
  {
    hide FreeIndex, ZeroFill, WellFormed, MapTo, AlignUp, Wrap, IsFree, MallocBlocks;
    BlocksOfNothing();
    NothingIsGranted(t);
    var b := MallocBlocks(t, 0).1;
    if b >= 0 {
      NothingMapped(m, d, PAGE_SIZE * (hb + b));
      FreeOfFree(t, b);
      NothingFilled(m, PAGE_SIZE * (hb + b));
    }
  }

  lemma BlocksOfNothing()
    ensures Blocks(0) == 0
  {
  }

  lemma NothingMapped(m: Memory, d: Frame, a: Word)
    requires a % PAGE_SIZE == 0
    ensures MapTo(m, d, a, a, AlignUp(Wrap(a + 0)), USER_FLAGS) == (0, m)
  {
    WrapSmall(a);
  }

  lemma FreeOfFree(t: Table, b: nat)
    requires WellFormed(t) && b < |t| && IsFree(t[b])
    ensures FreeChain(t, b) == t
  {
    assert Legal(t[b]);
  }

  lemma NothingFilled(m: Memory, a: Word)
    requires a % PAGE_SIZE == 0
    ensures ZeroFill(m, a, 0) == m
  {
    forall c: Word ensures ByteAt(ZeroFill(m, a, 0), c) == ByteAt(m, c) { ZeroFillEffect(m, a / PAGE_SIZE, 0, c); }
    SameBytesSame(m, ZeroFill(m, a, 0));
  }

  lemma SameBytesSame(m: Memory, n: Memory)
    requires forall c: Word :: ByteAt(m, c) == ByteAt(n, c)
    ensures n == m
  {
    forall g: Frame ensures SameFrame(m, n, g) { BytesSameFrame(m, n, g); }
    forall i | 0 <= i < |m| ensures m[i] == n[i] {
      assert SameFrame(m, n, i / PAGE_WORDS);
      assert Cell(m, i / PAGE_WORDS, i % PAGE_WORDS) == Cell(n, i / PAGE_WORDS, i % PAGE_WORDS);
    }
  }

  // ---------------------------------------------------------------- process_free

  /** Freeing a held allocation empties its slot, drops its chain and changes nothing else in heap, ledgers and
      structures. */
  ghost predicate SlotEmptied(s: Sys, s': Sys, p: nat, i: nat)
    requires p in s.procs && i < MAX_ALLOCATIONS
  {
    && s'.hb == s.hb && s'.chains == s.chains && |s'.heap| == |s.heap|
    && s'.procs.Keys == s.procs.Keys && (forall p' | p' in s.procs && p' != p :: s'.procs[p'] == s.procs[p'])
    && s'.procs[p] == s.procs[p].(slots := s'.procs[p].slots)
    && s'.procs[p].slots[i].ptr == 0 && s'.procs[p].slots[i].size == 0
    && (forall j | 0 <= j < MAX_ALLOCATIONS && j != i :: s'.procs[p].slots[j] == s.procs[p].slots[j])
    && Live(s'.heap) == Live(s.heap) - {s.procs[p].slots[i].ptr / 4096 - s.hb}
  }

  lemma FreeEmpties(s: Sys, p: nat, i: nat)
    requires Inv(s) && Holds(s, p, i)
    ensures Enabled(s, Free(p, s.procs[p].slots[i].ptr))
    ensures SlotEmptied(s, Apply(s, Free(p, s.procs[p].slots[i].ptr)), p, i)
  {
    hide Consistent, WellFormed, Live, FreeChain, MapPages, FreeStep, Inv, FindByAddr;
    var o := OwnersOf(s);
    FreedIs(s, o, p, i);
    forall j | 0 <= j < MAX_ALLOCATIONS && j != i ensures s.procs[p].slots[j].ptr != s.procs[p].slots[i].ptr {
      if s.procs[p].slots[j].ptr == s.procs[p].slots[i].ptr { SoleSlot(s, o, p, i, j); }
    }
  }

  lemma FreedIs(s: Sys, o: Owners, p: nat, i: nat)
    requires Consistent(s, o) && Holds(s, p, i)
    ensures PoolBounds(s.hb, |s.heap|) && Releasable(s, o, p, i)
    ensures FindByAddr(s.procs[p].slots, s.procs[p].slots[i].ptr) >= 0 ==> s.procs[p].slots[i].ptr / PAGE_SIZE >= s.hb
    ensures FreeStep(s, p, s.procs[p].slots[i].ptr) == Release(s, p, i)
  {
    hide Consistent, WellFormed, Live, FreeChain, MapPages, FreeStep, Release, Releasable;
    ConsistentHeap(s, o);
    FreeIsRelease(s, o, p, s.procs[p].slots[i].ptr);
    ReleasableAt(s, o, p, i);
    SoleSlot(s, o, p, i, FindByAddr(s.procs[p].slots, s.procs[p].slots[i].ptr));
  }

  /** The pages of the allocation are not present any more; all other entries of all processes stay. */
  lemma FreeUnmaps(s: Sys, p: nat, i: nat, p': nat, q: Page)
    requires Inv(s) && Holds(s, p, i) && p' in s.procs
    ensures Enabled(s, Free(p, s.procs[p].slots[i].ptr)) && p' in Apply(s, Free(p, s.procs[p].slots[i].ptr)).procs
    ensures var m', mine := Apply(s, Free(p, s.procs[p].slots[i].ptr)).mem, p' == p && InSlot(s, p, i, q);
            && (mine ==> !Present(Entry(m', s.procs[p].dir, q)))
            && (!mine ==> Entry(m', s.procs[p'].dir, q) == Entry(s.mem, s.procs[p'].dir, q))
  {
    hide Consistent, WellFormed, Live, FreeChain, MapPages, FreeStep, Inv, FindByAddr, Entry, Present;
    var o := OwnersOf(s);
    FreedIs(s, o, p, i);
    ReleasableAt(s, o, p, i);
    ConsistentHeap(s, o);
    BlocksExact(s.procs[p].slots[i].size);
    RemapEntry(s, o, p, s.hb + SlotBlock(s, p, i), Blocks(s.procs[p].slots[i].size), 0, p', q);
    FlagsDecide(q);
  }

  /** Every byte but those of the process's page tables stays. */
  lemma FreeSparesMemory(s: Sys, p: nat, i: nat, a: Word)
    requires Inv(s) && Holds(s, p, i)
    ensures Enabled(s, Free(p, s.procs[p].slots[i].ptr))
    ensures !IsTable(s.mem, s.procs[p].dir, a / PAGE_SIZE) ==>
              ByteAt(Apply(s, Free(p, s.procs[p].slots[i].ptr)).mem, a) == ByteAt(s.mem, a)
  {
    hide Consistent, WellFormed, Live, FreeChain, MapPages, FreeStep, Inv, FindByAddr, ByteAt, IsTable;
    var o := OwnersOf(s);
    FreedIs(s, o, p, i);
    ConsistentHeap(s, o);
    DirectoryValid(s, o, p);
    var f, n := s.hb + SlotBlock(s, p, i), Blocks(s.procs[p].slots[i].size);
    MapPagesEffect(s.mem, s.procs[p].dir, f, f, n, 0);
    if !IsTable(s.mem, s.procs[p].dir, a / PAGE_SIZE) {
      ByteOfFrame(s.mem, Apply(s, Free(p, s.procs[p].slots[i].ptr)).mem, a);
    }
  }

  /** Freeing a pointer that no slot holds changes nothing. */
  lemma FreeOfUnknown(s: Sys, p: nat, ptr: Word)
    requires Inv(s) && p in s.procs && forall i | 0 <= i < MAX_ALLOCATIONS :: s.procs[p].slots[i].ptr != ptr
    ensures ptr != 0 ==> Enabled(s, Free(p, ptr))
    ensures Enabled(s, Free(p, ptr)) ==> Apply(s, Free(p, ptr)) == s
  {
    hide Consistent, FreeStep, Inv;
    var o := OwnersOf(s);
    FreeIsRelease(s, o, p, ptr);
  }

  // ---------------------------------------------------------------- a store

  /** A store to a page the process may write is read back at its translation, every other byte stays, and so do heap,
      ledgers and structures; any other store changes nothing. */
  lemma StoreStores(s: Sys, p: nat, v: Word, b: Byte, a: Word)
    requires Inv(s) && p in s.procs
    ensures Enabled(s, Store(p, v, b))
    ensures var s', c := Apply(s, Store(p, v, b)), Translate(s.mem, s.procs[p].dir, v);
            if UserMayWrite(s.mem, s.procs[p].dir, v / 4096)
            then s' == s.(mem := s'.mem) && ByteAt(s'.mem, a) == (if a == c then b else ByteAt(s.mem, a))
            else s' == s
  {
    hide ByteAt, WithByte, Inv, UserMayWrite, Translate;
    WithByteEffect(s.mem, Translate(s.mem, s.procs[p].dir, v), b, a);
  }
}
