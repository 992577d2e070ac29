/**
  The steps of the process-memory system and what each keeps.
*/
module IsolationSteps {
  import opened Words
  import opened HeapTable
  import opened HeapRuns
  import opened PhysicalMemory
  import opened PageTable
  import opened Directory
  import opened Ledger
  import opened ImageMap
  import opened Isolation

  // ---------------------------------------------------------------- writes to memory

  /** Writes that spare the kernel's frames keep the invariant. */
  lemma MemKeeps(s: Sys, o: Owners, m: Memory)
    requires Consistent(s, o) && MetaKept(s, m)
    ensures Consistent(s.(mem := m), o)
  {
    hide WellFormed, LoadRight, LoadedEntry, Owns, Tied;
    KeepDirectories(s, m);
    var s' := s.(mem := m);
    forall w | Exists(s, w) || Exists(s', w) ensures SameOwner(s, s', w) { MemOwner(s, m, w); }
    TiedSame(s, s', o);
    forall p, q: Page | p in s.procs ensures PageRight(s', o, p, q) {
      assert PageRight(s, o, p, q);
      assert Entry(m, s.procs[p].dir, q) == Entry(s.mem, s.procs[p].dir, q);
    }
  }

  lemma MemOwner(s: Sys, m: Memory, w: Owner)
    requires Exists(s, w) || Exists(s.(mem := m), w)
    requires forall p | p in s.procs :: SameDirectory(s.mem, m, s.procs[p].dir)
    ensures SameOwner(s, s.(mem := m), w)
  {
    if w.OwnTable? {
      var d := s.procs[w.pid].dir;
      assert SameDirectory(s.mem, m, d);
      assert TableFrame(m, d, w.table) == TableFrame(s.mem, d, w.table);
    }
  }

  /** Writes to free blocks spare the kernel's frames. */
  lemma FreeSpares(s: Sys, o: Owners, b: nat, n: nat, m: Memory)
    requires Consistent(s, o) && FreeRun(s.heap, b, n)
    requires forall g: Frame | !(s.hb + b <= g < s.hb + b + n) :: SameFrame(s.mem, m, g)
    ensures MetaKept(s, m)
  {
    hide Consistent;
    forall w | Exists(s, w) && IsMeta(w) ensures SameFrame(s.mem, m, OwnedFrame(s, w)) {
      MetaBlock(s, o, w);
    }
  }

  lemma FillSpares(s: Sys, o: Owners, b: nat, n: nat, size: Size)
    requires Consistent(s, o) && FreeRun(s.heap, b, n) && size <= PAGE_SIZE * n
    ensures s.hb + b + n <= FRAMES
    ensures MetaKept(s, ZeroFill(s.mem, PAGE_SIZE * (s.hb + b), size))
  {
    hide Consistent, ZeroFill;
    ConsistentHeap(s, o);
    var m := ZeroFill(s.mem, PAGE_SIZE * (s.hb + b), size);
    forall g: Frame | !(s.hb + b <= g < s.hb + b + n) ensures SameFrame(s.mem, m, g) {
      ZeroFillFrame(s.mem, s.hb + b, n, size, g);
    }
    FreeSpares(s, o, b, n, m);
  }

  // ---------------------------------------------------------------- kzalloc by a load

  /** The bytes of a file read to address `a`. */
  function FillBytes(m: Memory, a: Word, bytes: seq<Byte>): Memory
    requires a + |bytes| <= 0x1_0000_0000
  {
    if bytes == [] then m
    else WithByte(FillBytes(m, a, bytes[..|bytes| - 1]), a + |bytes| - 1, bytes[|bytes| - 1])
  }

  lemma {:induction false} FillBytesFrame(m: Memory, f: Frame, n: nat, bytes: seq<Byte>, g: Frame)
    requires |bytes| <= PAGE_SIZE * n && f + n <= FRAMES && !(f <= g < f + n)
    ensures SameFrame(m, FillBytes(m, PAGE_SIZE * f, bytes), g)
  {
    if bytes != [] {
      var last := |bytes| - 1;
      FillBytesFrame(m, f, n, bytes[..last], g);
      WithByteFrame(FillBytes(m, PAGE_SIZE * f, bytes[..last]), PAGE_SIZE * f + last, bytes[last], g);
    }
  }

  /** Reading a file puts each of its bytes at its place and changes no other byte. */
  lemma {:induction false} FillBytesEffect(m: Memory, a: Word, bytes: seq<Byte>, c: Word)
    requires a + |bytes| <= 0x1_0000_0000
    ensures ByteAt(FillBytes(m, a, bytes), c) == if a <= c < a + |bytes| then bytes[c - a] else ByteAt(m, c)
  {
    hide ByteAt, WithByte;
    if bytes != [] {
      var last := |bytes| - 1;
      FillBytesEffect(m, a, bytes[..last], c);
      WithByteEffect(FillBytes(m, a, bytes[..last]), a + last, bytes[last], c);
    }
  }

  /** What a load asks of an allocation: a size that fits, and contents that fit the size. */
  ghost predicate Takable(s: Sys, size: Size, bytes: seq<Byte>) {
    && PoolBounds(s.hb, |s.heap|) && size > 0 && |bytes| <= size
    && Safe(s.heap, Blocks(size)) && CanFit(s.heap, Blocks(size))
  }

  /** A chain allocated for a part of a process that is being loaded, with what is read into it. */
  ghost function PartStep(s: Sys, size: Size, part: Part, bytes: seq<Byte>): (s': Sys)
    requires Takable(s, size, bytes)
    ensures s'.hb == s.hb && |s'.heap| == |s.heap| && s'.procs == s.procs
  {
    var (t, m, ptr) := KzallocSpec(s.hb, s.heap, s.mem, size);
    if ptr == 0 || ptr + |bytes| > 0x1_0000_0000 then s
    else s.(heap := t, mem := FillBytes(m, ptr, bytes),
            chains := s.chains[ptr / PAGE_SIZE - s.hb := Chain(Blocks(size), part, Loose)])
  }

  /** Where it starts. */
  ghost function PartBlock(s: Sys, size: Size): (b: nat)
    requires Safe(s.heap, Blocks(size)) && CanFit(s.heap, Blocks(size)) && Blocks(size) >= 1
    ensures b + Blocks(size) <= |s.heap|
  {
    FirstFitExact(s.heap, Blocks(size));
    StartBlock(s.heap, Blocks(size))
  }

  lemma PartFacts(s: Sys, o: Owners, size: Size, part: Part, bytes: seq<Byte>)
    requires Consistent(s, o) && Takable(s, size, bytes)
    ensures Blocks(size) >= 1
    ensures var b, n, s' := PartBlock(s, size), Blocks(size), PartStep(s, size, part, bytes);
            && b + n <= |s.heap| && FreeRun(s.heap, b, n) && b !in Live(s.heap)
            && WellFormed(MarkTaken(s.heap, b, n)) && Live(MarkTaken(s.heap, b, n)) == Live(s.heap)[b := n]
            && s' == s.(heap := MarkTaken(s.heap, b, n), mem := s'.mem, chains := s.chains[b := Chain(n, part, Loose)])
            && MetaKept(s, s'.mem)
  {
    hide Consistent, WellFormed, Live, ZeroFill, FillBytes, MarkTaken, FreeRun, StartBlock;
    ConsistentHeap(s, o);
    BlocksPositive(size);
    BlocksExact(size);
    var n := Blocks(size);
    FirstFitExact(s.heap, n);
    MallocBlocksLive(s.heap, n);
    var b := PartBlock(s, size);
    var a := PAGE_SIZE * (s.hb + b);
    var m := ZeroFill(s.mem, a, size);
    forall g: Frame | !(s.hb + b <= g < s.hb + b + n) ensures SameFrame(s.mem, FillBytes(m, a, bytes), g) {
      ZeroFillFrame(s.mem, s.hb + b, n, size, g);
      FillBytesFrame(m, s.hb + b, n, bytes, g);
      SameFrameTrans(s.mem, m, FillBytes(m, a, bytes), g);
    }
    FreeSpares(s, o, b, n, FillBytes(m, a, bytes));
  }

  /** Each byte of memory after the allocation: what was read, zeros behind it, all else as before. */
  lemma PartBytes(s: Sys, size: Size, part: Part, bytes: seq<Byte>, c: Word)
    requires WellFormed(s.heap) && Takable(s, size, bytes)
    ensures Blocks(size) >= 1 && size <= PAGE_SIZE * Blocks(size)
    ensures var a := PAGE_SIZE * (s.hb + PartBlock(s, size));
            ByteAt(PartStep(s, size, part, bytes).mem, c)
            == if a <= c < a + |bytes| then bytes[c - a]
               else if a <= c < a + size then 0
               else ByteAt(s.mem, c)
  {
    hide ByteAt, ZeroFill, FillBytes, WellFormed, StartBlock;
    BlocksPositive(size);
    BlocksExact(size);
    MallocBlocksLive(s.heap, Blocks(size));
    FirstFitExact(s.heap, Blocks(size));
    var f := s.hb + PartBlock(s, size);
    ZeroFillEffect(s.mem, f, size, c);
    FillBytesEffect(ZeroFill(s.mem, PAGE_SIZE * f, size), PAGE_SIZE * f, bytes, c);
  }

  lemma SameFrameTrans(m: Memory, m': Memory, m'': Memory, g: Frame)
    requires SameFrame(m, m', g) && SameFrame(m', m'', g)
    ensures SameFrame(m, m'', g)
  {
    forall w: Index ensures Cell(m, g, w) == Cell(m'', g, w) {
      assert Cell(m, g, w) == Cell(m', g, w) && Cell(m', g, w) == Cell(m'', g, w);
    }
  }

  lemma PartKeeps(s: Sys, o: Owners, size: Size, part: Part, bytes: seq<Byte>)
    requires Consistent(s, o) && Takable(s, size, bytes)
    ensures Blocks(size) >= 1
    ensures Consistent(PartStep(s, size, part, bytes), o[PartBlock(s, size) := OwnChain(PartBlock(s, size))])
  {
    hide Consistent, MetaKept, PartStep, PartBlock, MarkTaken, FreeRun, Live, WellFormed;
    BlocksPositive(size);
    PartFacts(s, o, size, part, bytes);
    var s' := PartStep(s, size, part, bytes);
    MemKeeps(s, o, s'.mem);
    AddChainKeeps(s.(mem := s'.mem), o, PartBlock(s, size), Chain(Blocks(size), part, Loose));
  }

  /** One more loose chain, at blocks that were free. */
  lemma AddChainKeeps(s: Sys, o: Owners, b: nat, c: Chain)
    requires Consistent(s, o) && c.holder.Loose? && c.blocks >= 1
    requires b + c.blocks <= |s.heap| && FreeRun(s.heap, b, c.blocks) && b !in Live(s.heap)
    requires WellFormed(MarkTaken(s.heap, b, c.blocks))
    requires Live(MarkTaken(s.heap, b, c.blocks)) == Live(s.heap)[b := c.blocks]
    ensures Consistent(s.(heap := MarkTaken(s.heap, b, c.blocks), chains := s.chains[b := c]), o[b := OwnChain(b)])
  {
    hide WellFormed, MarkTaken, FreeRun, Owns, Live, LoadedEntry, LoadRight, Tied, LoadsRight;
    var s' := s.(heap := MarkTaken(s.heap, b, c.blocks), chains := s.chains[b := c]);
    NoChainThere(s, o, b);
    forall w | w != OwnChain(b) && (Exists(s, w) || Exists(s', w)) ensures SameOwner(s, s', w) {}
    assert Exists(s', OwnChain(b)) && Extent(s', OwnChain(b)) == c.blocks;
    TiedAdd(s, s', o, b, OwnChain(b));
    LoadsWithChain(s, s'.heap, b, c);
    var o' := o[b := OwnChain(b)];
    forall p, q: Page | p in s'.procs ensures PageRight(s', o', p, q) {
      assert PageRight(s, o, p, q);
      OwnsMark(s.hb, s.heap, o, b, c.blocks, OwnChain(b), p, q);
    }
  }

  lemma NoChainThere(s: Sys, o: Owners, b: nat)
    requires Consistent(s, o) && b !in Live(s.heap)
    ensures b !in s.chains && !Exists(s, OwnChain(b))
  {
    hide WellFormed, Live;
    assert b in s.chains ==> Exists(s, OwnChain(b));
  }

  lemma LoadsWithChain(s: Sys, t: Table, b: nat, c: Chain)
    requires LoadsRight(s) && b !in s.chains && c.holder.Loose?
    ensures LoadsRight(s.(heap := t, chains := s.chains[b := c]))
  {
    hide LoadRight;
    forall p | p in s.procs ensures LoadRight(s.hb, s.chains[b := c], p, s.procs[p]) {
      LoadRightMore(s.hb, s.chains, s.chains[b := c], p, s.procs[p]);
    }
  }

  /** A load stays right while the process's own chains stay. */
  lemma LoadRightMore(hb: int, chains: map<nat, Chain>, chains': map<nat, Chain>, p: nat, x: Process)
    requires LoadRight(hb, chains, p, x)
    requires forall b | b in chains && chains[b].holder == Of(p) :: b in chains' && chains'[b] == chains[b]
    ensures LoadRight(hb, chains', p, x)
  {
    hide ProgramFits;
  }

  // ---------------------------------------------------------------- process_malloc

  /** Only ledgers and page entries differ. */
  ghost predicate SlotsChange(s: Sys, s': Sys) {
    && s'.hb == s.hb && s'.chains == s.chains && s'.procs.Keys == s.procs.Keys
    && (forall p | p in s.procs :: s'.procs[p] == s.procs[p].(slots := s'.procs[p].slots))
    && (forall p, i: Index | p in s.procs ::
          TableFrame(s'.mem, s.procs[p].dir, i) == TableFrame(s.mem, s.procs[p].dir, i))
    && (forall p | p in s.procs :: Cell(s'.mem, s.procs[p].chunk, 0) == Cell(s.mem, s.procs[p].chunk, 0))
    && (forall p | p in s.procs && DirectoryOpen(s.mem, s.procs[p].dir) :: DirectoryOpen(s'.mem, s.procs[p].dir))
  }

  lemma SlotsChangeKeeps(s: Sys, s': Sys)
    requires SlotsChange(s, s') && LoadsRight(s) && DirectoriesRight(s)
    ensures LoadsRight(s') && DirectoriesRight(s')
  {
    hide LoadRight, DirectoryOpen;
    forall p | p in s'.procs ensures LoadRight(s'.hb, s'.chains, p, s'.procs[p]) {
      LoadRightSlots(s.hb, s.chains, p, s.procs[p], s'.procs[p].slots);
    }
  }

  lemma LoadRightSlots(hb: int, chains: map<nat, Chain>, p: nat, x: Process, l: Slots)
    ensures LoadRight(hb, chains, p, x.(slots := l)) <==> LoadRight(hb, chains, p, x)
  {
    hide ProgramFits;
  }

  /** An owner that is not a changed slot keeps what it holds. */
  lemma SlotsChangeOwner(s: Sys, s': Sys, w: Owner)
    requires SlotsChange(s, s') && (Exists(s, w) || Exists(s', w))
    requires w.OwnSlot? && w.pid in s.procs && w.slot < MAX_ALLOCATIONS ==>
               s'.procs[w.pid].slots[w.slot] == s.procs[w.pid].slots[w.slot]
    ensures SameOwner(s, s', w)
  {
  }

  /** The state after a chain was granted to slot `i` of process `p`. */
  ghost function Grant(s: Sys, p: nat, i: nat, b: nat, size: Size): Sys
    requires PoolBounds(s.hb, |s.heap|) && p in s.procs && i < MAX_ALLOCATIONS && b + Blocks(size) <= |s.heap|
  {
    var x := s.procs[p];
    s.(heap := MarkTaken(s.heap, b, Blocks(size)),
       mem := MapPages(s.mem, x.dir, s.hb + b, s.hb + b, Blocks(size), USER_FLAGS),
       procs := s.procs[p := x.(slots := x.slots[i := Slot(PAGE_SIZE * (s.hb + b), size)])])
  }

  ghost predicate Grantable(s: Sys, o: Owners, p: nat, i: nat, b: nat, size: Size) {
    && Consistent(s, o) && p in s.procs && i < MAX_ALLOCATIONS && s.procs[p].slots[i].ptr == 0
    && size > 0 && Blocks(size) >= 1 && b + Blocks(size) <= |s.heap| && FreeRun(s.heap, b, Blocks(size))
    && b !in Live(s.heap)
    && Live(MarkTaken(s.heap, b, Blocks(size))) == Live(s.heap)[b := Blocks(size)]
    && WellFormed(MarkTaken(s.heap, b, Blocks(size)))
  }

  lemma GrantTied(s: Sys, o: Owners, p: nat, i: nat, b: nat, size: Size)
    requires Grantable(s, o, p, i, b, size)
    ensures SlotsChange(s, Grant(s, p, i, b, size))
    ensures Tied(Grant(s, p, i, b, size), o[b := OwnSlot(p, i)])
  {
    hide WellFormed, MarkTaken, MapPages, FreeRun, Live, Tied, LoadsRight, PagesRight, LedgersRight, TableFrame, Cell;
    ConsistentHeap(s, o);
    RemapEffect(s, o, p, s.hb + b, Blocks(size), USER_FLAGS);
    var s' := Grant(s, p, i, b, size);
    assert SlotsChange(s, s');
    forall w | w != OwnSlot(p, i) && (Exists(s, w) || Exists(s', w)) ensures SameOwner(s, s', w) {
      SlotsChangeOwner(s, s', w);
    }
    assert Exists(s', OwnSlot(p, i)) && Place(s', OwnSlot(p, i)) == b && Extent(s', OwnSlot(p, i)) == Blocks(size);
    TiedAdd(s, s', o, b, OwnSlot(p, i));
  }

  lemma GrantPage(s: Sys, o: Owners, p: nat, i: nat, b: nat, size: Size, p': nat, q: Page)
    requires Grantable(s, o, p, i, b, size) && p' in s.procs
    ensures PageRight(Grant(s, p, i, b, size), o[b := OwnSlot(p, i)], p', q)
  {
    hide WellFormed, MarkTaken, MapPages, FreeRun, Owns, Live, LoadedEntry, Tied, LoadsRight;
    ConsistentHeap(s, o);
    RemapEntry(s, o, p, s.hb + b, Blocks(size), USER_FLAGS, p', q);
    OwnsMark(s.hb, s.heap, o, b, Blocks(size), OwnSlot(p, i), p', q);
    assert PageRight(s, o, p', q);
  }

  lemma GrantKeeps(s: Sys, o: Owners, p: nat, i: nat, b: nat, size: Size)
    requires Grantable(s, o, p, i, b, size)
    ensures Consistent(Grant(s, p, i, b, size), o[b := OwnSlot(p, i)])
  {
    hide WellFormed, MarkTaken, MapPages, FreeRun, Owns, Live, Tied, LoadsRight, DirectoriesRight, SlotsChange,
      PageRight;
    var s', o' := Grant(s, p, i, b, size), o[b := OwnSlot(p, i)];
    GrantTied(s, o, p, i, b, size);
    SlotsChangeKeeps(s, s');
    assert LedgersRight(s');
    forall p', q: Page | p' in s'.procs ensures PageRight(s', o', p', q) {
      GrantPage(s, o, p, i, b, size, p', q);
    }
  }

  ghost function MallocStep(s: Sys, p: nat, size: Size): Sys
    requires PoolBounds(s.hb, |s.heap|) && p in s.procs && Safe(s.heap, Blocks(size))
  {
    var x := s.procs[p];
    var r := ProcessMallocSpec(s.hb, s.heap, s.mem, x.dir, x.slots, size);
    s.(heap := r.table, mem := r.mem, procs := s.procs[p := x.(slots := r.slots)])
  }

  lemma MallocKeeps(s: Sys, o: Owners, p: nat, size: Size) returns (o': Owners)
    requires Consistent(s, o) && p in s.procs && size > 0 && Safe(s.heap, Blocks(size))
    ensures PoolBounds(s.hb, |s.heap|) && Consistent(MallocStep(s, p, size), o')
  {
    hide WellFormed, MarkTaken, MapPages, ZeroFill, FreeRun, StartBlock, Consistent, FreeIndex;
    var x := s.procs[p];
    var n := Blocks(size);
    var b := StartBlock(s.heap, n);
    ConsistentHeap(s, o);
    MallocCases(s.hb, s.heap, s.mem, x.dir, x.slots, size);
    BlocksExact(size);
    o' := o;
    assert s.procs[p := x.(slots := x.slots)] == s.procs;
    if CanFit(s.heap, n) {
      var m := ZeroFill(s.mem, PAGE_SIZE * (s.hb + b), size);
      FillSpares(s, o, b, n, size);
      MemKeeps(s, o, m);
      if FreeIndex(x.slots) >= 0 {
        MallocBlocksLive(s.heap, n);
        GrantableAt(s.(mem := m), o, p, FreeIndex(x.slots), b, size);
        GrantKeeps(s.(mem := m), o, p, FreeIndex(x.slots), b, size);
        o' := o[b := OwnSlot(p, FreeIndex(x.slots))];
      }
    }
  }

  lemma GrantableAt(s: Sys, o: Owners, p: nat, i: nat, b: nat, size: Size)
    requires Consistent(s, o) && p in s.procs && i < MAX_ALLOCATIONS && s.procs[p].slots[i].ptr == 0
    requires size > 0 && FreeRun(s.heap, b, Blocks(size))
    ensures Grantable(s, o, p, i, b, size)
  {
    hide Tied, LoadsRight, PagesRight, DirectoriesRight, LedgersRight;
    BlocksPositive(size);
    MarkTakenLive(s.heap, b, Blocks(size));
  }

  // ---------------------------------------------------------------- process_free

  /** The block where the allocation in slot `i` of process `p` starts. */
  ghost function SlotBlock(s: Sys, p: nat, i: nat): int
    requires p in s.procs && i < MAX_ALLOCATIONS
  {
    s.procs[p].slots[i].ptr / PAGE_SIZE - s.hb
  }

  ghost predicate Releasable(s: Sys, o: Owners, p: nat, i: nat) {
    && Consistent(s, o) && p in s.procs && i < MAX_ALLOCATIONS && s.procs[p].slots[i].ptr != 0
    && SlotBlock(s, p, i) >= 0 && SlotBlock(s, p, i) in Live(s.heap)
    && o[SlotBlock(s, p, i)] == OwnSlot(p, i)
    && Live(s.heap)[SlotBlock(s, p, i)] == Blocks(s.procs[p].slots[i].size)
    && SlotBlock(s, p, i) + Blocks(s.procs[p].slots[i].size) <= |s.heap|
    && WellFormed(FreeChain(s.heap, SlotBlock(s, p, i)))
    && Live(FreeChain(s.heap, SlotBlock(s, p, i))) == Live(s.heap) - {SlotBlock(s, p, i)}
  }

  /** The state after the allocation in slot `i` of process `p` was freed. */
  ghost function Release(s: Sys, p: nat, i: nat): Sys
    requires PoolBounds(s.hb, |s.heap|) && p in s.procs && i < MAX_ALLOCATIONS && SlotBlock(s, p, i) >= 0
    requires SlotBlock(s, p, i) + Blocks(s.procs[p].slots[i].size) <= |s.heap|
  {
    var x := s.procs[p];
    var b := SlotBlock(s, p, i);
    s.(heap := FreeChain(s.heap, b),
       mem := MapPages(s.mem, x.dir, s.hb + b, s.hb + b, Blocks(x.slots[i].size), 0),
       procs := s.procs[p := x.(slots := Unjoin(x.slots, x.slots[i].ptr))])
  }

  lemma SlotOwner(s: Sys, o: Owners, p: nat, i: nat)
    requires Consistent(s, o) && p in s.procs && i < MAX_ALLOCATIONS && s.procs[p].slots[i].ptr != 0
    ensures Exists(s, OwnSlot(p, i)) && Place(s, OwnSlot(p, i)) == SlotBlock(s, p, i)
    ensures SlotBlock(s, p, i) in Live(s.heap) && SlotBlock(s, p, i) in o && o[SlotBlock(s, p, i)] == OwnSlot(p, i)
    ensures Live(s.heap)[SlotBlock(s, p, i)] == Blocks(s.procs[p].slots[i].size) && SlotRight(s.procs[p].slots[i])
  {
    hide WellFormed, Live, LoadsRight, PagesRight, DirectoriesRight, Tight;
    assert Exists(s, OwnSlot(p, i));
    assert SlotRight(s.procs[p].slots[i]);
  }

  lemma ReleasableAt(s: Sys, o: Owners, p: nat, i: nat)
    requires Consistent(s, o) && p in s.procs && i < MAX_ALLOCATIONS && s.procs[p].slots[i].ptr != 0
    ensures Releasable(s, o, p, i)
    ensures s.procs[p].slots[i].ptr == PAGE_SIZE * (s.hb + SlotBlock(s, p, i))
    ensures s.procs[p].slots[i].size <= 0x1_0000_0000 - PAGE_SIZE
  {
    hide WellFormed, Consistent, Live;
    ConsistentHeap(s, o);
    SlotOwner(s, o, p, i);
    var b := SlotBlock(s, p, i);
    FreeChainLive(s.heap, b);
    BlocksPositive(s.procs[p].slots[i].size);
    BlockIn(s.heap, b, b + Live(s.heap)[b] - 1);
  }

  /** No other slot of the process holds the same pointer. */
  lemma SoleSlot(s: Sys, o: Owners, p: nat, i: nat, j: nat)
    requires Releasable(s, o, p, i) && j < MAX_ALLOCATIONS && s.procs[p].slots[j].ptr == s.procs[p].slots[i].ptr
    ensures j == i
  {
    hide Consistent;
    SlotOwner(s, o, p, i);
    SlotOwner(s, o, p, j);
  }

  lemma ReleaseTied(s: Sys, o: Owners, p: nat, i: nat)
    requires Releasable(s, o, p, i)
    ensures SlotsChange(s, Release(s, p, i))
    ensures Tied(Release(s, p, i), o - {SlotBlock(s, p, i)})
  {
    hide Consistent, WellFormed, FreeChain, Live, MapPages, Tied, TableFrame, Cell;
    ConsistentHeap(s, o);
    var b := SlotBlock(s, p, i);
    var s' := Release(s, p, i);
    RemapEffect(s, o, p, s.hb + b, Blocks(s.procs[p].slots[i].size), 0);
    assert SlotsChange(s, s');
    forall j | 0 <= j < MAX_ALLOCATIONS && j != i ensures s'.procs[p].slots[j] == s.procs[p].slots[j] {
      if s.procs[p].slots[j].ptr == s.procs[p].slots[i].ptr { SoleSlot(s, o, p, i, j); }
    }
    SlotOwner(s, o, p, i);
    forall w | w != OwnSlot(p, i) && (Exists(s, w) || Exists(s', w)) ensures SameOwner(s, s', w) && Place(s, w) != b {
      SlotsChangeOwner(s, s', w);
      OwnersDiffer(s, o, w, OwnSlot(p, i));
    }
    TiedDrop(s, s', o, {b});
  }

  lemma ReleasePage(s: Sys, o: Owners, p: nat, i: nat, p': nat, q: Page)
    requires Releasable(s, o, p, i) && p' in s.procs
    ensures PageRight(Release(s, p, i), o - {SlotBlock(s, p, i)}, p', q)
  {
    hide WellFormed, FreeChain, MapPages, Owns, Live, LoadedEntry, Tied, LoadsRight;
    ConsistentHeap(s, o);
    var b, n := SlotBlock(s, p, i), Blocks(s.procs[p].slots[i].size);
    RemapEntry(s, o, p, s.hb + b, n, 0, p', q);
    OwnsFree(s.hb, s.heap, FreeChain(s.heap, b), o, {b}, p', q);
    OwnsHead(s, o, p, i, p', q);
    assert PageRight(s, o, p', q);
  }

  /** Pages of the allocation lead to its first block, all others elsewhere. */
  lemma OwnsHead(s: Sys, o: Owners, p: nat, i: nat, p': nat, q: Page)
    requires Releasable(s, o, p, i)
    ensures var b, n := SlotBlock(s, p, i), Blocks(s.procs[p].slots[i].size);
            && (s.hb + b <= q < s.hb + b + n ==>
                  Owns(s.hb, s.heap, o, p, q) && q - s.hb < |s.heap| && HeadOf(s.heap, q - s.hb) == b
                  && (p' != p ==> !Owns(s.hb, s.heap, o, p', q)))
            && (!(s.hb + b <= q < s.hb + b + n) && Owns(s.hb, s.heap, o, p', q) ==> HeadOf(s.heap, q - s.hb) != b)
  {
    hide Consistent, WellFormed, Live, IsFree, HeadOf, FreeChain;
    ConsistentHeap(s, o);
    var b := SlotBlock(s, p, i);
    if s.hb + b <= q < s.hb + b + Live(s.heap)[b] {
      BlockIn(s.heap, b, q - s.hb);
    } else if Owns(s.hb, s.heap, o, p', q) {
      HeadOfTaken(s.heap, q - s.hb);
    }
  }

  lemma ReleaseKeeps(s: Sys, o: Owners, p: nat, i: nat)
    requires Releasable(s, o, p, i)
    ensures Consistent(Release(s, p, i), o - {SlotBlock(s, p, i)})
  {
    hide WellFormed, FreeChain, MapPages, Owns, Live, Tied, LoadsRight, DirectoriesRight, SlotsChange, PageRight;
    var b := SlotBlock(s, p, i);
    var s', o' := Release(s, p, i), o - {b};
    ReleaseTied(s, o, p, i);
    SlotsChangeKeeps(s, s');
    assert LedgersRight(s');
    forall p', q: Page | p' in s'.procs ensures PageRight(s', o', p', q) {
      ReleasePage(s, o, p, i, p', q);
    }
  }

  /** process_free of a null pointer is allowed only when the ledger has no empty slot. */
  ghost function FreeStep(s: Sys, p: nat, ptr: Word): Sys
    requires p in s.procs && (FindByAddr(s.procs[p].slots, ptr) >= 0 ==> ptr / PAGE_SIZE >= s.hb)
  {
    var x := s.procs[p];
    var r := ProcessFreeSpec(s.hb, s.heap, s.mem, x.dir, x.slots, ptr);
    s.(heap := r.table, mem := r.mem, procs := s.procs[p := x.(slots := r.slots)])
  }

  lemma FreeIsRelease(s: Sys, o: Owners, p: nat, ptr: Word)
    requires Consistent(s, o) && p in s.procs && (ptr != 0 || FindByAddr(s.procs[p].slots, ptr) < 0)
    ensures FindByAddr(s.procs[p].slots, ptr) >= 0 ==> ptr / PAGE_SIZE >= s.hb
    ensures FindByAddr(s.procs[p].slots, ptr) < 0 ==> FreeStep(s, p, ptr) == s
    ensures FindByAddr(s.procs[p].slots, ptr) >= 0 ==>
              && Releasable(s, o, p, FindByAddr(s.procs[p].slots, ptr))
              && FreeStep(s, p, ptr) == Release(s, p, FindByAddr(s.procs[p].slots, ptr))
  {
    hide WellFormed, FreeChain, MapPages, Live, Unjoin, Consistent, FindByAddr;
    ConsistentHeap(s, o);
    var x := s.procs[p];
    var i := FindByAddr(x.slots, ptr);
    assert s.procs[p := x.(slots := x.slots)] == s.procs;
    if i >= 0 {
      ReleasableAt(s, o, p, i);
      FreeCase(s.hb, s.heap, s.mem, x.dir, x.slots, ptr, SlotBlock(s, p, i));
    }
  }

  // ---------------------------------------------------------------- a store by a running process

  ghost function StoreStep(s: Sys, p: nat, v: Word, b: Byte): Sys
    requires p in s.procs
  {
    if UserMayWrite(s.mem, s.procs[p].dir, v / PAGE_SIZE)
    then s.(mem := WithByte(s.mem, Translate(s.mem, s.procs[p].dir, v), b))
    else s
  }

  /** Frame `f` lies in an allocation, the stack or the image of process `p`. */
  ghost predicate Writes(s: Sys, o: Owners, p: nat, f: Frame) {
    && s.hb <= f < s.hb + |s.heap| && !IsFree(s.heap[f - s.hb])
    && HeadOf(s.heap, f - s.hb) in o
    && match o[HeadOf(s.heap, f - s.hb)]
       case OwnSlot(p', _) => p' == p
       case OwnChain(b) => b in s.chains && s.chains[b].holder == Of(p) && s.chains[b].part in {Image, UserStack}
       case _ => false
  }

  lemma PartWrites(s: Sys, o: Owners, p: nat, k: Part, f: Frame)
    requires Consistent(s, o) && p in s.procs && k in s.procs[p].parts && k in {Image, UserStack}
    requires s.procs[p].parts[k] in s.chains && s.chains[s.procs[p].parts[k]].holder == Of(p)
    requires s.chains[s.procs[p].parts[k]].part == k
    requires 0 <= f - s.hb - s.procs[p].parts[k] < s.chains[s.procs[p].parts[k]].blocks
    ensures Writes(s, o, p, f)
  {
    hide Consistent;
    var b := s.procs[p].parts[k];
    assert Exists(s, OwnChain(b)) && Place(s, OwnChain(b)) == b && Extent(s, OwnChain(b)) == s.chains[b].blocks;
    BlockOfChain(s, o, OwnChain(b), f - s.hb);
  }

  lemma LoadOf(s: Sys, o: Owners, p: nat)
    requires Consistent(s, o) && p in s.procs
    ensures LoadRight(s.hb, s.chains, p, s.procs[p])
  {
  }

  lemma PageOf(s: Sys, o: Owners, p: nat, q: Page)
    requires Consistent(s, o) && p in s.procs
    ensures PageRight(s, o, p, q)
  {
  }

  lemma OpenOf(s: Sys, o: Owners, p: nat)
    requires Consistent(s, o) && p in s.procs
    ensures DirectoryOpen(s.mem, s.procs[p].dir)
  {
  }

  /** Which pages a process may write, and that each leads into memory of its own. */
  lemma WriteablePages(s: Sys, o: Owners, p: nat, q: Page)
    requires Consistent(s, o) && p in s.procs
    ensures var e := Entry(s.mem, s.procs[p].dir, q);
            && (UserMayWrite(s.mem, s.procs[p].dir, q) <==>
                  if q < s.hb then OnStack(q) || ProgramWrites(s.procs[p].program, q)
                  else Owns(s.hb, s.heap, o, p, q))
            && (UserMayWrite(s.mem, s.procs[p].dir, q) ==> Writes(s, o, p, FrameOf(e)))
            && (q >= s.hb ==> FrameOf(e) == q)
  {
    hide Consistent, Owns, LoadedEntry, ProgramWrites, OnStack, ProgramRight, ProgramBelow, Entry, Writes,
      DirectoryOpen;
    var x := s.procs[p];
    var e := Entry(s.mem, x.dir, q);
    OpenOf(s, o, p);
    OpenDirectory(s.mem, x.dir, q);
    PageOf(s, o, p, q);
    LoadOf(s, o, p);
    FlagsDecide(q);
    if q < s.hb {
      LoadedWrites(x.program, x.stack, q, MakeEntry(q, 5), e);
      if OnStack(q) {
        StackPage(x.stack, q);
        PartWrites(s, o, p, UserStack, FrameOf(e));
      } else if ProgramWrites(x.program, q) {
        PartWrites(s, o, p, Image, FrameOf(e));
      }
    } else if Owns(s.hb, s.heap, o, p, q) {
      OwnsWrites(s, o, p, q);
    }
  }

  lemma StackPage(stack: Word, q: int)
    requires OnStack(q)
    ensures 0 <= q - STACK_VIRTUAL_END / PAGE_SIZE < STACK_BLOCKS
  {
  }

  lemma OwnsWrites(s: Sys, o: Owners, p: nat, q: Page)
    requires Owns(s.hb, s.heap, o, p, q)
    ensures Writes(s, o, p, q)
  {
  }

  lemma TranslatedFrame(m: Memory, d: Frame, v: Word)
    ensures Translate(m, d, v) / PAGE_SIZE == FrameOf(Entry(m, d, v / PAGE_SIZE))
  {
  }

  /** A byte of a process's own memory is in no frame of the kernel's. */
  lemma StoreSpares(s: Sys, o: Owners, p: nat, a: Word, b: Byte)
    requires Consistent(s, o) && Writes(s, o, p, a / PAGE_SIZE)
    ensures MetaKept(s, WithByte(s.mem, a, b))
  {
    hide Consistent, WithByte;
    forall w | Exists(s, w) && IsMeta(w) ensures SameFrame(s.mem, WithByte(s.mem, a, b), OwnedFrame(s, w)) {
      NotMeta(s, o, a / PAGE_SIZE, w);
      WithByteFrame(s.mem, a, b, OwnedFrame(s, w));
    }
  }

  lemma StoreKeeps(s: Sys, o: Owners, p: nat, v: Word, b: Byte)
    requires Consistent(s, o) && p in s.procs
    ensures Consistent(StoreStep(s, p, v, b), o)
  {
    hide Consistent, WithByte, UserMayWrite, Translate, Writes, Owns;
    WriteablePages(s, o, p, v / PAGE_SIZE);
    TranslatedFrame(s.mem, s.procs[p].dir, v);
    if UserMayWrite(s.mem, s.procs[p].dir, v / PAGE_SIZE) {
      var a := Translate(s.mem, s.procs[p].dir, v);
      StoreSpares(s, o, p, a, b);
      MemKeeps(s, o, WithByte(s.mem, a, b));
    }
  }
}
