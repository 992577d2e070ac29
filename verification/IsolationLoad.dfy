/**
  process_load_for_slot: what loading a program allocates, in its order, and the process it makes of it.
*/
module IsolationLoad {
  import opened Words
  import opened HeapTable
  import opened HeapRuns
  import opened PhysicalMemory
  import opened PageTable
  import opened Directory
  import opened Ledger
  import opened ElfLoader
  import opened ImageMap
  import opened Isolation
  import opened IsolationSteps

  const TASK_FLAGS := 5

  /** Sizes of `struct process`, `struct elf_file` and `struct task`. */
  const PROCESS_SIZE := 9368
  const ELF_FILE_SIZE := 132
  const TASK_SIZE := 64

  /** What the file system delivers: the bytes of a file and, of an ELF image, its program headers. */
  datatype File = ElfImage(bytes: seq<Byte>, headers: seq<Phdr>) | FlatImage(bytes: seq<Byte>)

  /** One kzalloc of a load: the part it is for, its size, and what is read into it. */
  datatype Want = Want(part: Part, size: Size, bytes: seq<Byte>)

  predicate Loadable(f: File) { 0 < |f.bytes| <= 0x1_0000_0000 - PAGE_SIZE }

  /** The allocations of a load. Every file is read as an ELF image first; one that is none is read again. */
  function Wanted(f: File): seq<Want>
    requires Loadable(f)
  {
    [Want(ProcessStruct, PROCESS_SIZE, []), Want(ElfStruct, ELF_FILE_SIZE, [])]
    + (if f.ElfImage? then [Want(Image, |f.bytes|, f.bytes)]
       else [Want(ElfCopy, |f.bytes|, f.bytes), Want(Image, |f.bytes|, f.bytes)])
    + [Want(UserStack, STACK_SIZE, []), Want(TaskStruct, TASK_SIZE, [])]
  }

  // ---------------------------------------------------------------- the allocations

  ghost predicate Granted(s: Sys, ws: seq<Want>)
    decreases |ws|
  {
    ws == [] || (Takable(s, ws[0].size, ws[0].bytes)
                 && Granted(PartStep(s, ws[0].size, ws[0].part, ws[0].bytes), ws[1..]))
  }

  ghost function Taken(s: Sys, ws: seq<Want>): (s': Sys)
    requires Granted(s, ws)
    ensures s'.hb == s.hb && |s'.heap| == |s.heap| && s'.procs == s.procs
    decreases |ws|
  {
    if ws == [] then s else Taken(PartStep(s, ws[0].size, ws[0].part, ws[0].bytes), ws[1..])
  }

  /** Where the chains start. */
  ghost function Spots(s: Sys, ws: seq<Want>): (ss: seq<nat>)
    requires Granted(s, ws)
    ensures |ss| == |ws| && forall j | 0 <= j < |ss| :: ss[j] < |s.heap|
    decreases |ws|
  {
    if ws == [] then []
    else
      BlocksPositive(ws[0].size);
      [PartBlock(s, ws[0].size)] + Spots(PartStep(s, ws[0].size, ws[0].part, ws[0].bytes), ws[1..])
  }

  /** A load's allocations become loose chains of their parts, next to all there was. */
  ghost predicate Collected(s: Sys, s': Sys, ws: seq<Want>, ss: seq<nat>) {
    && s'.hb == s.hb && |s'.heap| == |s.heap| && s'.procs == s.procs && |ss| == |ws|
    && (forall j | 0 <= j < |ws| ::
          ss[j] !in s.chains && ss[j] in s'.chains
          && s'.chains[ss[j]] == Chain(Blocks(ws[j].size), ws[j].part, Loose))
    && (forall b | b in s.chains :: b in s'.chains && s'.chains[b] == s.chains[b])
    && (forall b | b in s'.chains :: b in s.chains || b in ss)
    && (forall p | p in s.procs :: SameDirectory(s.mem, s'.mem, s.procs[p].dir))
  }

  lemma TakeCollects(s: Sys, o: Owners, w: Want)
    requires Consistent(s, o) && Takable(s, w.size, w.bytes)
    ensures Blocks(w.size) >= 1
    ensures Collected(s, PartStep(s, w.size, w.part, w.bytes), [w], [PartBlock(s, w.size)])
  {
    hide Consistent, PartStep, PartBlock, MarkTaken, FreeRun, Live, MetaKept, WellFormed;
    PartFacts(s, o, w.size, w.part, w.bytes);
    NoChainThere(s, o, PartBlock(s, w.size));
    KeepDirectories(s, PartStep(s, w.size, w.part, w.bytes).mem);
  }

  lemma CollectedTrans(s: Sys, s': Sys, s'': Sys, w: Want, b: nat, ws: seq<Want>, ss: seq<nat>)
    requires Collected(s, s', [w], [b]) && Collected(s', s'', ws, ss)
    ensures Collected(s, s'', [w] + ws, [b] + ss)
  {
    hide Blocks;
    assert [w][0] == w && [b][0] == b;
    forall j | 0 <= j < |ws| + 1
      ensures ([b] + ss)[j] !in s.chains && ([b] + ss)[j] in s''.chains
      ensures s''.chains[([b] + ss)[j]] == Chain(Blocks(([w] + ws)[j].size), ([w] + ws)[j].part, Loose)
    {
      if j > 0 { assert ([b] + ss)[j] == ss[j - 1] && ([w] + ws)[j] == ws[j - 1]; }
    }
    forall p | p in s.procs ensures SameDirectory(s.mem, s''.mem, s.procs[p].dir) {
      assert SameDirectory(s.mem, s'.mem, s.procs[p].dir) && SameDirectory(s'.mem, s''.mem, s.procs[p].dir);
    }
  }

  lemma {:induction false} TakenKeeps(s: Sys, o: Owners, ws: seq<Want>) returns (o': Owners)
    requires Consistent(s, o) && Granted(s, ws)
    ensures Consistent(Taken(s, ws), o') && Collected(s, Taken(s, ws), ws, Spots(s, ws))
    decreases |ws|
  {
    hide Consistent, PartStep, PartBlock, Collected;
    if ws == [] {
      o' := o;
      NothingCollected(s);
    } else {
      var w := ws[0];
      BlocksPositive(w.size);
      PartKeeps(s, o, w.size, w.part, w.bytes);
      TakeCollects(s, o, w);
      var s' := PartStep(s, w.size, w.part, w.bytes);
      o' := TakenKeeps(s', o[PartBlock(s, w.size) := OwnChain(PartBlock(s, w.size))], ws[1..]);
      CollectedTrans(s, s', Taken(s, ws), w, PartBlock(s, w.size), ws[1..], Spots(s', ws[1..]));
      assert [w] + ws[1..] == ws;
    }
  }

  /** Allocations come one after the other. */
  lemma {:induction false} TakenSplit(s: Sys, us: seq<Want>, vs: seq<Want>)
    requires Granted(s, us + vs)
    ensures Granted(s, us) && Granted(Taken(s, us), vs)
    ensures Taken(s, us + vs) == Taken(Taken(s, us), vs)
    ensures Spots(s, us + vs) == Spots(s, us) + Spots(Taken(s, us), vs)
    decreases |us|
  {
    hide PartStep, PartBlock, Takable;
    var all := us + vs;
    if us == [] {
      assert all == vs;
    } else {
      assert all[0] == us[0] && all[1..] == us[1..] + vs;
      TakenSplit(PartStep(s, us[0].size, us[0].part, us[0].bytes), us[1..], vs);
    }
  }

  /** One allocation is a step. */
  lemma TakenOne(s: Sys, w: Want)
    requires Granted(s, [w])
    ensures Takable(s, w.size, w.bytes) && Blocks(w.size) >= 1
    ensures Taken(s, [w]) == PartStep(s, w.size, w.part, w.bytes)
    ensures Spots(s, [w]) == [PartBlock(s, w.size)]
  {
    hide PartStep, PartBlock, Takable;
    assert [w][1..] == [];
    BlocksOfTakable(s, w);
  }

  lemma BlocksOfTakable(s: Sys, w: Want)
    requires Takable(s, w.size, w.bytes)
    ensures Blocks(w.size) >= 1 && Safe(s.heap, Blocks(w.size)) && CanFit(s.heap, Blocks(w.size))
  {
    BlocksPositive(w.size);
  }

  lemma NothingCollected(s: Sys)
    ensures Collected(s, s, [], [])
  {
  }

  // ---------------------------------------------------------------- the process

  ghost function EmptySlots(): Slots {
    seq(MAX_ALLOCATIONS, _ => EMPTY)
  }

  ghost function SpawnBlocks(s: Sys): (ss: seq<nat>)
    requires PoolBounds(s.hb, |s.heap|) && FreeCount(s.heap) >= DIRECTORY_BLOCKS
    ensures |ss| == DIRECTORY_BLOCKS && forall k | 0 <= k < |ss| :: ss[k] < |s.heap|
  {
    TakeAll(s.heap, DIRECTORY_BLOCKS).1
  }

  ghost function SpawnFrames(s: Sys): (fs: seq<Frame>)
    requires PoolBounds(s.hb, |s.heap|) && FreeCount(s.heap) >= DIRECTORY_BLOCKS
    ensures |fs| == DIRECTORY_BLOCKS && forall k | 0 <= k < |fs| :: fs[k] == s.hb + SpawnBlocks(s)[k]
  {
    Frames(s.hb, |s.heap|, SpawnBlocks(s))
  }

  /** The new directory, with program and stack mapped into it. */
  ghost function SpawnMemory(m: Memory, fs: seq<Frame>, program: Program, stack: Word): Memory
    requires |fs| == DIRECTORY_BLOCKS
  {
    MapMemory(NewDirectory(m, fs, TASK_FLAGS), fs[0], program, stack).1
  }

  /** Chains of the process's parts get their holder. */
  ghost function Claim(chains: map<nat, Chain>, p: nat, parts: map<Part, nat>): (c: map<nat, Chain>)
    ensures c.Keys == chains.Keys
    ensures forall b | b in chains :: c[b] ==
              if chains[b].part in parts && parts[chains[b].part] == b then chains[b].(holder := Of(p)) else chains[b]
  {
    map b | b in chains ::
      if chains[b].part in parts && parts[chains[b].part] == b then chains[b].(holder := Of(p)) else chains[b]
  }

  /** A process with its program and stack mapped over a read-only identity, and an empty ledger. */
  ghost function SpawnStep(s: Sys, p: nat, program: Program, stack: Word, parts: map<Part, nat>): Sys
    requires PoolBounds(s.hb, |s.heap|) && FreeCount(s.heap) >= DIRECTORY_BLOCKS
  {
    var fs := SpawnFrames(s);
    Sys(s.hb, TakeAll(s.heap, DIRECTORY_BLOCKS).0, SpawnMemory(s.mem, fs, program, stack),
        s.procs[p := Process(fs[0], fs[1025], EmptySlots(), program, stack, parts)],
        Claim(s.chains, p, parts))
  }

  function NewOwner(p: nat, k: nat): Owner
    requires k < DIRECTORY_BLOCKS
  {
    if k == 0 then OwnDirectory(p) else if k == 1025 then OwnChunk(p) else OwnTable(p, k - 1)
  }

  ghost function NewOwners(p: nat, ss: seq<nat>): (o: map<nat, Owner>)
    requires |ss| == DIRECTORY_BLOCKS && Distinct(ss)
    ensures o.Keys == Elements(ss)
    ensures forall k | 0 <= k < |ss| :: ss[k] in o && o[ss[k]] == NewOwner(p, k)
    ensures forall b | b in o :: !o[b].OwnSlot?
  {
    map k | 0 <= k < |ss| :: ss[k] := NewOwner(p, k)
  }

  /** What the new memory is: the tables are the batch's and open to user stores, every page is as program and
      stack say, the chunk points to the directory, and no other frame was written. */
  ghost predicate FreshLoaded(m: Memory, m': Memory, fs: seq<Frame>, program: Program, stack: Word)
    requires |fs| == DIRECTORY_BLOCKS
  {
    && (forall i: Index :: TableFrame(m', fs[0], i) == Tab(fs, i))
    && (forall q: Page :: Entry(m', fs[0], q) == LoadedEntry(program, stack, q, MakeEntry(q, TASK_FLAGS)))
    && DirectoryOpen(m', fs[0])
    && Cell(m', fs[1025], 0) == PAGE_SIZE * fs[0]
    && (forall g: Frame | g !in fs :: SameFrame(m, m', g))
  }

  /** Whether or not the program can be mapped, only frames of the new directory are written. */
  lemma SpawnMemoryOutside(m: Memory, fs: seq<Frame>, program: Program, stack: Word)
    requires IsBatch(fs)
    ensures var m1, m' := NewDirectory(m, fs, TASK_FLAGS), SpawnMemory(m, fs, program, stack);
            && Fresh(m, m1, fs, TASK_FLAGS) && ValidDirectory(m1, fs[0]) && SameTables(m1, m', fs[0])
            && (program.Elf? ==>
                  (MapMemory(m1, fs[0], program, stack).0 == 0 <==> ImageMappable(program.elfMemory, program.headers)))
            && (forall g: Frame | g == fs[0] || g == fs[1025] :: SameFrame(m1, m', g))
            && (forall g: Frame | g !in fs :: SameFrame(m, m', g))
  {
    hide NewDirectory, MapMemory, Entry, ImageMappable;
    var m1 := NewDirectory(m, fs, TASK_FLAGS);
    NewDirectoryFresh(m, fs, TASK_FLAGS);
    hide ValidDirectory;
    MapMemoryTables(m1, fs[0], program, stack);
    var m' := SpawnMemory(m, fs, program, stack);
    forall g: Frame | forall i: Index :: Tab(fs, i) != g ensures !IsTable(m1, fs[0], g) && SameFrame(m1, m', g) {
      forall i: Index ensures TableFrame(m1, fs[0], i) != g { assert TableFrame(m1, fs[0], i) == Tab(fs, i); }
    }
    forall g: Frame | g !in fs ensures SameFrame(m, m', g) {
      assert SameFrame(m, m1, g) && SameFrame(m1, m', g);
      SameFrameTrans(m, m1, m', g);
    }
  }

  lemma SpawnMemoryFresh(m: Memory, fs: seq<Frame>, program: Program, stack: Word)
    requires IsBatch(fs) && ProgramRight(program) && StackRight(stack)
    ensures FreshLoaded(m, SpawnMemory(m, fs, program, stack), fs, program, stack)
  {
    hide NewDirectory, MapMemory, LoadedEntry, Entry, ProgramRight, StackRight, ValidDirectory, OnlyTables;
    var m1 := NewDirectory(m, fs, TASK_FLAGS);
    SpawnMemoryOutside(m, fs, program, stack);
    MapMemoryEffect(m1, fs[0], program, stack);
    var m' := SpawnMemory(m, fs, program, stack);
    forall i: Index ensures TableFrame(m', fs[0], i) == Tab(fs, i) && MayWrite(Cell(m', fs[0], i)) {
      assert TableFrame(m1, fs[0], i) == Tab(fs, i) && SameFrame(m1, m', fs[0]);
      assert Cell(m', fs[0], i) == Cell(m1, fs[0], i) == TableEntry(fs, i, TASK_FLAGS);
      FlagsDecide(Tab(fs, i));
    }
    assert SameFrame(m1, m', fs[1025]);
    assert Cell(m1, fs[1025], 0) == Cell(m', fs[1025], 0);
  }

  /** A load that has all its parts: loose chains of the right kinds, big enough for program and stack. */
  ghost predicate Equipped(s: Sys, program: Program, stack: Word, parts: map<Part, nat>) {
    && parts.Keys == PartsOf(program)
    && (forall k | k in parts ::
          parts[k] in s.chains && s.chains[parts[k]].part == k && s.chains[parts[k]].holder.Loose?)
    && stack == PAGE_SIZE * (s.hb + parts[UserStack]) && s.chains[parts[UserStack]].blocks == STACK_BLOCKS
    && ImageBase(program) == PAGE_SIZE * (s.hb + parts[Image])
    && ProgramFits(program, s.chains[parts[Image]].blocks, s.hb)
    && STACK_VIRTUAL_END + STACK_SIZE <= PAGE_SIZE * s.hb
  }

  ghost predicate Spawnable(s: Sys, o: Owners, p: nat, program: Program, stack: Word, parts: map<Part, nat>) {
    && Consistent(s, o) && p !in s.procs && FreeCount(s.heap) >= DIRECTORY_BLOCKS
    && Equipped(s, program, stack, parts)
    && Batch(s.heap, TakeAll(s.heap, DIRECTORY_BLOCKS).0, SpawnBlocks(s))
    && IsBatch(SpawnFrames(s))
    && FreshLoaded(s.mem, SpawnMemory(s.mem, SpawnFrames(s), program, stack), SpawnFrames(s), program, stack)
    && MetaKept(s, SpawnMemory(s.mem, SpawnFrames(s), program, stack))
  }

  /** The blocks of a chain lie in the pool. */
  lemma ChainInPool(s: Sys, o: Owners, b: nat)
    requires Consistent(s, o) && b in s.chains
    ensures b + s.chains[b].blocks <= |s.heap|
  {
    hide Consistent;
    var n := s.chains[b].blocks;
    assert Exists(s, OwnChain(b)) && Place(s, OwnChain(b)) == b && Extent(s, OwnChain(b)) == n;
    ChainStart(s, o, OwnChain(b));
    if n > 0 { BlockOfChain(s, o, OwnChain(b), b + n - 1); }
  }

  lemma ChainStart(s: Sys, o: Owners, w: Owner)
    requires Consistent(s, o) && Exists(s, w)
    ensures Place(s, w) in Live(s.heap) && 0 <= Place(s, w) < |s.heap| && Live(s.heap)[Place(s, w)] == Extent(s, w)
  {
    hide WellFormed, LoadsRight, PagesRight;
  }

  lemma SpawnableAt(s: Sys, o: Owners, p: nat, program: Program, stack: Word, parts: map<Part, nat>)
    requires Consistent(s, o) && p !in s.procs && FreeCount(s.heap) >= DIRECTORY_BLOCKS
    requires Equipped(s, program, stack, parts)
    ensures Spawnable(s, o, p, program, stack, parts)
  {
    hide Consistent, WellFormed, Live, TakeAll, FreeCount, IsFree, SpawnMemory, ProgramRight, ProgramBelow,
      WritesInFile;
    ConsistentHeap(s, o);
    TakeAllLive(s.heap, DIRECTORY_BLOCKS);
    var fs := SpawnFrames(s);
    SpawnBatch(s);
    ChainInPool(s, o, parts[UserStack]);
    SpawnMemoryFresh(s.mem, fs, program, stack);
    forall w | Exists(s, w) && IsMeta(w)
      ensures SameFrame(s.mem, SpawnMemory(s.mem, fs, program, stack), OwnedFrame(s, w))
    {
      SpawnFramesNew(s, o, w);
    }
  }

  /** The frames of a new directory are none of the kernel's. */
  lemma SpawnFramesNew(s: Sys, o: Owners, w: Owner)
    requires Consistent(s, o) && Exists(s, w) && IsMeta(w) && FreeCount(s.heap) >= DIRECTORY_BLOCKS
    ensures PoolBounds(s.hb, |s.heap|) && OwnedFrame(s, w) !in SpawnFrames(s)
  {
    hide Consistent, WellFormed, Live, TakeAll, FreeCount, IsFree;
    ConsistentHeap(s, o);
    TakeAllLive(s.heap, DIRECTORY_BLOCKS);
    MetaBlock(s, o, w);
  }

  lemma SpawnBatch(s: Sys)
    requires PoolBounds(s.hb, |s.heap|) && FreeCount(s.heap) >= DIRECTORY_BLOCKS && Distinct(SpawnBlocks(s))
    ensures IsBatch(SpawnFrames(s))
  {
    hide TakeAll, FreeCount, SpawnBlocks;
  }

  // ---------------------------------------------------------------- the invariant with the new process

  lemma NewOwnerPlaced(s: Sys, o: Owners, p: nat, program: Program, stack: Word, parts: map<Part, nat>, k: nat)
    requires Spawnable(s, o, p, program, stack, parts) && k < DIRECTORY_BLOCKS
    ensures var s', w := SpawnStep(s, p, program, stack, parts), NewOwner(p, k);
            Exists(s', w) && Place(s', w) == SpawnBlocks(s)[k] && Extent(s', w) == 1
  {
    hide Consistent, TakeAll, SpawnMemory, Batch, SpawnBlocks, FreeCount, Equipped, LoadedEntry, Entry;
    ConsistentHeap(s, o);
    var s', fs := SpawnStep(s, p, program, stack, parts), SpawnFrames(s);
    if 0 < k < 1025 { assert TableFrame(s'.mem, fs[0], k - 1) == Tab(fs, k - 1); }
  }

  lemma OldOwner(s: Sys, o: Owners, p: nat, program: Program, stack: Word, parts: map<Part, nat>, w: Owner)
    requires Spawnable(s, o, p, program, stack, parts) && (w.OwnChain? || w.pid != p)
    ensures Exists(s, w) || Exists(SpawnStep(s, p, program, stack, parts), w) ==>
              SameOwner(s, SpawnStep(s, p, program, stack, parts), w)
  {
    hide Consistent, TakeAll, SpawnMemory, Batch, SpawnBlocks, FreeCount, Equipped, FreshLoaded, TableFrame, Claim;
    SpawnHeap(s, o, p, program, stack, parts);
    var s' := SpawnStep(s, p, program, stack, parts);
    if Exists(s, w) || Exists(s', w) {
      KeepDirectories(s, s'.mem);
      MemOwner(s, s'.mem, w);
    }
  }

  lemma SpawnOwner(s: Sys, o: Owners, p: nat, program: Program, stack: Word, parts: map<Part, nat>, w: Owner)
    requires Spawnable(s, o, p, program, stack, parts)
    ensures var s' := SpawnStep(s, p, program, stack, parts);
            && (Exists(s, w) ==> SameOwner(s, s', w))
            && (Exists(s', w) ==>
                  || SameOwner(s, s', w)
                  || exists k: nat | k < DIRECTORY_BLOCKS ::
                       w == NewOwner(p, k) && Place(s', w) == SpawnBlocks(s)[k] && Extent(s', w) == 1)
  {
    hide Consistent, TakeAll, SpawnMemory, Batch, SpawnBlocks, FreeCount, Equipped, FreshLoaded, MetaKept, Place,
      Extent;
    SpawnHeap(s, o, p, program, stack, parts);
    if w.OwnChain? || w.pid != p {
      OldOwner(s, o, p, program, stack, parts, w);
    } else if !w.OwnSlot? {
      var k := if w.OwnDirectory? then 0 else if w.OwnChunk? then 1025 else w.table + 1;
      assert w == NewOwner(p, k);
      NewOwnerPlaced(s, o, p, program, stack, parts, k);
    }
  }

  /** The live chains afterwards: those of before and one for each new frame. */
  lemma SpawnLive(s: Sys, o: Owners, p: nat, program: Program, stack: Word, parts: map<Part, nat>)
    requires Spawnable(s, o, p, program, stack, parts)
    ensures Distinct(SpawnBlocks(s))
    ensures var t, u, new_ := s.heap, SpawnStep(s, p, program, stack, parts).heap, NewOwners(p, SpawnBlocks(s));
            && WellFormed(t) && WellFormed(u) && |t| == |u|
            && Live(u).Keys == Live(t).Keys + new_.Keys
            && (forall b | b in Live(t) :: b !in new_ && Live(u)[b] == Live(t)[b])
            && (forall b | b in new_ :: Live(u)[b] == 1)
  {
    hide Consistent, Live, TakeAll, SpawnMemory, FreeCount, Equipped, WellFormed, IsFree;
    ConsistentHeap(s, o);
    var ss := SpawnBlocks(s);
    FreeNotLive(s.heap, ss);
    forall b | b in Elements(ss) ensures b in Singles(ss) && Singles(ss)[b] == 1 {}
  }

  lemma SpawnTied(s: Sys, o: Owners, p: nat, program: Program, stack: Word, parts: map<Part, nat>)
    requires Spawnable(s, o, p, program, stack, parts)
    ensures Distinct(SpawnBlocks(s))
    ensures Tied(SpawnStep(s, p, program, stack, parts), o + NewOwners(p, SpawnBlocks(s)))
  {
    hide Consistent, Live, SpawnStep, SpawnBlocks, FreeCount, WellFormed, Spawnable, Tied, Exists, Place, Extent;
    SpawnHeap(s, o, p, program, stack, parts);
    SpawnLive(s, o, p, program, stack, parts);
    var s', ss := SpawnStep(s, p, program, stack, parts), SpawnBlocks(s);
    var new_ := NewOwners(p, ss);
    forall b | b in new_
      ensures Exists(s', new_[b]) && Place(s', new_[b]) == b && Extent(s', new_[b]) == Live(s'.heap)[b]
    {
      var k :| 0 <= k < |ss| && ss[k] == b;
      NewOwnerPlaced(s, o, p, program, stack, parts, k);
    }
    forall w ensures Exists(s, w) ==> SameOwner(s, s', w)
             ensures Exists(s', w) ==> SameOwner(s, s', w) || (Place(s', w) in new_ && new_[Place(s', w)] == w) {
      SpawnOwner(s, o, p, program, stack, parts, w);
    }
    TiedMore(s, s', o, new_);
  }

  lemma SpawnHeap(s: Sys, o: Owners, p: nat, program: Program, stack: Word, parts: map<Part, nat>)
    requires Spawnable(s, o, p, program, stack, parts)
    ensures PoolBounds(s.hb, |s.heap|) && FreeCount(s.heap) >= DIRECTORY_BLOCKS && Tied(s, o) && Consistent(s, o)
  {
    hide WellFormed, TakeAll, SpawnMemory, Equipped, Batch;
  }

  /** The new process has its parts, and the others keep theirs. */
  lemma SpawnLoads(s: Sys, o: Owners, p: nat, program: Program, stack: Word, parts: map<Part, nat>)
    requires Spawnable(s, o, p, program, stack, parts)
    ensures LoadsRight(SpawnStep(s, p, program, stack, parts))
  {
    hide WellFormed, TakeAll, SpawnMemory, Batch, SpawnBlocks, FreeCount, ProgramFits, Tied, PagesRight, LoadRight;
    var s' := SpawnStep(s, p, program, stack, parts);
    assert Equipped(s, program, stack, parts);
    forall b | b in s.chains && s.chains[b].holder.Of? ensures s'.chains[b] == s.chains[b] {
      assert s.chains[b].part in parts ==> parts[s.chains[b].part] != b;
    }
    forall p' | p' in s'.procs ensures LoadRight(s'.hb, s'.chains, p', s'.procs[p']) {
      if p' == p {
        EquippedIsRight(s, p, program, stack, parts, s'.procs[p]);
      } else {
        LoadRightMore(s.hb, s.chains, s'.chains, p', s.procs[p']);
      }
    }
  }

  lemma EquippedIsRight(s: Sys, p: nat, program: Program, stack: Word, parts: map<Part, nat>, x: Process)
    requires Equipped(s, program, stack, parts) && x.program == program && x.stack == stack && x.parts == parts
    ensures LoadRight(s.hb, Claim(s.chains, p, parts), p, x)
  {
    hide ProgramFits;
  }

  /** Program and stack leave the heap's pages alone. */
  lemma LoadedBelow(program: Program, stack: Word, limit: int, q: Page)
    requires ProgramBelow(program, limit) && STACK_VIRTUAL_END + STACK_SIZE <= PAGE_SIZE * limit && q >= limit
    ensures LoadedEntry(program, stack, q, MakeEntry(q, 5)) == MakeEntry(q, 5)
  {
    hide OnPage, TopAt;
    assert !ProgramMaps(program, q);
  }

  lemma OwnsExists(s: Sys, o: Owners, p: nat, q: Page)
    requires Consistent(s, o) && Owns(s.hb, s.heap, o, p, q)
    ensures p in s.procs
  {
    hide Consistent;
    OwnerOfBlock(s, o, q - s.hb);
  }

  lemma SpawnPage(s: Sys, o: Owners, p: nat, program: Program, stack: Word, parts: map<Part, nat>, p': nat, q: Page)
    requires Spawnable(s, o, p, program, stack, parts) && p' in SpawnStep(s, p, program, stack, parts).procs
    ensures Distinct(SpawnBlocks(s))
    ensures PageRight(SpawnStep(s, p, program, stack, parts), o + NewOwners(p, SpawnBlocks(s)), p', q)
  {
    hide Consistent, Live, TakeAll, SpawnMemory, FreeCount, WellFormed, Owns, LoadedEntry, Batch, Equipped, Entry, Tied;
    SpawnHeap(s, o, p, program, stack, parts);
    var s' := SpawnStep(s, p, program, stack, parts);
    SpawnLive(s, o, p, program, stack, parts);
    OwnsMore(s.hb, s.heap, s'.heap, o, NewOwners(p, SpawnBlocks(s)), p', q);
    if p' != p {
      KeepDirectories(s, s'.mem);
      PageOf(s, o, p', q);
      assert SameDirectory(s.mem, s'.mem, s.procs[p'].dir);
      assert Entry(s'.mem, s.procs[p'].dir, q) == Entry(s.mem, s.procs[p'].dir, q);
    } else {
      assert Entry(s'.mem, SpawnFrames(s)[0], q) == LoadedEntry(program, stack, q, MakeEntry(q, TASK_FLAGS));
      if Owns(s.hb, s.heap, o, p, q) { OwnsExists(s, o, p, q); }
      if q >= s.hb { EquippedBelow(s, program, stack, parts, q); }
    }
  }

  lemma EquippedBelow(s: Sys, program: Program, stack: Word, parts: map<Part, nat>, q: Page)
    requires Equipped(s, program, stack, parts) && q >= s.hb
    ensures LoadedEntry(program, stack, q, MakeEntry(q, 5)) == MakeEntry(q, 5)
  {
    hide ProgramRight, ProgramBelow, WritesInFile, LoadedEntry;
    LoadedBelow(program, stack, s.hb, q);
  }

  lemma SpawnRest(s: Sys, o: Owners, p: nat, program: Program, stack: Word, parts: map<Part, nat>)
    requires Spawnable(s, o, p, program, stack, parts)
    ensures LedgersRight(SpawnStep(s, p, program, stack, parts))
    ensures DirectoriesRight(SpawnStep(s, p, program, stack, parts))
  {
    hide Live, TakeAll, SpawnMemory, FreeCount, WellFormed, Batch, Equipped, Tied, LoadsRight, PagesRight,
      LoadedEntry, Entry;
    hide DirectoryOpen, LoadRight, ProgramFits, TableFrame, SlotRight, SpawnBlocks;
    KeepDirectories(s, SpawnStep(s, p, program, stack, parts).mem);
    EmptyIsRight();
  }

  lemma EmptyIsRight()
    ensures forall i | 0 <= i < MAX_ALLOCATIONS :: SlotRight(EmptySlots()[i])
  {
  }

  lemma SpawnKeeps(s: Sys, o: Owners, p: nat, program: Program, stack: Word, parts: map<Part, nat>)
    requires Spawnable(s, o, p, program, stack, parts)
    ensures Distinct(SpawnBlocks(s))
    ensures Consistent(SpawnStep(s, p, program, stack, parts), o + NewOwners(p, SpawnBlocks(s)))
  {
    hide Live, TakeAll, SpawnMemory, FreeCount, WellFormed, Spawnable, SpawnBlocks, Tied, LoadsRight, PageRight,
      LedgersRight, DirectoriesRight;
    SpawnHeap(s, o, p, program, stack, parts);
    SpawnLive(s, o, p, program, stack, parts);
    var s', o' := SpawnStep(s, p, program, stack, parts), o + NewOwners(p, SpawnBlocks(s));
    SpawnTied(s, o, p, program, stack, parts);
    SpawnLoads(s, o, p, program, stack, parts);
    SpawnRest(s, o, p, program, stack, parts);
    forall p', q: Page | p' in s'.procs ensures PageRight(s', o', p', q) {
      SpawnPage(s, o, p, program, stack, parts, p', q);
    }
  }

  // ---------------------------------------------------------------- the whole load

  function ProgramAt(f: File, base: Word): Program
    requires Loadable(f)
  {
    if f.ElfImage? then Elf(base, f.headers) else Binary(base, |f.bytes|)
  }

  /** Which allocation becomes which part of the process. */
  function PartsAt(f: File, ss: seq<nat>): map<Part, nat>
    requires Loadable(f) && |ss| == |Wanted(f)|
  {
    if f.ElfImage?
    then map[ProcessStruct := ss[0], ElfStruct := ss[1], Image := ss[2], UserStack := ss[3], TaskStruct := ss[4]]
    else map[ProcessStruct := ss[0], Image := ss[3], UserStack := ss[4], TaskStruct := ss[5]]
  }

  /** The program a load makes of the file. */
  ghost function LoadedProgram(s: Sys, f: File): Program
    requires Loadable(f) && PoolBounds(s.hb, |s.heap|) && Granted(s, Wanted(f))
  {
    ProgramAt(f, PAGE_SIZE * (s.hb + PartsAt(f, Spots(s, Wanted(f)))[Image]))
  }

  /** A load that gets all it asks for, of a file none of whose headers wraps, with its pages and the stack window
      below the heap. */
  ghost predicate LoadMappable(s: Sys, p: nat, f: File) {
    && p !in s.procs && Loadable(f) && PoolBounds(s.hb, |s.heap|) && STACK_VIRTUAL_END + STACK_SIZE <= PAGE_SIZE * s.hb
    && Granted(s, Wanted(f)) && FreeCount(Taken(s, Wanted(f)).heap) >= DIRECTORY_BLOCKS
    && (f.ElfImage? ==> ImageMappable(LoadedProgram(s, f).elfMemory, f.headers))
    && ProgramBelow(LoadedProgram(s, f), s.hb)
  }

  /** ... and whose writeable pages lie in the file. */
  ghost predicate LoadGranted(s: Sys, p: nat, f: File) {
    LoadMappable(s, p, f) && WritesInFile(LoadedProgram(s, f), PagesOf(|f.bytes|))
  }

  ghost function LoadStep(s: Sys, p: nat, f: File): Sys
    requires LoadMappable(s, p, f)
  {
    var ws := Wanted(f);
    var parts := PartsAt(f, Spots(s, ws));
    SpawnStep(Taken(s, ws), p, LoadedProgram(s, f), PAGE_SIZE * (s.hb + parts[UserStack]), parts)
  }

  /** The allocation that becomes part `k`. */
  lemma PartFound(f: File, ss: seq<nat>, k: Part) returns (j: nat)
    requires Loadable(f) && |ss| == |Wanted(f)| && k in PartsAt(f, ss)
    ensures j < |ss| && PartsAt(f, ss)[k] == ss[j] && Wanted(f)[j].part == k
    ensures k.Image? ==> Wanted(f)[j].size == |f.bytes|
    ensures k.UserStack? ==> Wanted(f)[j].size == STACK_SIZE
  {
    var n := |Wanted(f)|;
    j := if k.ProcessStruct? then 0 else if k.ElfStruct? then 1 else if k.Image? then n - 3
         else if k.UserStack? then n - 2 else n - 1;
  }

  lemma PartsAre(f: File, ss: seq<nat>, base: Word)
    requires Loadable(f) && |ss| == |Wanted(f)|
    ensures PartsAt(f, ss).Keys == PartsOf(ProgramAt(f, base))
    ensures Image in PartsAt(f, ss) && UserStack in PartsAt(f, ss)
  {
  }

  /** A load's program can be mapped, and so can its stack. */
  lemma LoadIsRight(s: Sys, o: Owners, p: nat, f: File)
    requires Consistent(s, o) && LoadMappable(s, p, f)
    ensures ProgramRight(LoadedProgram(s, f))
    ensures UserStack in PartsAt(f, Spots(s, Wanted(f)))
    ensures StackRight(PAGE_SIZE * (s.hb + PartsAt(f, Spots(s, Wanted(f)))[UserStack]))
  {
    hide Consistent, Taken, Spots, Granted, FreeCount, Wanted, PartsAt, Collected, ImageMappable, ProgramBelow, Blocks,
      PagesOf;
    var ws := Wanted(f);
    var o1 := TakenKeeps(s, o, ws);
    var s1, ss := Taken(s, ws), Spots(s, ws);
    PartsAre(f, ss, 0);
    var i := PartFound(f, ss, Image);
    var j := PartFound(f, ss, UserStack);
    CollectedAt(s, s1, ws, ss, i);
    CollectedAt(s, s1, ws, ss, j);
    ChainInPool(s1, o1, ss[i]);
    ChainInPool(s1, o1, ss[j]);
    BlocksExact(STACK_SIZE);
    FilePages(|f.bytes|);
    if f.FlatImage? { FlatIsRight(s.hb, |s.heap|, ss[i], |f.bytes|); }
  }

  lemma CollectedAt(s: Sys, s': Sys, ws: seq<Want>, ss: seq<nat>, j: nat)
    requires Collected(s, s', ws, ss) && j < |ws|
    ensures j < |ss| && ss[j] in s'.chains && s'.chains[ss[j]] == Chain(Blocks(ws[j].size), ws[j].part, Loose)
    ensures s'.hb == s.hb && |s'.heap| == |s.heap|
  {
    hide Blocks;
  }

  lemma FlatIsRight(hb: int, blocks: nat, b: nat, size: Size)
    requires PoolBounds(hb, blocks) && b + PagesOf(size) <= blocks
    ensures BinaryRight(PAGE_SIZE * (hb + b), size)
  {
  }

  lemma LoadEquips(s: Sys, s': Sys, f: File, ss: seq<nat>)
    requires Loadable(f) && STACK_VIRTUAL_END + STACK_SIZE <= PAGE_SIZE * s.hb && Collected(s, s', Wanted(f), ss)
    requires PoolBounds(s.hb, |s.heap|) && forall j | 0 <= j < |ss| :: ss[j] < |s.heap|
    requires Image in PartsAt(f, ss)
    requires ProgramFits(ProgramAt(f, PAGE_SIZE * (s.hb + PartsAt(f, ss)[Image])), PagesOf(|f.bytes|), s.hb)
    ensures UserStack in PartsAt(f, ss)
    ensures var parts := PartsAt(f, ss);
            && parts[Image] < |s.heap| && parts[UserStack] < |s.heap|
            && Equipped(s', ProgramAt(f, PAGE_SIZE * (s.hb + parts[Image])), PAGE_SIZE * (s.hb + parts[UserStack]),
                        parts)
  {
    hide Blocks, ProgramFits, PagesOf, Wanted, PartsAt, PartsOf;
    var parts := PartsAt(f, ss);
    PartsAre(f, ss, 0);
    var i := PartFound(f, ss, Image);
    var j := PartFound(f, ss, UserStack);
    PartsAre(f, ss, PAGE_SIZE * (s.hb + parts[Image]));
    BlocksExact(STACK_SIZE);
    FilePages(|f.bytes|);
    forall k | k in parts
      ensures parts[k] in s'.chains && s'.chains[parts[k]].part == k && s'.chains[parts[k]].holder.Loose?
    {
      var l := PartFound(f, ss, k);
    }
  }

  lemma FilePages(size: Size)
    ensures Blocks(size) == PagesOf(size)
  {
    BlocksExact(size);
  }

  /** What a load makes of the state once its allocations are taken. */
  lemma LoadSpawns(s: Sys, o: Owners, p: nat, f: File) returns (o': Owners, parts: map<Part, nat>, stack: Word)
    requires Consistent(s, o) && LoadGranted(s, p, f)
    ensures Collected(s, Taken(s, Wanted(f)), Wanted(f), Spots(s, Wanted(f)))
    ensures Consistent(Taken(s, Wanted(f)), o')
    ensures Spawnable(Taken(s, Wanted(f)), o', p, LoadedProgram(s, f), stack, parts)
    ensures LoadStep(s, p, f) == SpawnStep(Taken(s, Wanted(f)), p, LoadedProgram(s, f), stack, parts)
  {
    hide Consistent, SpawnStep, Taken, Spots, Granted, FreeCount, Wanted, Equipped, Spawnable, PartsAt, ProgramAt,
      ProgramRight, ProgramBelow, WritesInFile, Collected;
    ConsistentHeap(s, o);
    var ws := Wanted(f);
    LoadIsRight(s, o, p, f);
    o' := TakenKeeps(s, o, ws);
    var s1, ss := Taken(s, ws), Spots(s, ws);
    parts := PartsAt(f, ss);
    PartsAre(f, ss, 0);
    LoadEquips(s, s1, f, ss);
    stack := PAGE_SIZE * (s.hb + parts[UserStack]);
    SpawnableAt(s1, o', p, LoadedProgram(s, f), stack, parts);
  }

  /** Loading a program keeps the invariant. */
  lemma LoadKeeps(s: Sys, o: Owners, p: nat, f: File) returns (o': Owners)
    requires Consistent(s, o) && LoadGranted(s, p, f)
    ensures Consistent(LoadStep(s, p, f), o')
  {
    hide Consistent, SpawnStep, Taken, Spots, Granted, Wanted, Spawnable, LoadStep, ProgramBelow, WritesInFile,
      FreeCount, ImageMappable, Collected, PartsAt, ProgramAt;
    var o1, parts, stack := LoadSpawns(s, o, p, f);
    SpawnKeeps(Taken(s, Wanted(f)), o1, p, LoadedProgram(s, f), stack, parts);
    o' := o1 + NewOwners(p, SpawnBlocks(Taken(s, Wanted(f))));
  }

  /** The pages that process `p` can write, but for its stack window, lead into its image. */
  ghost predicate WritesOwnImage(s: Sys, p: nat) {
    && p in s.procs && Image in s.procs[p].parts && s.procs[p].parts[Image] in s.chains
    && var b := s.procs[p].parts[Image];
       forall q: Page | UserMayWrite(s.mem, s.procs[p].dir, q) && !OnStack(q) ::
         InBlocks(PAGE_SIZE * (s.hb + b), s.chains[b].blocks, FrameOf(Entry(s.mem, s.procs[p].dir, q)))
  }

  /** The condition of `LoadGranted` is exact: of all loads whose file can be mapped, those with their writeable
      pages in the file are the ones after which the process can write nothing but its image and its stack. */
  lemma LoadIsConfined(s: Sys, o: Owners, p: nat, f: File)
    requires Consistent(s, o) && LoadMappable(s, p, f)
    ensures WritesOwnImage(LoadStep(s, p, f), p) <==> LoadGranted(s, p, f)
  {
    hide Consistent, Taken, Spots, Granted, FreeCount, Wanted, ProgramRight, ProgramBelow, WritesInFile, Collected,
      SpawnMemory, TakeAll, UserMayWrite, LoadedEntry, InBlocks, OnStack, PartsAt, Blocks, PagesOf, ProgramAt;
    ConsistentHeap(s, o);
    var ws, program := Wanted(f), LoadedProgram(s, f);
    LoadIsRight(s, o, p, f);
    var o1 := TakenKeeps(s, o, ws);
    var s1, ss, s' := Taken(s, ws), Spots(s, ws), LoadStep(s, p, f);
    PartsAre(f, ss, 0);
    var stack := PAGE_SIZE * (s.hb + PartsAt(f, ss)[UserStack]);
    var fs := SpawnFrames(s1);
    ConsistentHeap(s1, o1);
    BatchOfTake(s1.heap, s1.hb);
    SpawnMemoryFresh(s1.mem, fs, program, stack);
    var i := PartFound(f, ss, Image);
    CollectedAt(s, s1, ws, ss, i);
    FilePages(|f.bytes|);
    forall q: Page
      ensures UserMayWrite(s'.mem, fs[0], q) && !OnStack(q) <==> ProgramWrites(program, q) && !OnStack(q)
      ensures UserMayWrite(s'.mem, fs[0], q) && !OnStack(q) ==>
                FrameOf(Entry(s'.mem, fs[0], q)) == ProgramFrame(program, q)
    {
      OpenDirectory(s'.mem, fs[0], q);
      FlagsDecide(q);
      LoadedWrites(program, stack, q, MakeEntry(q, TASK_FLAGS), Entry(s'.mem, fs[0], q));
    }
    ProgramBase(f, PAGE_SIZE * (s.hb + ss[i]));
    WritesInFileIs(program, PagesOf(|f.bytes|));
  }

  lemma ProgramBase(f: File, base: Word)
    requires Loadable(f)
    ensures ImageBase(ProgramAt(f, base)) == base
  {
  }

  lemma WritesInFileIs(program: Program, blocks: nat)
    ensures WritesInFile(program, blocks) <==>
            forall q: Page | ProgramWrites(program, q) && !OnStack(q) ::
              InBlocks(ImageBase(program), blocks, ProgramFrame(program, q))
  {
  }
}
