/**
  Several processes over one heap: every run of loading, allocating, freeing, storing and terminating.

  The heap's chains are tied to their holders by a map from blocks to owners that inverts the owners'
  places. One inverse map gives disjointness of everything the kernel keeps: ledger entries of all
  processes, their images, stacks and structures, page tables, directories and chunks.
*/
module Isolation {
  import opened Words
  import opened HeapTable
  import opened HeapRuns
  import opened PhysicalMemory
  import opened PageTable
  import opened Directory
  import opened Ledger
  import opened ImageMap

  /** What the kernel allocates for a process besides its directory. A file is first read as an ELF image;
      if it is none, the copy read is not used again. */
  datatype Part = ProcessStruct | ElfStruct | ElfCopy | Image | UserStack | TaskStruct

  datatype Holder = Of(pid: nat) | Loose

  /** A chain the kernel took for a part of a process. A loose one is held by no process: it is in the hands of
      a load that is under way, or nobody points to it any more. */
  datatype Chain = Chain(blocks: nat, part: Part, holder: Holder)

  datatype Process =
    Process(dir: Frame, chunk: Frame, slots: Slots, program: Program, stack: Word, parts: map<Part, nat>)

  datatype Sys = Sys(hb: int, heap: Table, mem: Memory, procs: map<nat, Process>, chains: map<nat, Chain>)

  /** Who may hold a chain of the heap. */
  datatype Owner =
    | OwnDirectory(pid: nat)
    | OwnChunk(pid: nat)
    | OwnTable(pid: nat, table: Index)
    | OwnSlot(pid: nat, slot: nat)
    | OwnChain(block: nat)

  type Owners = map<int, Owner>

  const STACK_BLOCKS := 4

  // ---------------------------------------------------------------- the invariant

  /** The part of the kernel that translation depends on. */
  predicate IsMeta(w: Owner) { w.OwnDirectory? || w.OwnChunk? || w.OwnTable? }

  ghost predicate Exists(s: Sys, w: Owner) {
    match w
    case OwnChain(b) => b in s.chains
    case OwnSlot(p, i) => p in s.procs && i < MAX_ALLOCATIONS && s.procs[p].slots[i].ptr != 0
    case _ => w.pid in s.procs
  }

  ghost function OwnedFrame(s: Sys, w: Owner): Frame
    requires Exists(s, w) && !w.OwnChain?
  {
    match w
    case OwnDirectory(p) => s.procs[p].dir
    case OwnChunk(p) => s.procs[p].chunk
    case OwnTable(p, i) => TableFrame(s.mem, s.procs[p].dir, i)
    case OwnSlot(p, i) => s.procs[p].slots[i].ptr / PAGE_SIZE
  }

  /** The heap block where an owner's chain starts. */
  ghost function Place(s: Sys, w: Owner): int
    requires Exists(s, w)
  {
    if w.OwnChain? then w.block else OwnedFrame(s, w) - s.hb
  }

  ghost function Extent(s: Sys, w: Owner): nat
    requires Exists(s, w)
  {
    match w
    case OwnSlot(p, i) => Blocks(s.procs[p].slots[i].size)
    case OwnChain(b) => s.chains[b].blocks
    case _ => 1
  }

  ghost predicate SlotRight(x: Slot) {
    x.ptr != 0 ==> x.ptr % PAGE_SIZE == 0 && 0 < x.size <= 0x1_0000_0000 - PAGE_SIZE
  }

  ghost predicate LedgersRight(s: Sys) {
    forall p, i | p in s.procs && 0 <= i < MAX_ALLOCATIONS :: SlotRight(s.procs[p].slots[i])
  }

  /** Owners have places of their own. */
  ghost predicate Placed(s: Sys, o: Owners) {
    forall w | Exists(s, w) :: Place(s, w) in o && o[Place(s, w)] == w
  }

  /** Each owner's place is a live chain of the owner's extent. */
  ghost predicate Held(s: Sys) {
    forall w | Exists(s, w) :: Place(s, w) in Live(s.heap) && Live(s.heap)[Place(s, w)] == Extent(s, w)
  }

  /** Each live chain is some owner's. */
  ghost predicate Tight(s: Sys, o: Owners) {
    forall b | b in Live(s.heap) :: b in o && Exists(s, o[b]) && Place(s, o[b]) == b
  }

  /** Owners and live chains are the same. */
  ghost predicate Tied(s: Sys, o: Owners) { Placed(s, o) && Held(s) && Tight(s, o) }

  /** Chunks point to directories, whose words leave it to the tables which pages can be written. */
  ghost predicate DirectoriesRight(s: Sys) {
    forall p | p in s.procs ::
      && Cell(s.mem, s.procs[p].chunk, 0) == PAGE_SIZE * s.procs[p].dir
      && DirectoryOpen(s.mem, s.procs[p].dir)
  }

  function PartsOf(program: Program): set<Part> {
    {ProcessStruct, Image, UserStack, TaskStruct} + if program.Elf? then {ElfStruct} else {}
  }

  /** The parts of process `p` are chains it holds; image and stack are where the program and the stack
      pointer say, and the program's pages lie in the image and below the heap. */
  ghost predicate LoadRight(hb: int, chains: map<nat, Chain>, p: nat, x: Process) {
    && x.parts.Keys == PartsOf(x.program)
    && (forall k | k in x.parts ::
          x.parts[k] in chains && chains[x.parts[k]].part == k && chains[x.parts[k]].holder == Of(p))
    && x.stack == PAGE_SIZE * (hb + x.parts[UserStack]) && chains[x.parts[UserStack]].blocks == STACK_BLOCKS
    && ImageBase(x.program) == PAGE_SIZE * (hb + x.parts[Image])
    && ProgramFits(x.program, chains[x.parts[Image]].blocks, hb)
    && STACK_VIRTUAL_END + STACK_SIZE <= PAGE_SIZE * hb
  }

  /** Parts and holders agree, in both directions. */
  ghost predicate LoadsRight(s: Sys) {
    && (forall p | p in s.procs :: LoadRight(s.hb, s.chains, p, s.procs[p]))
    && (forall b | b in s.chains && s.chains[b].holder.Of? ::
          var Chain(_, k, Of(p)) := s.chains[b]; p in s.procs && k in s.procs[p].parts && s.procs[p].parts[k] == b)
  }

  /** Page `q` lies in a live allocation of process `p`. */
  ghost predicate Owns(hb: int, t: Table, o: Owners, p: nat, q: Page) {
    && hb <= q < hb + |t|
    && !IsFree(t[q - hb])
    && HeadOf(t, q - hb) in o
    && o[HeadOf(t, q - hb)].OwnSlot?
    && o[HeadOf(t, q - hb)].pid == p
  }

  /** Below the heap, entries are those of program and stack over a read-only identity. From the heap on they
      are identities: writeable exactly in the process's live allocations, otherwise read-only or not
      present. */
  ghost predicate PageRight(s: Sys, o: Owners, p: nat, q: Page)
    requires p in s.procs
  {
    var e := Entry(s.mem, s.procs[p].dir, q);
    if q < s.hb then e == LoadedEntry(s.procs[p].program, s.procs[p].stack, q, MakeEntry(q, 5))
    else if Owns(s.hb, s.heap, o, p, q) then e == MakeEntry(q, USER_FLAGS)
    else e == MakeEntry(q, 5) || e == MakeEntry(q, 0)
  }

  ghost predicate PagesRight(s: Sys, o: Owners) {
    forall p, q: Page | p in s.procs :: PageRight(s, o, p, q)
  }

  ghost predicate Consistent(s: Sys, o: Owners) {
    && PoolBounds(s.hb, |s.heap|) && WellFormed(s.heap) && Tied(s, o)
    && LedgersRight(s) && LoadsRight(s) && DirectoriesRight(s) && PagesRight(s, o)
  }

  lemma ConsistentHeap(s: Sys, o: Owners)
    requires Consistent(s, o)
    ensures PoolBounds(s.hb, |s.heap|) && WellFormed(s.heap) && Tied(s, o) && Placed(s, o)
  {
  }

  // ---------------------------------------------------------------- owners under changes of the heap

  /** The owner holds the same chain in both states. */
  ghost predicate SameOwner(s: Sys, s': Sys, w: Owner) {
    Exists(s, w) && Exists(s', w) && Place(s', w) == Place(s, w) && Extent(s', w) == Extent(s, w)
  }

  lemma TiedSame(s: Sys, s': Sys, o: Owners)
    requires Tied(s, o) && Live(s'.heap) == Live(s.heap)
    requires forall w | Exists(s, w) || Exists(s', w) :: SameOwner(s, s', w)
    ensures Tied(s', o)
  {
    hide Live, Exists, Place, Extent;
    forall w | Exists(s', w)
      ensures Place(s', w) in o && o[Place(s', w)] == w
      ensures Place(s', w) in Live(s'.heap) && Live(s'.heap)[Place(s', w)] == Extent(s', w)
    {
      assert SameOwner(s, s', w);
    }
    forall b | b in Live(s'.heap) ensures b in o && Exists(s', o[b]) && Place(s', o[b]) == b {
      assert SameOwner(s, s', o[b]);
    }
  }

  /** A new owner takes a chain that was not there. */
  lemma TiedAdd(s: Sys, s': Sys, o: Owners, b: nat, v: Owner)
    requires Tied(s, o) && !Exists(s, v) && Exists(s', v) && Place(s', v) == b && b !in Live(s.heap)
    requires Live(s'.heap) == Live(s.heap)[b := Extent(s', v)]
    requires forall w | w != v && (Exists(s, w) || Exists(s', w)) :: SameOwner(s, s', w)
    ensures Tied(s', o[b := v])
  {
    hide Live, Exists, Place, Extent;
    var o' := o[b := v];
    forall w | Exists(s', w)
      ensures Place(s', w) in o' && o'[Place(s', w)] == w
      ensures Place(s', w) in Live(s'.heap) && Live(s'.heap)[Place(s', w)] == Extent(s', w)
    {
      if w != v {
        assert SameOwner(s, s', w);
        assert Place(s, w) in Live(s.heap);
      }
    }
    forall c | c in Live(s'.heap) ensures c in o' && Exists(s', o'[c]) && Place(s', o'[c]) == c {
      if c != b {
        assert c in Live(s.heap);
        assert SameOwner(s, s', o[c]);
      }
    }
  }

  /** New owners take chains that were not there. */
  lemma TiedMore(s: Sys, s': Sys, o: Owners, new_: map<nat, Owner>)
    requires Tied(s, o) && Live(s'.heap).Keys == Live(s.heap).Keys + new_.Keys
    requires forall b | b in Live(s.heap) :: b !in new_ && Live(s'.heap)[b] == Live(s.heap)[b]
    requires forall b | b in new_ ::
               Exists(s', new_[b]) && Place(s', new_[b]) == b && Extent(s', new_[b]) == Live(s'.heap)[b]
    requires forall w | Exists(s, w) :: SameOwner(s, s', w)
    requires forall w | Exists(s', w) :: SameOwner(s, s', w) || (Place(s', w) in new_ && new_[Place(s', w)] == w)
    ensures Tied(s', o + new_)
  {
    hide Live, Exists, Place, Extent;
    var o' := o + new_;
    forall w | Exists(s', w)
      ensures Place(s', w) in o' && o'[Place(s', w)] == w
      ensures Place(s', w) in Live(s'.heap) && Live(s'.heap)[Place(s', w)] == Extent(s', w)
    {
      if SameOwner(s, s', w) {
        assert Place(s, w) in Live(s.heap);
      }
    }
    forall c | c in Live(s'.heap) ensures c in o' && Exists(s', o'[c]) && Place(s', o'[c]) == c {
      if c !in new_ {
        assert c in Live(s.heap) && SameOwner(s, s', o[c]);
      }
    }
  }

  /** Owners go with their chains. */
  lemma TiedDrop(s: Sys, s': Sys, o: Owners, gone: set<nat>)
    requires Tied(s, o) && Live(s'.heap) == Live(s.heap) - gone
    requires forall w | Exists(s', w) :: SameOwner(s, s', w) && Place(s, w) !in gone
    requires forall w | Exists(s, w) && Place(s, w) !in gone :: Exists(s', w)
    ensures Tied(s', o - gone)
  {
    hide Live, Exists, Place, Extent;
    var o' := o - gone;
    forall w | Exists(s', w)
      ensures Place(s', w) in o' && o'[Place(s', w)] == w
      ensures Place(s', w) in Live(s'.heap) && Live(s'.heap)[Place(s', w)] == Extent(s', w)
    {
      assert SameOwner(s, s', w) && Place(s, w) in Live(s.heap);
    }
    forall c | c in Live(s'.heap) ensures c in o' && Exists(s', o'[c]) && Place(s', o'[c]) == c {
      assert c in Live(s.heap) && SameOwner(s, s', o[c]);
    }
  }

  // ---------------------------------------------------------------- directories under writes

  /** Frames of page tables, directories and chunks. */
  ghost predicate MetaKept(s: Sys, m: Memory) {
    forall w | Exists(s, w) && IsMeta(w) :: SameFrame(s.mem, m, OwnedFrame(s, w))
  }

  /** Writes that spare the kernel's frames change no translation of any process. */
  lemma KeepDirectories(s: Sys, m: Memory)
    requires MetaKept(s, m)
    ensures forall p | p in s.procs :: SameDirectory(s.mem, m, s.procs[p].dir)
    ensures forall p | p in s.procs :: Cell(m, s.procs[p].chunk, 0) == Cell(s.mem, s.procs[p].chunk, 0)
    ensures forall p | p in s.procs && DirectoryOpen(s.mem, s.procs[p].dir) :: DirectoryOpen(m, s.procs[p].dir)
  {
    forall p | p in s.procs
      ensures SameDirectory(s.mem, m, s.procs[p].dir)
      ensures Cell(m, s.procs[p].chunk, 0) == Cell(s.mem, s.procs[p].chunk, 0)
    {
      assert Exists(s, OwnDirectory(p)) && Exists(s, OwnChunk(p));
      assert OwnedFrame(s, OwnDirectory(p)) == s.procs[p].dir && OwnedFrame(s, OwnChunk(p)) == s.procs[p].chunk;
      forall i: Index ensures SameFrame(s.mem, m, TableFrame(s.mem, s.procs[p].dir, i)) {
        assert Exists(s, OwnTable(p, i)) && OwnedFrame(s, OwnTable(p, i)) == TableFrame(s.mem, s.procs[p].dir, i);
      }
      SameFramesSameDirectory(s.mem, m, s.procs[p].dir);
    }
  }

  lemma OwnersDiffer(s: Sys, o: Owners, v: Owner, w: Owner)
    requires Placed(s, o) && Exists(s, v) && Exists(s, w) && v != w
    ensures Place(s, v) != Place(s, w)
  {
    assert o[Place(s, v)] == v && o[Place(s, w)] == w;
  }

  lemma DirectoryValid(s: Sys, o: Owners, p: nat)
    requires Placed(s, o) && p in s.procs
    ensures ValidDirectory(s.mem, s.procs[p].dir)
  {
    var d := s.procs[p].dir;
    forall i: Index ensures TableFrame(s.mem, d, i) != d {
      OwnersDiffer(s, o, OwnTable(p, i), OwnDirectory(p));
    }
    forall i: Index, j: Index | i < j ensures TableFrame(s.mem, d, i) != TableFrame(s.mem, d, j) {
      OwnersDiffer(s, o, OwnTable(p, i), OwnTable(p, j));
    }
  }

  /** Remapping pages of one process moves no table and no chunk of any process and closes no directory. */
  lemma RemapEffect(s: Sys, o: Owners, p: nat, q0: Page, n: nat, flags: Flags)
    requires Placed(s, o) && p in s.procs && q0 + n <= FRAMES
    ensures var m := MapPages(s.mem, s.procs[p].dir, q0, q0, n, flags);
            && (forall p', i: Index | p' in s.procs ::
                  TableFrame(m, s.procs[p'].dir, i) == TableFrame(s.mem, s.procs[p'].dir, i))
            && (forall p' | p' in s.procs :: Cell(m, s.procs[p'].chunk, 0) == Cell(s.mem, s.procs[p'].chunk, 0))
            && (forall p' | p' in s.procs && DirectoryOpen(s.mem, s.procs[p'].dir) :: DirectoryOpen(m, s.procs[p'].dir))
  {
    var d := s.procs[p].dir;
    var m := MapPages(s.mem, d, q0, q0, n, flags);
    DirectoryValid(s, o, p);
    MapPagesEffect(s.mem, d, q0, q0, n, flags);
    forall p' | p' in s.procs
      ensures Cell(m, s.procs[p'].chunk, 0) == Cell(s.mem, s.procs[p'].chunk, 0)
      ensures p' != p ==> SameDirectory(s.mem, m, s.procs[p'].dir)
    {
      NotATable(s, o, p, OwnChunk(p'));
      assert SameFrame(s.mem, m, s.procs[p'].chunk);
      if p' != p { RemapOther(s, o, p, q0, n, flags, p'); }
    }
    assert SameFrame(s.mem, m, d);
  }

  /** ... and leaves the directories of all other processes alone. */
  lemma RemapOther(s: Sys, o: Owners, p: nat, q0: Page, n: nat, flags: Flags, p': nat)
    requires Placed(s, o) && p in s.procs && q0 + n <= FRAMES && p' in s.procs && p' != p
    ensures SameDirectory(s.mem, MapPages(s.mem, s.procs[p].dir, q0, q0, n, flags), s.procs[p'].dir)
  {
    var d := s.procs[p].dir;
    var m := MapPages(s.mem, d, q0, q0, n, flags);
    DirectoryValid(s, o, p);
    MapPagesEffect(s.mem, d, q0, q0, n, flags);
    NotATable(s, o, p, OwnDirectory(p'));
    forall i: Index ensures SameFrame(s.mem, m, TableFrame(s.mem, s.procs[p'].dir, i)) {
      NotATable(s, o, p, OwnTable(p', i));
    }
    SameFramesSameDirectory(s.mem, m, s.procs[p'].dir);
  }

  /** The entries of all processes after remapping a range of one. */
  lemma RemapEntry(s: Sys, o: Owners, p: nat, q0: Page, n: nat, flags: Flags, p': nat, q: Page)
    requires Placed(s, o) && p in s.procs && q0 + n <= FRAMES && p' in s.procs
    ensures Entry(MapPages(s.mem, s.procs[p].dir, q0, q0, n, flags), s.procs[p'].dir, q)
            == if p' == p && q0 <= q < q0 + n then MakeEntry(q, flags) else Entry(s.mem, s.procs[p'].dir, q)
  {
    hide MapPages, Entry;
    if p' == p {
      DirectoryValid(s, o, p);
      MapPagesEffect(s.mem, s.procs[p].dir, q0, q0, n, flags);
      RangeNoWrap(q0, n, q);
    } else {
      RemapOther(s, o, p, q0, n, flags, p');
    }
  }

  lemma NotATable(s: Sys, o: Owners, p: nat, w: Owner)
    requires Placed(s, o) && p in s.procs && Exists(s, w) && IsMeta(w) && (w.OwnTable? ==> w.pid != p)
    ensures !IsTable(s.mem, s.procs[p].dir, OwnedFrame(s, w))
  {
    forall i: Index ensures TableFrame(s.mem, s.procs[p].dir, i) != OwnedFrame(s, w) {
      OwnersDiffer(s, o, OwnTable(p, i), w);
    }
  }

  // ---------------------------------------------------------------- chains under heap steps

  /** A block keeps its head while its chain stays. */
  lemma HeadStable(t: Table, u: Table, b: nat)
    requires WellFormed(t) && WellFormed(u) && |t| == |u| && b < |t| && !IsFree(t[b])
    requires HeadOf(t, b) in Live(t) && HeadOf(t, b) in Live(u) && Live(u)[HeadOf(t, b)] == Live(t)[HeadOf(t, b)]
    ensures !IsFree(u[b]) && HeadOf(u, b) == HeadOf(t, b)
  {
    HeadOfTaken(t, b);
    Partition(u, b, HeadOf(t, b));
  }

  /** A block of a chain leads to the chain's owner. */
  lemma BlockOfChain(s: Sys, o: Owners, w: Owner, b: int)
    requires Consistent(s, o) && Exists(s, w) && Place(s, w) <= b < Place(s, w) + Extent(s, w)
    ensures 0 <= b < |s.heap| && !IsFree(s.heap[b]) && HeadOf(s.heap, b) == Place(s, w)
    ensures Place(s, w) in o && o[Place(s, w)] == w
  {
    hide WellFormed, Live;
    var c := Place(s, w);
    assert c in Live(s.heap) && Live(s.heap)[c] == Extent(s, w);
    BlockIn(s.heap, c, b);
  }

  /** A taken block lies in the chain of an owner. */
  lemma OwnerOfBlock(s: Sys, o: Owners, b: nat)
    requires Consistent(s, o) && b < |s.heap| && !IsFree(s.heap[b])
    ensures HeadOf(s.heap, b) in o && Exists(s, o[HeadOf(s.heap, b)])
    ensures Place(s, o[HeadOf(s.heap, b)]) == HeadOf(s.heap, b)
    ensures HeadOf(s.heap, b) <= b < HeadOf(s.heap, b) + Extent(s, o[HeadOf(s.heap, b)])
  {
    hide WellFormed;
    HeadOfTaken(s.heap, b);
  }

  /** A kernel frame is the only block of its chain. */
  lemma MetaBlock(s: Sys, o: Owners, w: Owner)
    requires Consistent(s, o) && Exists(s, w) && IsMeta(w)
    ensures 0 <= Place(s, w) < |s.heap| && !IsFree(s.heap[Place(s, w)])
    ensures HeadOf(s.heap, Place(s, w)) == Place(s, w) && o[Place(s, w)] == w
  {
    hide Consistent;
    BlockOfChain(s, o, w, Place(s, w));
  }

  /** The frame of a block whose chain is not the kernel's own is none of the kernel's. */
  lemma NotMeta(s: Sys, o: Owners, f: Frame, w: Owner)
    requires Consistent(s, o) && Exists(s, w) && IsMeta(w)
    requires s.hb <= f < s.hb + |s.heap| && !IsFree(s.heap[f - s.hb]) ==>
               HeadOf(s.heap, f - s.hb) in o && !IsMeta(o[HeadOf(s.heap, f - s.hb)])
    ensures OwnedFrame(s, w) != f
  {
    hide Consistent;
    MetaBlock(s, o, w);
  }

  /** Who has pages in allocations after blocks were marked for `w`. */
  lemma OwnsMark(hb: int, t: Table, o: Owners, b: nat, n: nat, w: Owner, p: nat, q: Page)
    requires WellFormed(t) && n >= 1 && b + n <= |t| && FreeRun(t, b, n) && b !in Live(t)
    requires WellFormed(MarkTaken(t, b, n)) && Live(MarkTaken(t, b, n)) == Live(t)[b := n]
    ensures Owns(hb, MarkTaken(t, b, n), o[b := w], p, q)
            <==> (w.OwnSlot? && w.pid == p && hb + b <= q < hb + b + n) || Owns(hb, t, o, p, q)
    ensures hb + b <= q < hb + b + n ==> !Owns(hb, t, o, p, q)
  {
    hide WellFormed, Live, IsFree;
    var u := MarkTaken(t, b, n);
    if hb <= q < hb + |t| {
      var c := q - hb;
      if b <= c < b + n {
        Partition(u, c, b);
      } else if !IsFree(t[c]) {
        HeadOfTaken(t, c);
        assert HeadOf(t, c) != b;
        HeadStable(t, u, c);
      }
    }
  }

  /** ... after chains were taken by others than ledgers ... */
  lemma OwnsMore(hb: int, t: Table, u: Table, o: Owners, new_: map<nat, Owner>, p: nat, q: Page)
    requires WellFormed(t) && WellFormed(u) && |t| == |u| && Live(u).Keys == Live(t).Keys + new_.Keys
    requires forall b | b in Live(t) :: b !in new_ && Live(u)[b] == Live(t)[b]
    requires forall b | b in new_ :: !new_[b].OwnSlot?
    ensures Owns(hb, u, o + new_, p, q) <==> Owns(hb, t, o, p, q)
  {
    hide WellFormed, Live, IsFree, HeadOf;
    if hb <= q < hb + |t| {
      var c := q - hb;
      if !IsFree(t[c]) {
        HeadOfTaken(t, c);
        HeadStable(t, u, c);
      } else if !IsFree(u[c]) {
        HeadOfTaken(u, c);
        if HeadOf(u, c) !in new_ { HeadStable(u, t, c); }
      }
    }
  }

  /** ... and after chains were freed. */
  lemma OwnsFree(hb: int, t: Table, u: Table, o: Owners, gone: set<nat>, p: nat, q: Page)
    requires WellFormed(t) && WellFormed(u) && |t| == |u| && Live(u) == Live(t) - gone
    requires forall b | b in gone :: b in Live(t)
    ensures Owns(hb, u, o - gone, p, q) <==>
            Owns(hb, t, o, p, q) && HeadOf(t, q - hb) !in gone
  {
    hide WellFormed, Live, IsFree;
    if hb <= q < hb + |t| {
      var c := q - hb;
      if !IsFree(t[c]) {
        HeadOfTaken(t, c);
        if HeadOf(t, c) !in gone { HeadStable(t, u, c); }
      }
      if !IsFree(u[c]) {
        HeadOfTaken(u, c);
        HeadStable(u, t, c);
      }
    }
  }
}
