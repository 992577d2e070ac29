/**
  process_terminate: the release of a process's allocations, its program, its stack, its directory and its
  task. Nothing frees the process structure itself.
*/
module IsolationLifetime {
  import opened Words
  import opened HeapTable
  import opened HeapRuns
  import opened PhysicalMemory
  import opened PageTable
  import opened Directory
  import opened Ledger
  import opened ImageMap
  import opened Isolation
  import opened IsolationSteps

  // ---------------------------------------------------------------- process_terminate_allocations

  ghost function TerminateStep(s: Sys, p: nat, n: nat): Sys
    requires PoolBounds(s.hb, |s.heap|) && p in s.procs && InPoolSlots(s.hb, |s.heap|, s.procs[p].slots)
    requires n <= MAX_ALLOCATIONS
  {
    var x := s.procs[p];
    var r := TerminateSpec(s.hb, s.heap, s.mem, x.dir, x.slots, n);
    s.(heap := r.table, mem := r.mem, procs := s.procs[p := x.(slots := r.slots)])
  }

  lemma SlotsInPool(s: Sys, o: Owners, p: nat)
    requires Consistent(s, o) && p in s.procs
    ensures InPoolSlots(s.hb, |s.heap|, s.procs[p].slots)
  {
    hide Consistent, WellFormed, Live;
    forall i | 0 <= i < MAX_ALLOCATIONS && s.procs[p].slots[i].ptr != 0
      ensures s.hb <= s.procs[p].slots[i].ptr / PAGE_SIZE && SlotRight(s.procs[p].slots[i])
      ensures s.procs[p].slots[i].ptr / PAGE_SIZE + Blocks(s.procs[p].slots[i].size) <= s.hb + |s.heap|
    {
      SlotOwner(s, o, p, i);
      ReleasableAt(s, o, p, i);
    }
  }

  /** The loop of process_terminate_allocations keeps the invariant and empties the slots it has passed;
      slots only ever become empty, and no other process, chain or translation changes. */
  lemma {:induction false} TerminateKeeps(s: Sys, o: Owners, p: nat, n: nat) returns (o': Owners)
    requires Consistent(s, o) && p in s.procs && n <= MAX_ALLOCATIONS
    ensures PoolBounds(s.hb, |s.heap|) && InPoolSlots(s.hb, |s.heap|, s.procs[p].slots)
    ensures Consistent(TerminateStep(s, p, n), o')
    ensures forall i | 0 <= i < n :: TerminateStep(s, p, n).procs[p].slots[i].ptr == 0
    ensures Untouched(s, TerminateStep(s, p, n), p)
  {
    hide Consistent, FreeChain, MapPages, Unjoin, ProcessFreeSpec, Untouched;
    ConsistentHeap(s, o);
    SlotsInPool(s, o, p);
    if n == 0 {
      o' := o;
      assert s.procs[p := s.procs[p].(slots := s.procs[p].slots)] == s.procs;
      UntouchedSelf(s, p);
    } else {
      o' := TerminateKeeps(s, o, p, n - 1);
      var s' := TerminateStep(s, p, n - 1);
      var ptr := s'.procs[p].slots[n - 1].ptr;
      if ptr != 0 {
        var i;
        o', i := FreeOne(s', o', p, n - 1);
        assert TerminateStep(s, p, n).procs == FreeStep(s', p, ptr).procs;
        assert TerminateStep(s, p, n) == FreeStep(s', p, ptr);
        UntouchedTrans(s, s', FreeStep(s', p, ptr), p);
      } else {
        assert TerminateStep(s, p, n) == s';
      }
    }
  }

  /** One turn of the loop, for a slot that is not empty. */
  lemma FreeOne(s: Sys, o: Owners, p: nat, j: nat) returns (o': Owners, i: nat)
    requires Consistent(s, o) && p in s.procs && j < MAX_ALLOCATIONS && s.procs[p].slots[j].ptr != 0
    ensures FindByAddr(s.procs[p].slots, s.procs[p].slots[j].ptr) >= 0 ==> s.procs[p].slots[j].ptr / PAGE_SIZE >= s.hb
    ensures var s' := FreeStep(s, p, s.procs[p].slots[j].ptr);
            && Consistent(s', o') && Untouched(s, s', p) && s'.procs[p].slots[j].ptr == 0
            && (forall l | 0 <= l < MAX_ALLOCATIONS && s.procs[p].slots[l].ptr == 0 :: s'.procs[p].slots[l].ptr == 0)
  {
    hide Consistent, FreeChain, MapPages, Unjoin, ProcessFreeSpec, Untouched, FreeStep, Release;
    ConsistentHeap(s, o);
    var ptr := s.procs[p].slots[j].ptr;
    FreeIsRelease(s, o, p, ptr);
    i := FindByAddr(s.procs[p].slots, ptr);
    SoleSlot(s, o, p, i, j);
    ReleaseKeeps(s, o, p, i);
    ReleaseEmpties(s, p, i);
    ReleaseUntouched(s, o, p, i);
    o' := o - {SlotBlock(s, p, i)};
  }

  lemma UntouchedSelf(s: Sys, p: nat)
    ensures Untouched(s, s, p)
  {
  }

  /** Apart from the ledger and the page tables of process `p`, processes, chains, translations and memory are the
      same. */
  ghost predicate Untouched(s: Sys, s': Sys, p: nat) {
    && s'.hb == s.hb && |s'.heap| == |s.heap| && s'.chains == s.chains && s'.procs.Keys == s.procs.Keys
    && (p in s.procs ==> s'.procs[p] == s.procs[p].(slots := s'.procs[p].slots))
    && (p in s.procs ==> SameTables(s.mem, s'.mem, s.procs[p].dir))
    && (forall p' | p' in s.procs && p' != p :: s'.procs[p'] == s.procs[p'])
    && (forall p' | p' in s.procs && p' != p :: SameDirectory(s.mem, s'.mem, s.procs[p'].dir))
  }

  lemma UntouchedTrans(s: Sys, s': Sys, s'': Sys, p: nat)
    requires Untouched(s, s', p) && Untouched(s', s'', p)
    ensures Untouched(s, s'', p)
  {
    hide SameTables;
    if p in s.procs { SameTablesTrans(s.mem, s'.mem, s''.mem, s.procs[p].dir); }
    forall p' | p' in s.procs && p' != p ensures SameDirectory(s.mem, s''.mem, s.procs[p'].dir) {
      assert SameDirectory(s.mem, s'.mem, s.procs[p'].dir) && SameDirectory(s'.mem, s''.mem, s'.procs[p'].dir);
    }
  }

  lemma ReleaseUntouched(s: Sys, o: Owners, p: nat, i: nat)
    requires Releasable(s, o, p, i)
    ensures Untouched(s, Release(s, p, i), p)
  {
    hide Consistent, FreeChain, MapPages, WellFormed, Live, SameDirectory, OnlyTables;
    ConsistentHeap(s, o);
    DirectoryValid(s, o, p);
    MapPagesEffect(s.mem, s.procs[p].dir, s.hb + SlotBlock(s, p, i), s.hb + SlotBlock(s, p, i),
                   Blocks(s.procs[p].slots[i].size), 0);
    forall p' | p' in s.procs && p' != p
      ensures SameDirectory(s.mem, Release(s, p, i).mem, s.procs[p'].dir)
    {
      RemapOther(s, o, p, s.hb + SlotBlock(s, p, i), Blocks(s.procs[p].slots[i].size), 0, p');
    }
  }

  lemma ReleaseEmpties(s: Sys, p: nat, i: nat)
    requires PoolBounds(s.hb, |s.heap|) && p in s.procs && i < MAX_ALLOCATIONS && SlotBlock(s, p, i) >= 0
    requires SlotBlock(s, p, i) + Blocks(s.procs[p].slots[i].size) <= |s.heap|
    ensures Release(s, p, i).procs[p].slots[i].ptr == 0
    ensures forall j | 0 <= j < MAX_ALLOCATIONS && s.procs[p].slots[j].ptr == 0 ::
              Release(s, p, i).procs[p].slots[j].ptr == 0
  {
    hide FreeChain, MapPages;
  }

  // ---------------------------------------------------------------- what a terminating process gives back

  /** The parts freed before the directory: those of the program, then the stack. */
  function PartsBefore(program: Program): seq<Part> {
    [Image] + (if program.Elf? then [ElfStruct] else []) + [UserStack]
  }

  /** Who owned the `k`-th block that dropping a directory frees. */
  function DropOwner(p: nat, k: nat): Owner
    requires k < DIRECTORY_BLOCKS
  {
    if k == 1024 then OwnDirectory(p) else if k == 1025 then OwnChunk(p) else OwnTable(p, k)
  }

  /** Whose chains process_terminate frees, in its order. */
  ghost function GivenUp(s: Sys, p: nat): seq<Owner>
    requires p in s.procs && s.procs[p].parts.Keys == PartsOf(s.procs[p].program)
  {
    var x := s.procs[p];
    var before := PartsBefore(x.program);
    seq(|before|, i requires 0 <= i < |before| => OwnChain(x.parts[before[i]]))
    + seq(DIRECTORY_BLOCKS, k requires 0 <= k < DIRECTORY_BLOCKS => DropOwner(p, k))
    + [OwnChain(x.parts[TaskStruct])]
  }

  /** Chains of the process's parts go, all but the process structure, which nobody holds any more. */
  ghost function Abandon(chains: map<nat, Chain>, p: nat): (c: map<nat, Chain>)
    ensures forall b | b in chains && chains[b].holder != Of(p) :: b in c && c[b] == chains[b]
    ensures forall b | b in chains && chains[b].holder == Of(p) && chains[b].part == ProcessStruct ::
              b in c && c[b] == chains[b].(holder := Loose)
    ensures forall b | b in c :: b in chains && (chains[b].holder == Of(p) ==> chains[b].part == ProcessStruct)
    ensures forall b | b in c :: c[b].holder != Of(p) && c[b].part == chains[b].part && c[b].blocks == chains[b].blocks
  {
    map b | b in chains && (chains[b].holder == Of(p) ==> chains[b].part == ProcessStruct) ::
      if chains[b].holder == Of(p) then chains[b].(holder := Loose) else chains[b]
  }

  /** The blocks that process_terminate frees once the allocations are gone, in its order: program, stack,
      directory, task. */
  ghost function RetireBlocks(s: Sys, p: nat): seq<nat>
    requires p in s.procs && s.procs[p].parts.Keys == PartsOf(s.procs[p].program)
    requires InPool(s.hb, |s.heap|, DirectoryFrames(s.mem, s.procs[p].chunk))
  {
    var x := s.procs[p];
    var before := PartsBefore(x.program);
    seq(|before|, i requires 0 <= i < |before| => x.parts[before[i]])
    + PoolBlocks(s.hb, DirectoryFrames(s.mem, x.chunk))
    + [x.parts[TaskStruct]]
  }

  ghost function RetireStep(s: Sys, p: nat): (s': Sys)
    requires p in s.procs && s.procs[p].parts.Keys == PartsOf(s.procs[p].program)
    requires InPool(s.hb, |s.heap|, DirectoryFrames(s.mem, s.procs[p].chunk))
    ensures |s'.heap| == |s.heap| && s'.hb == s.hb && s'.mem == s.mem && s'.procs == s.procs - {p}
  {
    Sys(s.hb, FreeAll(s.heap, RetireBlocks(s, p)), s.mem, s.procs - {p}, Abandon(s.chains, p))
  }

  lemma DropFrames(s: Sys, o: Owners, p: nat)
    requires Consistent(s, o) && p in s.procs
    ensures |DirectoryFrames(s.mem, s.procs[p].chunk)| == DIRECTORY_BLOCKS
    ensures forall k | 0 <= k < DIRECTORY_BLOCKS ::
              && Exists(s, DropOwner(p, k))
              && DirectoryFrames(s.mem, s.procs[p].chunk)[k] == s.hb + Place(s, DropOwner(p, k))
    ensures InPool(s.hb, |s.heap|, DirectoryFrames(s.mem, s.procs[p].chunk))
  {
    hide Consistent, Live;
    ChunkOf(s, o, p);
    forall k | 0 <= k < DIRECTORY_BLOCKS
      ensures Exists(s, DropOwner(p, k))
      ensures DirectoryFrames(s.mem, s.procs[p].chunk)[k] == s.hb + Place(s, DropOwner(p, k))
      ensures 0 <= Place(s, DropOwner(p, k)) < |s.heap|
    {
      assert Exists(s, DropOwner(p, k));
      MetaBlock(s, o, DropOwner(p, k));
    }
  }

  lemma ChunkOf(s: Sys, o: Owners, p: nat)
    requires Consistent(s, o) && p in s.procs
    ensures Cell(s.mem, s.procs[p].chunk, 0) == PAGE_SIZE * s.procs[p].dir
  {
  }

  /** Blocks and owners correspond. */
  lemma RetirePlaces(s: Sys, o: Owners, p: nat)
    requires Consistent(s, o) && p in s.procs
    ensures LoadRight(s.hb, s.chains, p, s.procs[p])
    ensures InPool(s.hb, |s.heap|, DirectoryFrames(s.mem, s.procs[p].chunk))
    ensures |RetireBlocks(s, p)| == |GivenUp(s, p)|
    ensures forall k | 0 <= k < |GivenUp(s, p)| ::
              Exists(s, GivenUp(s, p)[k]) && RetireBlocks(s, p)[k] == Place(s, GivenUp(s, p)[k])
  {
    hide Consistent, DirectoryFrames, ProgramFits;
    LoadOf(s, o, p);
    DropFrames(s, o, p);
    var x := s.procs[p];
    var before := PartsBefore(x.program);
    var bs, ws := RetireBlocks(s, p), GivenUp(s, p);
    forall k | 0 <= k < |ws| ensures Exists(s, ws[k]) && bs[k] == Place(s, ws[k]) {
      if k < |before| {
        assert ws[k] == OwnChain(x.parts[before[k]]) && bs[k] == x.parts[before[k]];
      } else if k < |before| + DIRECTORY_BLOCKS {
        assert ws[k] == DropOwner(p, k - |before|);
      }
    }
  }

  /** Which owners go: those of the directory, and the chains of all parts but the process structure. */
  lemma WhoGoes(s: Sys, o: Owners, p: nat, w: Owner)
    requires Consistent(s, o) && p in s.procs && Exists(s, w)
    requires forall i | 0 <= i < MAX_ALLOCATIONS :: s.procs[p].slots[i].ptr == 0
    ensures s.procs[p].parts.Keys == PartsOf(s.procs[p].program)
    ensures w in GivenUp(s, p) <==>
              match w
              case OwnChain(b) => s.chains[b].holder == Of(p) && s.chains[b].part != ProcessStruct
              case _ => w.pid == p
  {
    hide Consistent, ProgramFits;
    LoadOf(s, o, p);
    HolderOf(s, o);
    var x := s.procs[p];
    var before := PartsBefore(x.program);
    var ws := GivenUp(s, p);
    match w {
      case OwnChain(b) =>
        if s.chains[b].holder == Of(p) && s.chains[b].part != ProcessStruct {
          var k := s.chains[b].part;
          assert x.parts[k] == b;
          var j := if k.Image? then 0 else if k.UserStack? then |before| - 1
                   else if k.ElfStruct? then 1 else |ws| - 1;
          assert ws[j] == w;
        }
        if w in ws {
          var j :| 0 <= j < |ws| && ws[j] == w;
          assert x.parts[if j < |before| then before[j] else TaskStruct] == b;
        }
      case OwnSlot(_, _) =>
      case OwnDirectory(_) => if w.pid == p { assert ws[|before| + 1024] == w; }
      case OwnChunk(_) => if w.pid == p { assert ws[|before| + 1025] == w; }
      case OwnTable(_, i) => if w.pid == p { assert ws[|before| + i] == w; }
    }
  }

  lemma HolderOf(s: Sys, o: Owners)
    requires Consistent(s, o)
    ensures forall b | b in s.chains && s.chains[b].holder.Of? ::
              var Chain(_, k, Of(p)) := s.chains[b]; p in s.procs && k in s.procs[p].parts && s.procs[p].parts[k] == b
  {
  }

  lemma {:induction false} OwnersDistinct(s: Sys, o: Owners, p: nat, i: nat, j: nat)
    requires Consistent(s, o) && p in s.procs && s.procs[p].parts.Keys == PartsOf(s.procs[p].program)
    requires i < j < |GivenUp(s, p)|
    ensures GivenUp(s, p)[i] != GivenUp(s, p)[j]
  {
    hide Consistent, ProgramFits;
    LoadOf(s, o, p);
    var x := s.procs[p];
    var before := PartsBefore(x.program);
    var ws := GivenUp(s, p);
    if i < |before| {
      assert ws[i] == OwnChain(x.parts[before[i]]) && s.chains[x.parts[before[i]]].part == before[i];
      if j < |before| {
        assert ws[j] == OwnChain(x.parts[before[j]]) && s.chains[x.parts[before[j]]].part == before[j];
      } else if j < |ws| - 1 {
        assert ws[j] == DropOwner(p, j - |before|);
      } else {
        assert ws[j] == OwnChain(x.parts[TaskStruct]) && s.chains[x.parts[TaskStruct]].part == TaskStruct;
      }
    } else {
      assert ws[i] == DropOwner(p, i - |before|);
      if j < |ws| - 1 { assert ws[j] == DropOwner(p, j - |before|); }
    }
  }

  ghost predicate Retirable(s: Sys, o: Owners, p: nat) {
    && Consistent(s, o) && p in s.procs && LoadRight(s.hb, s.chains, p, s.procs[p])
    && (forall i | 0 <= i < MAX_ALLOCATIONS :: s.procs[p].slots[i].ptr == 0)
    && InPool(s.hb, |s.heap|, DirectoryFrames(s.mem, s.procs[p].chunk))
    && (forall b | b in Elements(RetireBlocks(s, p)) :: b in Live(s.heap))
    && (forall w | Exists(s, w) :: Place(s, w) in Elements(RetireBlocks(s, p)) <==> w in GivenUp(s, p))
    && WellFormed(RetireStep(s, p).heap)
    && Live(RetireStep(s, p).heap) == Live(s.heap) - Elements(RetireBlocks(s, p))
  }

  lemma RetirableAt(s: Sys, o: Owners, p: nat)
    requires Consistent(s, o) && p in s.procs
    requires forall i | 0 <= i < MAX_ALLOCATIONS :: s.procs[p].slots[i].ptr == 0
    ensures Retirable(s, o, p)
  {
    hide Consistent, Live, WellFormed, DirectoryFrames, GivenUp, RetireBlocks, ProgramFits, Place;
    ConsistentHeap(s, o);
    RetirePlaces(s, o, p);
    var bs, ws := RetireBlocks(s, p), GivenUp(s, p);
    forall i, j | 0 <= i < j < |bs| ensures bs[i] != bs[j] {
      OwnersDistinct(s, o, p, i, j);
      OwnersDiffer(s, o, ws[i], ws[j]);
    }
    forall b | b in bs ensures b in Live(s.heap) {
      var k :| 0 <= k < |bs| && bs[k] == b;
      HeldPlace(s, o, ws[k]);
    }
    forall w | Exists(s, w) ensures Place(s, w) in Elements(bs) <==> w in ws {
      if w in ws {
        var k :| 0 <= k < |ws| && ws[k] == w;
        assert bs[k] == Place(s, w);
      }
      if Place(s, w) in Elements(bs) {
        var k :| 0 <= k < |bs| && bs[k] == Place(s, w);
        if ws[k] != w { OwnersDiffer(s, o, ws[k], w); }
      }
    }
    FreeAllLive(s.heap, bs);
  }

  lemma HeldPlace(s: Sys, o: Owners, w: Owner)
    requires Consistent(s, o) && Exists(s, w)
    ensures Place(s, w) in Live(s.heap) && Live(s.heap)[Place(s, w)] == Extent(s, w)
    ensures Place(s, w) in o && o[Place(s, w)] == w
  {
    hide WellFormed, Live, LoadsRight, PagesRight;
  }

  // ---------------------------------------------------------------- the invariant without the process

  lemma RetireTied(s: Sys, o: Owners, p: nat)
    requires Retirable(s, o, p)
    ensures Tied(RetireStep(s, p), o - Elements(RetireBlocks(s, p)))
  {
    hide Consistent, Live, WellFormed, DirectoryFrames, RetireBlocks, GivenUp, Tied, FreeAll, ProgramFits;
    ConsistentHeap(s, o);
    var s', gone := RetireStep(s, p), Elements(RetireBlocks(s, p));
    forall w
      ensures Exists(s', w) ==> SameOwner(s, s', w) && Place(s, w) !in gone
      ensures Exists(s, w) && Place(s, w) !in gone ==> Exists(s', w)
    {
      if Exists(s, w) {
        WhoGoes(s, o, p, w);
      } else {
        RetiredOwner(s, p, w);
      }
    }
    TiedDrop(s, s', o, gone);
  }

  lemma RetiredOwner(s: Sys, p: nat, w: Owner)
    requires p in s.procs && s.procs[p].parts.Keys == PartsOf(s.procs[p].program)
    requires InPool(s.hb, |s.heap|, DirectoryFrames(s.mem, s.procs[p].chunk))
    ensures Exists(RetireStep(s, p), w) ==> Exists(s, w)
  {
    hide FreeAll, RetireBlocks, DirectoryFrames;
  }

  lemma RetireLoads(s: Sys, o: Owners, p: nat)
    requires Retirable(s, o, p)
    ensures LoadsRight(RetireStep(s, p))
  {
    hide Consistent, Live, WellFormed, DirectoryFrames, RetireBlocks, GivenUp, FreeAll, LoadRight, PartsOf;
    RetireParts(s, o, p);
    HolderOf(s, o);
    var s' := RetireStep(s, p);
    forall p' | p' in s'.procs ensures LoadRight(s'.hb, s'.chains, p', s'.procs[p']) {
      LoadOf(s, o, p');
      LoadRightMore(s.hb, s.chains, s'.chains, p', s.procs[p']);
    }
  }

  lemma RetireParts(s: Sys, o: Owners, p: nat)
    requires Retirable(s, o, p)
    ensures Consistent(s, o) && p in s.procs && s.procs[p].parts.Keys == PartsOf(s.procs[p].program)
    ensures InPool(s.hb, |s.heap|, DirectoryFrames(s.mem, s.procs[p].chunk))
  {
  }

  lemma RetirePage(s: Sys, o: Owners, p: nat, p': nat, q: Page)
    requires Retirable(s, o, p) && p' in s.procs && p' != p
    ensures PageRight(RetireStep(s, p), o - Elements(RetireBlocks(s, p)), p', q)
  {
    hide Consistent, Live, WellFormed, DirectoryFrames, RetireBlocks, FreeAll, LoadRight, PartsOf, LoadedEntry, GivenUp,
      HeadOf, IsFree;
    RetireParts(s, o, p);
    ConsistentHeap(s, o);
    var gone := Elements(RetireBlocks(s, p));
    OwnsFree(s.hb, s.heap, RetireStep(s, p).heap, o, gone, p', q);
    PageOf(s, o, p', q);
    if Owns(s.hb, s.heap, o, p', q) {
      OwnerOfBlock(s, o, q - s.hb);
      WhoGoes(s, o, p, o[HeadOf(s.heap, q - s.hb)]);
    }
  }

  lemma RetireRest(s: Sys, o: Owners, p: nat)
    requires Retirable(s, o, p)
    ensures LedgersRight(RetireStep(s, p)) && DirectoriesRight(RetireStep(s, p)) && PoolBounds(s.hb, |s.heap|)
    ensures WellFormed(RetireStep(s, p).heap)
  {
    hide Live, WellFormed, DirectoryFrames, RetireBlocks, FreeAll, LoadRight, PartsOf, PagesRight, LoadsRight, Tied,
      GivenUp;
  }

  lemma RetireKeeps(s: Sys, o: Owners, p: nat)
    requires Retirable(s, o, p)
    ensures Consistent(RetireStep(s, p), o - Elements(RetireBlocks(s, p)))
  {
    hide Live, WellFormed, RetireBlocks, FreeAll, Tied, LedgersRight, LoadsRight, DirectoriesRight, PageRight,
      DirectoryFrames, Retirable, RetireStep;
    RetireParts(s, o, p);
    RetireTied(s, o, p);
    RetireLoads(s, o, p);
    RetireRest(s, o, p);
    var s', o' := RetireStep(s, p), o - Elements(RetireBlocks(s, p));
    forall p', q: Page | p' in s'.procs ensures PageRight(s', o', p', q) {
      RetirePage(s, o, p, p', q);
    }
  }
}
