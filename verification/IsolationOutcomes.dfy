/**
  What every run of the kernel's process memory comes to: freed pages stay unmapped, failed allocations leave no
  trace, and what processes leave behind when they are gone.
*/
module IsolationOutcomes {
  import opened Words
  import opened HeapTable
  import HeapRuns
  import opened PhysicalMemory
  import opened PageTable
  import opened Directory
  import opened Ledger
  import opened ImageMap
  import opened Isolation
  import opened IsolationSteps
  import opened IsolationLoad
  import opened IsolationFailures
  import opened IsolationLifetime
  import opened IsolationRuns

  // ---------------------------------------------------------------- freed pages

  /** Freeing leaves every page of the allocation not present, empties its slot and frees its chain. */
  lemma FreedIsUnmapped(s: Sys, p: nat, i: nat, q: Page)
    requires Inv(s) && InSlot(s, p, i, q)
    ensures var ptr := s.procs[p].slots[i].ptr;
            && (FindByAddr(s.procs[p].slots, ptr) >= 0 ==> ptr / PAGE_SIZE >= s.hb) && q >= s.hb
            && !Present(Entry(FreeStep(s, p, ptr).mem, s.procs[p].dir, q))
            && FreeStep(s, p, ptr).procs[p].slots[i] == EMPTY
            && Live(FreeStep(s, p, ptr).heap) == Live(s.heap) - {ptr / PAGE_SIZE - s.hb}
  {
    hide Consistent, Live, WellFormed;
    var o :| Consistent(s, o);
    var ptr := s.procs[p].slots[i].ptr;
    FreeIsRelease(s, o, p, ptr);
    ReleasableAt(s, o, p, i);
    SoleSlot(s, o, p, i, FindByAddr(s.procs[p].slots, ptr));
    BlocksExact(s.procs[p].slots[i].size);
    ReleasedEntry(s, o, p, i, p, q);
    FlagsDecide(q);
  }

  /** The entries of all processes after a release. */
  lemma ReleasedEntry(s: Sys, o: Owners, p: nat, i: nat, p': nat, q: Page)
    requires Releasable(s, o, p, i) && p' in s.procs
    ensures Release(s, p, i).procs[p'].dir == s.procs[p'].dir
    ensures var b, n := SlotBlock(s, p, i), Blocks(s.procs[p].slots[i].size);
            Entry(Release(s, p, i).mem, s.procs[p'].dir, q)
            == if p' == p && s.hb + b <= q < s.hb + b + n then MakeEntry(q, 0) else Entry(s.mem, s.procs[p'].dir, q)
  {
    hide Consistent, MapPages, WellFormed, Live, FreeChain, Entry;
    ConsistentHeap(s, o);
    RemapEntry(s, o, p, s.hb + SlotBlock(s, p, i), Blocks(s.procs[p].slots[i].size), 0, p', q);
  }

  /** An allocation changes the entries of its own pages only. */
  lemma MallocEntry(s: Sys, o: Owners, p: nat, size: Size, p': nat, q: Page)
    requires Consistent(s, o) && p in s.procs && p' in s.procs && size > 0 && Safe(s.heap, Blocks(size))
    ensures PoolBounds(s.hb, |s.heap|) && MallocStep(s, p, size).procs.Keys == s.procs.Keys
    ensures var s' := MallocStep(s, p, size);
            && s'.procs[p'].dir == s.procs[p'].dir
            && (|| Entry(s'.mem, s.procs[p'].dir, q) == Entry(s.mem, s.procs[p'].dir, q)
                || exists i: nat :: InSlot(s', p', i, q))
  {
    hide Consistent, MapPages, WellFormed, Live, MarkTaken, ZeroFill, FreeRun, StartBlock, FreeIndex, Entry, MetaKept;
    ConsistentHeap(s, o);
    var x, n, s' := s.procs[p], Blocks(size), MallocStep(s, p, size);
    var b := StartBlock(s.heap, n);
    MallocCases(s.hb, s.heap, s.mem, x.dir, x.slots, size);
    BlocksExact(size);
    assert s.procs[p := x.(slots := x.slots)] == s.procs;
    if CanFit(s.heap, n) {
      var m := ZeroFill(s.mem, PAGE_SIZE * (s.hb + b), size);
      FillSpares(s, o, b, n, size);
      KeepDirectories(s, m);
      MemKeeps(s, o, m);
      ConsistentHeap(s.(mem := m), o);
      assert SameDirectory(s.mem, m, s.procs[p'].dir);
      var i := FreeIndex(x.slots);
      if i >= 0 {
        RemapEntry(s.(mem := m), o, p, s.hb + b, n, USER_FLAGS, p', q);
        if p' == p && s.hb + b <= q < s.hb + b + n { assert InSlot(s', p, i, q); }
      }
    }
  }

  lemma LoadSparesOthers(s: Sys, o: Owners, p: nat, f: File, p': nat)
    requires Consistent(s, o) && LoadGranted(s, p, f) && p' in s.procs
    ensures p' in LoadStep(s, p, f).procs && LoadStep(s, p, f).procs[p'] == s.procs[p']
    ensures SameDirectory(s.mem, LoadStep(s, p, f).mem, s.procs[p'].dir)
  {
    hide Consistent, Taken, Spots, Granted, HeapRuns.FreeCount, Wanted, Equipped, PartsAt, ProgramAt, SpawnMemory,
      HeapRuns.TakeAll, FreshLoaded, IsBatch, HeapRuns.Batch, MetaKept, ProgramBelow, WritesInFile, ImageMappable,
      LoadStep, SpawnBlocks;
    var o1, parts, stack := LoadSpawns(s, o, p, f);
    var s1 := Taken(s, Wanted(f));
    KeepDirectories(s1, LoadStep(s, p, f).mem);
    assert SameDirectory(s.mem, s1.mem, s.procs[p'].dir);
    assert SameDirectory(s1.mem, LoadStep(s, p, f).mem, s1.procs[p'].dir);
  }

  lemma EndSparesOthers(s: Sys, p: nat, p': nat)
    requires Inv(s) && p in s.procs && p' in s.procs && p' != p
    ensures EndStep(s, p).procs[p'] == s.procs[p'] && SameDirectory(s.mem, EndStep(s, p).mem, s.procs[p'].dir)
  {
    hide Inv, TerminateStep, RetireBlocks, DirectoryFrames;
    EndInv(s, p);
  }

  /** A page that is not present in a directory becomes present only by an allocation. */
  lemma StepKeepsUnmapped(s: Sys, a: Action, p: nat, q: Page)
    requires Inv(s) && Enabled(s, a) && p in s.procs && p in Apply(s, a).procs
    requires !Present(Entry(s.mem, s.procs[p].dir, q))
    ensures var s' := Apply(s, a);
            !Present(Entry(s'.mem, s'.procs[p].dir, q)) || exists i: nat :: InSlot(s', p, i, q)
  {
    hide Consistent, Entry, InSlot, Present, MakeEntry, FreeStep, MallocStep, LoadStep, FailedLoadStep,
      FailedMapStep, StoreStep, EndStep, LoadGranted, GivesUp, MapFails, Release;
    var o :| Consistent(s, o);
    match a {
      case Load(p', f) => LoadSparesOthers(s, o, p', f, p);
      case FailedLoad(f, n) => FailedSparesAll(s, o, f, n, p);
      case FailedMap(f) => FailedMapSparesAll(s, o, f, p);
      case Malloc(p', size) => MallocEntry(s, o, p', size, p, q);
      case Free(p', ptr) =>
        FreeIsRelease(s, o, p', ptr);
        FlagsDecide(q);
        if FindByAddr(s.procs[p'].slots, ptr) >= 0 {
          ReleasedEntry(s, o, p', FindByAddr(s.procs[p'].slots, ptr), p, q);
        }
      case Store(p', v, b) => StoreIsConfined(s, p', v, b, 0);
      case Terminate(p') =>
        if p' != p { EndSparesOthers(s, p', p); }
    }
  }

  lemma FailedSparesAll(s: Sys, o: Owners, f: File, n: nat, p: nat)
    requires Consistent(s, o) && GivesUp(s, f, n) && p in s.procs
    ensures FailedLoadStep(s, f, n).procs == s.procs
    ensures SameDirectory(s.mem, FailedLoadStep(s, f, n).mem, s.procs[p].dir)
  {
    hide Consistent;
    var o' := TakenKeeps(s, o, Wanted(f)[..n]);
  }

  lemma FailedMapSparesAll(s: Sys, o: Owners, f: File, p: nat)
    requires Consistent(s, o) && MapFails(s, f) && p in s.procs
    ensures WellFormed(Taken(s, Wanted(f)).heap)
    ensures FailedMapStep(s, f).procs == s.procs && SameDirectory(s.mem, FailedMapStep(s, f).mem, s.procs[p].dir)
  {
    hide Consistent, WellFormed, FailedMapStep, FailedMemory, MetaKept, Taken, Granted, Wanted, HeapRuns.FreeCount,
      Spots, ImageMappable, PartsAt, ProgramAt;
    var o' := FailedMapIs(s, o, f);
    var s0 := Taken(s, WantedFirst(f));
    KeepDirectories(s0, FailedMemory(s, f));
    assert SameDirectory(s.mem, s0.mem, s.procs[p].dir);
    assert SameDirectory(s0.mem, FailedMemory(s, f), s0.procs[p].dir);
  }

  /** Process `p` lives on through the run and page `q` is never in an allocation of its. */
  ghost predicate NeverGranted(s: Sys, actions: seq<Action>, p: nat, q: Page)
    requires Inv(s) && EnabledRun(s, actions)
    decreases |actions|
  {
    && p in s.procs && !(exists i: nat :: InSlot(s, p, i, q))
    && (actions != [] ==> NeverGranted(Apply(s, actions[0]), actions[1..], p, q))
  }

  lemma {:induction false} RunKeepsUnmapped(s: Sys, actions: seq<Action>, p: nat, q: Page)
    requires Inv(s) && EnabledRun(s, actions) && NeverGranted(s, actions, p, q)
    requires !Present(Entry(s.mem, s.procs[p].dir, q))
    ensures p in Run(s, actions).procs
    ensures !Present(Entry(Run(s, actions).mem, Run(s, actions).procs[p].dir, q))
    decreases |actions|
  {
    hide Inv, Apply, Enabled, Entry, InSlot;
    if actions != [] {
      StepKeepsUnmapped(s, actions[0], p, q);
      RunKeepsUnmapped(Apply(s, actions[0]), actions[1..], p, q);
    }
  }

  /** A freed page stays not present in the process's directory, through any run, until it is granted again. */
  lemma FreedStaysUnmapped(s: Sys, p: nat, i: nat, q: Page, actions: seq<Action>)
    requires Inv(s) && InSlot(s, p, i, q)
    ensures Enabled(s, Free(p, s.procs[p].slots[i].ptr))
    ensures var s' := Apply(s, Free(p, s.procs[p].slots[i].ptr));
            EnabledRun(s', actions) && NeverGranted(s', actions, p, q) ==>
              p in Run(s', actions).procs && !Present(Entry(Run(s', actions).mem, Run(s', actions).procs[p].dir, q))
  {
    hide Inv, Entry, EnabledRun, NeverGranted, Run;
    var ptr := s.procs[p].slots[i].ptr;
    FreedIsUnmapped(s, p, i, q);
    var s' := Apply(s, Free(p, ptr));
    if EnabledRun(s', actions) && NeverGranted(s', actions, p, q) { RunKeepsUnmapped(s', actions, p, q); }
  }

  // ---------------------------------------------------------------- failed allocations

  /** An allocation that fails because the ledger is full, or because no run of blocks is long enough,
      leaves heap, ledgers and all translations of all processes as they were. */
  lemma FailedMallocLeavesNoTrace(s: Sys, p: nat, size: Size)
    requires Inv(s) && p in s.procs && size > 0 && Safe(s.heap, Blocks(size))
    requires FreeIndex(s.procs[p].slots) < 0 || !CanFit(s.heap, Blocks(size))
    ensures PoolBounds(s.hb, |s.heap|)
    ensures MallocStep(s, p, size) == s.(mem := MallocStep(s, p, size).mem)
    ensures forall p' | p' in s.procs :: SameDirectory(s.mem, MallocStep(s, p, size).mem, s.procs[p'].dir)
  {
    hide Consistent, WellFormed, ZeroFill, FreeIndex, FreeRun, StartBlock;
    InvHeap(s);
    var o :| Consistent(s, o);
    var x := s.procs[p];
    var n := Blocks(size);
    MallocCases(s.hb, s.heap, s.mem, x.dir, x.slots, size);
    assert s.procs[p := x.(slots := x.slots)] == s.procs;
    if CanFit(s.heap, n) {
      BlocksExact(size);
      FillSpares(s, o, StartBlock(s.heap, n), n, size);
      KeepDirectories(s, MallocStep(s, p, size).mem);
    } else {
      forall p' | p' in s.procs ensures SameDirectory(s.mem, s.mem, s.procs[p'].dir) {
        SameItself(s.mem, s.procs[p'].dir);
      }
    }
  }

  // ---------------------------------------------------------------- what is left behind

  /** Blocks where process structures start. */
  ghost function Structures(s: Sys): set<nat> {
    set b | b in s.chains && s.chains[b].part == ProcessStruct
  }

  /** Blocks where a chain starts that nothing will free: the process structures, and all that nobody holds. */
  ghost function Lost(s: Sys): set<nat> {
    set b | b in s.chains && (s.chains[b].part == ProcessStruct || s.chains[b].holder.Loose?)
  }

  /** All process structures have their size. */
  ghost predicate StructuresSized(s: Sys) {
    forall b | b in Structures(s) :: s.chains[b].blocks == Blocks(PROCESS_SIZE)
  }

  function LoadsIn(actions: seq<Action>): nat {
    if actions == [] then 0
    else (if actions[0].Load? || actions[0].FailedLoad? || actions[0].FailedMap? then 1 else 0) + LoadsIn(actions[1..])
  }

  /** How many allocations nothing will free: of an ELF image the process structure, of a flat one also the
      attempt to read it as an ELF image, of a load that fails all it took; one that fails in mapping gives back
      the task, which it took last. */
  function LostBy(a: Action): nat {
    match a
    case Load(_, f) => if f.ElfImage? then 1 else 3
    case FailedLoad(_, n) => n
    case FailedMap(f) => if f.ElfImage? then 4 else 5
    case _ => 0
  }

  function LostIn(actions: seq<Action>): nat {
    if actions == [] then 0 else LostBy(actions[0]) + LostIn(actions[1..])
  }

  lemma WantsFive(f: File)
    requires Loadable(f)
    ensures |Wanted(f)| >= 5 && Wanted(f)[0].part == ProcessStruct && Wanted(f)[0].size == PROCESS_SIZE
  {
  }

  lemma WantsApart(f: File, i: nat, j: nat)
    requires Loadable(f) && i < j < |Wanted(f)|
    ensures Wanted(f)[i].part != Wanted(f)[j].part
  {
  }

  lemma {:induction false} MoreElements(c: set<nat>, ss: seq<nat>)
    requires Distinct(ss) && forall j | 0 <= j < |ss| :: ss[j] !in c
    ensures |c + HeapRuns.Elements(ss)| == |c| + |ss|
    decreases |ss|
  {
    if ss == [] {
      assert c + HeapRuns.Elements(ss) == c;
    } else {
      var ss', b := ss[..|ss| - 1], ss[|ss| - 1];
      MoreElements(c, ss');
      assert ss == ss' + [b];
      assert c + HeapRuns.Elements(ss) == c + HeapRuns.Elements(ss') + {b};
    }
  }

  lemma CollectedApart(s: Sys, s': Sys, f: File, n: nat, ss: seq<nat>)
    requires Loadable(f) && 1 <= n <= |Wanted(f)| && Collected(s, s', Wanted(f)[..n], ss)
    ensures Distinct(ss) && |ss| == n
    ensures forall j | 0 <= j < n ::
              ss[j] !in s.chains && ss[j] in s'.chains && s'.chains[ss[j]].part == Wanted(f)[j].part
              && s'.chains[ss[j]].blocks == Blocks(Wanted(f)[j].size)
  {
    hide Blocks, Wanted;
    var ws := Wanted(f)[..n];
    forall j | 0 <= j < n
      ensures ss[j] !in s.chains && ss[j] in s'.chains && s'.chains[ss[j]].part == Wanted(f)[j].part
      ensures s'.chains[ss[j]].blocks == Blocks(Wanted(f)[j].size)
    {
      assert ws[j] == Wanted(f)[j];
    }
    forall i, j | 0 <= i < j < n ensures ss[i] != ss[j] { WantsApart(f, i, j); }
  }

  lemma CollectedStructures(s: Sys, s': Sys, f: File, n: nat, ss: seq<nat>)
    requires Loadable(f) && 1 <= n <= |Wanted(f)| && Collected(s, s', Wanted(f)[..n], ss)
    ensures |Structures(s')| == |Structures(s)| + 1
    ensures StructuresSized(s) ==> StructuresSized(s')
    ensures |Lost(s')| == |Lost(s)| + n
  {
    hide Blocks, Wanted;
    WantsFive(f);
    CollectedApart(s, s', f, n, ss);
    forall b ensures b in Structures(s') <==> b in Structures(s) || b == ss[0] {
      if b in s'.chains && b !in s.chains {
        var j :| 0 <= j < |ss| && ss[j] == b;
        if j > 0 { WantsApart(f, 0, j); }
      }
    }
    assert Structures(s') == Structures(s) + {ss[0]};
    assert Lost(s') == Lost(s) + HeapRuns.Elements(ss);
    MoreElements(Lost(s), ss);
  }

  /** What a load takes is claimed, but for the failed attempt on a flat file. */
  lemma ClaimedParts(f: File, ss: seq<nat>, j: nat)
    requires Loadable(f) && |ss| == |Wanted(f)| && j < |ss|
    ensures Wanted(f)[j].part in PartsAt(f, ss) && PartsAt(f, ss)[Wanted(f)[j].part] == ss[j]
            <==> j == 0 || LostBy(Load(0, f)) <= j
    ensures Wanted(f)[j].part == ProcessStruct <==> j == 0
  {
  }

  /** Who holds what does not matter to the structures. */
  lemma ClaimStructures(s: Sys, s': Sys, p: nat, parts: map<Part, nat>)
    requires s'.chains == Claim(s.chains, p, parts)
    ensures Structures(s') == Structures(s) && (StructuresSized(s) ==> StructuresSized(s'))
  {
  }

  lemma ClaimLost(s: Sys, s1: Sys, s': Sys, p: nat, f: File, ss: seq<nat>)
    requires Loadable(f) && Collected(s, s1, Wanted(f), ss) && s'.chains == Claim(s1.chains, p, PartsAt(f, ss))
    requires forall b | b in s.chains && s.chains[b].holder.Loose? && s.chains[b].part in PartsAt(f, ss) ::
               PartsAt(f, ss)[s.chains[b].part] != b
    ensures |Lost(s')| == |Lost(s)| + LostBy(Load(p, f))
  {
    hide Blocks, Wanted, PartsAt, Collected, Lost;
    var ws := Wanted(f);
    WantsFive(f);
    assert ws[..|ws|] == ws;
    CollectedApart(s, s1, f, |ws|, ss);
    var lost := ss[..LostBy(Load(p, f))];
    forall b ensures b in Lost(s') <==> b in Lost(s) || b in lost {
      ClaimLoses(s, s1, s', p, f, ss, b);
    }
    assert Lost(s') == Lost(s) + HeapRuns.Elements(lost);
    MoreElements(Lost(s), lost) by { NotLost(s, lost); }
  }

  lemma NotLost(s: Sys, ss: seq<nat>)
    requires forall j | 0 <= j < |ss| :: ss[j] !in s.chains
    ensures forall j | 0 <= j < |ss| :: ss[j] !in Lost(s)
  {
  }

  lemma ClaimLoses(s: Sys, s1: Sys, s': Sys, p: nat, f: File, ss: seq<nat>, b: nat)
    requires Loadable(f) && Collected(s, s1, Wanted(f), ss) && s'.chains == Claim(s1.chains, p, PartsAt(f, ss))
    requires b in s.chains && s.chains[b].holder.Loose? && s.chains[b].part in PartsAt(f, ss) ==>
               PartsAt(f, ss)[s.chains[b].part] != b
    requires Distinct(ss) && LostBy(Load(p, f)) <= |ss|
    ensures b in Lost(s') <==> b in Lost(s) || b in ss[..LostBy(Load(p, f))]
  {
    hide Blocks, Wanted, PartsAt;
    if b in s1.chains && b !in s.chains {
      var j :| 0 <= j < |ss| && ss[j] == b;
      ClaimedParts(f, ss, j);
    }
  }

  lemma PartIsNew(f: File, ss: seq<nat>, k: Part)
    requires Loadable(f) && |ss| == |Wanted(f)| && k in PartsAt(f, ss)
    ensures PartsAt(f, ss)[k] in ss
  {
  }

  /** A load leaves a process structure, whether it succeeds or not. */
  lemma LoadStructures(s: Sys, o: Owners, p: nat, f: File)
    requires Consistent(s, o) && LoadGranted(s, p, f)
    ensures |Structures(LoadStep(s, p, f))| == |Structures(s)| + 1
    ensures StructuresSized(s) ==> StructuresSized(LoadStep(s, p, f))
    ensures |Lost(LoadStep(s, p, f))| == |Lost(s)| + LostBy(Load(p, f))
  {
    hide Consistent, Taken, Spots, Granted, HeapRuns.FreeCount, SpawnMemory, HeapRuns.TakeAll, Blocks, Wanted,
      Collected, Structures, StructuresSized, Lost, PartsAt, Claim, ProgramBelow, WritesInFile, ImageMappable,
      ProgramAt;
    var ws := Wanted(f);
    var o1 := TakenKeeps(s, o, ws);
    var s1, ss, s' := Taken(s, ws), Spots(s, ws), LoadStep(s, p, f);
    assert ws[..|ws|] == ws;
    WantsFive(f);
    CollectedStructures(s, s1, f, |ws|, ss);
    ClaimStructures(s1, s', p, PartsAt(f, ss));
    CollectedNew(s, s1, f, ss);
    ClaimLost(s, s1, s', p, f, ss);
  }

  lemma CollectedNew(s: Sys, s1: Sys, f: File, ss: seq<nat>)
    requires Loadable(f) && Collected(s, s1, Wanted(f), ss)
    ensures forall k | k in PartsAt(f, ss) :: PartsAt(f, ss)[k] !in s.chains
  {
    hide Wanted, PartsAt, Blocks;
    forall k | k in PartsAt(f, ss) ensures PartsAt(f, ss)[k] !in s.chains { PartIsNew(f, ss, k); }
  }

  lemma FailedLoadStructures(s: Sys, o: Owners, f: File, n: nat)
    requires Consistent(s, o) && GivesUp(s, f, n)
    ensures |Structures(FailedLoadStep(s, f, n))| == |Structures(s)| + 1
    ensures StructuresSized(s) ==> StructuresSized(FailedLoadStep(s, f, n))
    ensures |Lost(FailedLoadStep(s, f, n))| == |Lost(s)| + n
  {
    hide Consistent, Taken, Spots, Granted, Wanted;
    var o1 := TakenKeeps(s, o, Wanted(f)[..n]);
    CollectedStructures(s, FailedLoadStep(s, f, n), f, n, Spots(s, Wanted(f)[..n]));
  }

  lemma FailedMapStructures(s: Sys, o: Owners, f: File)
    requires Consistent(s, o) && MapFails(s, f)
    ensures WellFormed(Taken(s, Wanted(f)).heap)
    ensures |Structures(FailedMapStep(s, f))| == |Structures(s)| + 1
    ensures StructuresSized(s) ==> StructuresSized(FailedMapStep(s, f))
    ensures |Lost(FailedMapStep(s, f))| == |Lost(s)| + LostBy(FailedMap(f))
  {
    hide Consistent, WellFormed, FailedMapStep, FailedMemory, MetaKept, Taken, Granted, Wanted, HeapRuns.FreeCount,
      Spots, ImageMappable, PartsAt, ProgramAt, Structures, StructuresSized, Lost, Collected;
    var o' := FailedMapIs(s, o, f);
    WantsCount(f);
    WantsFive(f);
    var s0 := Taken(s, WantedFirst(f));
    CollectedStructures(s, s0, f, |Wanted(f)| - 1, Spots(s, WantedFirst(f)));
    SameChains(s0, FailedMapStep(s, f));
  }

  lemma WantsCount(f: File)
    requires Loadable(f)
    ensures |Wanted(f)| == if f.ElfImage? then 5 else 6
  {
  }

  lemma EndStructures(s: Sys, p: nat)
    requires Inv(s) && p in s.procs
    ensures Structures(EndStep(s, p)) == Structures(s) && Lost(EndStep(s, p)) == Lost(s)
    ensures StructuresSized(s) ==> StructuresSized(EndStep(s, p))
  {
    hide Inv, TerminateStep, RetireBlocks, DirectoryFrames, Untouched, PartsOf;
    EndInv(s, p);
    var s1 := TerminateStep(s, p, MAX_ALLOCATIONS);
    UntouchedKeys(s, s1, p);
    assert EndStep(s, p).chains == Abandon(s.chains, p);
  }

  lemma StepStructures(s: Sys, a: Action)
    requires Inv(s) && Enabled(s, a)
    ensures |Structures(Apply(s, a))| == |Structures(s)| + LoadsIn([a])
    ensures |Lost(Apply(s, a))| == |Lost(s)| + LostBy(a)
    ensures StructuresSized(s) ==> StructuresSized(Apply(s, a))
  {
    hide Consistent, Structures, Lost, StructuresSized, LoadStep, FailedLoadStep, FailedMapStep, EndStep, LoadGranted,
      GivesUp, MapFails;
    assert [a][1..] == [] && [a][0] == a;
    var o :| Consistent(s, o);
    match a {
      case Load(p, f) => LoadStructures(s, o, p, f);
      case FailedLoad(f, n) => FailedLoadStructures(s, o, f, n);
      case FailedMap(f) => FailedMapStructures(s, o, f);
      case Terminate(p) => EndStructures(s, p);
      case _ =>
        InvHeap(s);
        SameChains(s, Apply(s, a));
    }
  }

  lemma SameChains(s: Sys, s': Sys)
    requires s'.chains == s.chains
    ensures Structures(s') == Structures(s) && Lost(s') == Lost(s)
    ensures StructuresSized(s) ==> StructuresSized(s')
  {
  }

  lemma {:induction false} RunStructures(s: Sys, actions: seq<Action>)
    requires Inv(s) && EnabledRun(s, actions)
    ensures |Structures(Run(s, actions))| == |Structures(s)| + LoadsIn(actions)
    ensures |Lost(Run(s, actions))| == |Lost(s)| + LostIn(actions)
    ensures StructuresSized(s) ==> StructuresSized(Run(s, actions))
    decreases |actions|
  {
    hide Inv, Apply, Enabled, Structures, Lost, StructuresSized;
    if actions != [] {
      var a, rest := actions[0], actions[1..];
      StepStructures(s, a);
      assert [a][1..] == [];
      assert LoadsIn(actions) == LoadsIn([a]) + LoadsIn(rest);
      RunStructures(Apply(s, a), rest);
    }
  }

  /** With no process left, the live chains are the loose ones. */
  lemma NoProcessLeft(s: Sys)
    requires Inv(s) && s.procs == map[]
    ensures Live(s.heap).Keys == s.chains.Keys == Lost(s)
    ensures forall b | b in s.chains :: Live(s.heap)[b] == s.chains[b].blocks
  {
    hide Consistent, Live;
    var o :| Consistent(s, o);
    HolderOf(s, o);
    forall b: nat ensures b in Live(s.heap) <==> b in s.chains
             ensures b in s.chains ==> Live(s.heap)[b] == s.chains[b].blocks {
      if b in Live(s.heap) { LiveOwner(s, o, b); }
      if b in s.chains {
        assert Exists(s, OwnChain(b));
        HeldPlace(s, o, OwnChain(b));
      }
    }
  }

  lemma LiveOwner(s: Sys, o: Owners, b: nat)
    requires Consistent(s, o) && b in Live(s.heap)
    ensures b in o && Exists(s, o[b]) && Place(s, o[b]) == b
  {
    hide WellFormed, Live, LoadsRight, PagesRight;
  }

  lemma AllFreeIff(t: Table)
    requires WellFormed(t)
    ensures (forall i | 0 <= i < |t| :: t[i] == FREE) <==> Live(t) == map[]
  {
    if Live(t) == map[] {
      forall i | 0 <= i < |t| ensures t[i] == FREE {
        if !IsFree(t[i]) { HeadOfTaken(t, i); }
        assert Legal(t[i]);
      }
    } else {
      var b :| b in Live(t);
      assert t[b] != FREE;
    }
  }

  lemma {:induction false} LostWithLoads(actions: seq<Action>)
    requires forall j | 0 <= j < |actions| && actions[j].FailedLoad? :: actions[j].allocations > 0
    ensures LoadsIn(actions) <= LostIn(actions) && (LoadsIn(actions) == 0 ==> LostIn(actions) == 0)
  {
    if actions != [] {
      var rest := actions[1..];
      forall j | 0 <= j < |rest| ensures rest[j] == actions[j + 1] {}
      LostWithLoads(rest);
    }
  }

  /** What is live are the chains nothing frees, as many as the actions left behind. Among them is the process
      structure of each load, successful or not, three blocks; so the heap is all free if and only if no load
      was tried. */
  ghost predicate Leaves(s: Sys, actions: seq<Action>) {
    && Live(s.heap).Keys == Lost(s) && |Lost(s)| == LostIn(actions)
    && |Structures(s)| == LoadsIn(actions)
    && (forall b | b in Structures(s) :: b in Live(s.heap) && Live(s.heap)[b] == 3)
    && ((forall i | 0 <= i < |s.heap| :: s.heap[i] == FREE) <==> LoadsIn(actions) == 0)
  }

  /** The balance of any run from boot that ends without processes. */
  lemma WhatRunsLeave(hb: int, blocks: nat, m: Memory, actions: seq<Action>)
    requires PoolBounds(hb, blocks)
    ensures Inv(Boot(hb, blocks, m))
    ensures EnabledRun(Boot(hb, blocks, m), actions) && Run(Boot(hb, blocks, m), actions).procs == map[] ==>
              Leaves(Run(Boot(hb, blocks, m), actions), actions)
  {
    hide Inv, Boot, EnabledRun, Run, Leaves;
    BootInv(hb, blocks, m);
    var s0 := Boot(hb, blocks, m);
    if EnabledRun(s0, actions) && Run(s0, actions).procs == map[] {
      BootEmpty(hb, blocks, m);
      RunStructures(s0, actions);
      FailedLoadsTook(s0, actions);
      Balance(Run(s0, actions), actions);
    }
  }

  lemma Balance(s: Sys, actions: seq<Action>)
    requires Inv(s) && s.procs == map[] && StructuresSized(s)
    requires |Structures(s)| == LoadsIn(actions) && |Lost(s)| == LostIn(actions)
    requires forall j | 0 <= j < |actions| && actions[j].FailedLoad? :: actions[j].allocations > 0
    ensures Leaves(s, actions)
  {
    assert Blocks(PROCESS_SIZE) == 3;
    hide Inv, Live, Blocks, LoadsIn, LostIn, Lost, WellFormed;
    NoProcessLeft(s);
    InvHeap(s);
    AllFreeIff(s.heap);
    LostWithLoads(actions);
  }

  lemma {:induction false} FailedLoadsTook(s: Sys, actions: seq<Action>)
    requires Inv(s) && EnabledRun(s, actions)
    ensures forall j | 0 <= j < |actions| && actions[j].FailedLoad? :: actions[j].allocations > 0
    decreases |actions|
  {
    hide Inv, Enabled, Apply;
    if actions != [] {
      if actions[0].FailedLoad? { FailedLoadTook(s, actions[0]); }
      FailedLoadsTook(Apply(s, actions[0]), actions[1..]);
      forall j | 0 < j < |actions| ensures actions[j] == actions[1..][j - 1] {}
    }
  }

  lemma FailedLoadTook(s: Sys, a: Action)
    requires Enabled(s, a) && a.FailedLoad?
    ensures a.allocations > 0
  {
    hide Granted, Wanted;
  }

  lemma BootEmpty(hb: int, blocks: nat, m: Memory)
    ensures var s := Boot(hb, blocks, m); Structures(s) == {} && Lost(s) == {} && StructuresSized(s)
  {
  }

  // ---------------------------------------------------------------- all of it

  /** A process can write exactly its stack window, its writeable segments and its live allocations ... */
  ghost predicate WritesOnlyOwnPages(s: Sys) {
    forall p, q: Page | p in s.procs :: WriteableAsOwned(s, p, q)
  }

  ghost predicate WriteableAsOwned(s: Sys, p: nat, q: Page)
    requires p in s.procs
  {
    var w := UserMayWrite(s.mem, s.procs[p].dir, q);
    && (w <==> OnStack(q) || ProgramWrites(s.procs[p].program, q) || exists i: nat :: InSlot(s, p, i, q))
    && (w ==> OwnFrame(s, p, FrameOf(Entry(s.mem, s.procs[p].dir, q))))
  }

  /** ... and memory of a process is no other's. */
  ghost predicate MemoryApart(s: Sys) {
    forall p, p', f: Frame | OwnFrame(s, p, f) && OwnFrame(s, p', f) :: p == p'
  }

  /** Wherever a run from boot leads, each process can write exactly its own pages, these lead to memory of its
      own, and no two processes share any. */
  lemma EveryRunIsSafe(hb: int, blocks: nat, m: Memory, actions: seq<Action>)
    requires PoolBounds(hb, blocks)
    ensures Inv(Boot(hb, blocks, m))
    ensures EnabledRun(Boot(hb, blocks, m), actions) ==>
              var s := Run(Boot(hb, blocks, m), actions);
              WritesOnlyOwnPages(s) && MemoryApart(s)
  {
    BootInv(hb, blocks, m);
    if EnabledRun(Boot(hb, blocks, m), actions) {
      hide OwnFrame, Inv, WriteableAsOwned;
      var s := Run(Boot(hb, blocks, m), actions);
      forall p, q: Page | p in s.procs ensures WriteableAsOwned(s, p, q) { PageIsSafe(s, p, q); }
      forall p, p', f: Frame | OwnFrame(s, p, f) && OwnFrame(s, p', f) ensures p == p' {
        ProcessesDisjoint(s, p, p', f);
      }
    }
  }

  lemma PageIsSafe(s: Sys, p: nat, q: Page)
    requires Inv(s) && p in s.procs
    ensures WriteableAsOwned(s, p, q)
  {
    hide OwnFrame, UserMayWrite, Entry, OnStack, ProgramWrites, FrameOf, Inv, InSlot;
    WriteableIsOwned(s, p, q);
  }
}
