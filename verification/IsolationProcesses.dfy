/**
  What loading, failing to load and terminating do, told without the steps: the process that comes to be, the bytes
  it reads, and what of heap and memory stays.
*/
module IsolationProcesses {
  import opened Words
  import opened HeapTable
  import HeapRuns
  import opened PhysicalMemory
  import opened PageTable
  import opened Directory
  import opened Ledger
  import opened ElfLoader
  import opened ImageMap
  import opened Isolation
  import opened IsolationSteps
  import opened IsolationLoad
  import opened IsolationFailures
  import opened IsolationContents
  import opened IsolationLifetime
  import opened IsolationRuns
  import opened IsolationOutcomes
  import opened IsolationEffects

  // ---------------------------------------------------------------- live chains of a load

  /** All live chains stay, and `n` come on top. */
  ghost predicate MoreLive(t: Table, u: Table, n: nat) {
    && |Live(u).Keys| == |Live(t).Keys| + n
    && forall b | b in Live(t) :: b in Live(u) && Live(u)[b] == Live(t)[b]
  }

  lemma {:induction false} TakenLive(s: Sys, o: Owners, ws: seq<Want>)
    requires Consistent(s, o) && Granted(s, ws)
    ensures MoreLive(s.heap, Taken(s, ws).heap, |ws|)
    decreases |ws|
  {
    hide Consistent, PartStep, PartBlock, Live, MetaKept, MarkTaken;
    if ws != [] {
      var w := ws[0];
      PartKeeps(s, o, w.size, w.part, w.bytes);
      PartFacts(s, o, w.size, w.part, w.bytes);
      var s', b := PartStep(s, w.size, w.part, w.bytes), PartBlock(s, w.size);
      OneMore(Live(s.heap), b, Blocks(w.size));
      TakenLive(s', o[b := OwnChain(b)], ws[1..]);
    }
  }

  lemma OneMore(l: map<nat, nat>, b: nat, n: nat)
    requires b !in l
    ensures |l[b := n].Keys| == |l.Keys| + 1
  {
    assert l[b := n].Keys == l.Keys + {b};
  }

  /** A load adds a chain for each of its allocations and 1026 for the directory. */
  lemma LoadLive(s: Sys, p: nat, f: File)
    requires Inv(s) && Enabled(s, Load(p, f))
    ensures MoreLive(s.heap, Apply(s, Load(p, f)).heap, (if f.ElfImage? then 5 else 6) + 1026)
  {
    hide Consistent, Taken, Spots, Granted, HeapRuns.FreeCount, Wanted, PartsAt, ProgramAt, SpawnMemory, Collected,
      ProgramBelow, WritesInFile, ImageMappable, Spawnable, LoadStep, Live, Inv, SpawnStep, SpawnBlocks;
    var o := OwnersOf(s);
    var o1, parts, stack := LoadSpawns(s, o, p, f);
    var s1 := Taken(s, Wanted(f));
    TakenLive(s, o, Wanted(f));
    WantsCount(f);
    SpawnLive(s1, o1, p, LoadedProgram(s, f), stack, parts);
    SpawnCounts(s1, o1, p, LoadedProgram(s, f), stack, parts);
  }

  lemma SpawnCounts(s: Sys, o: Owners, p: nat, program: Program, stack: Word, parts: map<Part, nat>)
    requires Spawnable(s, o, p, program, stack, parts)
    ensures MoreLive(s.heap, SpawnStep(s, p, program, stack, parts).heap, 1026)
  {
    hide Consistent, Live, HeapRuns.TakeAll, SpawnMemory, HeapRuns.FreeCount, Equipped, WellFormed, SpawnBlocks,
      FreshLoaded, HeapRuns.Batch, MetaKept, IsBatch, SpawnStep, Spawnable, SpawnFrames, NewOwners, NewOwner, Exists,
      Tied;
    SpawnHeap(s, o, p, program, stack, parts);
    SpawnLive(s, o, p, program, stack, parts);
    var ss := SpawnBlocks(s);
    CountOn(s.heap, SpawnStep(s, p, program, stack, parts).heap, NewOwners(p, ss), ss);
  }

  lemma CountOn(t: Table, u: Table, new_: map<nat, Owner>, ss: seq<nat>)
    requires Distinct(ss) && new_.Keys == HeapRuns.Elements(ss) && Live(u).Keys == Live(t).Keys + new_.Keys
    requires forall b | b in Live(t) :: b !in new_
    ensures |Live(u).Keys| == |Live(t).Keys| + |ss|
  {
    hide Live;
    forall j | 0 <= j < |ss| ensures ss[j] in new_.Keys {}
    MoreElements(Live(t).Keys, ss);
  }

  // ---------------------------------------------------------------- the process of a load

  /** `s'` is `s` with the process that file `f` makes: its program lies at its image, its stack at its stack's
      chain, no slot is filled, and what was there before is there. */
  ghost predicate HasLoaded(s: Sys, s': Sys, p: nat, f: File) {
    && s'.hb == s.hb && |s'.heap| == |s.heap| && PoolBounds(s.hb, |s.heap|) && Loadable(f)
    && s'.procs.Keys == s.procs.Keys + {p} && (forall p' | p' in s.procs :: s'.procs[p'] == s.procs[p'])
    && (forall b | b in s.chains :: b in s'.chains && s'.chains[b] == s.chains[b])
    && var x := s'.procs[p];
       && Image in x.parts && UserStack in x.parts && x.parts[Image] < |s.heap| && x.parts[UserStack] < |s.heap|
       && x.stack == 4096 * (s.hb + x.parts[UserStack])
       && x.program == (if f.ElfImage? then Elf(4096 * (s.hb + x.parts[Image]), f.headers)
                        else Binary(4096 * (s.hb + x.parts[Image]), |f.bytes|))
       && (forall i | 0 <= i < MAX_ALLOCATIONS :: x.slots[i].ptr == 0 && x.slots[i].size == 0)
  }

  lemma LoadMakes(s: Sys, p: nat, f: File)
    requires Inv(s) && Enabled(s, Load(p, f))
    ensures HasLoaded(s, Apply(s, Load(p, f)), p, f)
  {
    hide Consistent, Taken, Spots, Granted, HeapRuns.FreeCount, Wanted, PartsAt, SpawnMemory, Collected,
      HeapRuns.TakeAll, ProgramBelow, WritesInFile, ImageMappable, Inv;
    var o := OwnersOf(s);
    var ws := Wanted(f);
    var o1 := TakenKeeps(s, o, ws);
    var ss := Spots(s, ws);
    PartsAre(f, ss, 0);
    var i := PartFound(f, ss, Image);
    var j := PartFound(f, ss, UserStack);
    ClaimKeeps(s, Taken(s, ws), p, f, ss);
  }

  lemma ClaimKeeps(s: Sys, s1: Sys, p: nat, f: File, ss: seq<nat>)
    requires Loadable(f) && Collected(s, s1, Wanted(f), ss)
    ensures forall b | b in s.chains ::
              b in Claim(s1.chains, p, PartsAt(f, ss)) && Claim(s1.chains, p, PartsAt(f, ss))[b] == s.chains[b]
  {
    hide Wanted, PartsAt, Blocks;
    CollectedNew(s, s1, f, ss);
  }

  /** The image holds the file. */
  lemma LoadFills(s: Sys, p: nat, f: File, i: nat)
    requires Inv(s) && Enabled(s, Load(p, f)) && i < |f.bytes|
    ensures HasLoaded(s, Apply(s, Load(p, f)), p, f)
    ensures var s' := Apply(s, Load(p, f));
            var a := 4096 * (s.hb + s'.procs[p].parts[Image]) + i;
            a < 0x1_0000_0000 && ByteAt(s'.mem, a) == f.bytes[i]
  {
    hide Consistent, Taken, Spots, Granted, HeapRuns.FreeCount, Wanted, PartsAt, SpawnMemory, HeapRuns.TakeAll,
      ProgramBelow, WritesInFile, ImageMappable, Inv, ByteAt, HasLoaded, SpawnFrames;
    LoadMakes(s, p, f);
    var o := OwnersOf(s);
    LoadBytes(s, o, p, f, i);
  }

  /** Every page of its directory has the entry of stack, program or identity, and all leave it to the tables whether
      it may be written. */
  lemma LoadMaps(s: Sys, p: nat, f: File, q: Page)
    requires Inv(s) && Enabled(s, Load(p, f))
    ensures HasLoaded(s, Apply(s, Load(p, f)), p, f)
    ensures var s' := Apply(s, Load(p, f));
            var x := s'.procs[p];
            && Entry(s'.mem, x.dir, q) == LoadedEntry(x.program, x.stack, q, MakeEntry(q, 5))
            && (UserMayWrite(s'.mem, x.dir, q) <==> MayWrite(Entry(s'.mem, x.dir, q)))
  {
    hide Consistent, Taken, Spots, Granted, HeapRuns.FreeCount, Wanted, PartsAt, ProgramAt, SpawnMemory,
      HeapRuns.TakeAll, ProgramBelow, WritesInFile, ImageMappable, Inv, HasLoaded, SpawnFrames, LoadedEntry, Entry,
      UserMayWrite, MayWrite, Equipped;
    LoadMakes(s, p, f);
    var o := OwnersOf(s);
    var o1, parts, stack := LoadSpawns(s, o, p, f);
    var s1, s' := Taken(s, Wanted(f)), Apply(s, Load(p, f));
    LoadedDirectory(s1, o1, p, LoadedProgram(s, f), stack, parts, q);
  }

  lemma LoadedDirectory(s: Sys, o: Owners, p: nat, program: Program, stack: Word, parts: map<Part, nat>, q: Page)
    requires Spawnable(s, o, p, program, stack, parts)
    ensures var s' := SpawnStep(s, p, program, stack, parts);
            && s'.procs[p].program == program && s'.procs[p].stack == stack
            && Entry(s'.mem, s'.procs[p].dir, q) == LoadedEntry(program, stack, q, MakeEntry(q, 5))
            && (UserMayWrite(s'.mem, s'.procs[p].dir, q) <==> MayWrite(Entry(s'.mem, s'.procs[p].dir, q)))
  {
    hide Consistent, HeapRuns.TakeAll, SpawnMemory, HeapRuns.Batch, HeapRuns.FreeCount, Equipped, LoadedEntry, Entry,
      SpawnBlocks, MayWrite, UserMayWrite;
    SpawnHeap(s, o, p, program, stack, parts);
    var s' := SpawnStep(s, p, program, stack, parts);
    OpenDirectory(s'.mem, s'.procs[p].dir, q);
  }

  /** Byte `k` of segment `i` is well-formed, in the file, and on a page that neither the stack nor a later segment
      takes. */
  ghost predicate Visible(base: Word, f: File, i: nat, k: nat) {
    && f.ElfImage? && i < |f.headers|
    && var h := f.headers[i];
       && SegmentRight(base, h) && k < h.memsz && h.offset + k < |f.bytes|
       && !OnStack((h.vaddr + k) / PAGE_SIZE)
       && forall j | i < j < |f.headers| :: !OnPage(base, f.headers[j], (h.vaddr + k) / PAGE_SIZE)
  }

  /** Read through the directory of process `p`, byte `k` of the segment is the file's byte at that place, and its page
      has the rights of the segment. */
  ghost predicate ReadsFile(s: Sys, p: nat, f: File, i: nat, k: nat) {
    && p in s.procs && f.ElfImage? && i < |f.headers|
    && var h := f.headers[i];
       && h.vaddr + k < 0x1_0000_0000 && 0 <= h.offset + k < |f.bytes|
       && ByteAt(s.mem, Translate(s.mem, s.procs[p].dir, h.vaddr + k)) == f.bytes[h.offset + k]
       && RightsOf(h, Entry(s.mem, s.procs[p].dir, (h.vaddr + k) / PAGE_SIZE))
  }

  /** Programs read their file. */
  lemma LoadedSegmentReads(s: Sys, p: nat, f: File, s': Sys, i: nat, k: nat)
    requires Inv(s) && Enabled(s, Load(p, f)) && s' == Apply(s, Load(p, f)) && HasLoaded(s, s', p, f)
    requires Visible(ImageBase(s'.procs[p].program), f, i, k)
    ensures ReadsFile(s', p, f, i, k)
  {
    hide Inv, Apply, Enabled, ByteAt, Entry, LoadedEntry, OnPage, OnStack, RightsOf, UserMayWrite;
    var h := f.headers[i];
    var x, v := s'.procs[p], h.vaddr + k;
    LoadMaps(s, p, f, v / PAGE_SIZE);
    var base := ImageBase(x.program);
    var e := Entry(s'.mem, x.dir, v / PAGE_SIZE);
    LoadedSegmentAddress(base, f.headers, i, x.stack, v, MakeEntry(v / PAGE_SIZE, 5), e);
    LoadFills(s, p, f, h.offset + k);
    assert Translate(s'.mem, x.dir, v) == base + h.offset + k;
  }

  /** Byte `k` of a flat file is read at 0x400000 + `k`. */
  lemma LoadedFlatReads(s: Sys, p: nat, f: File, s': Sys, k: nat)
    requires Inv(s) && Enabled(s, Load(p, f)) && s' == Apply(s, Load(p, f)) && HasLoaded(s, s', p, f)
    requires f.FlatImage? && k < |f.bytes| && 0x40_0000 + k < 0x1_0000_0000
    ensures ByteAt(s'.mem, Translate(s'.mem, s'.procs[p].dir, 0x40_0000 + k)) == f.bytes[k]
  {
    hide Inv, Apply, Enabled, ByteAt, Entry, UserMayWrite, MayWrite, LoadedEntry;
    var x, v := s'.procs[p], 0x40_0000 + k;
    LoadMaps(s, p, f, v / PAGE_SIZE);
    LoadFills(s, p, f, k);
    var e := Entry(s'.mem, x.dir, v / PAGE_SIZE);
    FlatAddress(x.program.ptr, x.program.size, x.stack, v, MakeEntry(v / PAGE_SIZE, 5), e);
  }

  lemma FlatAddress(ptr: Word, size: Word, stack: Word, v: Word, old_: int, e: Word)
    requires ptr % PAGE_SIZE == 0 && 0x40_0000 <= v < 0x40_0000 + size
    requires e == LoadedEntry(Binary(ptr, size), stack, v / PAGE_SIZE, old_)
    ensures AlignDown(e) + v % PAGE_SIZE == ptr + (v - 0x40_0000)
  {
  }

  // ---------------------------------------------------------------- memory that stays

  /** No load, successful or not, writes outside the free blocks. */
  lemma LoadsSpare(s: Sys, a: Action, c: Word)
    requires Inv(s) && Enabled(s, a) && (a.Load? || a.FailedLoad? || a.FailedMap?)
    requires Settled(s.hb, s.heap, c / PAGE_SIZE)
    ensures ByteAt(Apply(s, a).mem, c) == ByteAt(s.mem, c)
  {
    hide Consistent, Inv, ByteAt, LoadGranted, LoadStep, FailedLoadStep, FailedMapStep, GivesUp, MapFails, Settled,
      SameFrame;
    var o := OwnersOf(s);
    match a {
      case Load(p, f) => LoadSpares(s, o, p, f, c / PAGE_SIZE);
      case FailedLoad(f, n) => FailedLoadSpares(s, o, f, n, c / PAGE_SIZE);
      case FailedMap(f) => FailedMapSpares(s, o, f, c / PAGE_SIZE);
    }
    ByteOfFrame(s.mem, Apply(s, a).mem, c);
  }

  lemma FailedLoadSpares(s: Sys, o: Owners, f: File, n: nat, g: Frame)
    requires Consistent(s, o) && GivesUp(s, f, n) && Settled(s.hb, s.heap, g)
    ensures SameFrame(s.mem, FailedLoadStep(s, f, n).mem, g)
  {
    hide Consistent, Wanted, SameFrame, Settled;
    TakenSpares(s, o, Wanted(f)[..n], g);
  }

  lemma FailedMapSpares(s: Sys, o: Owners, f: File, g: Frame)
    requires Consistent(s, o) && MapFails(s, f) && Settled(s.hb, s.heap, g)
    ensures WellFormed(Taken(s, Wanted(f)).heap)
    ensures SameFrame(s.mem, FailedMapStep(s, f).mem, g)
  {
    hide Consistent, WellFormed, Taken, Granted, Wanted, HeapRuns.FreeCount, Spots, ImageMappable, PartsAt, ProgramAt,
      SpawnMemory, Settled, SameFrame, Collected, LoadedProgram, MetaKept;
    var o0 := FailedMapIs(s, o, f);
    var s1, parts := Taken(s, Wanted(f)), PartsAt(f, Spots(s, Wanted(f)));
    var o1 := TakenKeeps(s, o, Wanted(f));
    PartsAre(f, Spots(s, Wanted(f)), 0);
    var j := PartFound(f, Spots(s, Wanted(f)), UserStack);
    TakenSpares(s, o, Wanted(f), g);
    SpawnSpares(s1, o1, LoadedProgram(s, f), PAGE_SIZE * (s.hb + parts[UserStack]), g);
    SameFrameTrans(s.mem, s1.mem, FailedMemory(s, f), g);
  }

  /** A load that gives up leaves its first allocations live, one that fails in mapping all but the last; both leave
      processes and live chains as they were. */
  lemma FailuresLeave(s: Sys, a: Action)
    requires Inv(s) && Enabled(s, a) && (a.FailedLoad? || a.FailedMap?)
    ensures Apply(s, a).procs == s.procs && Apply(s, a).hb == s.hb
    ensures a.FailedLoad? ==> MoreLive(s.heap, Apply(s, a).heap, a.allocations)
    ensures a.FailedMap? ==> MoreLive(s.heap, Apply(s, a).heap, 4)
  {
    hide Consistent, Inv, WellFormed, Taken, Granted, Wanted, HeapRuns.FreeCount, Spots, ImageMappable, PartsAt,
      ProgramAt, FailedMapStep, FailedMemory, MetaKept, Collected, Live;
    var o := OwnersOf(s);
    match a {
      case FailedLoad(f, n) => TakenLive(s, o, Wanted(f)[..n]);
      case FailedMap(f) =>
        var o' := FailedMapIs(s, o, f);
        WantsCount(f);
        TakenLive(s, o, WantedFirst(f));
    }
  }

  // ---------------------------------------------------------------- termination

  /** A chain that process `p` holds and gives back when it ends: an allocation, its directory, a page table, its chunk,
      or one of its parts other than the process structure. */
  ghost predicate GivesBack(s: Sys, p: nat, b: nat) {
    && p in s.procs
    && (|| (exists i: nat :: Holds(s, p, i) && s.procs[p].slots[i].ptr / 4096 == s.hb + b)
        || s.procs[p].dir == s.hb + b || s.procs[p].chunk == s.hb + b
        || (exists i: Index :: TableFrame(s.mem, s.procs[p].dir, i) == s.hb + b)
        || (exists k :: k in s.procs[p].parts && k != ProcessStruct && s.procs[p].parts[k] == b))
  }

  /** Owner `w` goes with process `p`. */
  ghost predicate GoesWith(s: Sys, p: nat, w: Owner)
    requires Exists(s, w)
  {
    match w
    case OwnChain(b) => s.chains[b].holder == Of(p) && s.chains[b].part != ProcessStruct
    case _ => w.pid == p
  }

  lemma GivesBackIs(s: Sys, o: Owners, p: nat, b: nat)
    requires Consistent(s, o) && p in s.procs && b in Live(s.heap)
    ensures b in o && Exists(s, o[b]) && (GivesBack(s, p, b) <==> GoesWith(s, p, o[b]))
  {
    hide Consistent, Live, GivesBack, GoesWith, Exists, Place;
    LiveOwner(s, o, b);
    if GivesBack(s, p, b) { GivenBackGoes(s, o, p, b); }
    if GoesWith(s, p, o[b]) { GoneIsGivenBack(s, o, p, b); }
  }

  lemma GivenBackGoes(s: Sys, o: Owners, p: nat, b: nat)
    requires Consistent(s, o) && GivesBack(s, p, b)
    ensures b in o && Exists(s, o[b]) && GoesWith(s, p, o[b])
  {
    hide Consistent, Live, ProgramFits, TableFrame;
    LoadOf(s, o, p);
    if i: nat :| Holds(s, p, i) && s.procs[p].slots[i].ptr / 4096 == s.hb + b {
      HeldPlace(s, o, OwnSlot(p, i));
    } else if s.procs[p].dir == s.hb + b {
      HeldPlace(s, o, OwnDirectory(p));
    } else if s.procs[p].chunk == s.hb + b {
      HeldPlace(s, o, OwnChunk(p));
    } else if i: Index :| TableFrame(s.mem, s.procs[p].dir, i) == s.hb + b {
      HeldPlace(s, o, OwnTable(p, i));
    } else {
      var k :| k in s.procs[p].parts && k != ProcessStruct && s.procs[p].parts[k] == b;
      assert Exists(s, OwnChain(b));
      HeldPlace(s, o, OwnChain(b));
    }
  }

  lemma GoneIsGivenBack(s: Sys, o: Owners, p: nat, b: nat)
    requires Consistent(s, o) && p in s.procs && b in o && Exists(s, o[b]) && Place(s, o[b]) == b
    requires GoesWith(s, p, o[b])
    ensures GivesBack(s, p, b)
  {
    hide Consistent, Live, ProgramFits, TableFrame;
    HolderOf(s, o);
    match o[b] {
      case OwnSlot(_, i) => assert Holds(s, p, i);
      case OwnTable(_, i) => assert TableFrame(s.mem, s.procs[p].dir, i) == s.hb + b;
      case _ =>
    }
  }

  /** Owners that do not go with the process hold what they held. */
  lemma WhoStays(s: Sys, p: nat, w: Owner)
    requires Inv(s) && p in s.procs
    ensures var s' := EndStep(s, p);
            && (Exists(s, w) && !GoesWith(s, p, w) ==> SameOwner(s, s', w))
            && (Exists(s', w) ==> SameOwner(s, s', w) && !GoesWith(s, p, w))
  {
    hide Inv, TerminateStep, RetireBlocks, DirectoryFrames, PartsOf, SameTables, HeapRuns.FreeAll;
    EndInv(s, p);
    var s1, s' := TerminateStep(s, p, MAX_ALLOCATIONS), EndStep(s, p);
    UntouchedKeys(s, s1, p);
    if w.OwnTable? && w.pid != p && w.pid in s.procs {
      SameWordsSameTables(s.mem, s1.mem, s.procs[w.pid].dir);
    }
  }

  /** Termination gives back exactly what the process held but its structure: every other chain stays live, every other
      process is as it was, and no byte is written but in the process's own page tables. */
  lemma TerminateGivesBack(s: Sys, p: nat, b: nat)
    requires Inv(s) && Enabled(s, Terminate(p))
    ensures var s' := Apply(s, Terminate(p));
            && s'.procs == s.procs - {p} && s'.hb == s.hb
            && (b in Live(s'.heap) <==> b in Live(s.heap) && !GivesBack(s, p, b))
            && (b in Live(s'.heap) && b in Live(s.heap) ==> Live(s'.heap)[b] == Live(s.heap)[b])
  {
    hide Consistent, Inv, Live, EndStep, GivesBack, GoesWith, Exists, Place, Extent;
    var s' := Apply(s, Terminate(p));
    var o := OwnersOf(s);
    var o' := OwnersOf(s');
    EndKeeps(s, p);
    if b in Live(s.heap) {
      GivesBackIs(s, o, p, b);
      var w := o[b];
      LiveOwner(s, o, b);
      WhoStays(s, p, w);
      HeldPlace(s, o, w);
      if !GoesWith(s, p, w) { HeldPlace(s', o', w); }
    }
    if b in Live(s'.heap) {
      LiveOwner(s', o', b);
      WhoStays(s, p, o'[b]);
      HeldPlace(s, o, o'[b]);
      HeldPlace(s', o', o'[b]);
    }
  }

  lemma EndKeeps(s: Sys, p: nat)
    requires Inv(s) && p in s.procs
    ensures EndStep(s, p).procs == s.procs - {p} && EndStep(s, p).hb == s.hb
    ensures SameTables(s.mem, EndStep(s, p).mem, s.procs[p].dir)
    ensures EndStep(s, p).chains == Abandon(s.chains, p)
  {
    hide Inv, TerminateStep, RetireBlocks, DirectoryFrames, PartsOf, SameTables, HeapRuns.FreeAll;
    EndInv(s, p);
    var s1 := TerminateStep(s, p, MAX_ALLOCATIONS);
    UntouchedKeys(s, s1, p);
    assert s1.procs - {p} == s.procs - {p};
  }

  lemma TerminateSparesMemory(s: Sys, p: nat, c: Word)
    requires Inv(s) && Enabled(s, Terminate(p))
    ensures !IsTable(s.mem, s.procs[p].dir, c / PAGE_SIZE) ==> ByteAt(Apply(s, Terminate(p)).mem, c) == ByteAt(s.mem, c)
  {
    hide Inv, ByteAt, IsTable, EndStep;
    EndKeeps(s, p);
    if !IsTable(s.mem, s.procs[p].dir, c / PAGE_SIZE) { ByteOfFrame(s.mem, Apply(s, Terminate(p)).mem, c); }
  }
}
