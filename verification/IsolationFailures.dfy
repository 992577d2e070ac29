/**
  process_load_for_slot when it fails: what such a load keeps taken.
*/
module IsolationFailures {
  import opened Words
  import opened HeapTable
  import opened HeapRuns
  import opened PhysicalMemory
  import opened PageTable
  import opened Directory
  import opened Ledger
  import opened ImageMap
  import opened Isolation
  import opened IsolationSteps
  import opened IsolationLoad

  // ---------------------------------------------------------------- giving up before the task

  /**
    A load that gives up after `n` allocations, because the file cannot be read or there is no room for the
    stack: the code returns an error and keeps no pointer to what it took.
  */
  ghost predicate GivesUp(s: Sys, f: File, n: nat) {
    && Loadable(f) && 2 <= n <= |Wanted(f)| - 2 && Granted(s, Wanted(f)[..n])
  }

  ghost function FailedLoadStep(s: Sys, f: File, n: nat): Sys
    requires GivesUp(s, f, n)
  {
    Taken(s, Wanted(f)[..n])
  }

  lemma FailedLoadKeeps(s: Sys, o: Owners, f: File, n: nat) returns (o': Owners)
    requires Consistent(s, o) && GivesUp(s, f, n)
    ensures Consistent(FailedLoadStep(s, f, n), o')
  {
    hide Consistent, Collected;
    o' := TakenKeeps(s, o, Wanted(f)[..n]);
  }

  // ---------------------------------------------------------------- giving up while mapping

  /** A load that fails as late as in mapping the image, because a header's end wraps. */
  ghost predicate MapFails(s: Sys, f: File) {
    && Loadable(f) && f.ElfImage? && PoolBounds(s.hb, |s.heap|)
    && Granted(s, Wanted(f)) && FreeCount(Taken(s, Wanted(f)).heap) >= DIRECTORY_BLOCKS
    && !ImageMappable(LoadedProgram(s, f).elfMemory, f.headers)
  }

  /** All that the load took but the task structure, which comes last. */
  function WantedFirst(f: File): seq<Want>
    requires Loadable(f)
  {
    Wanted(f)[..|Wanted(f)| - 1]
  }

  /** The memory when mapping has failed, and the frames of the directory. */
  ghost function FailedMemory(s: Sys, f: File): Memory
    requires MapFails(s, f)
  {
    var s1, parts := Taken(s, Wanted(f)), PartsAt(f, Spots(s, Wanted(f)));
    SpawnMemory(s1.mem, SpawnFrames(s1), LoadedProgram(s, f), PAGE_SIZE * (s.hb + parts[UserStack]))
  }

  /** Mapping stops with an error and task_free drops directory and task. Process structure, ELF structure, image and
      stack stay taken. */
  ghost function FailedMapStep(s: Sys, f: File): Sys
    requires MapFails(s, f) && WellFormed(Taken(s, Wanted(f)).heap)
  {
    var s1, task := Taken(s, Wanted(f)), PartsAt(f, Spots(s, Wanted(f)))[TaskStruct];
    FailedDrop(s, f);
    var t := DropDirectory(s.hb, TakeAll(s1.heap, DIRECTORY_BLOCKS).0, FailedMemory(s, f), SpawnFrames(s1)[1025]);
    Sys(s.hb, FreeChain(t, task), FailedMemory(s, f), s.procs, s1.chains - {task})
  }

  /** In such a load process_map_memory fails, and task_free gets back all of the directory's blocks. */
  lemma FailedDrop(s: Sys, f: File)
    requires MapFails(s, f) && WellFormed(Taken(s, Wanted(f)).heap)
    ensures var s1 := Taken(s, Wanted(f));
            && IsBatch(SpawnFrames(s1))
            && (forall stack: Word ::
                  MapMemory(NewDirectory(s1.mem, SpawnFrames(s1), TASK_FLAGS), SpawnFrames(s1)[0], LoadedProgram(s, f),
                            stack).0 != 0)
            && InPool(s.hb, |s.heap|, DirectoryFrames(FailedMemory(s, f), SpawnFrames(s1)[1025]))
            && DropDirectory(s.hb, TakeAll(s1.heap, DIRECTORY_BLOCKS).0, FailedMemory(s, f), SpawnFrames(s1)[1025])
               == s1.heap
  {
    hide WellFormed, Taken, Granted, FreeCount, Spots, Wanted, TakeAll, SameTables, SpawnMemory, PartsAt, ImageMappable;
    var s1, parts := Taken(s, Wanted(f)), PartsAt(f, Spots(s, Wanted(f)));
    PartsAre(f, Spots(s, Wanted(f)), 0);
    var j := PartFound(f, Spots(s, Wanted(f)), UserStack);
    BatchOfTake(s1.heap, s1.hb);
    SpawnMemoryOutside(s1.mem, SpawnFrames(s1), LoadedProgram(s, f), PAGE_SIZE * (s.hb + parts[UserStack]));
    DropUndoesBuild(s1.heap, s1.mem, FailedMemory(s, f), s1.hb, TASK_FLAGS);
    forall stack: Word
      ensures MapMemory(NewDirectory(s1.mem, SpawnFrames(s1), TASK_FLAGS), SpawnFrames(s1)[0], LoadedProgram(s, f),
                        stack).0 != 0
    {
      SpawnMemoryOutside(s1.mem, SpawnFrames(s1), LoadedProgram(s, f), stack);
    }
  }

  /** So the load leaves what it took before the task, in other memory. */
  lemma FailedMapIs(s: Sys, o: Owners, f: File) returns (o': Owners)
    requires Consistent(s, o) && MapFails(s, f)
    ensures WellFormed(Taken(s, Wanted(f)).heap) && Granted(s, WantedFirst(f))
    ensures var s0 := Taken(s, WantedFirst(f));
            && Consistent(s0, o') && Collected(s, s0, WantedFirst(f), Spots(s, WantedFirst(f)))
            && FailedMapStep(s, f) == s0.(mem := FailedMemory(s, f))
            && MetaKept(s0, FailedMemory(s, f))
  {
    hide Consistent, WellFormed, Taken, Granted, FreeCount, Spots, Wanted, TakeAll, PartStep, PartBlock, Collected,
      PartsAt, MetaKept, DirectoryFrames, ImageMappable, SpawnMemory, Live, MarkTaken, FreeChain, FreeRun,
      FailedMemory;
    var ws, vs := Wanted(f), WantedFirst(f);
    var w := TaskWant(f);
    TakenSplit(s, vs, [w]);
    TakenOne(Taken(s, vs), w);
    o' := TakenKeeps(s, o, vs);
    var o1 := TakenKeeps(s, o, ws);
    var s0, s1 := Taken(s, vs), Taken(s, ws);
    ConsistentHeap(s1, o1);
    PartFacts(s0, o', w.size, w.part, w.bytes);
    FailedDrop(s, f);
    var b := PartBlock(s0, w.size);
    NoChainThere(s0, o', b);
    ConsistentHeap(s0, o');
    FreeUndoesMark(s0.heap, b, Blocks(w.size));
    FailedSpares(s, s0, o1, f);
    assert s0.chains[b := Chain(Blocks(w.size), w.part, Loose)] - {b} == s0.chains;
  }

  /** The directory that failed was built in free blocks. */
  lemma FailedSpares(s: Sys, s0: Sys, o1: Owners, f: File)
    requires MapFails(s, f) && Consistent(Taken(s, Wanted(f)), o1)
    requires s0.procs == s.procs && s0.hb == s.hb && MetaKept(s0, Taken(s, Wanted(f)).mem)
    ensures MetaKept(s0, FailedMemory(s, f))
  {
    hide Consistent, WellFormed, Taken, Granted, FreeCount, Spots, Wanted, TakeAll, PartsAt, ImageMappable,
      SpawnMemory, Live, DirectoryOpen, Fresh, SameTables, LoadedProgram, MetaKept;
    var s1, parts := Taken(s, Wanted(f)), PartsAt(f, Spots(s, Wanted(f)));
    var fs, m := SpawnFrames(s1), FailedMemory(s, f);
    ConsistentHeap(s1, o1);
    BatchOfTake(s1.heap, s1.hb);
    PartsAre(f, Spots(s, Wanted(f)), 0);
    var j := PartFound(f, Spots(s, Wanted(f)), UserStack);
    SpawnMemoryOutside(s1.mem, fs, LoadedProgram(s, f), PAGE_SIZE * (s.hb + parts[UserStack]));
    KeepDirectories(s0, s1.mem);
    forall w | Exists(s0, w) && IsMeta(w) ensures SameFrame(s0.mem, m, OwnedFrame(s0, w)) {
      SameOwned(s0, s1, w);
      SpawnFramesNew(s1, o1, w);
      SameFrameTrans(s0.mem, s1.mem, m, OwnedFrame(s0, w));
    }
    MetaKeptIs(s0, m);
  }

  lemma SameOwned(s: Sys, s': Sys, w: Owner)
    requires s'.procs == s.procs && Exists(s, w) && IsMeta(w) && MetaKept(s, s'.mem)
    ensures Exists(s', w) && OwnedFrame(s', w) == OwnedFrame(s, w)
    ensures SameFrame(s.mem, s'.mem, OwnedFrame(s, w))
  {
    if w.OwnTable? {
      assert Exists(s, OwnDirectory(w.pid)) && OwnedFrame(s, OwnDirectory(w.pid)) == s.procs[w.pid].dir;
    }
  }

  lemma MetaKeptIs(s: Sys, m: Memory)
    requires forall w | Exists(s, w) && IsMeta(w) :: SameFrame(s.mem, m, OwnedFrame(s, w))
    ensures MetaKept(s, m)
  {
  }

  lemma FailedMapKeeps(s: Sys, o: Owners, f: File) returns (o': Owners)
    requires Consistent(s, o) && MapFails(s, f)
    ensures WellFormed(Taken(s, Wanted(f)).heap) && Consistent(FailedMapStep(s, f), o')
  {
    hide Consistent, WellFormed, FailedMapStep, FailedMemory, MetaKept, Collected, Taken, Granted, Wanted, FreeCount,
      Spots, ImageMappable, PartsAt, ProgramAt;
    o' := FailedMapIs(s, o, f);
    MemKeeps(Taken(s, WantedFirst(f)), o', FailedMemory(s, f));
  }

  /** The last allocation of a load. */
  lemma TaskWant(f: File) returns (w: Want)
    requires Loadable(f)
    ensures w.part == TaskStruct && w == Want(TaskStruct, TASK_SIZE, []) && Wanted(f) == WantedFirst(f) + [w]
    ensures forall ss: seq<nat> | |ss| == |Wanted(f)| ::
              TaskStruct in PartsAt(f, ss) && PartsAt(f, ss)[TaskStruct] == ss[|ss| - 1]
  {
    w := Want(TaskStruct, TASK_SIZE, []);
  }
}
