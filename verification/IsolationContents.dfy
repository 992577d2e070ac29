/**
  What memory holds once a program is loaded: the bytes of its file, where the program reads them.
*/
module IsolationContents {
  import opened Words
  import opened HeapTable
  import HeapRuns
  import opened PhysicalMemory
  import opened PageTable
  import opened Directory
  import opened Ledger
  import opened ElfLoader
  import opened ImageMap
  import opened Isolation
  import opened IsolationSteps
  import opened IsolationLoad

  // ---------------------------------------------------------------- frames that stay

  /** Frame `g` is no free block. */
  ghost predicate Settled(hb: int, t: Table, g: Frame) {
    hb <= g < hb + |t| ==> !IsFree(t[g - hb])
  }

  /** An allocation writes no settled frame, and its own frames are settled afterwards. */
  lemma PartSpares(s: Sys, o: Owners, w: Want, g: Frame)
    requires Consistent(s, o) && Takable(s, w.size, w.bytes)
    ensures Blocks(w.size) >= 1
    ensures var s', f := PartStep(s, w.size, w.part, w.bytes), s.hb + PartBlock(s, w.size);
            && (Settled(s.hb, s.heap, g) ==> SameFrame(s.mem, s'.mem, g) && Settled(s.hb, s'.heap, g))
            && (f <= g < f + Blocks(w.size) ==> Settled(s.hb, s'.heap, g))
  {
    hide Consistent, WellFormed, Live, IsFree, PartStep, PartBlock, ByteAt, MetaKept;
    ConsistentHeap(s, o);
    PartFacts(s, o, w.size, w.part, w.bytes);
    var s', f := PartStep(s, w.size, w.part, w.bytes), s.hb + PartBlock(s, w.size);
    if Settled(s.hb, s.heap, g) {
      forall a: Word | a / PAGE_SIZE == g ensures ByteAt(s'.mem, a) == ByteAt(s.mem, a) {
        PartBytes(s, w.size, w.part, w.bytes, a);
      }
      BytesSameFrame(s.mem, s'.mem, g);
    }
  }

  lemma {:induction false} TakenSpares(s: Sys, o: Owners, ws: seq<Want>, g: Frame)
    requires Consistent(s, o) && Granted(s, ws) && Settled(s.hb, s.heap, g)
    ensures SameFrame(s.mem, Taken(s, ws).mem, g) && Settled(s.hb, Taken(s, ws).heap, g)
    decreases |ws|
  {
    hide Consistent, PartStep, PartBlock, Settled, SameFrame;
    if ws == [] {
      SameFrameItself(s.mem, g);
    } else {
      var w := ws[0];
      PartSpares(s, o, w, g);
      PartKeeps(s, o, w.size, w.part, w.bytes);
      var s' := PartStep(s, w.size, w.part, w.bytes);
      TakenSpares(s', o[PartBlock(s, w.size) := OwnChain(PartBlock(s, w.size))], ws[1..], g);
      SameFrameTrans(s.mem, s'.mem, Taken(s, ws).mem, g);
    }
  }

  lemma SameFrameItself(m: Memory, g: Frame)
    ensures SameFrame(m, m, g)
  {
  }

  lemma SettledNotNew(s: Sys, o: Owners, g: Frame)
    requires Consistent(s, o) && HeapRuns.FreeCount(s.heap) >= DIRECTORY_BLOCKS && Settled(s.hb, s.heap, g)
    ensures PoolBounds(s.hb, |s.heap|) && g !in SpawnFrames(s)
  {
    hide Consistent, WellFormed, Live, HeapRuns.TakeAll, HeapRuns.FreeCount, IsFree;
    ConsistentHeap(s, o);
    HeapRuns.TakeAllLive(s.heap, DIRECTORY_BLOCKS);
  }

  /** Building the directory and mapping into it writes no settled frame, whether or not it succeeds. */
  lemma SpawnSpares(s: Sys, o: Owners, program: Program, stack: Word, g: Frame)
    requires Consistent(s, o) && HeapRuns.FreeCount(s.heap) >= DIRECTORY_BLOCKS && Settled(s.hb, s.heap, g)
    ensures PoolBounds(s.hb, |s.heap|) && SameFrame(s.mem, SpawnMemory(s.mem, SpawnFrames(s), program, stack), g)
  {
    hide Consistent, WellFormed, SpawnFrames, SpawnMemory, HeapRuns.FreeCount, Settled;
    ConsistentHeap(s, o);
    SettledNotNew(s, o, g);
    BatchOfFrames(s);
    SpawnMemoryOutside(s.mem, SpawnFrames(s), program, stack);
  }

  lemma BatchOfFrames(s: Sys)
    requires PoolBounds(s.hb, |s.heap|) && WellFormed(s.heap) && HeapRuns.FreeCount(s.heap) >= DIRECTORY_BLOCKS
    ensures IsBatch(SpawnFrames(s))
  {
    hide WellFormed, HeapRuns.TakeAll, HeapRuns.FreeCount;
    BatchOfTake(s.heap, s.hb);
  }

  /** No load writes a settled frame. */
  lemma LoadSpares(s: Sys, o: Owners, p: nat, f: File, g: Frame)
    requires Consistent(s, o) && LoadGranted(s, p, f) && Settled(s.hb, s.heap, g)
    ensures SameFrame(s.mem, LoadStep(s, p, f).mem, g)
  {
    hide Consistent, Taken, Spots, Granted, HeapRuns.FreeCount, Wanted, PartsAt, ProgramAt, SpawnMemory, Collected,
      SpawnFrames, ProgramBelow, WritesInFile, ImageMappable, Spawnable, Settled, SameFrame;
    var o1, parts, stack := LoadSpawns(s, o, p, f);
    TakenSpares(s, o, Wanted(f), g);
    var s1 := Taken(s, Wanted(f));
    SpawnSpares(s1, o1, LoadedProgram(s, f), stack, g);
    SameFrameTrans(s.mem, s1.mem, LoadStep(s, p, f).mem, g);
  }

  // ---------------------------------------------------------------- the file in memory

  /** The allocations of a load before the image, the image, and those behind. */
  lemma ImageWant(f: File) returns (us: seq<Want>, w: Want, vs: seq<Want>)
    requires Loadable(f)
    ensures Wanted(f) == us + [w] + vs && w == Want(Image, |f.bytes|, f.bytes)
    ensures forall ss: seq<nat> | |ss| == |Wanted(f)| :: Image in PartsAt(f, ss) && PartsAt(f, ss)[Image] == ss[|us|]
  {
    var ws := Wanted(f);
    us, w, vs := ws[..|ws| - 3], ws[|ws| - 3], ws[|ws| - 2..];
  }

  /** A load puts the file into its image, byte by byte. */
  lemma LoadBytes(s: Sys, o: Owners, p: nat, f: File, i: nat)
    requires Consistent(s, o) && LoadGranted(s, p, f) && i < |f.bytes|
    ensures Image in PartsAt(f, Spots(s, Wanted(f)))
    ensures var a := PAGE_SIZE * (s.hb + PartsAt(f, Spots(s, Wanted(f)))[Image]) + i;
            a < 0x1_0000_0000 && ByteAt(LoadStep(s, p, f).mem, a) == f.bytes[i]
  {
    hide Consistent, Taken, Spots, Granted, HeapRuns.FreeCount, Wanted, PartsAt, ProgramAt, SpawnMemory, Collected,
      SpawnFrames, ProgramBelow, WritesInFile, ImageMappable, Spawnable, Settled, SameFrame, PartStep, PartBlock,
      ByteAt, Blocks, LoadStep;
    var us, w, vs := ImageWant(f);
    var ws := Wanted(f);
    TakenSplit(s, us + [w], vs);
    TakenSplit(s, us, [w]);
    var o1 := TakenKeeps(s, o, us);
    var s1 := Taken(s, us);
    TakenOne(s1, w);
    var s2 := PartStep(s1, w.size, w.part, w.bytes);
    PartKeeps(s1, o1, w.size, w.part, w.bytes);
    var o2 := o1[PartBlock(s1, w.size) := OwnChain(PartBlock(s1, w.size))];
    var b := PartBlock(s1, w.size);
    assert Spots(s, ws)[|us|] == b;
    var a := PAGE_SIZE * (s.hb + b) + i;
    ImageByte(s1, o1, w, i);
    var g: Frame := a / PAGE_SIZE;
    TakenSpares(s2, o2, vs, g);
    var s3 := Taken(s, ws);
    var o3, parts, stack := LoadSpawns(s, o, p, f);
    SpawnSpares(s3, o3, LoadedProgram(s, f), stack, g);
    SpawnMemoryIs(s, s3, p, f, stack, parts);
    SameFrameTrans(s2.mem, s3.mem, LoadStep(s, p, f).mem, g);
    ByteOfFrame(s2.mem, LoadStep(s, p, f).mem, a);
  }

  lemma SpawnMemoryIs(s: Sys, s1: Sys, p: nat, f: File, stack: Word, parts: map<Part, nat>)
    requires LoadMappable(s, p, f) && s1 == Taken(s, Wanted(f))
    requires LoadStep(s, p, f) == SpawnStep(s1, p, LoadedProgram(s, f), stack, parts)
    ensures LoadStep(s, p, f).mem == SpawnMemory(s1.mem, SpawnFrames(s1), LoadedProgram(s, f), stack)
  {
    hide SpawnMemory, Taken, Spots, Granted, Wanted, SpawnFrames;
  }

  lemma ImageByte(s: Sys, o: Owners, w: Want, i: nat)
    requires Consistent(s, o) && Takable(s, w.size, w.bytes) && w.size == |w.bytes| && i < w.size
    ensures Blocks(w.size) >= 1
    ensures var s', f := PartStep(s, w.size, w.part, w.bytes), s.hb + PartBlock(s, w.size);
            && PAGE_SIZE * f + i < 0x1_0000_0000 && ByteAt(s'.mem, PAGE_SIZE * f + i) == w.bytes[i]
            && Settled(s.hb, s'.heap, (PAGE_SIZE * f + i) / PAGE_SIZE)
  {
    hide Consistent, ByteAt, PartStep, PartBlock, Settled, WellFormed;
    ConsistentHeap(s, o);
    BlocksPositive(w.size);
    var f := s.hb + PartBlock(s, w.size);
    BlocksExact(w.size);
    var a: Word := PAGE_SIZE * f + i;
    PartBytes(s, w.size, w.part, w.bytes, a);
    PartSpares(s, o, w, a / PAGE_SIZE);
  }
}
