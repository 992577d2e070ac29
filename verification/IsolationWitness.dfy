/**
  The smallest run that leaves something behind: one program loaded, and terminated again.
*/
module IsolationWitness {
  import opened Words
  import opened HeapTable
  import HeapRuns
  import opened PhysicalMemory
  import opened Directory
  import opened Ledger
  import opened PageTable
  import opened ElfLoader
  import opened ImageMap
  import opened Isolation
  import opened IsolationSteps
  import opened IsolationLoad
  import opened IsolationRuns
  import opened IsolationOutcomes

  /** From block `k` on the pool is free. */
  ghost predicate FreeFrom(t: Table, k: nat) {
    k <= |t| && forall i | k <= i < |t| :: IsFree(t[i])
  }

  lemma {:induction false} FreeFromCount(t: Table, k: nat)
    requires FreeFrom(t, k)
    ensures HeapRuns.FreeCount(t) >= |t| - k
  {
    if k < |t| { FreeFromCount(t[..|t| - 1], k); }
  }

  function TotalBlocks(ws: seq<Want>): nat {
    if ws == [] then 0 else Blocks(ws[0].size) + TotalBlocks(ws[1..])
  }

  ghost predicate Wantable(ws: seq<Want>) {
    forall j | 0 <= j < |ws| :: ws[j].size > 0 && |ws[j].bytes| <= ws[j].size
  }

  /** An allocation is granted while the free blocks at the end are enough, and takes no more of them than it
      asks for. */
  lemma OneFits(s: Sys, o: Owners, k: nat, w: Want)
    requires Consistent(s, o) && FreeFrom(s.heap, k) && w.size > 0 && |w.bytes| <= w.size
    requires k + Blocks(w.size) <= |s.heap|
    ensures Takable(s, w.size, w.bytes)
    ensures FreeFrom(PartStep(s, w.size, w.part, w.bytes).heap, k + Blocks(w.size))
  {
    hide Consistent, PartStep, WellFormed, Live, IsFree, Blocks;
    ConsistentHeap(s, o);
    var n := Blocks(w.size);
    BlocksPositive(w.size);
    assert FreeRun(s.heap, k, n);
    FirstFitExact(s.heap, n);
    PartFacts(s, o, w.size, w.part, w.bytes);
  }

  lemma {:induction false} AllGranted(s: Sys, o: Owners, k: nat, ws: seq<Want>)
    requires Consistent(s, o) && FreeFrom(s.heap, k) && Wantable(ws) && k + TotalBlocks(ws) <= |s.heap|
    ensures Granted(s, ws) && FreeFrom(Taken(s, ws).heap, k + TotalBlocks(ws))
    decreases |ws|
  {
    hide Consistent, PartStep, PartBlock, FreeFrom, Blocks;
    if ws != [] {
      var w := ws[0];
      OneFits(s, o, k, w);
      PartKeeps(s, o, w.size, w.part, w.bytes);
      forall j | 0 <= j < |ws| - 1 ensures ws[1..][j] == ws[j + 1] {}
      AllGranted(PartStep(s, w.size, w.part, w.bytes), o[PartBlock(s, w.size) := OwnChain(PartBlock(s, w.size))],
             k + Blocks(w.size), ws[1..]);
    }
  }

  /** What an ELF image of `n` blocks takes: process structure, ELF structure, image, stack and task. */
  lemma ElfTotal(f: File)
    requires Loadable(f) && f.ElfImage?
    ensures TotalBlocks(Wanted(f)) == 9 + Blocks(|f.bytes|) && Wantable(Wanted(f))
  {
    var ws := Wanted(f);
    assert Blocks(PROCESS_SIZE) == 3 && Blocks(ELF_FILE_SIZE) == 1 && Blocks(STACK_SIZE) == 4 && Blocks(TASK_SIZE) == 1;
    hide Blocks;
    assert TotalBlocks([]) == 0;
    assert TotalBlocks([ws[4]]) == 1;
    assert [ws[3], ws[4]][1..] == [ws[4]] && TotalBlocks([ws[3], ws[4]]) == 5;
    assert ws[2..][1..] == [ws[3], ws[4]] && TotalBlocks(ws[2..]) == Blocks(|f.bytes|) + 5;
    assert ws[1..][1..] == ws[2..] && TotalBlocks(ws[1..]) == Blocks(|f.bytes|) + 6;
  }

  /** An ELF image with well-formed segments that lie in the file and below page `limit`. */
  ghost predicate ElfFits(f: File, limit: int) {
    && Loadable(f) && f.ElfImage? && STACK_VIRTUAL_END + STACK_SIZE <= PAGE_SIZE * limit
    && forall i | 0 <= i < |f.headers| ::
         var h := f.headers[i];
         && h.offset >= 0 && h.offset % PAGE_SIZE == h.vaddr % PAGE_SIZE
         && h.offset + h.memsz <= PAGE_SIZE * PagesOf(|f.bytes|) && LastPage(h) <= limit
  }

  /** Wherever such a file is read to in the pool, its program can be mapped and is confined. */
  lemma ElfFitsAnywhere(f: File, base: Word, limit: int)
    requires ElfFits(f, limit) && limit < FRAMES
    requires base % PAGE_SIZE == 0 && base + PAGE_SIZE * PagesOf(|f.bytes|) <= 0x1_0000_0000 - PAGE_SIZE
    ensures ProgramFits(Elf(base, f.headers), PagesOf(|f.bytes|), limit)
  {
    hide OnPage, FrameAt, Mappable, TopAt, SegmentFlags;
    var hs := f.headers;
    var program := Elf(base, hs);
    forall i | 0 <= i < |hs| ensures Mappable(base, hs[i]) { RightPages(base, hs[i], 0); }
    forall q: Page | ProgramMaps(program, q)
      ensures q < limit && InBlocks(base, PagesOf(|f.bytes|), ProgramFrame(program, q))
    {
      RightPages(base, hs[TopAt(base, hs, q)], q);
    }
    forall q: Page | ProgramWrites(program, q) ensures ProgramMaps(program, q) { WritesAreMapped(program, q); }
  }

  lemma BootLoads(hb: int, blocks: nat, m: Memory, p: nat, f: File)
    requires PoolBounds(hb, blocks) && ElfFits(f, hb)
    requires Blocks(|f.bytes|) + 9 + DIRECTORY_BLOCKS <= blocks
    ensures LoadGranted(Boot(hb, blocks, m), p, f)
  {
    hide Consistent, Granted, Wanted, Blocks, TotalBlocks, PagesOf, ProgramBelow, WritesInFile, ImageMappable, Taken,
      Spots, PartsAt, ElfFits, Collected;
    BootInv(hb, blocks, m);
    var s := Boot(hb, blocks, m);
    var o :| Consistent(s, o);
    ElfIsElf(f, hb);
    ElfTotal(f);
    assert FreeFrom(s.heap, 0);
    var ws := Wanted(f);
    AllGranted(s, o, 0, ws);
    FreeFromCount(Taken(s, ws).heap, TotalBlocks(ws));
    var o1 := TakenKeeps(s, o, ws);
    var ss := Spots(s, ws);
    PartsAre(f, ss, 0);
    var i := PartFound(f, ss, Image);
    CollectedAt(s, Taken(s, ws), ws, ss, i);
    ChainInPool(Taken(s, ws), o1, ss[i]);
    FilePages(|f.bytes|);
    ElfFitsAnywhere(f, PAGE_SIZE * (hb + ss[i]), hb);
  }

  lemma ElfIsElf(f: File, limit: int)
    requires ElfFits(f, limit)
    ensures Loadable(f) && f.ElfImage? && STACK_VIRTUAL_END + STACK_SIZE <= PAGE_SIZE * limit
  {
  }

  /** Any ELF image that fits can be loaded after boot and terminated again, and then the heap holds one chain:
      the three blocks of the process structure. */
  lemma OneProgramLeavesItsStructure(hb: int, blocks: nat, m: Memory, p: nat, f: File)
    requires PoolBounds(hb, blocks) && ElfFits(f, hb)
    requires Blocks(|f.bytes|) + 9 + DIRECTORY_BLOCKS <= blocks
    ensures Inv(Boot(hb, blocks, m)) && EnabledRun(Boot(hb, blocks, m), [Load(p, f), Terminate(p)])
    ensures var s := Run(Boot(hb, blocks, m), [Load(p, f), Terminate(p)]);
            s.procs == map[] && exists b :: Live(s.heap) == map[b := 3]
  {
    hide Live, ElfFits, LoadStep, Leaves, Inv, EndStep;
    ElfIsElf(f, hb);
    var s0, actions := Boot(hb, blocks, m), [Load(p, f), Terminate(p)];
    BootInv(hb, blocks, m);
    BootLoads(hb, blocks, m, p, f);
    LoadedProcess(s0, p, f);
    TwoActions(s0, Load(p, f), Terminate(p));
    WhatRunsLeave(hb, blocks, m, actions);
    OneLost(Run(s0, actions), actions);
  }

  lemma TwoActions(s: Sys, a: Action, b: Action)
    requires Inv(s) && Enabled(s, a) && Enabled(Apply(s, a), b)
    ensures EnabledRun(s, [a, b]) && Run(s, [a, b]) == Apply(Apply(s, a), b)
    ensures LostIn([a, b]) == LostBy(a) + LostBy(b) && LoadsIn([a, b]) == LoadsIn([a]) + LoadsIn([b])
  {
    hide Inv, Enabled, Apply, LostBy;
    var s1 := Apply(s, a);
    assert [a, b][1..] == [b] && [b][1..] == [];
    assert LostIn([b]) == LostBy(b) + LostIn([]) && LoadsIn([b][1..]) == 0 && [a][1..] == [];
    assert Run(Apply(s1, b), []) == Apply(s1, b) && EnabledRun(Apply(s1, b), []);
    assert EnabledRun(s1, [b]) && Run(s1, [b]) == Apply(s1, b);
  }

  lemma LoadedProcess(s: Sys, p: nat, f: File)
    requires LoadGranted(s, p, f)
    ensures LoadStep(s, p, f).procs.Keys == s.procs.Keys + {p}
  {
    hide Taken, SpawnMemory, HeapRuns.TakeAll, Granted, ProgramBelow, WritesInFile, ImageMappable;
  }

  lemma OneLost(s: Sys, actions: seq<Action>)
    requires Leaves(s, actions) && LostIn(actions) == 1 && LoadsIn(actions) == 1
    ensures exists b :: Live(s.heap) == map[b := 3]
  {
    hide Live;
    var b :| b in Structures(s);
    assert Lost(s) == Lost(s) - {b} + {b} && |Lost(s) - {b}| == 0;
    forall c | c in Live(s.heap) ensures c == b { assert c !in Lost(s) - {b}; }
    assert Live(s.heap) == map[b := 3];
  }
}
