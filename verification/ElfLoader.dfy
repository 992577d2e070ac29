/**
  elfloader.c: the fold over the program headers that finds where an image begins and ends.
*/
module ElfLoader {
  import opened Words

  const PT_LOAD := 1
  const PF_W := 2

  /** Program header; the file offset is a signed word. */
  datatype Phdr = Phdr(pType: Word, offset: int, vaddr: Word, paddr: Word, filesz: Word, memsz: Word, flags: Word)

  /** Bit 1 of the flags: the segment is writeable. */
  predicate IsWriteable(h: Phdr) { h.flags / PF_W % 2 == 1 }

  /** On 32-bit patterns that is the test of the bit. */
  lemma WriteableBit(flags: bv32)
    ensures flags & 2 != 0 <==> flags / 2 % 2 == 1
  {
  }

  datatype Bounds = Bounds(virtualBase: Word, virtualEnd: Word, physicalBase: Word, physicalEnd: Word)

  /** A zeroed elf_file. */
  const NO_BOUNDS := Bounds(0, 0, 0, 0)

  /** elf_process_phdr_pt_load */
  function PtLoadStep(elfMemory: Word, b: Bounds, h: Phdr): Bounds {
    var lower := if b.virtualBase >= h.vaddr || b.virtualBase == 0
                 then b.(virtualBase := h.paddr, physicalBase := Wrap(elfMemory + h.offset)) else b;
    var end := Wrap(h.vaddr + h.filesz);
    if lower.virtualEnd <= end || lower.virtualEnd == 0
    then lower.(virtualEnd := end, physicalEnd := Wrap(elfMemory + h.offset + h.filesz)) else lower
  }

  function HeaderStep(elfMemory: Word, b: Bounds, h: Phdr): Bounds {
    if h.pType == PT_LOAD then PtLoadStep(elfMemory, b, h) else b
  }

  /** elf_process_pheaders */
  function FoldHeaders(elfMemory: Word, hs: seq<Phdr>): Bounds {
    if hs == [] then NO_BOUNDS
    else HeaderStep(elfMemory, FoldHeaders(elfMemory, hs[..|hs| - 1]), hs[|hs| - 1])
  }

  predicate IsLoad(hs: seq<Phdr>, k: int) {
    0 <= k < |hs| && hs[k].pType == PT_LOAD
  }

  function EndOf(h: Phdr): int { h.vaddr + h.filesz }

  /** Header `k` is the last of the lowest loadable segments. */
  ghost predicate LastLowest(hs: seq<Phdr>, k: int) {
    IsLoad(hs, k) && forall j | IsLoad(hs, j) :: hs[k].vaddr <= hs[j].vaddr && (j > k ==> hs[k].vaddr < hs[j].vaddr)
  }

  /** Header `k` is the last of the loadable segments that end highest. */
  ghost predicate LastHighest(hs: seq<Phdr>, k: int) {
    IsLoad(hs, k) && forall j | IsLoad(hs, j) :: EndOf(hs[j]) <= EndOf(hs[k]) && (j > k ==> EndOf(hs[j]) < EndOf(hs[k]))
  }

  /** Base and file position of the lowest segment. */
  ghost predicate BaseRight(elfMemory: Word, hs: seq<Phdr>) {
    var b := FoldHeaders(elfMemory, hs);
    if forall k :: !IsLoad(hs, k) then b.virtualBase == 0 && b.physicalBase == 0
    else exists lo ::
           && LastLowest(hs, lo) && b.virtualBase == hs[lo].vaddr
           && b.physicalBase == Wrap(elfMemory + hs[lo].offset)
  }

  /** End of the segment that ends highest, and where its bytes end in the file. */
  ghost predicate EndRight(elfMemory: Word, hs: seq<Phdr>) {
    var b := FoldHeaders(elfMemory, hs);
    if forall k :: !IsLoad(hs, k) then b.virtualEnd == 0 && b.physicalEnd == 0
    else exists hi ::
           && LastHighest(hs, hi) && b.virtualEnd == EndOf(hs[hi])
           && b.physicalEnd == Wrap(elfMemory + hs[hi].offset + hs[hi].filesz)
  }

  /** The index of the last of the lowest loadable segments, -1 if there is none. */
  function LowestAt(hs: seq<Phdr>): (lo: int)
    ensures if lo < 0 then forall k :: !IsLoad(hs, k) else LastLowest(hs, lo)
  {
    if hs == [] then -1
    else
      var gs, h := hs[..|hs| - 1], hs[|hs| - 1];
      var lo := LowestAt(gs);
      assert forall k | k != |hs| - 1 :: IsLoad(hs, k) ==> IsLoad(gs, k) && hs[k] == gs[k];
      if h.pType == PT_LOAD && (lo < 0 || h.vaddr <= gs[lo].vaddr) then |hs| - 1 else lo
  }

  /** The index of the last of the loadable segments that end highest, -1 if there is none. */
  function HighestAt(hs: seq<Phdr>): (hi: int)
    ensures if hi < 0 then forall k :: !IsLoad(hs, k) else LastHighest(hs, hi)
  {
    if hs == [] then -1
    else
      var gs, h := hs[..|hs| - 1], hs[|hs| - 1];
      var hi := HighestAt(gs);
      assert forall k | k != |hs| - 1 :: IsLoad(hs, k) ==> IsLoad(gs, k) && hs[k] == gs[k];
      if h.pType == PT_LOAD && (hi < 0 || EndOf(h) >= EndOf(gs[hi])) then |hs| - 1 else hi
  }

  /** What the fold asks of header `h` behind `gs`: a lowest segment so far is loaded where it is linked; behind
      a lowest segment at 0, which the fold takes for none at all, only a header that says the same will do. */
  predicate BaseFits(gs: seq<Phdr>, h: Phdr) {
    var lo := LowestAt(gs);
    if lo < 0 || h.vaddr <= gs[lo].vaddr then h.paddr == h.vaddr
    else gs[lo].vaddr == 0 ==> h.paddr == 0 && Wrap(h.offset) == Wrap(gs[lo].offset)
  }

  ghost predicate BaseAlwaysRight(elfMemory: Word, hs: seq<Phdr>) {
    forall n | 0 <= n <= |hs| :: BaseRight(elfMemory, hs[..n])
  }

  ghost predicate AllFit(hs: seq<Phdr>) {
    forall k | IsLoad(hs, k) :: BaseFits(hs[..k], hs[k])
  }

  /** The base is that of the lowest segment seen so far, after each of the headers, if and only if every
      loadable header fits those before it. */
  lemma {:induction false} FoldFindsExtremes(elfMemory: Word, hs: seq<Phdr>)
    ensures BaseAlwaysRight(elfMemory, hs) <==> AllFit(hs)
  {
    hide BaseRight, BaseFits, BaseAlwaysRight, AllFit;
    if hs == [] {
      NoHeaders(elfMemory);
    } else {
      var gs, h := hs[..|hs| - 1], hs[|hs| - 1];
      assert hs == gs + [h];
      FoldFindsExtremes(elfMemory, gs);
      AlwaysSnoc(elfMemory, gs, h);
      FitSnoc(gs, h);
      if BaseAlwaysRight(elfMemory, gs) {
        AlwaysAtLast(elfMemory, gs);
        BaseStep(elfMemory, gs, h);
      }
    }
  }

  lemma NoHeaders(elfMemory: Word)
    ensures BaseAlwaysRight(elfMemory, []) && AllFit([])
  {
    assert BaseRight(elfMemory, []);
  }

  lemma AlwaysAtLast(elfMemory: Word, hs: seq<Phdr>)
    requires BaseAlwaysRight(elfMemory, hs)
    ensures BaseRight(elfMemory, hs)
  {
    hide BaseRight;
    assert hs[..|hs|] == hs;
  }

  lemma AlwaysSnoc(elfMemory: Word, gs: seq<Phdr>, h: Phdr)
    ensures BaseAlwaysRight(elfMemory, gs + [h]) <==> BaseAlwaysRight(elfMemory, gs) && BaseRight(elfMemory, gs + [h])
  {
    hide BaseRight;
    var hs := gs + [h];
    assert hs[..|hs|] == hs;
    forall n | 0 <= n <= |gs| ensures hs[..n] == gs[..n] {}
  }

  lemma FitSnoc(gs: seq<Phdr>, h: Phdr)
    ensures AllFit(gs + [h]) <==> AllFit(gs) && (h.pType == PT_LOAD ==> BaseFits(gs, h))
  {
    hide BaseFits;
    var hs := gs + [h];
    assert hs[..|gs|] == gs;
    forall k | 0 <= k < |gs| ensures hs[..k] == gs[..k] && hs[k] == gs[k] {}
    if AllFit(hs) {
      forall k | IsLoad(gs, k) ensures BaseFits(gs[..k], gs[k]) { assert IsLoad(hs, k); }
      if h.pType == PT_LOAD { assert IsLoad(hs, |gs|); }
    }
  }

  /** One header: a right base stays right exactly if the header fits. */
  lemma BaseStep(elfMemory: Word, gs: seq<Phdr>, h: Phdr)
    requires BaseRight(elfMemory, gs)
    ensures BaseRight(elfMemory, gs + [h]) <==> (h.pType == PT_LOAD ==> BaseFits(gs, h))
  {
    hide FoldHeaders, Wrap, LowestAt;
    FoldSnoc(elfMemory, gs, h);
    BaseIs(elfMemory, gs);
    BaseIs(elfMemory, gs + [h]);
    LowestSnoc(gs, h);
    var lo := LowestAt(gs);
    if lo >= 0 { SameOffset(elfMemory, gs[lo].offset, h.offset); }
  }

  /** There is one last lowest segment. */
  lemma BaseIs(elfMemory: Word, hs: seq<Phdr>)
    ensures var b, lo := FoldHeaders(elfMemory, hs), LowestAt(hs);
            BaseRight(elfMemory, hs) <==>
              if lo < 0 then b.virtualBase == 0 && b.physicalBase == 0
              else b.virtualBase == hs[lo].vaddr && b.physicalBase == Wrap(elfMemory + hs[lo].offset)
  {
    hide FoldHeaders, Wrap;
    var lo := LowestAt(hs);
    forall k | lo >= 0 && LastLowest(hs, k) ensures k == lo {}
  }

  lemma LowestSnoc(gs: seq<Phdr>, h: Phdr)
    ensures LowestAt(gs + [h])
            == if h.pType == PT_LOAD && (LowestAt(gs) < 0 || h.vaddr <= gs[LowestAt(gs)].vaddr) then |gs|
               else LowestAt(gs)
  {
    assert (gs + [h])[..|gs|] == gs;
  }

  lemma SameOffset(elfMemory: Word, a: int, b: int)
    ensures Wrap(elfMemory + a) == Wrap(elfMemory + b) <==> Wrap(a) == Wrap(b)
  {
  }

  /** The end is the highest end, and belongs to the last segment that attains it, if and only if no segment
      runs over the end of the address space. */
  lemma EndIsHighest(elfMemory: Word, hs: seq<Phdr>)
    ensures EndRight(elfMemory, hs) <==> forall k | IsLoad(hs, k) :: EndOf(hs[k]) < 0x1_0000_0000
  {
    var hi := HighestAt(hs);
    if hi < 0 || EndOf(hs[hi]) < 0x1_0000_0000 { EndWithoutWrap(elfMemory, hs); }
  }

  lemma {:induction false} EndWithoutWrap(elfMemory: Word, hs: seq<Phdr>)
    requires forall k | IsLoad(hs, k) :: EndOf(hs[k]) < 0x1_0000_0000
    ensures var b, hi := FoldHeaders(elfMemory, hs), HighestAt(hs);
            if hi < 0 then b.virtualEnd == 0 && b.physicalEnd == 0
            else b.virtualEnd == EndOf(hs[hi]) && b.physicalEnd == Wrap(elfMemory + hs[hi].offset + hs[hi].filesz)
  {
    if hs != [] {
      var gs, h := hs[..|hs| - 1], hs[|hs| - 1];
      forall k | IsLoad(gs, k) ensures IsLoad(hs, k) && gs[k] == hs[k] {}
      EndWithoutWrap(elfMemory, gs);
      if h.pType == PT_LOAD {
        assert IsLoad(hs, |hs| - 1);
        WrapSmall(EndOf(h));
      }
    }
  }

  /** Segments that are loaded where they are linked, none at 0, fit. */
  lemma PlainFits(hs: seq<Phdr>)
    requires forall k | IsLoad(hs, k) :: hs[k].paddr == hs[k].vaddr && hs[k].vaddr != 0
    ensures AllFit(hs)
  {
    forall k | IsLoad(hs, k) ensures BaseFits(hs[..k], hs[k]) {
      var lo := LowestAt(hs[..k]);
      if lo >= 0 { assert IsLoad(hs, lo); }
    }
  }

  lemma FoldSnoc(elfMemory: Word, gs: seq<Phdr>, h: Phdr)
    ensures FoldHeaders(elfMemory, gs + [h]) == HeaderStep(elfMemory, FoldHeaders(elfMemory, gs), h)
  {
    assert (gs + [h])[..|gs|] == gs;
  }

  /** The base after the last header can be right although one on the way was not. */
  lemma LaterHeaderRepairs()
    ensures var a, b := Phdr(PT_LOAD, 0x1000, 0x500000, 0x600000, 0x10, 0x10, 0),
                        Phdr(PT_LOAD, 0x2000, 0x400000, 0x400000, 0x10, 0x10, 0);
            !BaseRight(0, [a]) && BaseRight(0, [a, b])
  {
    var a := Phdr(PT_LOAD, 0x1000, 0x500000, 0x600000, 0x10, 0x10, 0);
    var b := Phdr(PT_LOAD, 0x2000, 0x400000, 0x400000, 0x10, 0x10, 0);
    assert [a, b] == [a] + [b] && [a] == [] + [a];
    FoldSnoc(0, [], a);
    FoldSnoc(0, [a], b);
    LowestSnoc([], a);
    LowestSnoc([a], b);
    BaseIs(0, [a]);
    BaseIs(0, [a, b]);
  }

  /** Without equal load and link addresses the base is not the lowest address: the fold compares the load
      address of one header with the link address of the next. */
  lemma UnequalAddressesMislead()
    ensures exists hs: seq<Phdr> ::
              && |hs| == 2 && IsLoad(hs, 0) && IsLoad(hs, 1)
              && FoldHeaders(0, hs).virtualBase != hs[0].vaddr && FoldHeaders(0, hs).virtualBase != hs[1].vaddr
              && FoldHeaders(0, hs).physicalBase == 0x2000 && hs[1].offset == 0x2000 && hs[0].vaddr < hs[1].vaddr
  {
    var a := Phdr(PT_LOAD, 0x1000, 0x400000, 0x900000, 0x10, 0x10, 0);
    var b := Phdr(PT_LOAD, 0x2000, 0x500000, 0x900000, 0x10, 0x10, 0);
    var hs := [a, b];
    assert hs[..1] == [a] && hs[..1][..0] == [];
    assert FoldHeaders(0, [a]) == HeaderStep(0, NO_BOUNDS, a);
    assert FoldHeaders(0, hs) == HeaderStep(0, FoldHeaders(0, [a]), b);
    assert FoldHeaders(0, hs).virtualBase == 0x900000;
  }

  class ElfFile {
    const elfMemory: Word
    var virtualBaseAddress: Word
    var virtualEndAddress: Word
    var physicalBaseAddress: Word
    var physicalEndAddress: Word

    constructor (m: Word)
      ensures elfMemory == m && B() == NO_BOUNDS
    {
      elfMemory := m;
      virtualBaseAddress, virtualEndAddress, physicalBaseAddress, physicalEndAddress := 0, 0, 0, 0;
    }

    function B(): Bounds
      reads this
    {
      Bounds(virtualBaseAddress, virtualEndAddress, physicalBaseAddress, physicalEndAddress)
    }

    /** elf_process_phdr_pt_load */
    method ProcessPtLoad(h: Phdr)
      modifies this
      ensures B() == PtLoadStep(elfMemory, old(B()), h)
    {
      if virtualBaseAddress >= h.vaddr || virtualBaseAddress == 0x00 {
        virtualBaseAddress := h.paddr;
        physicalBaseAddress := Wrap(elfMemory + h.offset);
      }
      var endVirtualAddress := Wrap(h.vaddr + h.filesz);
      if virtualEndAddress <= endVirtualAddress || virtualEndAddress == 0x00 {
        virtualEndAddress := endVirtualAddress;
        physicalEndAddress := Wrap(elfMemory + h.offset + h.filesz);
      }
    }

    /** elf_process_pheaders, on a new elf_file */
    method ProcessPheaders(hs: seq<Phdr>) returns (res: int)
      requires B() == NO_BOUNDS
      modifies this
      ensures res == 0 && B() == FoldHeaders(elfMemory, hs)
    {
      res := 0;
      for i := 0 to |hs|
        invariant B() == FoldHeaders(elfMemory, hs[..i])
      {
        assert hs[..i + 1][..i] == hs[..i];
        if hs[i].pType == PT_LOAD {
          ProcessPtLoad(hs[i]);
        }
      }
      assert hs[..|hs|] == hs;
    }
  }
}
