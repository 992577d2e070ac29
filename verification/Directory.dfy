/**
  Building and dropping a page directory: 1026 heap blocks, one for the directory, one for each of its
  1024 tables and one for the chunk that points to it.
*/
module Directory {
  import opened Words
  import opened HeapTable
  import opened HeapRuns
  import opened PhysicalMemory
  import opened PageTable

  const DIRECTORY_BLOCKS := 1026

  /** Flags of `paging_new_4gb` fit a byte. */
  type NewFlags = f: int | 0 <= f < 0x100

  /** `flags | PAGING_IS_WRITEABLE` */
  function OrWriteable(flags: NewFlags): NewFlags {
    if Writeable(flags) then flags else flags + IS_WRITEABLE
  }

  /** OR-ing sets bit 1 and keeps the others. */
  lemma OrWriteableBits(f: NewFlags)
    ensures OrWriteable(f) / 2 % 2 == 1
    ensures OrWriteable(f) % 2 == f % 2 && OrWriteable(f) / 4 == f / 4
  {
  }

  /** The frames of a new directory: `[directory, table 0 .. table 1023, chunk]`. */
  ghost predicate IsBatch(fs: seq<Frame>) {
    |fs| == DIRECTORY_BLOCKS && Distinct(fs)
  }

  /** Frame of table `i` of a batch. */
  function Tab(fs: seq<Frame>, i: Index): Frame
    requires |fs| == DIRECTORY_BLOCKS
  {
    fs[i + 1]
  }

  /** The directory's word for table `i`. */
  function TableEntry(fs: seq<Frame>, i: Index, flags: NewFlags): Word
    requires |fs| == DIRECTORY_BLOCKS
  {
    MakeEntry(Tab(fs, i), OrWriteable(flags))
  }

  /** The identity entry `b` of table `i`. */
  function IdentityEntry(i: Index, b: Index, flags: NewFlags): Word {
    MakeEntry(PAGE_WORDS * i + b, flags)
  }

  /** The first `n` identity entries of table `i`, in frame `f`. */
  function FillTable(m: Memory, f: Frame, i: Index, flags: NewFlags, n: nat): Memory
    requires n <= PAGE_WORDS
  {
    if n == 0 then m
    else WithCell(FillTable(m, f, i, flags, n - 1), f, n - 1, IdentityEntry(i, n - 1, flags))
  }

  /** One round of the outer loop: clear and fill table `i`, then link it. */
  function BuildTable(m: Memory, fs: seq<Frame>, i: Index, flags: NewFlags): Memory
    requires |fs| == DIRECTORY_BLOCKS
  {
    WithCell(FillTable(ZeroFill(m, PAGE_SIZE * Tab(fs, i), PAGE_SIZE), Tab(fs, i), i, flags, PAGE_WORDS),
             fs[0], i, TableEntry(fs, i, flags))
  }

  /** Memory once the directory is cleared and its first `n` tables are built and linked. */
  function BuildTables(m: Memory, fs: seq<Frame>, flags: NewFlags, n: nat): Memory
    requires |fs| == DIRECTORY_BLOCKS && n <= PAGE_WORDS
  {
    if n == 0 then ZeroFill(m, PAGE_SIZE * fs[0], PAGE_SIZE)
    else BuildTable(BuildTables(m, fs, flags, n - 1), fs, n - 1, flags)
  }

  /** The chunk at frame `c`: cleared, then pointed at the directory. */
  function LinkChunk(m: Memory, c: Frame, d: Frame): Memory {
    WithCell(ZeroFill(m, PAGE_SIZE * c, 4), c, 0, PAGE_SIZE * d)
  }

  /** Memory after paging_new_4gb. */
  function NewDirectory(m: Memory, fs: seq<Frame>, flags: NewFlags): Memory
    requires |fs| == DIRECTORY_BLOCKS
  {
    LinkChunk(BuildTables(m, fs, flags, PAGE_WORDS), fs[1025], fs[0])
  }

  lemma {:induction false} FillTableEffect(m: Memory, f: Frame, i: Index, flags: NewFlags, n: nat)
    requires n <= PAGE_WORDS
    ensures forall b: Index | b < n :: Cell(FillTable(m, f, i, flags, n), f, b) == IdentityEntry(i, b, flags)
    ensures forall g: Frame | g != f :: SameFrame(m, FillTable(m, f, i, flags, n), g)
  {
    if n > 0 {
      FillTableEffect(m, f, i, flags, n - 1);
      var m' := FillTable(m, f, i, flags, n - 1);
      var m'' := FillTable(m, f, i, flags, n);
      forall b: Index | b < n ensures Cell(m'', f, b) == IdentityEntry(i, b, flags) {
        WithCellEffect(m', f, n - 1, IdentityEntry(i, n - 1, flags), f, b);
      }
      forall g: Frame | g != f ensures SameFrame(m, m'', g) {
        WithCellFrame(m', f, n - 1, IdentityEntry(i, n - 1, flags), g);
        assert SameFrame(m, m', g);
      }
    }
  }

  lemma BuildTableEffect(m: Memory, fs: seq<Frame>, i: Index, flags: NewFlags)
    requires IsBatch(fs)
    ensures forall b: Index :: Cell(BuildTable(m, fs, i, flags), Tab(fs, i), b) == IdentityEntry(i, b, flags)
    ensures Cell(BuildTable(m, fs, i, flags), fs[0], i) == TableEntry(fs, i, flags)
    ensures forall j: Index | j != i :: Cell(BuildTable(m, fs, i, flags), fs[0], j) == Cell(m, fs[0], j)
    ensures forall g: Frame | g != fs[0] && g != Tab(fs, i) :: SameFrame(m, BuildTable(m, fs, i, flags), g)
  {
    var d, f := fs[0], Tab(fs, i);
    assert d != f;
    var m0 := ZeroFill(m, PAGE_SIZE * f, PAGE_SIZE);
    var m1 := FillTable(m0, f, i, flags, PAGE_WORDS);
    var e := TableEntry(fs, i, flags);
    var m2 := BuildTable(m, fs, i, flags);
    FillTableEffect(m0, f, i, flags, PAGE_WORDS);
    forall g: Frame | g != f ensures SameFrame(m, m1, g) {
      ZeroFillFrame(m, f, 1, PAGE_SIZE, g);
      assert SameFrame(m0, m1, g);
    }
    forall g: Frame | g != d ensures SameFrame(m1, m2, g) { WithCellFrame(m1, d, i, e, g); }
    forall g: Frame | g != d && g != f ensures SameFrame(m, m2, g) {
      assert SameFrame(m, m1, g) && SameFrame(m1, m2, g);
    }
    forall b: Index ensures Cell(m2, f, b) == IdentityEntry(i, b, flags) {
      assert SameFrame(m1, m2, f);
      assert Cell(m1, f, b) == Cell(m2, f, b);
    }
    forall j: Index ensures Cell(m2, d, j) == if j == i then e else Cell(m, d, j) {
      WithCellEffect(m1, d, i, e, d, j);
      assert SameFrame(m, m1, d);
      assert Cell(m, d, j) == Cell(m1, d, j);
    }
  }

  /** Tables built so far: linked from the directory, filled with the identity, all other frames kept. */
  ghost predicate Built(m: Memory, m': Memory, fs: seq<Frame>, flags: NewFlags, n: nat)
    requires |fs| == DIRECTORY_BLOCKS && n <= PAGE_WORDS
  {
    && (forall i: Index | i < n :: Cell(m', fs[0], i) == TableEntry(fs, i, flags))
    && (forall i: Index, b: Index | i < n :: Cell(m', Tab(fs, i), b) == IdentityEntry(i, b, flags))
    && (forall g: Frame | g !in fs[..n + 1] :: SameFrame(m, m', g))
  }

  lemma {:induction false} BuildTablesEffect(m: Memory, fs: seq<Frame>, flags: NewFlags, n: nat)
    requires IsBatch(fs) && n <= PAGE_WORDS
    ensures Built(m, BuildTables(m, fs, flags, n), fs, flags, n)
  {
    hide Built;
    if n == 0 {
      NothingBuilt(m, fs, flags);
    } else {
      BuildTablesEffect(m, fs, flags, n - 1);
      BuildStep(m, BuildTables(m, fs, flags, n - 1), fs, flags, n - 1);
    }
  }

  lemma NothingBuilt(m: Memory, fs: seq<Frame>, flags: NewFlags)
    requires IsBatch(fs)
    ensures Built(m, BuildTables(m, fs, flags, 0), fs, flags, 0)
  {
    forall g: Frame | g !in fs[..1] ensures SameFrame(m, BuildTables(m, fs, flags, 0), g) {
      assert fs[0] in fs[..1];
      ZeroFillFrame(m, fs[0], 1, PAGE_SIZE, g);
    }
  }

  lemma BuildStep(m: Memory, m': Memory, fs: seq<Frame>, flags: NewFlags, n: Index)
    requires IsBatch(fs) && Built(m, m', fs, flags, n)
    ensures Built(m, BuildTable(m', fs, n, flags), fs, flags, n + 1)
  {
    var m2 := BuildTable(m', fs, n, flags);
    BuildTableEffect(m', fs, n, flags);
    forall i: Index, b: Index | i < n + 1 ensures Cell(m2, Tab(fs, i), b) == IdentityEntry(i, b, flags) {
      if i < n {
        assert SameFrame(m', m2, Tab(fs, i));
        assert Cell(m', Tab(fs, i), b) == Cell(m2, Tab(fs, i), b);
      }
    }
    forall g: Frame | g !in fs[..n + 2] ensures SameFrame(m, m2, g) {
      assert fs[0] in fs[..n + 2] && fs[n + 1] in fs[..n + 2];
      assert fs[..n + 1] <= fs[..n + 2];
      assert g !in fs[..n + 1];
      assert SameFrame(m', m2, g) && SameFrame(m, m', g);
    }
  }

  /** What a new directory is: its words name the batch's tables with the flags given, writeable, it is the
      identity on all pages, the chunk points to it, and no other frame was written. */
  ghost predicate Fresh(m: Memory, m': Memory, fs: seq<Frame>, flags: NewFlags)
    requires |fs| == DIRECTORY_BLOCKS
  {
    && (forall i: Index :: Cell(m', fs[0], i) == TableEntry(fs, i, flags) && TableFrame(m', fs[0], i) == Tab(fs, i))
    && (forall q: Page :: Entry(m', fs[0], q) == MakeEntry(q, flags))
    && Cell(m', fs[1025], 0) == PAGE_SIZE * fs[0]
    && (forall g: Frame | g !in fs :: SameFrame(m, m', g))
  }

  /** The word names the table; it is writeable, and present, open to user mode and so on as the flags say. */
  predicate WordOfTable(w: Word, table: Frame, flags: NewFlags) {
    && FrameOf(w) == table && Writeable(w)
    && (Present(w) <==> flags % 2 == 1) && w % PAGE_SIZE / 4 == flags / 4
  }

  lemma TableEntryBits(fs: seq<Frame>, i: Index, flags: NewFlags)
    requires |fs| == DIRECTORY_BLOCKS
    ensures var w := TableEntry(fs, i, flags);
            WordOfTable(w, Tab(fs, i), flags)
  {
    OrWriteableBits(flags);
    FlagBits(Tab(fs, i), OrWriteable(flags));
    hide OrWriteable, Tab, MakeEntry, FrameOf, Present, Writeable;
  }

  lemma LinkChunkEffect(m: Memory, c: Frame, d: Frame)
    ensures Cell(LinkChunk(m, c, d), c, 0) == PAGE_SIZE * d
    ensures forall g: Frame | g != c :: SameFrame(m, LinkChunk(m, c, d), g)
  {
    var m' := ZeroFill(m, PAGE_SIZE * c, 4);
    WithCellEffect(m', c, 0, PAGE_SIZE * d, c, 0);
    forall g: Frame | g != c ensures SameFrame(m, LinkChunk(m, c, d), g) {
      ZeroFillFrame(m, c, 1, 4, g);
      WithCellFrame(m', c, 0, PAGE_SIZE * d, g);
    }
  }

  lemma NewDirectoryFresh(m: Memory, fs: seq<Frame>, flags: NewFlags)
    requires IsBatch(fs)
    ensures Fresh(m, NewDirectory(m, fs, flags), fs, flags)
    ensures ValidDirectory(NewDirectory(m, fs, flags), fs[0])
    ensures forall i: Index ::
              var w := Cell(NewDirectory(m, fs, flags), fs[0], i);
              WordOfTable(w, Tab(fs, i), flags)
  {
    var d, c := fs[0], fs[1025];
    var m1 := BuildTables(m, fs, flags, PAGE_WORDS);
    var m' := NewDirectory(m, fs, flags);
    BuildTablesEffect(m, fs, flags, PAGE_WORDS);
    LinkChunkEffect(m1, c, d);
    forall i: Index ensures Cell(m', d, i) == TableEntry(fs, i, flags) && TableFrame(m', d, i) == Tab(fs, i) {
      assert SameFrame(m1, m', d);
      assert Cell(m1, d, i) == Cell(m', d, i);
    }
    forall i: Index
      ensures var w := Cell(m', d, i);
              WordOfTable(w, Tab(fs, i), flags)
    {
      TableEntryBits(fs, i, flags);
    }
    forall q: Page ensures Entry(m', d, q) == MakeEntry(q, flags) {
      var i: Index := q / PAGE_WORDS;
      assert Tab(fs, i) != c;
      assert SameFrame(m1, m', Tab(fs, i));
      assert Cell(m1, Tab(fs, i), q % PAGE_WORDS) == Cell(m', Tab(fs, i), q % PAGE_WORDS);
      assert Cell(m1, Tab(fs, i), q % PAGE_WORDS) == IdentityEntry(i, q % PAGE_WORDS, flags);
    }
    forall g: Frame | g !in fs ensures SameFrame(m, m', g) {
      assert g !in fs[..PAGE_WORDS + 1] && fs[1025] in fs;
      assert SameFrame(m1, m', g) && SameFrame(m, m1, g);
    }
  }

  /** A fresh directory translates every 32-bit address to itself. */
  lemma FreshIsIdentity(m: Memory, fs: seq<Frame>, flags: NewFlags, v: Word)
    requires IsBatch(fs)
    ensures Translate(NewDirectory(m, fs, flags), fs[0], v) == v
  {
    hide NewDirectory, Entry;
    NewDirectoryFresh(m, fs, flags);
    var q: Page := v / PAGE_SIZE;
    assert Entry(NewDirectory(m, fs, flags), fs[0], q) == MakeEntry(q, flags);
    assert AlignDown(MakeEntry(q, flags)) == PAGE_SIZE * q;
  }

  // ---------------------------------------------------------------- paging_free_4gb

  /** The frames paging_free_4gb frees, in its order: the tables the directory names, the directory the
      chunk names, the chunk. */
  function DirectoryFrames(m: Memory, chunk: Frame): seq<Frame> {
    var d := FrameOf(Cell(m, chunk, 0));
    seq(PAGE_WORDS, i requires 0 <= i < PAGE_WORDS => TableFrame(m, d, i)) + [d, chunk]
  }

  /** Entries set one after the other. */
  function SetAll(m: Memory, d: Frame, sets: seq<(Page, Word)>): Memory {
    if sets == [] then m
    else
      var (q, val) := sets[|sets| - 1];
      WithEntry(SetAll(m, d, sets[..|sets| - 1]), d, q, val)
  }

  lemma {:induction false} SetAllKeepsTables(m: Memory, d: Frame, sets: seq<(Page, Word)>)
    requires ValidDirectory(m, d)
    ensures ValidDirectory(SetAll(m, d, sets), d) && SameTables(m, SetAll(m, d, sets), d)
    decreases |sets|
  {
    hide ValidDirectory, OnlyTables;
    if sets != [] {
      var (q, val) := sets[|sets| - 1];
      var m' := SetAll(m, d, sets[..|sets| - 1]);
      SetAllKeepsTables(m, d, sets[..|sets| - 1]);
      WithEntryEffect(m', d, q, val);
      SameTablesTrans(m, m', SetAll(m, d, sets), d);
    } else {
      SameTablesItself(m, d);
    }
  }

  /** While nothing but the entries of a new directory changes, the frames that dropping it frees are those it was
      built of. */
  lemma TablesKeepFrames(m: Memory, m': Memory, fs: seq<Frame>, flags: NewFlags)
    requires IsBatch(fs) && SameTables(NewDirectory(m, fs, flags), m', fs[0])
    ensures DirectoryFrames(m', fs[1025]) == fs[1..1025] + [fs[0], fs[1025]]
  {
    hide NewDirectory;
    var n := NewDirectory(m, fs, flags);
    var d, c := fs[0], fs[1025];
    NewDirectoryFresh(m, fs, flags);
    assert !IsTable(n, d, c) by {
      forall i: Index ensures TableFrame(n, d, i) != c { assert Tab(fs, i) != c; }
    }
    assert SameFrame(n, m', c);
    assert Cell(n, c, 0) == Cell(m', c, 0);
    forall i: Index ensures TableFrame(m', d, i) == fs[1..1025][i] {
      assert TableFrame(n, d, i) == Tab(fs, i);
    }
  }

  /** Setting entries of a new directory does not change which frames dropping it frees. */
  lemma SetAllKeepsFrames(m: Memory, fs: seq<Frame>, flags: NewFlags, sets: seq<(Page, Word)>)
    requires IsBatch(fs)
    ensures DirectoryFrames(SetAll(NewDirectory(m, fs, flags), fs[0], sets), fs[1025])
            == fs[1..1025] + [fs[0], fs[1025]]
  {
    hide NewDirectory, ValidDirectory;
    NewDirectoryFresh(m, fs, flags);
    SetAllKeepsTables(NewDirectory(m, fs, flags), fs[0], sets);
    TablesKeepFrames(m, SetAll(NewDirectory(m, fs, flags), fs[0], sets), fs, flags);
  }

  /** Frames of pool blocks, and back. */
  function Frames(hb: int, blocks: nat, ss: seq<nat>): seq<Frame>
    requires PoolBounds(hb, blocks) && forall i | 0 <= i < |ss| :: ss[i] < blocks
  {
    seq(|ss|, i requires 0 <= i < |ss| => hb + ss[i])
  }

  function PoolBlocks(hb: int, fs: seq<Frame>): (ss: seq<nat>)
    requires forall i | 0 <= i < |fs| :: fs[i] >= hb
    ensures |ss| == |fs| && forall i | 0 <= i < |fs| :: ss[i] == fs[i] - hb
  {
    if fs == [] then [] else PoolBlocks(hb, fs[..|fs| - 1]) + [fs[|fs| - 1] - hb]
  }

  ghost predicate InPool(hb: int, blocks: nat, fs: seq<Frame>) {
    forall i | 0 <= i < |fs| :: hb <= fs[i] < hb + blocks
  }

  /** paging_free_4gb on the table. */
  function DropDirectory(hb: int, t: Table, m: Memory, chunk: Frame): Table
    requires InPool(hb, |t|, DirectoryFrames(m, chunk))
  {
    FreeAll(t, PoolBlocks(hb, DirectoryFrames(m, chunk)))
  }

  /** A directory costs nothing net: whatever became of its entries meanwhile, dropping a new directory gives back
      exactly the blocks it took and restores the table bit for bit. */
  lemma DropUndoesBuild(t: Table, m: Memory, m': Memory, hb: int, flags: NewFlags)
    requires WellFormed(t) && FreeCount(t) >= DIRECTORY_BLOCKS && PoolBounds(hb, |t|)
    requires var fs := Frames(hb, |t|, TakeAll(t, DIRECTORY_BLOCKS).1);
             SameTables(NewDirectory(m, fs, flags), m', fs[0])
    ensures var fs := Frames(hb, |t|, TakeAll(t, DIRECTORY_BLOCKS).1);
            && InPool(hb, |t|, DirectoryFrames(m', fs[1025]))
            && DropDirectory(hb, TakeAll(t, DIRECTORY_BLOCKS).0, m', fs[1025]) == t
  {
    hide NewDirectory, TakeAll, FreeCount, WellFormed;
    var ss := TakeAll(t, DIRECTORY_BLOCKS).1;
    BatchOfTake(t, hb);
    TablesKeepFrames(m, m', Frames(hb, |t|, ss), flags);
    RotatedBlocks(hb, |t|, ss);
    RotatedDrop(t);
  }

  /** ... in particular after any number of entries were set. */
  lemma DropUndoesNew(t: Table, m: Memory, hb: int, flags: NewFlags, sets: seq<(Page, Word)>)
    requires WellFormed(t) && FreeCount(t) >= DIRECTORY_BLOCKS && PoolBounds(hb, |t|)
    ensures var fs := Frames(hb, |t|, TakeAll(t, DIRECTORY_BLOCKS).1);
            var m' := SetAll(NewDirectory(m, fs, flags), fs[0], sets);
            && InPool(hb, |t|, DirectoryFrames(m', fs[1025]))
            && DropDirectory(hb, TakeAll(t, DIRECTORY_BLOCKS).0, m', fs[1025]) == t
  {
    hide NewDirectory, TakeAll, FreeCount, WellFormed, ValidDirectory;
    var fs := Frames(hb, |t|, TakeAll(t, DIRECTORY_BLOCKS).1);
    BatchOfTake(t, hb);
    NewDirectoryFresh(m, fs, flags);
    SetAllKeepsTables(NewDirectory(m, fs, flags), fs[0], sets);
    DropUndoesBuild(t, m, SetAll(NewDirectory(m, fs, flags), fs[0], sets), hb, flags);
  }

  lemma RotatedBlocks(hb: int, blocks: nat, ss: seq<nat>)
    requires PoolBounds(hb, blocks) && |ss| == DIRECTORY_BLOCKS && forall i | 0 <= i < |ss| :: ss[i] < blocks
    ensures var fs := Frames(hb, blocks, ss);
            var gs := fs[1..1025] + [fs[0], fs[1025]];
            && InPool(hb, blocks, gs)
            && PoolBlocks(hb, gs) == ss[1..1025] + [ss[0], ss[1025]]
  {
    var fs := Frames(hb, blocks, ss);
    var gs := fs[1..1025] + [fs[0], fs[1025]];
    var back := ss[1..1025] + [ss[0], ss[1025]];
    forall i | 0 <= i < |gs| ensures gs[i] == hb + back[i] && 0 <= back[i] < blocks {
      if i < PAGE_WORDS { assert gs[i] == fs[i + 1] && back[i] == ss[i + 1]; }
    }
    assert PoolBlocks(hb, gs) == back;
  }

  lemma BatchOfTake(t: Table, hb: int)
    requires WellFormed(t) && FreeCount(t) >= DIRECTORY_BLOCKS && PoolBounds(hb, |t|)
    ensures IsBatch(Frames(hb, |t|, TakeAll(t, DIRECTORY_BLOCKS).1))
  {
    TakeAllLive(t, DIRECTORY_BLOCKS);
  }

  lemma RotatedDrop(t: Table)
    requires WellFormed(t) && FreeCount(t) >= DIRECTORY_BLOCKS
    ensures var ss := TakeAll(t, DIRECTORY_BLOCKS).1;
            FreeAll(TakeAll(t, DIRECTORY_BLOCKS).0, ss[1..1025] + [ss[0], ss[1025]]) == t
  {
    var ss := TakeAll(t, DIRECTORY_BLOCKS).1;
    TakeAllLive(t, DIRECTORY_BLOCKS);
    Rotated(ss);
    FreeAllUndoesTakeAll(t, DIRECTORY_BLOCKS, ss[1..1025] + [ss[0], ss[1025]]);
  }

  /** The order of freeing is a rearrangement of the order of taking. */
  lemma Rotated(ss: seq<nat>)
    requires |ss| == DIRECTORY_BLOCKS && Distinct(ss)
    ensures Distinct(ss[1..1025] + [ss[0], ss[1025]])
    ensures Elements(ss[1..1025] + [ss[0], ss[1025]]) == Elements(ss)
  {
    var back := ss[1..1025] + [ss[0], ss[1025]];
    forall s | s in Elements(ss) ensures s in Elements(back) {
      var k :| 0 <= k < |ss| && ss[k] == s;
      assert s == back[if k == 0 then 1024 else if k == 1025 then 1025 else k - 1];
    }
    forall s | s in Elements(back) ensures s in Elements(ss) {
      var k :| 0 <= k < |back| && back[k] == s;
      assert s == ss[if k == 1024 then 0 else if k == 1025 then 1025 else k + 1];
    }
  }
}
