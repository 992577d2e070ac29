/**
  task.c: copy_string_from_task, which borrows a heap block and a page of the task's directory to carry a
  string from the task's address space into the kernel's.
*/
module CopyString {
  import opened Words
  import opened HeapTable
  import opened PhysicalMemory
  import opened PageTable
  import opened Paging
  import opened Kheap

  // ---------------------------------------------------------------- strings in memory

  /** Page of byte `i` of the string at virtual address `virt`. */
  function UserPage(virt: Word, i: nat): Page { Wrap(virt + i) / PAGE_SIZE }

  /** Where directory `d` puts that byte. */
  function UserAddress(m: Memory, d: Frame, virt: Word, i: nat): Word { Translate(m, d, Wrap(virt + i)) }

  function UserByte(m: Memory, d: Frame, virt: Word, i: nat): Byte { ByteAt(m, UserAddress(m, d, virt, i)) }

  /** Number of bytes before the terminator, at most `limit`. */
  function UserLen(m: Memory, d: Frame, virt: Word, limit: nat): (n: nat)
    ensures n <= limit
    ensures forall i | 0 <= i < n :: UserByte(m, d, virt, i) != 0
    ensures n < limit ==> UserByte(m, d, virt, n) == 0
  {
    if limit == 0 then 0
    else
      var n := UserLen(m, d, virt, limit - 1);
      if n < limit - 1 || UserByte(m, d, virt, n) == 0 then n else limit
  }

  lemma UserLenIs(m: Memory, d: Frame, virt: Word, limit: nat, n: nat)
    requires n <= limit && (forall i | 0 <= i < n :: UserByte(m, d, virt, i) != 0)
    requires n < limit ==> UserByte(m, d, virt, n) == 0
    ensures UserLen(m, d, virt, limit) == n
  {
  }

  /** The bytes a copy of `count` may read do not lie in frame `f`. */
  ghost predicate SourceAvoids(m: Memory, d: Frame, virt: Word, count: nat, f: Frame) {
    forall i: nat | i < count - 1 :: UserAddress(m, d, virt, i) / PAGE_SIZE != f
  }

  /** ... nor on page `q`. */
  ghost predicate SourceAvoidsPage(virt: Word, count: nat, q: Page) {
    forall i: nat | i < count - 1 :: UserPage(virt, i) != q
  }

  /** Frame `f` is neither the directory nor one of its tables. */
  ghost predicate Outside(m: Memory, d: Frame, f: Frame) {
    f != d && forall i: Index :: TableFrame(m, d, i) != f
  }

  lemma OutsideKeeps(m: Memory, n: Memory, d: Frame, f: Frame)
    requires SameExcept(m, n, f) && Outside(m, d, f)
    ensures SameDirectory(m, n, d) && Outside(n, d, f)
  {
    SameFramesSameDirectory(m, n, d);
    SameWordsSameTables(m, n, d);
  }

  // ---------------------------------------------------------------- strncpy into the scratch page

  /** Byte `i` of the scratch page stays at its own address. */
  lemma ScratchAddress(m: Memory, d: Frame, tmp: Word, i: nat)
    requires tmp % PAGE_SIZE == 0 && i < PAGE_SIZE && Entry(m, d, tmp / PAGE_SIZE) == MakeEntry(tmp / PAGE_SIZE, 7)
    ensures Wrap(tmp + i) == tmp + i && (tmp + i) / PAGE_SIZE == tmp / PAGE_SIZE
    ensures Translate(m, d, tmp + i) == tmp + i
  {
    hide Entry;
    WrapSmall(tmp + i);
    assert AlignDown(MakeEntry(tmp / PAGE_SIZE, 7)) == tmp;
  }

  /** One byte read through the directory while only the scratch page has been written. */
  lemma ReadThrough(m: Memory, n: Memory, d: Frame, virt: Word, i: nat, f: Frame)
    requires SameExcept(m, n, f) && Outside(m, d, f)
    ensures UserAddress(n, d, virt, i) == UserAddress(m, d, virt, i)
    ensures UserAddress(m, d, virt, i) / PAGE_SIZE != f ==> UserByte(n, d, virt, i) == UserByte(m, d, virt, i)
  {
    OutsideKeeps(m, n, d, f);
    var a := UserAddress(m, d, virt, i);
    if a / PAGE_SIZE != f { ByteOfFrame(m, n, a); }
  }

  /** strncpy from the task's address space to the scratch page, while the task's directory is loaded. */
  method CopyIn(k: Machine, directory: Word, tmp: Word, virt: Word, count: nat) returns (ghost n: nat)
    requires k.Valid() && directory % PAGE_SIZE == 0 && tmp % PAGE_SIZE == 0 && 0 < count < PAGE_SIZE
    requires Outside(k.M(), FrameOf(directory), tmp / PAGE_SIZE)
    requires Entry(k.M(), FrameOf(directory), tmp / PAGE_SIZE) == MakeEntry(tmp / PAGE_SIZE, 7)
    modifies k.mem
    ensures SameExcept(old(k.M()), k.M(), tmp / PAGE_SIZE)
    ensures SourceAvoids(old(k.M()), FrameOf(directory), virt, count, tmp / PAGE_SIZE) ==>
              && n == UserLen(old(k.M()), FrameOf(directory), virt, count - 1)
              && (forall j: nat | j < n ::
                    BufferByte(k.M(), tmp, j) == UserByte(old(k.M()), FrameOf(directory), virt, j))
              && BufferByte(k.M(), tmp, n) == 0
  {
    hide WithByte;
    hide ByteAt;
    hide Entry;
    hide TableFrame;
    hide SameFrame;
    hide Wrap;
    hide Translate;
    hide BufferByte;
    ghost var m, d := k.M(), FrameOf(directory);
    ghost var avoids := SourceAvoids(m, d, virt, count, tmp / PAGE_SIZE);
    NothingChanged(m, tmp / PAGE_SIZE);
    var i := 0;
    while i < count - 1
      invariant 0 <= i <= count - 1
      invariant SameExcept(m, k.M(), tmp / PAGE_SIZE)
      invariant avoids ==> forall j: nat | j < i ::
                  UserByte(m, d, virt, j) != 0 && BufferByte(k.M(), tmp, j) == UserByte(m, d, virt, j)
    {
      ghost var before := k.M();
      ReadThrough(m, before, d, virt, i, tmp / PAGE_SIZE);
      var from := PagingGetPhysicalAddress(k, directory, Wrap(virt + i));
      assert from == UserAddress(m, d, virt, i);
      var c := k.LoadByte(from);
      if c == 0x00 {
        break;
      }
      StoreScratch(k, directory, m, tmp, i, c);
      i := i + 1;
    }
    StoreScratch(k, directory, m, tmp, i, 0x00);
    n := i;
    if avoids { UserLenIs(m, d, virt, count - 1, i); }
  }

  lemma NothingChanged(m: Memory, f: Frame)
    ensures SameExcept(m, m, f)
  {
  }

  /** A store to byte `i` of the scratch page, through the task's directory. */
  method StoreScratch(k: Machine, directory: Word, ghost m: Memory, tmp: Word, i: nat, c: Byte)
    requires k.Valid() && directory % PAGE_SIZE == 0 && tmp % PAGE_SIZE == 0 && i < PAGE_SIZE
    requires Outside(m, FrameOf(directory), tmp / PAGE_SIZE) && SameExcept(m, k.M(), tmp / PAGE_SIZE)
    requires Entry(m, FrameOf(directory), tmp / PAGE_SIZE) == MakeEntry(tmp / PAGE_SIZE, 7)
    modifies k.mem
    ensures SameExcept(m, k.M(), tmp / PAGE_SIZE)
    ensures forall j: nat | tmp + j < 0x1_0000_0000 ::
              BufferByte(k.M(), tmp, j) == if j == i then c else BufferByte(old(k.M()), tmp, j)
  {
    hide WithByte;
    hide ByteAt;
    hide Entry;
    hide TableFrame;
    hide SameFrame;
    hide Translate;
    OutsideKeeps(m, k.M(), FrameOf(directory), tmp / PAGE_SIZE);
    ScratchAddress(k.M(), FrameOf(directory), tmp, i);
    var to := PagingGetPhysicalAddress(k, directory, Wrap(tmp + i));
    StoreIn(m, k.M(), to, c);
    ghost var before := k.M();
    BufferStore(before, tmp, i, c);
    k.StoreByte(to, c);
    forall j: nat | tmp + j < 0x1_0000_0000
      ensures BufferByte(k.M(), tmp, j) == if j == i then c else BufferByte(before, tmp, j)
    {
      assert BufferByte(WithByte(before, tmp + i, c), tmp, j) == if j == i then c else BufferByte(before, tmp, j);
    }
  }

  // ---------------------------------------------------------------- strncpy into the kernel's buffer

  /** Bytes outside the buffer of `count` bytes at `phys` are the same in both memories. */
  ghost predicate SameOutside(m: Memory, n: Memory, phys: Word, count: nat) {
    forall a: Word | a < phys || phys + count <= a :: ByteAt(n, a) == ByteAt(m, a)
  }

  /** strncpy from the scratch page to `phys`, under the kernel's identity directory. */
  method CopyOut(k: Machine, tmp: Word, phys: Word, count: nat) returns (ghost n: nat)
    requires k.Valid() && 0 < count < PAGE_SIZE && tmp + count < 0x1_0000_0000 && phys + count <= 0x1_0000_0000
    requires phys + count <= tmp || tmp + count <= phys
    modifies k.mem
    ensures n < count && SameOutside(old(k.M()), k.M(), phys, count)
    ensures forall j: nat | j < n ::
              BufferByte(old(k.M()), tmp, j) != 0 && BufferByte(k.M(), phys, j) == BufferByte(old(k.M()), tmp, j)
    ensures n < count - 1 ==> BufferByte(old(k.M()), tmp, n) == 0
    ensures BufferByte(k.M(), phys, n) == 0
  {
    hide WithByte;
    hide ByteAt;
    ghost var m := k.M();
    var i := 0;
    while i < count - 1
      invariant 0 <= i <= count - 1
      invariant SameOutside(m, k.M(), phys, count)
      invariant forall j: nat | j < i ::
                  BufferByte(m, tmp, j) != 0 && BufferByte(k.M(), phys, j) == BufferByte(m, tmp, j)
    {
      var c := k.LoadByte(tmp + i);
      assert c == BufferByte(m, tmp, i);
      if c == 0x00 {
        break;
      }
      ghost var before := k.M();
      StoreOut(m, before, phys, count, i, c);
      k.StoreByte(phys + i, c);
      forall j: nat | j < i ensures BufferByte(k.M(), phys, j) == BufferByte(before, phys, j) {
        assert BufferByte(WithByte(before, phys + i, c), phys, j) == BufferByte(before, phys, j);
      }
      i := i + 1;
    }
    ghost var before := k.M();
    var terminator: Byte := 0x00;
    StoreOut(m, before, phys, count, i, terminator);
    k.StoreByte(phys + i, terminator);
    forall j: nat | j < i ensures BufferByte(k.M(), phys, j) == BufferByte(before, phys, j) {
      assert BufferByte(WithByte(before, phys + i, terminator), phys, j) == BufferByte(before, phys, j);
    }
    n := i;
  }

  lemma StoreOut(m: Memory, n: Memory, phys: Word, count: nat, i: nat, c: Byte)
    requires SameOutside(m, n, phys, count) && i < count && phys + count <= 0x1_0000_0000
    ensures SameOutside(m, WithByte(n, phys + i, c), phys, count)
    ensures BufferByte(WithByte(n, phys + i, c), phys, i) == c
    ensures forall j: nat | j < count && j != i ::
              BufferByte(WithByte(n, phys + i, c), phys, j) == BufferByte(n, phys, j)
  {
    BufferStore(n, phys, i, c);
    forall a: Word | a < phys || phys + count <= a ensures ByteAt(WithByte(n, phys + i, c), a) == ByteAt(m, a) {
      WithByteEffect(n, phys + i, c, a);
    }
  }

  // ---------------------------------------------------------------- copy_string_from_task

  /** The frame of the block the call borrows. */
  function Scratch(hb: int, t: Table): int { hb + StartBlock(t, 1) }

  /** Directory and tables lie outside the pool's free blocks. */
  ghost predicate DirectoryHeld(hb: int, t: Table, m: Memory, d: Frame) {
    && ValidDirectory(m, d)
    && forall f: Frame | hb <= f < hb + |t| && IsFree(t[f - hb]) :: Outside(m, d, f)
  }

  /** Some of the `count` bytes at `phys` lie in frame `f`. */
  predicate Overlaps(phys: Word, count: nat, f: Frame) {
    PAGE_SIZE * f < phys + count && phys < PAGE_SIZE * f + PAGE_SIZE
  }

  /** The caller's buffer lies in no frame of the directory and in no free block. */
  ghost predicate BufferApart(hb: int, t: Table, m: Memory, d: Frame, phys: Word, count: nat) {
    && phys + count <= 0x1_0000_0000
    && forall f: Frame | Overlaps(phys, count, f) ::
         Outside(m, d, f) && !(hb <= f < hb + |t| && IsFree(t[f - hb]))
  }

  /** The string avoids the scratch page, its frame, and the page table that holds the scratch page's entry,
      which the call changes while it copies. */
  ghost predicate SourceApart(m: Memory, d: Frame, virt: Word, max: nat, f: Frame) {
    && SourceAvoidsPage(virt, max, f)
    && SourceAvoids(m, d, virt, max, f)
    && SourceAvoids(m, d, virt, max, TableFrame(m, d, f / PAGE_WORDS))
  }

  lemma DirectoryItself(m: Memory, d: Frame)
    ensures SameDirectory(m, m, d)
  {
  }

  /** What the allocation hands out: the lowest free block, apart from directory and buffer; freeing it later
      restores the table. */
  lemma ScratchBlock(hb: int, t: Table, m: Memory, d: Frame, phys: Word, max: nat)
    requires PoolBounds(hb, |t|) && WellFormed(t) && 0 < max < PAGE_SIZE
    requires DirectoryHeld(hb, t, m, d) && BufferApart(hb, t, m, d, phys, max)
    ensures Blocks(max) == 1 && Safe(t, 1) && phys + max <= 0x1_0000_0000
    ensures !CanFit(t, 1) ==> KzallocSpec(hb, t, m, max) == (t, m, 0)
    ensures CanFit(t, 1) ==>
              var s := StartBlock(t, 1);
              && 0 <= s < |t| && Outside(m, d, hb + s)
              && KzallocSpec(hb, t, m, max)
                 == (MarkTaken(t, s, 1), ZeroFill(m, PAGE_SIZE * (hb + s), max), PAGE_SIZE * (hb + s))
              && FreeChain(MarkTaken(t, s, 1), s) == t
              && (phys + max <= PAGE_SIZE * (hb + s) || PAGE_SIZE * (hb + s) + PAGE_SIZE <= phys)
  {
    hide ZeroFill;
    hide MarkTaken;
    hide WellFormed;
    hide StartBlock;
    hide FreeChain;
    hide Outside;
    hide IsFree;
    hide ValidDirectory;
    assert Blocks(max) == 1;
    SafeOne(t);
    MallocBlocksLive(t, 1);
    FirstFitExact(t, 1);
    if CanFit(t, 1) {
      FreeUndoesMalloc(t, 1);
      assert IsFree(t[StartBlock(t, 1)]);
    }
  }

  lemma FillScratch(m: Memory, d: Frame, f: Frame, max: nat)
    requires ValidDirectory(m, d) && Outside(m, d, f) && max <= PAGE_SIZE
    ensures var m1 := ZeroFill(m, PAGE_SIZE * f, max);
            SameExcept(m, m1, f) && SameDirectory(m, m1, d) && Outside(m1, d, f) && ValidDirectory(m1, d)
  {
    hide ZeroFill;
    var m1 := ZeroFill(m, PAGE_SIZE * f, max);
    forall g: Frame | g != f ensures SameFrame(m, m1, g) { ZeroFillFrame(m, f, 1, max, g); }
    OutsideKeeps(m, m1, d, f);
    SameWordsSameTables(m, m1, d);
  }

  lemma MappedScratch(m1: Memory, d: Frame, f: Frame)
    requires ValidDirectory(m1, d) && Outside(m1, d, f)
    ensures var m2 := WithEntry(m1, d, f, MakeEntry(f, 7));
            && Outside(m2, d, f) && ValidDirectory(m2, d) && Entry(m2, d, f) == MakeEntry(f, 7)
            && (forall q: Page | q != f :: Entry(m2, d, q) == Entry(m1, d, q))
            && SameExcept(m1, m2, TableFrame(m1, d, f / PAGE_WORDS))
  {
    WithEntryEffect(m1, d, f, MakeEntry(f, 7));
    var m2 := WithEntry(m1, d, f, MakeEntry(f, 7));
    forall g: Frame | g != TableFrame(m1, d, f / PAGE_WORDS) ensures SameFrame(m1, m2, g) {
      WithCellFrame(m1, TableFrame(m1, d, f / PAGE_WORDS), f % PAGE_WORDS, MakeEntry(f, 7), g);
    }
  }

  /** Writing the saved entry back undoes the mapping; only the scratch frame differs. */
  lemma Restored(m1: Memory, m3: Memory, d: Frame, f: Frame)
    requires ValidDirectory(m1, d) && Outside(m1, d, f)
    requires SameExcept(WithEntry(m1, d, f, MakeEntry(f, 7)), m3, f)
    ensures SameExcept(m1, WithEntry(m3, d, f, Entry(m1, d, f)), f)
    ensures SameFrame(m3, WithEntry(m3, d, f, Entry(m1, d, f)), f)
  {
    var e := MakeEntry(f, 7);
    var m2 := WithEntry(m1, d, f, e);
    MappedScratch(m1, d, f);
    OutsideKeeps(m2, m3, d, f);
    WithEntryEffect(m1, d, f, e);
    var tb, w := TableFrame(m1, d, f / PAGE_WORDS), f % PAGE_WORDS;
    assert TableFrame(m3, d, f / PAGE_WORDS) == tb;
    var m4 := WithEntry(m3, d, f, Entry(m1, d, f));
    forall g: Frame | g != f ensures SameFrame(m1, m4, g) {
      assert SameFrame(m2, m3, g);
      forall x: Index ensures Cell(m1, g, x) == Cell(m4, g, x) {
        WithCellEffect(m1, tb, w, e, g, x);
        WithCellEffect(m3, tb, w, Entry(m1, d, f), g, x);
        assert Cell(m2, g, x) == Cell(m3, g, x);
      }
    }
    WithCellFrame(m3, tb, w, Entry(m1, d, f), f);
  }

  /** Filling the caller's buffer touches neither the directory nor its tables. */
  lemma BufferSpares(hb: int, t: Table, m: Memory, m4: Memory, m5: Memory, d: Frame, phys: Word, max: nat, f: Frame)
    requires SameExcept(m, m4, f) && Outside(m, d, f) && SameOutside(m4, m5, phys, max)
    requires BufferApart(hb, t, m, d, phys, max)
    ensures SameDirectory(m, m5, d)
  {
    hide ByteAt;
    forall g: Frame | !Outside(m, d, g) ensures SameFrame(m, m5, g) {
      assert !Overlaps(phys, max, g);
      BytesSameFrame(m4, m5, g);
      assert SameFrame(m, m4, g);
    }
    SameFramesSameDirectory(m, m5, d);
  }

  /** While the scratch page is mapped the task still reads its string as before the call. */
  lemma SourceSeen(m: Memory, m1: Memory, d: Frame, virt: Word, max: nat, f: Frame)
    requires SourceApart(m, d, virt, max, f) && SameExcept(m, m1, f) && SameDirectory(m, m1, d)
    requires ValidDirectory(m1, d) && Outside(m1, d, f) && max > 0
    ensures var m2 := WithEntry(m1, d, f, MakeEntry(f, 7));
            && SourceAvoids(m2, d, virt, max, f)
            && UserLen(m2, d, virt, max - 1) == UserLen(m, d, virt, max - 1)
            && forall i: nat | i < max - 1 :: UserByte(m2, d, virt, i) == UserByte(m, d, virt, i)
  {
    hide ByteAt;
    hide Wrap;
    hide Entry;
    hide WithEntry;
    hide TableFrame;
    hide SameFrame;
    var m2 := WithEntry(m1, d, f, MakeEntry(f, 7));
    var tb := TableFrame(m, d, f / PAGE_WORDS);
    MappedScratch(m1, d, f);
    SameWordsSameTables(m, m1, d);
    forall i: nat | i < max - 1
      ensures UserAddress(m2, d, virt, i) == UserAddress(m, d, virt, i)
      ensures UserByte(m2, d, virt, i) == UserByte(m, d, virt, i)
    {
      assert UserPage(virt, i) != f;
      assert Entry(m2, d, UserPage(virt, i)) == Entry(m, d, UserPage(virt, i));
      var a := UserAddress(m, d, virt, i);
      assert a / PAGE_SIZE != f && a / PAGE_SIZE != tb;
      assert UserAddress(m2, d, virt, i) == a;
      ByteOfFrame(m, m1, a);
      ByteOfFrame(m1, m2, a);
    }
    UserLenIs(m, d, virt, max - 1, UserLen(m2, d, virt, max - 1));
  }

  /** Two copies of one string stop at the same place. */
  lemma SameStop(m: Memory, tmp: Word, n: nat, n': nat, max: nat)
    requires tmp + max < 0x1_0000_0000 && n < max && n' < max
    requires (forall j: nat | j < n :: BufferByte(m, tmp, j) != 0) && BufferByte(m, tmp, n) == 0
    requires (forall j: nat | j < n' :: BufferByte(m, tmp, j) != 0) && (n' < max - 1 ==> BufferByte(m, tmp, n') == 0)
    ensures n == n'
  {
  }

  /** The `n` bytes at `phys` are those that `m` holds at the addresses to which directory `d` translates the task's,
      none of them null; a null follows, and the task's string ends there too unless it was cut. */
  ghost predicate Arrived(m: Memory, m': Memory, d: Frame, virt: Word, phys: Word, max: nat, n: nat) {
    && n < max && phys + n < 0x1_0000_0000 && ByteAt(m', phys + n) == 0
    && (n < max - 1 ==> ByteAt(m, Translate(m, d, Wrap(virt + n))) == 0)
    && (forall a: Word | phys <= a < phys + n ::
          ByteAt(m', a) != 0 && ByteAt(m', a) == ByteAt(m, Translate(m, d, Wrap(virt + (a - phys)))))
  }

  lemma ArrivedIs(m: Memory, m': Memory, d: Frame, virt: Word, phys: Word, max: nat, n: nat)
    requires max > 0 && phys + max <= 0x1_0000_0000 && n == UserLen(m, d, virt, max - 1)
    requires forall j: nat | j < n :: BufferByte(m', phys, j) == UserByte(m, d, virt, j)
    requires BufferByte(m', phys, n) == 0
    ensures Arrived(m, m', d, virt, phys, max, n)
  {
    hide ByteAt, Translate, Wrap, UserLen;
    forall a: Word | phys <= a < phys + n
      ensures ByteAt(m', a) != 0 && ByteAt(m', a) == ByteAt(m, Translate(m, d, Wrap(virt + (a - phys))))
    {
      assert BufferByte(m', phys, a - phys) == UserByte(m, d, virt, a - phys);
    }
  }

  /** copy_string_from_task leaves no trace: table, translations and flags are as before the call. The buffer
      gets the string as the task sees it, cut to `max - 1` bytes. */
  method CopyStringFromTask(k: Machine, directory: Word, virt: Word, phys: Word, max: nat)
    returns (res: int, ghost n: nat)
    requires k.Valid() && directory % PAGE_SIZE == 0 && WellFormed(k.T())
    requires max > 0 && DirectoryHeld(k.Hb(), k.T(), k.M(), FrameOf(directory))
    requires BufferApart(k.Hb(), k.T(), k.M(), FrameOf(directory), phys, max)
    modifies k.heap.table, k.mem
    ensures res == if max >= PAGE_SIZE then -EINVARG else if CanFit(old(k.T()), 1) then 0 else -ENOMEM
    ensures k.T() == old(k.T())
    ensures SameDirectory(old(k.M()), k.M(), FrameOf(directory))
    ensures res != 0 ==> k.M() == old(k.M())
    ensures res == 0 && SourceApart(old(k.M()), FrameOf(directory), virt, max, Scratch(k.Hb(), old(k.T()))) ==>
              && n == UserLen(old(k.M()), FrameOf(directory), virt, max - 1)
              && (forall j: nat | j < n ::
                    BufferByte(k.M(), phys, j) == UserByte(old(k.M()), FrameOf(directory), virt, j))
              && BufferByte(k.M(), phys, n) == 0
    ensures res == 0 && SourceApart(old(k.M()), FrameOf(directory), virt, max, Scratch(k.Hb(), old(k.T()))) ==>
              Arrived(old(k.M()), k.M(), FrameOf(directory), virt, phys, max, n)
    ensures res == 0 ==> forall a: Word | !(phys <= a < phys + max) && a / PAGE_SIZE != Scratch(k.Hb(), old(k.T())) ::
              ByteAt(k.M(), a) == ByteAt(old(k.M()), a)
  {
    hide WithByte;
    hide ByteAt;
    hide Entry;
    hide TableFrame;
    hide SameFrame;
    hide Translate;
    hide ZeroFill;
    hide WellFormed;
    hide StartBlock;
    hide MarkTaken;
    hide BufferByte;
    hide WithEntry;
    hide Outside;
    hide SameDirectory;
    hide ValidDirectory;
    hide UserLen;
    hide UserByte;
    hide UserAddress;
    hide BufferApart;
    hide SourceApart;
    hide Arrived;
    ghost var t, m, d := k.T(), k.M(), FrameOf(directory);
    n := 0;
    DirectoryItself(m, d);
    if max >= PAGE_SIZE {
      return -EINVARG, 0;
    }
    ScratchBlock(k.Hb(), t, m, d, phys, max);
    var tmp := k.Kzalloc(max);
    if tmp == 0 {
      return -ENOMEM, 0;
    }
    ghost var f: Frame := Scratch(k.Hb(), t);
    ghost var m1 := k.M();
    FillScratch(m, d, f, max);
    var oldEntry := PagingGetEntry(k, directory, tmp);
    var mapped := PagingMap(k, directory, tmp, tmp, IS_WRITEABLE + IS_PRESENT + ACCESS_FROM_ALL);
    ghost var m2 := k.M();
    assert m2 == WithEntry(m1, d, f, MakeEntry(f, 7));
    MappedScratch(m1, d, f);
    n := CopyIn(k, directory, tmp, virt, max);
    ghost var m3 := k.M();
    res := PagingSet(k, directory, tmp, oldEntry);
    ghost var m4 := k.M();
    assert m4 == WithEntry(m3, d, f, Entry(m1, d, f));
    Restored(m1, m3, d, f);
    SameExceptTrans(m, m1, m4, f);
    ghost var n' := CopyOut(k, tmp, phys, max);
    BufferSpares(k.Hb(), t, m, m4, k.M(), d, phys, max, f);
    OthersSame(m, m4, k.M(), phys, max, f);
    if SourceApart(m, d, virt, max, f) {
      SourceSeen(m, m1, d, virt, max, f);
      Carried(m, m3, m4, k.M(), d, virt, tmp, phys, max, n, n');
      ArrivedIs(m, k.M(), d, virt, phys, max, n);
    }
    k.Kfree(tmp);
  }

  lemma SameExceptTrans(m: Memory, m1: Memory, m4: Memory, f: Frame)
    requires SameExcept(m, m1, f) && SameExcept(m1, m4, f)
    ensures SameExcept(m, m4, f)
  {
    forall g: Frame | g != f ensures SameFrame(m, m4, g) {
      assert SameFrame(m, m1, g) && SameFrame(m1, m4, g);
    }
  }

  lemma OthersSame(m: Memory, m4: Memory, m5: Memory, phys: Word, max: nat, f: Frame)
    requires SameExcept(m, m4, f) && SameOutside(m4, m5, phys, max)
    ensures forall a: Word | !(phys <= a < phys + max) && a / PAGE_SIZE != f :: ByteAt(m5, a) == ByteAt(m, a)
  {
    hide ByteAt;
    forall a: Word | !(phys <= a < phys + max) && a / PAGE_SIZE != f ensures ByteAt(m5, a) == ByteAt(m, a) {
      ByteOfFrame(m, m4, a);
    }
  }

  /** The string read into the scratch page is the string that arrives in the buffer. */
  lemma Carried(m: Memory, m3: Memory, m4: Memory, m5: Memory, d: Frame, virt: Word, tmp: Word, phys: Word,
                max: nat, n: nat, n': nat)
    requires tmp % PAGE_SIZE == 0 && 0 < max < PAGE_SIZE && tmp + PAGE_SIZE < 0x1_0000_0000
        && phys + max <= 0x1_0000_0000
    requires SameFrame(m3, m4, tmp / PAGE_SIZE)
    requires n == UserLen(m, d, virt, max - 1) && n' < max
    requires forall j: nat | j < n :: BufferByte(m3, tmp, j) == UserByte(m, d, virt, j)
    requires BufferByte(m3, tmp, n) == 0
    requires forall j: nat | j < n' :: BufferByte(m4, tmp, j) != 0 && BufferByte(m5, phys, j) == BufferByte(m4, tmp, j)
    requires n' < max - 1 ==> BufferByte(m4, tmp, n') == 0
    requires BufferByte(m5, phys, n') == 0
    ensures n' == n
    ensures forall j: nat | j < n :: BufferByte(m5, phys, j) == UserByte(m, d, virt, j)
    ensures BufferByte(m5, phys, n) == 0
  {
    hide ByteAt;
    hide UserByte;
    forall j: nat | j < max ensures BufferByte(m4, tmp, j) == BufferByte(m3, tmp, j) {
      assert (tmp + j) / PAGE_SIZE == tmp / PAGE_SIZE;
      ByteOfFrame(m3, m4, tmp + j);
    }
    SameStop(m4, tmp, n, n', max);
  }
}
