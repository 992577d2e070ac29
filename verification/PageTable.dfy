/**
  Two-level page directories in physical memory, read as flat maps from 2^20 pages to entries
  ("32-bit Paging", section 4.3 of the Intel SDM, volume 3A).

  A directory is a frame of 1024 words; word `i` names the frame of table `i`; entry `q % 1024` of table
  `q / 1024` describes page `q`. Frame numbers stand for aligned addresses: masking an entry with
  0xfffff000 and dividing by the page size is `FrameOf`.
*/
module PageTable {
  import opened Words
  import opened PhysicalMemory

  const IS_PRESENT := 1
  const IS_WRITEABLE := 2
  const ACCESS_FROM_ALL := 4

  type Page = Frame
  type Flags = f: int | 0 <= f < PAGE_SIZE

  function FrameOf(e: Word): Frame { e / PAGE_SIZE }

  /** An entry: an aligned address OR-ed with flags. */
  function MakeEntry(f: Frame, flags: Flags): Word { PAGE_SIZE * f + flags }

  /** On 32-bit patterns, OR-ing flags into an aligned address is the addition that `MakeEntry` writes,
      and masking recovers both parts. */
  lemma EntryBits(address: bv32, flags: bv32)
    requires address & 0xfff == 0 && flags & 0xfffff000 == 0
    ensures address | flags == address + flags
    ensures (address | flags) & 0xfffff000 == address && (address | flags) & 0xfff == flags
  {
  }

  predicate Present(e: Word) { e % 2 == 1 }

  predicate Writeable(e: Word) { e / 2 % 2 == 1 }

  predicate UserAccess(e: Word) { e / 4 % 2 == 1 }

  /** Present, writeable and open to user mode. */
  predicate MayWrite(e: Word) {
    Present(e) && Writeable(e) && UserAccess(e)
  }

  /** Of the flags that the kernel gives user pages, 7 admits stores; 5 and 0 do not. */
  lemma FlagsDecide(f: Frame)
    ensures MayWrite(MakeEntry(f, 7)) && !MayWrite(MakeEntry(f, 5)) && !MayWrite(MakeEntry(f, 0))
    ensures FrameOf(MakeEntry(f, 7)) == f && FrameOf(MakeEntry(f, 5)) == f && FrameOf(MakeEntry(f, 0)) == f
    ensures !Present(MakeEntry(f, 0))
  {
  }

  /** The low bits of an entry are its flags'. */
  lemma FlagBits(f: Frame, x: Flags)
    ensures MakeEntry(f, x) % PAGE_SIZE == x && FrameOf(MakeEntry(f, x)) == f
    ensures Present(MakeEntry(f, x)) <==> x % 2 == 1
    ensures Writeable(MakeEntry(f, x)) <==> x / 2 % 2 == 1
    ensures UserAccess(MakeEntry(f, x)) <==> x / 4 % 2 == 1
  {
    var e := MakeEntry(f, x);
    EvenAhead(2048 * f, x);
    assert e / 2 == 2 * (1024 * f) + x / 2;
    EvenAhead(1024 * f, x / 2);
    assert e / 4 == 2 * (512 * f) + x / 4;
    EvenAhead(512 * f, x / 4);
  }

  lemma EvenAhead(a: int, y: int)
    ensures (2 * a + y) % 2 == y % 2
  {
  }

  function TableFrame(m: Memory, d: Frame, i: Index): Frame {
    FrameOf(Cell(m, d, i))
  }

  /** The entry that describes page `q`. */
  function Entry(m: Memory, d: Frame, q: Page): Word {
    Cell(m, TableFrame(m, d, q / PAGE_WORDS), q % PAGE_WORDS)
  }

  /** A user-mode store goes through only where the directory's word and the table's entry both admit it
      ("Access Rights", section 4.6 of the same manual); otherwise it faults. */
  predicate UserMayWrite(m: Memory, d: Frame, q: Page) {
    MayWrite(Cell(m, d, q / PAGE_WORDS)) && MayWrite(Entry(m, d, q))
  }

  /** All words of the directory admit user stores, so that the tables' entries alone decide. */
  ghost predicate DirectoryOpen(m: Memory, d: Frame) {
    forall i: Index :: MayWrite(Cell(m, d, i))
  }

  lemma OpenDirectory(m: Memory, d: Frame, q: Page)
    requires DirectoryOpen(m, d)
    ensures UserMayWrite(m, d, q) <==> MayWrite(Entry(m, d, q))
  {
    assert MayWrite(Cell(m, d, q / PAGE_WORDS));
  }

  /** paging_get_physical_address */
  function Translate(m: Memory, d: Frame, v: Word): Word {
    AlignDown(Entry(m, d, v / PAGE_SIZE)) + v % PAGE_SIZE
  }

  /** The tables of a directory are pairwise distinct frames, none the directory itself. */
  ghost predicate ValidDirectory(m: Memory, d: Frame) {
    && (forall i: Index :: TableFrame(m, d, i) != d)
    && (forall i: Index, j: Index | i < j :: TableFrame(m, d, i) != TableFrame(m, d, j))
  }

  ghost predicate IsTable(m: Memory, d: Frame, f: Frame) {
    exists i: Index :: TableFrame(m, d, i) == f
  }

  /** `n` is `m` with nothing but the tables of `d` written. */
  ghost predicate OnlyTables(m: Memory, n: Memory, d: Frame) {
    forall f: Frame | !IsTable(m, d, f) :: SameFrame(m, n, f)
  }

  /** Both memories hold one directory: the same 1024 words and the same 2^20 entries. */
  ghost predicate SameDirectory(m: Memory, n: Memory, d: Frame) {
    && (forall i: Index :: Cell(n, d, i) == Cell(m, d, i))
    && (forall q: Page :: Entry(n, d, q) == Entry(m, d, q))
  }

  lemma SameFramesSameDirectory(m: Memory, n: Memory, d: Frame)
    requires SameFrame(m, n, d) && forall i: Index :: SameFrame(m, n, TableFrame(m, d, i))
    ensures SameDirectory(m, n, d)
  {
    forall i: Index ensures Cell(n, d, i) == Cell(m, d, i) {}
    forall q: Page ensures Entry(n, d, q) == Entry(m, d, q) {
      var f := TableFrame(m, d, q / PAGE_WORDS);
      assert SameFrame(m, n, f);
      assert Cell(m, f, q % PAGE_WORDS) == Cell(n, f, q % PAGE_WORDS);
    }
  }

  lemma SameWordsSameTables(m: Memory, n: Memory, d: Frame)
    requires SameDirectory(m, n, d)
    ensures forall i: Index :: TableFrame(n, d, i) == TableFrame(m, d, i)
    ensures ValidDirectory(m, d) ==> ValidDirectory(n, d)
  {
    forall i: Index ensures TableFrame(n, d, i) == TableFrame(m, d, i) { assert Cell(n, d, i) == Cell(m, d, i); }
  }

  // ---------------------------------------------------------------- paging_set

  function WithEntry(m: Memory, d: Frame, q: Page, val: Word): Memory {
    WithCell(m, TableFrame(m, d, q / PAGE_WORDS), q % PAGE_WORDS, val)
  }

  /** Setting a page changes that page's entry and no other, and no table moves. */
  lemma WithEntryEffect(m: Memory, d: Frame, q: Page, val: Word)
    requires ValidDirectory(m, d)
    ensures ValidDirectory(WithEntry(m, d, q, val), d)
    ensures forall i: Index :: TableFrame(WithEntry(m, d, q, val), d, i) == TableFrame(m, d, i)
    ensures forall p: Page :: Entry(WithEntry(m, d, q, val), d, p) == if p == q then val else Entry(m, d, p)
    ensures OnlyTables(m, WithEntry(m, d, q, val), d)
  {
    var n := WithEntry(m, d, q, val);
    var t := TableFrame(m, d, q / PAGE_WORDS);
    forall i: Index ensures TableFrame(n, d, i) == TableFrame(m, d, i) {
      WithCellEffect(m, t, q % PAGE_WORDS, val, d, i);
    }
    forall p: Page ensures Entry(n, d, p) == if p == q then val else Entry(m, d, p) {
      WithCellEffect(m, t, q % PAGE_WORDS, val, TableFrame(m, d, p / PAGE_WORDS), p % PAGE_WORDS);
    }
    forall f: Frame | !IsTable(m, d, f) ensures SameFrame(m, n, f) {
      forall w: Index ensures Cell(m, f, w) == Cell(n, f, w) {
        WithCellEffect(m, t, q % PAGE_WORDS, val, f, w);
      }
    }
  }

  // ---------------------------------------------------------------- paging_map_to

  /** Memory after `n` pages from virtual page `vp` on (modulo 2^20) were mapped to frames `pf ..`. */
  function MapPages(m: Memory, d: Frame, vp: Page, pf: Frame, n: nat, flags: Flags): Memory
    requires pf + n <= FRAMES
  {
    if n == 0 then m
    else WithEntry(MapPages(m, d, vp, pf, n - 1, flags), d, (vp + n - 1) % FRAMES, MakeEntry(pf + n - 1, flags))
  }

  /** What page `q` holds after the mapping, given what it held before. */
  function MappedEntry(vp: Page, pf: Frame, n: nat, flags: Flags, q: Page, old_: Word): Word
    requires pf + n <= FRAMES
  {
    var k := (q - vp) % FRAMES;
    if k < n then MakeEntry(pf + k, flags) else old_
  }

  /** The `k`-th page of a range that wraps around the address space. */
  lemma PageOfRange(vp: Page, k: nat, q: Page)
    requires k < FRAMES
    ensures (q - vp) % FRAMES == k <==> q == (vp + k) % FRAMES
  {
    if vp + k < FRAMES {
      assert (vp + k) % FRAMES == vp + k;
    } else {
      assert (vp + k) % FRAMES == vp + k - FRAMES;
    }
    if q >= vp { assert (q - vp) % FRAMES == q - vp; } else { assert (q - vp) % FRAMES == q - vp + FRAMES; }
  }

  /** A range inside the address space is not taken modulo anything. */
  lemma RangeNoWrap(vp: Page, n: nat, q: Page)
    requires vp + n <= FRAMES
    ensures (q - vp) % FRAMES < n <==> vp <= q < vp + n
    ensures vp <= q ==> (q - vp) % FRAMES == q - vp
  {
    if q < vp { assert (q - vp) % FRAMES == q - vp + FRAMES; }
  }

  /** Mapping writes each page of the range once and no other of the 2^20 pages. */
  lemma {:induction false} MapPagesEffect(m: Memory, d: Frame, vp: Page, pf: Frame, n: nat, flags: Flags)
    requires pf + n <= FRAMES && ValidDirectory(m, d)
    ensures ValidDirectory(MapPages(m, d, vp, pf, n, flags), d)
    ensures forall i: Index :: TableFrame(MapPages(m, d, vp, pf, n, flags), d, i) == TableFrame(m, d, i)
    ensures forall q: Page ::
              Entry(MapPages(m, d, vp, pf, n, flags), d, q) == MappedEntry(vp, pf, n, flags, q, Entry(m, d, q))
    ensures OnlyTables(m, MapPages(m, d, vp, pf, n, flags), d)
  {
    if n > 0 {
      MapPagesEffect(m, d, vp, pf, n - 1, flags);
      var m' := MapPages(m, d, vp, pf, n - 1, flags);
      WithEntryEffect(m', d, (vp + n - 1) % FRAMES, MakeEntry(pf + n - 1, flags));
      forall q: Page
        ensures Entry(MapPages(m, d, vp, pf, n, flags), d, q) == MappedEntry(vp, pf, n, flags, q, Entry(m, d, q))
      {
        PageOfRange(vp, n - 1, q);
        assert Entry(m', d, q) == MappedEntry(vp, pf, n - 1, flags, q, Entry(m, d, q));
      }
      OnlyTablesTrans(m, m', MapPages(m, d, vp, pf, n, flags), d);
    }
  }

  /** `n` is `m` with nothing but entries in the tables of `d` changed. */
  ghost predicate SameTables(m: Memory, n: Memory, d: Frame) {
    OnlyTables(m, n, d) && forall i: Index :: TableFrame(n, d, i) == TableFrame(m, d, i)
  }

  lemma SameTablesItself(m: Memory, d: Frame)
    ensures SameTables(m, m, d)
  {
  }

  lemma SameTablesTrans(m: Memory, m': Memory, m'': Memory, d: Frame)
    requires SameTables(m, m', d) && SameTables(m', m'', d)
    ensures SameTables(m, m'', d)
  {
    OnlyTablesTrans(m, m', m'', d);
  }

  lemma OnlyTablesTrans(m: Memory, m': Memory, m'': Memory, d: Frame)
    requires OnlyTables(m, m', d) && OnlyTables(m', m'', d)
    requires forall i: Index :: TableFrame(m', d, i) == TableFrame(m, d, i)
    ensures OnlyTables(m, m'', d)
  {
    forall f: Frame | !IsTable(m, d, f) ensures SameFrame(m, m'', f) {
      assert !IsTable(m', d, f);
    }
  }

  /** paging_map_to: an error and the memory unchanged, or all pages mapped. */
  function MapTo(m: Memory, d: Frame, virt: Word, phys: Word, physEnd: Word, flags: Flags): (int, Memory) {
    if virt % PAGE_SIZE != 0 || phys % PAGE_SIZE != 0 || physEnd % PAGE_SIZE != 0 || physEnd < phys then (-EINVARG, m)
    else (0, MapPages(m, d, virt / PAGE_SIZE, phys / PAGE_SIZE, (physEnd - phys) / PAGE_SIZE, flags))
  }

  lemma MapToTables(m: Memory, d: Frame, virt: Word, phys: Word, physEnd: Word, flags: Flags)
    requires ValidDirectory(m, d)
    ensures var r := MapTo(m, d, virt, phys, physEnd, flags);
            ValidDirectory(r.1, d) && SameTables(m, r.1, d) && (r.0 == 0 || r == (-EINVARG, m))
  {
    if MapTo(m, d, virt, phys, physEnd, flags).0 == 0 {
      MapPagesEffect(m, d, virt / PAGE_SIZE, phys / PAGE_SIZE, (physEnd - phys) / PAGE_SIZE, flags);
    }
  }

  lemma WrappedPage(virt: Word, k: nat)
    requires virt % PAGE_SIZE == 0 && k < FRAMES
    ensures Wrap(virt + k * PAGE_SIZE) / PAGE_SIZE == (virt / PAGE_SIZE + k) % FRAMES
  {
    var vp := virt / PAGE_SIZE;
    if vp + k < FRAMES {
      assert Wrap(virt + k * PAGE_SIZE) == PAGE_SIZE * (vp + k);
    } else {
      assert Wrap(virt + k * PAGE_SIZE) == PAGE_SIZE * (vp + k - FRAMES);
    }
  }

  lemma PageDistance(virt: Word, q: Page)
    requires virt % PAGE_SIZE == 0
    ensures (PAGE_SIZE * q - virt) % 0x1_0000_0000 == PAGE_SIZE * ((q - virt / PAGE_SIZE) % FRAMES)
  {
    var vp := virt / PAGE_SIZE;
    if q >= vp {
      assert (q - vp) % FRAMES == q - vp;
    } else {
      assert (q - vp) % FRAMES == q - vp + FRAMES;
      assert (PAGE_SIZE * q - virt) % 0x1_0000_0000 == PAGE_SIZE * q - virt + 0x1_0000_0000;
    }
  }

  /** All or nothing: every page of the range is mapped and no other changes, or the call fails and no
      entry changes; the two are told apart by alignment and order of the arguments alone. */
  lemma MapToAllOrNothing(m: Memory, d: Frame, virt: Word, phys: Word, physEnd: Word, flags: Flags)
    requires ValidDirectory(m, d)
    ensures MapTo(m, d, virt, phys, physEnd, flags).0 == 0 <==>
            virt % PAGE_SIZE == 0 && phys % PAGE_SIZE == 0 && physEnd % PAGE_SIZE == 0 && phys <= physEnd
    ensures MapTo(m, d, virt, phys, physEnd, flags).0 != 0 ==> MapTo(m, d, virt, phys, physEnd, flags) == (-EINVARG, m)
    ensures MapTo(m, d, virt, phys, physEnd, flags).0 == 0 ==>
              forall k: nat | k < (physEnd - phys) / PAGE_SIZE ::
                Entry(MapTo(m, d, virt, phys, physEnd, flags).1, d, Wrap(virt + k * PAGE_SIZE) / PAGE_SIZE)
                == phys + k * PAGE_SIZE + flags
    ensures forall q: Page | (PAGE_SIZE * q - virt) % 0x1_0000_0000 >= physEnd - phys ::
              Entry(MapTo(m, d, virt, phys, physEnd, flags).1, d, q) == Entry(m, d, q)
  {
    if MapTo(m, d, virt, phys, physEnd, flags).0 == 0 {
      var vp, pf, n := virt / PAGE_SIZE, phys / PAGE_SIZE, (physEnd - phys) / PAGE_SIZE;
      MapPagesEffect(m, d, vp, pf, n, flags);
      var m' := MapPages(m, d, vp, pf, n, flags);
      forall k: nat | k < n
        ensures Entry(m', d, Wrap(virt + k * PAGE_SIZE) / PAGE_SIZE) == phys + k * PAGE_SIZE + flags
      {
        WrappedPage(virt, k);
        PageOfRange(vp, k, Wrap(virt + k * PAGE_SIZE) / PAGE_SIZE);
      }
      forall q: Page | (PAGE_SIZE * q - virt) % 0x1_0000_0000 >= physEnd - phys
        ensures Entry(m', d, q) == Entry(m, d, q)
      {
        PageDistance(virt, q);
      }
    }
  }
}
