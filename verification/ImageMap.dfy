/**
  process.c: mapping a loaded program and its stack into the process's directory.
*/
module ImageMap {
  import opened Words
  import opened PhysicalMemory
  import opened PageTable
  import opened Paging
  import opened Kheap
  import opened ElfLoader

  const PROGRAM_VIRTUAL_ADDRESS := 0x40_0000
  const STACK_SIZE := 1024 * 16
  const STACK_VIRTUAL_END := 0x3F_F000 - 1024 * 16

  datatype Program = Binary(ptr: Word, size: Word) | Elf(elfMemory: Word, headers: seq<Phdr>)

  // ---------------------------------------------------------------- one program header

  /** elf_phdr_phys_address */
  function PhysAddress(elfMemory: Word, h: Phdr): Word { Wrap(elfMemory + h.offset) }

  function SegmentFlags(h: Phdr): Flags {
    IS_PRESENT + ACCESS_FROM_ALL + if IsWriteable(h) then IS_WRITEABLE else 0
  }

  /** The paging_map_to call process_map_elf makes for a header. */
  function MapSegment(m: Memory, d: Frame, elfMemory: Word, h: Phdr): (int, Memory) {
    var phys := PhysAddress(elfMemory, h);
    MapTo(m, d, AlignDown(h.vaddr), AlignDown(phys), AlignUp(Wrap(phys + h.memsz)), SegmentFlags(h))
  }

  /** process_map_elf: stops at the first header that cannot be mapped. */
  function MapElf(m: Memory, d: Frame, elfMemory: Word, hs: seq<Phdr>): (int, Memory) {
    if hs == [] then (0, m)
    else
      var r := MapElf(m, d, elfMemory, hs[..|hs| - 1]);
      if r.0 < 0 then r else MapSegment(r.1, d, elfMemory, hs[|hs| - 1])
  }

  function MapBinary(m: Memory, d: Frame, ptr: Word, size: Word): (int, Memory) {
    MapTo(m, d, PROGRAM_VIRTUAL_ADDRESS, ptr, AlignUp(Wrap(ptr + size)), 7)
  }

  function MapProgram(m: Memory, d: Frame, program: Program): (int, Memory) {
    match program
    case Binary(ptr, size) => MapBinary(m, d, ptr, size)
    case Elf(elfMemory, hs) => MapElf(m, d, elfMemory, hs)
  }

  /** process_map_memory: the program, then the stack, whose result is ignored. */
  function MapMemory(m: Memory, d: Frame, program: Program, stack: Word): (int, Memory) {
    var r := MapProgram(m, d, program);
    if r.0 < 0 then r
    else (r.0, MapTo(r.1, d, STACK_VIRTUAL_END, stack, AlignUp(Wrap(stack + STACK_SIZE)), 7).1)
  }

  // ---------------------------------------------------------------- which pages a header takes

  /** The page of the segment's first byte. */
  function FirstPage(h: Phdr): int { h.vaddr / PAGE_SIZE }

  /** Number of frames from that of the segment's first byte to its end rounded up; negative where the end wraps
      around to before the start. */
  function SegmentPages(elfMemory: Word, h: Phdr): int {
    AlignUp(Wrap(PhysAddress(elfMemory, h) + h.memsz)) / PAGE_SIZE - PhysAddress(elfMemory, h) / PAGE_SIZE
  }

  predicate Mappable(elfMemory: Word, h: Phdr) { SegmentPages(elfMemory, h) >= 0 }

  /** Mapping the header sets page `q`. Pages may wrap around the address space. */
  predicate OnPage(elfMemory: Word, h: Phdr, q: Page) {
    (q - FirstPage(h)) % FRAMES < SegmentPages(elfMemory, h)
  }

  /** The frame it gives the page. */
  function FrameAt(elfMemory: Word, h: Phdr, q: Page): int {
    PhysAddress(elfMemory, h) / PAGE_SIZE + (q - FirstPage(h)) % FRAMES
  }

  /** Page `q` after segment `h` was mapped. */
  function SegmentEntry(elfMemory: Word, h: Phdr, q: Page, old_: int): int {
    if OnPage(elfMemory, h, q) then PAGE_SIZE * FrameAt(elfMemory, h, q) + SegmentFlags(h) else old_
  }

  /** The pages of a header are present and open to user mode, and writeable exactly if the header's flag bit 1 is
      set. */
  ghost predicate RightsOf(h: Phdr, e: Word) {
    && Present(e) && UserAccess(e) && (Writeable(e) <==> h.flags / 2 % 2 == 1)
  }

  lemma SegmentRights(h: Phdr, e: Word)
    requires e % PAGE_SIZE == SegmentFlags(h)
    ensures RightsOf(h, e)
  {
    FlagBits(FrameOf(e), SegmentFlags(h));
    assert e == MakeEntry(FrameOf(e), SegmentFlags(h));
  }

  /** Mapping a header fails exactly when its end wraps, and then changes nothing; otherwise it sets exactly its
      pages. */
  lemma MapSegmentEffect(m: Memory, d: Frame, elfMemory: Word, h: Phdr)
    requires ValidDirectory(m, d)
    ensures var r := MapSegment(m, d, elfMemory, h);
            && ValidDirectory(r.1, d) && SameTables(m, r.1, d)
            && (r.0 == 0 <==> Mappable(elfMemory, h)) && (r.0 != 0 ==> r == (-EINVARG, m))
            && (r.0 == 0 ==> forall q: Page :: Entry(r.1, d, q) == SegmentEntry(elfMemory, h, q, Entry(m, d, q)))
            && (r.0 == 0 ==> forall q: Page | OnPage(elfMemory, h, q) :: RightsOf(h, Entry(r.1, d, q)))
  {
    hide Wrap, AlignUp, MapPages, Entry, ValidDirectory, RightsOf;
    var phys := PhysAddress(elfMemory, h);
    var end := AlignUp(Wrap(phys + h.memsz));
    AlignUpMultiple(Wrap(phys + h.memsz));
    PagesBetween(phys, end);
    if Mappable(elfMemory, h) {
      MapPagesEffect(m, d, FirstPage(h), phys / PAGE_SIZE, SegmentPages(elfMemory, h), SegmentFlags(h));
      var m' := MapSegment(m, d, elfMemory, h).1;
      forall q: Page | OnPage(elfMemory, h, q) ensures RightsOf(h, Entry(m', d, q)) {
        SegmentEntryOn(elfMemory, h, q, Entry(m, d, q));
        SegmentRights(h, Entry(m', d, q));
      }
    }
  }

  lemma AlignUpMultiple(x: Word)
    ensures AlignUp(x) % PAGE_SIZE == 0
  {
  }

  lemma PagesBetween(phys: Word, end: Word)
    requires end % PAGE_SIZE == 0
    ensures AlignDown(phys) <= end <==> phys / PAGE_SIZE <= end / PAGE_SIZE
    ensures (end - AlignDown(phys)) / PAGE_SIZE == end / PAGE_SIZE - phys / PAGE_SIZE
    ensures AlignDown(phys) / PAGE_SIZE == phys / PAGE_SIZE && AlignDown(phys) % PAGE_SIZE == 0
  {
  }

  /** The last header on the page, -1 if there is none. */
  function TopAt(elfMemory: Word, hs: seq<Phdr>, q: Page): (i: int)
    ensures -1 <= i < |hs| && (i >= 0 ==> OnPage(elfMemory, hs[i], q))
    ensures forall j | i < j < |hs| :: !OnPage(elfMemory, hs[j], q)
  {
    if hs == [] then -1
    else if OnPage(elfMemory, hs[|hs| - 1], q) then |hs| - 1
    else TopAt(elfMemory, hs[..|hs| - 1], q)
  }

  /** Page `q` after all headers were mapped. */
  function ImageEntry(elfMemory: Word, hs: seq<Phdr>, q: Page, old_: int): int {
    var i := TopAt(elfMemory, hs, q);
    if i < 0 then old_ else SegmentEntry(elfMemory, hs[i], q, old_)
  }

  ghost predicate ImageMappable(elfMemory: Word, hs: seq<Phdr>) {
    forall i | 0 <= i < |hs| :: Mappable(elfMemory, hs[i])
  }

  /** Mapping an image fails exactly when one of its headers cannot be mapped. If none fails, each page has the
      entry of the last header on it. In any case nothing but the tables is written. */
  lemma {:induction false} MapElfEffect(m: Memory, d: Frame, elfMemory: Word, hs: seq<Phdr>)
    requires ValidDirectory(m, d)
    ensures var r := MapElf(m, d, elfMemory, hs);
            && ValidDirectory(r.1, d) && SameTables(m, r.1, d)
            && (r.0 == 0 <==> ImageMappable(elfMemory, hs)) && (r.0 == 0 || r.0 == -EINVARG)
            && (r.0 == 0 ==> forall q: Page :: Entry(r.1, d, q) == ImageEntry(elfMemory, hs, q, Entry(m, d, q)))
  {
    hide ValidDirectory, Entry, MapSegment, Mappable, OnPage, FrameAt;
    if hs != [] {
      var n := |hs| - 1;
      var gs := hs[..n];
      MapElfEffect(m, d, elfMemory, gs);
      var m' := MapElf(m, d, elfMemory, gs).1;
      MapSegmentEffect(m', d, elfMemory, hs[n]);
      SameTablesTrans(m, m', MapSegment(m', d, elfMemory, hs[n]).1, d);
      assert forall i | 0 <= i < n :: gs[i] == hs[i];
    }
  }

  // ---------------------------------------------------------------- well-formed images

  /** A segment whose file offset is congruent to its address modulo the page size and that wraps neither
      in memory nor in the address space. */
  ghost predicate SegmentRight(elfMemory: Word, h: Phdr) {
    && h.offset >= 0 && h.offset % PAGE_SIZE == h.vaddr % PAGE_SIZE
    && elfMemory + h.offset + h.memsz <= 0x1_0000_0000 - PAGE_SIZE
    && h.vaddr + h.memsz <= 0x1_0000_0000 - PAGE_SIZE
  }

  ghost predicate ImageRight(elfMemory: Word, hs: seq<Phdr>) {
    && elfMemory % PAGE_SIZE == 0
    && (forall i | 0 <= i < |hs| :: SegmentRight(elfMemory, hs[i]))
  }

  /** One past the last page of its bytes in memory. */
  function LastPage(h: Phdr): int { (h.vaddr + h.memsz + PAGE_SIZE - 1) / PAGE_SIZE }

  /** Such a segment takes the pages its bytes lie on, from the frame its bytes in the file lie in. */
  lemma RightPages(elfMemory: Word, h: Phdr, q: Page)
    requires elfMemory % PAGE_SIZE == 0 && SegmentRight(elfMemory, h)
    ensures Mappable(elfMemory, h)
    ensures OnPage(elfMemory, h, q) <==> FirstPage(h) <= q < LastPage(h)
    ensures FirstPage(h) <= q ==> FrameAt(elfMemory, h, q) == (elfMemory + h.offset) / PAGE_SIZE + q - FirstPage(h)
    ensures (elfMemory + h.offset) / PAGE_SIZE == elfMemory / PAGE_SIZE + h.offset / PAGE_SIZE
    ensures LastPage(h) - FirstPage(h) == (h.offset + h.memsz + PAGE_SIZE - 1) / PAGE_SIZE - h.offset / PAGE_SIZE
  {
    var phys := elfMemory + h.offset;
    SumMod(elfMemory, h.offset);
    WrapSmall(phys);
    WrapSmall(phys + h.memsz);
    AlignUpCeil(phys + h.memsz);
    SameCeil(phys, h.vaddr, h.memsz);
    SameCeil(h.offset, h.vaddr, h.memsz);
    hide AlignUp, Wrap;
    RangeNoWrap(FirstPage(h), LastPage(h) - FirstPage(h), q);
  }

  /** Any segment that wraps neither in memory nor in the address space takes the pages from that of its address on,
      as many as there are frames from that of its first byte in memory to its end, and gives them those frames. */
  lemma UnwrappedPages(elfMemory: Word, h: Phdr, k: nat)
    requires h.offset >= 0 && elfMemory + h.offset + h.memsz <= 0x1_0000_0000 - PAGE_SIZE
    requires var n := (elfMemory + h.offset + h.memsz + PAGE_SIZE - 1) / PAGE_SIZE - (elfMemory + h.offset) / PAGE_SIZE;
             h.vaddr / PAGE_SIZE + n <= FRAMES && h.vaddr / PAGE_SIZE + k < FRAMES
    ensures var n := (elfMemory + h.offset + h.memsz + PAGE_SIZE - 1) / PAGE_SIZE - (elfMemory + h.offset) / PAGE_SIZE;
            && Mappable(elfMemory, h)
            && (OnPage(elfMemory, h, h.vaddr / PAGE_SIZE + k) <==> k < n)
            && FrameAt(elfMemory, h, h.vaddr / PAGE_SIZE + k) == (elfMemory + h.offset) / PAGE_SIZE + k
  {
    var phys := elfMemory + h.offset;
    WrapSmall(phys);
    WrapSmall(phys + h.memsz);
    AlignUpCeil(phys + h.memsz);
    hide AlignUp, Wrap;
  }

  lemma SumMod(a: int, b: int)
    requires a % PAGE_SIZE == 0
    ensures (a + b) % PAGE_SIZE == b % PAGE_SIZE && (a + b) / PAGE_SIZE == a / PAGE_SIZE + b / PAGE_SIZE
  {
  }

  lemma AlignUpCeil(x: Word)
    requires x <= 0x1_0000_0000 - PAGE_SIZE
    ensures AlignUp(x) == PAGE_SIZE * ((x + PAGE_SIZE - 1) / PAGE_SIZE)
  {
  }

  lemma SameCeil(a: int, b: int, n: nat)
    requires a % PAGE_SIZE == b % PAGE_SIZE
    ensures (a + n + PAGE_SIZE - 1) / PAGE_SIZE - a / PAGE_SIZE == (b + n + PAGE_SIZE - 1) / PAGE_SIZE - b / PAGE_SIZE
  {
    var r := a % PAGE_SIZE;
    var k := (r + n + PAGE_SIZE - 1) / PAGE_SIZE;
    assert a + n + PAGE_SIZE - 1 == PAGE_SIZE * (a / PAGE_SIZE) + (r + n + PAGE_SIZE - 1);
    assert b + n + PAGE_SIZE - 1 == PAGE_SIZE * (b / PAGE_SIZE) + (r + n + PAGE_SIZE - 1);
  }

  lemma RightIsMappable(elfMemory: Word, hs: seq<Phdr>)
    requires ImageRight(elfMemory, hs)
    ensures ImageMappable(elfMemory, hs)
  {
    forall i | 0 <= i < |hs| ensures Mappable(elfMemory, hs[i]) { RightPages(elfMemory, hs[i], 0); }
  }

  /** Segments on pairwise disjoint pages. */
  ghost predicate DisjointPages(elfMemory: Word, hs: seq<Phdr>) {
    forall i, j, q: Page | 0 <= i < j < |hs| && OnPage(elfMemory, hs[i], q) :: !OnPage(elfMemory, hs[j], q)
  }

  ghost predicate StackRight(stack: Word) {
    stack % PAGE_SIZE == 0 && stack + STACK_SIZE <= 0x1_0000_0000 - PAGE_SIZE
  }

  predicate OnStack(q: int) { STACK_VIRTUAL_END / PAGE_SIZE <= q < (STACK_VIRTUAL_END + STACK_SIZE) / PAGE_SIZE }

  /** Page `q` after the stack was mapped. */
  function StackEntry(stack: Word, q: Page, old_: int): int {
    if OnStack(q) then PAGE_SIZE * (stack / PAGE_SIZE + q - STACK_VIRTUAL_END / PAGE_SIZE) + 7 else old_
  }

  lemma MapStackEffect(m: Memory, d: Frame, stack: Word)
    requires ValidDirectory(m, d) && StackRight(stack)
    ensures var m' := MapTo(m, d, STACK_VIRTUAL_END, stack, AlignUp(Wrap(stack + STACK_SIZE)), 7).1;
            && SameTables(m, m', d)
            && forall q: Page :: Entry(m', d, q) == StackEntry(stack, q, Entry(m, d, q))
  {
    hide ValidDirectory;
    hide Entry;
    hide MapPages;
    WrapSmall(stack + STACK_SIZE);
    AlignUpCeil(stack + STACK_SIZE);
    MapPagesEffect(m, d, 0x3FB, stack / PAGE_SIZE, 4, 7);
    forall q: Page
      ensures MappedEntry(0x3FB, stack / PAGE_SIZE, 4, 7, q, Entry(m, d, q)) == StackEntry(stack, q, Entry(m, d, q))
    {
      RangeNoWrap(0x3FB, 4, q);
    }
  }

  // ---------------------------------------------------------------- program and stack together

  /** Pages that a file of `size` bytes takes. */
  function PagesOf(size: int): int { (size + PAGE_SIZE - 1) / PAGE_SIZE }

  predicate OnBinary(size: Word, q: int) {
    PROGRAM_VIRTUAL_ADDRESS / PAGE_SIZE <= q < PROGRAM_VIRTUAL_ADDRESS / PAGE_SIZE + PagesOf(size)
  }

  /** Page `q` after a flat binary was mapped. */
  function BinaryEntry(ptr: Word, size: Word, q: Page, old_: int): int {
    if OnBinary(size, q) then PAGE_SIZE * (ptr / PAGE_SIZE + q - PROGRAM_VIRTUAL_ADDRESS / PAGE_SIZE) + 7 else old_
  }

  ghost predicate BinaryRight(ptr: Word, size: Word) {
    && ptr % PAGE_SIZE == 0 && ptr + size <= 0x1_0000_0000 - PAGE_SIZE
    && PROGRAM_VIRTUAL_ADDRESS + size <= 0x1_0000_0000 - PAGE_SIZE
  }

  lemma MapBinaryEffect(m: Memory, d: Frame, ptr: Word, size: Word)
    requires ValidDirectory(m, d) && BinaryRight(ptr, size)
    ensures MapBinary(m, d, ptr, size).0 == 0
    ensures ValidDirectory(MapBinary(m, d, ptr, size).1, d) && SameTables(m, MapBinary(m, d, ptr, size).1, d)
    ensures forall q: Page :: Entry(MapBinary(m, d, ptr, size).1, d, q) == BinaryEntry(ptr, size, q, Entry(m, d, q))
  {
    hide ValidDirectory, Entry, MapPages, AlignUp, Wrap;
    var n := PagesOf(size);
    WrapSmall(ptr + size);
    AlignUpCeil(ptr + size);
    SameCeil(ptr, 0, size);
    MapPagesEffect(m, d, 0x400, ptr / PAGE_SIZE, n, 7);
    forall q: Page
      ensures MappedEntry(0x400, ptr / PAGE_SIZE, n, 7, q, Entry(m, d, q)) == BinaryEntry(ptr, size, q, Entry(m, d, q))
    {
      RangeNoWrap(0x400, n, q);
    }
  }

  function ProgramEntry(program: Program, q: Page, old_: int): int {
    match program
    case Binary(ptr, size) => BinaryEntry(ptr, size, q, old_)
    case Elf(elfMemory, hs) => ImageEntry(elfMemory, hs, q, old_)
  }

  /** Page `q` of a loaded process: the stack wins over the program, the program over what was there. */
  function LoadedEntry(program: Program, stack: Word, q: Page, old_: int): int {
    StackEntry(stack, q, ProgramEntry(program, q, old_))
  }

  ghost predicate ProgramRight(program: Program) {
    match program
    case Binary(ptr, size) => BinaryRight(ptr, size)
    case Elf(elfMemory, hs) => elfMemory % PAGE_SIZE == 0 && ImageMappable(elfMemory, hs)
  }

  /** process_map_memory for a program that can be mapped: it succeeds, moves no table, and sets exactly the pages of
      program and stack. */
  lemma MapMemoryEffect(m: Memory, d: Frame, program: Program, stack: Word)
    requires ValidDirectory(m, d) && ProgramRight(program) && StackRight(stack)
    ensures var r := MapMemory(m, d, program, stack);
            && r.0 == 0 && SameTables(m, r.1, d)
            && forall q: Page :: Entry(r.1, d, q) == LoadedEntry(program, stack, q, Entry(m, d, q))
  {
    hide ValidDirectory, Entry, MapTo, SameTables, MapElf, MapBinary, BinaryEntry, ImageEntry, StackEntry;
    match program {
      case Binary(ptr, size) => MapBinaryEffect(m, d, ptr, size);
      case Elf(elfMemory, hs) => MapElfEffect(m, d, elfMemory, hs);
    }
    var m1 := MapProgram(m, d, program).1;
    assert forall q: Page :: Entry(m1, d, q) == ProgramEntry(program, q, Entry(m, d, q));
    MapStackEffect(m1, d, stack);
    SameTablesTrans(m, m1, MapMemory(m, d, program, stack).1, d);
  }

  /** An image fails to map exactly if one of its headers does. Whatever the program, and whether or not mapping it
      succeeds, nothing but entries of the directory's tables is written. */
  lemma MapMemoryTables(m: Memory, d: Frame, program: Program, stack: Word)
    requires ValidDirectory(m, d)
    ensures SameTables(m, MapMemory(m, d, program, stack).1, d)
    ensures MapMemory(m, d, program, stack).0 == 0 || MapMemory(m, d, program, stack).0 == -EINVARG
    ensures program.Elf? ==>
              (MapMemory(m, d, program, stack).0 == 0 <==> ImageMappable(program.elfMemory, program.headers))
  {
    hide ValidDirectory, MapTo, SameTables, MapElf, ImageMappable;
    match program {
      case Binary(ptr, size) => MapToTables(m, d, PROGRAM_VIRTUAL_ADDRESS, ptr, AlignUp(Wrap(ptr + size)), 7);
      case Elf(elfMemory, hs) => MapElfEffect(m, d, elfMemory, hs);
    }
    var r := MapProgram(m, d, program);
    if r.0 >= 0 {
      MapToTables(r.1, d, STACK_VIRTUAL_END, stack, AlignUp(Wrap(stack + STACK_SIZE)), 7);
      SameTablesTrans(m, r.1, MapMemory(m, d, program, stack).1, d);
    }
  }

  /** The address of byte `v` of segment `h` in the loaded file. */
  lemma SegmentTranslation(elfMemory: Word, h: Phdr, v: Word, e: Word)
    requires elfMemory % PAGE_SIZE == 0 && SegmentRight(elfMemory, h) && h.vaddr <= v < h.vaddr + h.memsz
    requires e == SegmentEntry(elfMemory, h, v / PAGE_SIZE, 0)
    ensures OnPage(elfMemory, h, v / PAGE_SIZE)
    ensures AlignDown(e) + v % PAGE_SIZE == elfMemory + h.offset + (v - h.vaddr)
  {
    hide Wrap, AlignUp, OnPage, FrameAt, Mappable;
    var phys := elfMemory + h.offset;
    SumMod(elfMemory, h.offset);
    RightPages(elfMemory, h, v / PAGE_SIZE);
    PageBetween(h, v);
    var base := PAGE_SIZE * (phys / PAGE_SIZE + v / PAGE_SIZE - FirstPage(h));
    assert AlignDown(e) == base;
  }

  lemma PageBetween(h: Phdr, v: Word)
    requires h.vaddr <= v < h.vaddr + h.memsz
    ensures FirstPage(h) <= v / PAGE_SIZE < LastPage(h)
  {
  }

  lemma StackTranslation(stack: Word, v: Word, e: Word, old_: int)
    requires StackRight(stack) && STACK_VIRTUAL_END <= v < STACK_VIRTUAL_END + STACK_SIZE
    requires e == StackEntry(stack, v / PAGE_SIZE, old_)
    ensures OnStack(v / PAGE_SIZE)
    ensures e % PAGE_SIZE == 7 && AlignDown(e) + v % PAGE_SIZE == stack + (v - STACK_VIRTUAL_END)
  {
  }

  /** A loaded ELF image translates correctly: each byte of a segment to its place in the file's memory, each
      byte of the stack window into the stack, every other page as before. */
  lemma LoadedImageTranslates(m: Memory, d: Frame, elfMemory: Word, hs: seq<Phdr>, stack: Word, v: Word)
    requires ValidDirectory(m, d) && ImageRight(elfMemory, hs) && DisjointPages(elfMemory, hs) && StackRight(stack)
    requires forall i | 0 <= i < |hs| :: hs[i].vaddr >= PROGRAM_VIRTUAL_ADDRESS
    ensures var (res, m') := MapMemory(m, d, Elf(elfMemory, hs), stack);
            && res == 0
            && (forall i | 0 <= i < |hs| && hs[i].vaddr <= v < hs[i].vaddr + hs[i].memsz ::
                  Translate(m', d, v) == elfMemory + hs[i].offset + (v - hs[i].vaddr)
                  && RightsOf(hs[i], Entry(m', d, v / PAGE_SIZE)))
            && (STACK_VIRTUAL_END <= v < STACK_VIRTUAL_END + STACK_SIZE ==>
                  Translate(m', d, v) == stack + (v - STACK_VIRTUAL_END)
                      && Entry(m', d, v / PAGE_SIZE) % PAGE_SIZE == 7)
            && (!(STACK_VIRTUAL_END <= v < STACK_VIRTUAL_END + STACK_SIZE)
                && (forall i | 0 <= i < |hs| :: !OnPage(elfMemory, hs[i], v / PAGE_SIZE)) ==>
                  Entry(m', d, v / PAGE_SIZE) == Entry(m, d, v / PAGE_SIZE)
                      && Translate(m', d, v) == Translate(m, d, v))
  {
    hide ValidDirectory, Entry, SegmentEntry, OnPage, AlignDown, SegmentFlags, SegmentRight, StackEntry, MapMemory,
      RightsOf;
    RightIsMappable(elfMemory, hs);
    MapMemoryEffect(m, d, Elf(elfMemory, hs), stack);
    var m' := MapMemory(m, d, Elf(elfMemory, hs), stack).1;
    var q: Page := v / PAGE_SIZE;
    var e := Entry(m, d, q);
    assert Entry(m', d, q) == StackEntry(stack, q, ImageEntry(elfMemory, hs, q, e));
    OffStack(stack, q, ImageEntry(elfMemory, hs, q, e));
    forall i | 0 <= i < |hs| && hs[i].vaddr <= v < hs[i].vaddr + hs[i].memsz
      ensures Translate(m', d, v) == elfMemory + hs[i].offset + (v - hs[i].vaddr)
      ensures RightsOf(hs[i], Entry(m', d, q))
    {
      PageBetween(hs[i], v);
      RightPages(elfMemory, hs[i], q);
      assert TopAt(elfMemory, hs, q) == i;
      SegmentEntryOn(elfMemory, hs[i], q, e);
      NotInStack(hs[i], q);
      SegmentTranslation(elfMemory, hs[i], v, Entry(m', d, q));
      SegmentRights(hs[i], Entry(m', d, q));
    }
    if STACK_VIRTUAL_END <= v < STACK_VIRTUAL_END + STACK_SIZE {
      StackTranslation(stack, v, Entry(m', d, q), ImageEntry(elfMemory, hs, q, e));
    }
  }

  lemma OffStack(stack: Word, q: Page, old_: int)
    ensures !OnStack(q) ==> StackEntry(stack, q, old_) == old_
    ensures OnStack(q) <==> STACK_VIRTUAL_END <= PAGE_SIZE * q < STACK_VIRTUAL_END + STACK_SIZE
  {
  }

  lemma NotInStack(h: Phdr, q: Page)
    requires h.vaddr >= PROGRAM_VIRTUAL_ADDRESS && FirstPage(h) <= q
    ensures !OnStack(q)
  {
  }

  lemma SegmentEntryOn(elfMemory: Word, h: Phdr, q: Page, old_: int)
    requires OnPage(elfMemory, h, q)
    ensures SegmentEntry(elfMemory, h, q, old_) == SegmentEntry(elfMemory, h, q, 0)
    ensures SegmentEntry(elfMemory, h, q, old_) % PAGE_SIZE == SegmentFlags(h)
  {
  }

  /** A byte of a segment that no later segment and no stack page covers: its address in the loaded file, and the
      rights of its page. */
  lemma LoadedSegmentAddress(elfMemory: Word, hs: seq<Phdr>, i: nat, stack: Word, v: Word, old_: int, e: Word)
    requires i < |hs| && elfMemory % PAGE_SIZE == 0 && SegmentRight(elfMemory, hs[i])
    requires hs[i].vaddr <= v < hs[i].vaddr + hs[i].memsz && !OnStack(v / PAGE_SIZE)
    requires forall j | i < j < |hs| :: !OnPage(elfMemory, hs[j], v / PAGE_SIZE)
    requires e == LoadedEntry(Elf(elfMemory, hs), stack, v / PAGE_SIZE, old_)
    ensures AlignDown(e) + v % PAGE_SIZE == elfMemory + hs[i].offset + (v - hs[i].vaddr)
    ensures RightsOf(hs[i], e)
  {
    hide OnPage, FrameAt, AlignDown, SegmentFlags, SegmentEntry, RightsOf;
    var q: Page := v / PAGE_SIZE;
    PageBetween(hs[i], v);
    RightPages(elfMemory, hs[i], q);
    assert TopAt(elfMemory, hs, q) == i;
    SegmentEntryOn(elfMemory, hs[i], q, old_);
    SegmentTranslation(elfMemory, hs[i], v, e);
    SegmentRights(hs[i], e);
  }

  lemma BinaryTranslation(ptr: Word, size: Word, v: Word, e: Word, old_: int)
    requires BinaryRight(ptr, size) && PROGRAM_VIRTUAL_ADDRESS <= v < PROGRAM_VIRTUAL_ADDRESS + size
    requires e == BinaryEntry(ptr, size, v / PAGE_SIZE, old_)
    ensures AlignDown(e) + v % PAGE_SIZE == ptr + (v - PROGRAM_VIRTUAL_ADDRESS)
  {
  }

  /** A flat binary is mapped from its load address on, page by page, in front of its stack. */
  lemma LoadedBinaryTranslates(m: Memory, d: Frame, ptr: Word, size: Word, stack: Word, v: Word)
    requires ValidDirectory(m, d) && StackRight(stack) && BinaryRight(ptr, size)
    ensures var (res, m') := MapMemory(m, d, Binary(ptr, size), stack);
            && res == 0
            && (PROGRAM_VIRTUAL_ADDRESS <= v < PROGRAM_VIRTUAL_ADDRESS + size ==>
                  Translate(m', d, v) == ptr + (v - PROGRAM_VIRTUAL_ADDRESS))
            && (STACK_VIRTUAL_END <= v < STACK_VIRTUAL_END + STACK_SIZE ==>
                  Translate(m', d, v) == stack + (v - STACK_VIRTUAL_END))
            && (v < STACK_VIRTUAL_END || (STACK_VIRTUAL_END + STACK_SIZE <= v < PROGRAM_VIRTUAL_ADDRESS)
                || v >= AlignUp(PROGRAM_VIRTUAL_ADDRESS + size) ==>
                  Translate(m', d, v) == Translate(m, d, v))
  {
    hide ValidDirectory, Entry, MapMemory, AlignUp, AlignDown, StackEntry, BinaryEntry;
    MapMemoryEffect(m, d, Binary(ptr, size), stack);
    var m' := MapMemory(m, d, Binary(ptr, size), stack).1;
    var q: Page := v / PAGE_SIZE;
    var e := Entry(m, d, q);
    assert Entry(m', d, q) == StackEntry(stack, q, BinaryEntry(ptr, size, q, e));
    OffStack(stack, q, BinaryEntry(ptr, size, q, e));
    assert AlignUp(PROGRAM_VIRTUAL_ADDRESS + size) >= PROGRAM_VIRTUAL_ADDRESS + size by {
      AlignUpCeil(PROGRAM_VIRTUAL_ADDRESS + size);
    }
    if STACK_VIRTUAL_END <= v < STACK_VIRTUAL_END + STACK_SIZE {
      StackTranslation(stack, v, Entry(m', d, q), BinaryEntry(ptr, size, q, e));
    } else if PROGRAM_VIRTUAL_ADDRESS <= v < PROGRAM_VIRTUAL_ADDRESS + size {
      BinaryTranslation(ptr, size, v, Entry(m', d, q), e);
    } else if v < PROGRAM_VIRTUAL_ADDRESS || v >= AlignUp(PROGRAM_VIRTUAL_ADDRESS + size) {
      OffBinary(ptr, size, v, e);
    }
  }

  lemma OffBinary(ptr: Word, size: Word, v: Word, old_: int)
    requires BinaryRight(ptr, size)
    requires v < PROGRAM_VIRTUAL_ADDRESS || v >= AlignUp(PROGRAM_VIRTUAL_ADDRESS + size)
    ensures BinaryEntry(ptr, size, v / PAGE_SIZE, old_) == old_
  {
    AlignUpCeil(PROGRAM_VIRTUAL_ADDRESS + size);
    hide AlignUp;
  }

  // ---------------------------------------------------------------- what a loaded process may write

  /** Where the program's bytes start. */
  function ImageBase(program: Program): Word {
    match program
    case Binary(ptr, _) => ptr
    case Elf(elfMemory, _) => elfMemory
  }

  /** The program's mapping sets page `q`. */
  predicate ProgramMaps(program: Program, q: Page) {
    match program
    case Binary(_, size) => OnBinary(size, q)
    case Elf(elfMemory, hs) => TopAt(elfMemory, hs, q) >= 0
  }

  /** ... and makes it writeable: bit 1 of the flags of the last segment on it is set; a flat binary is writeable
      throughout. */
  predicate ProgramWrites(program: Program, q: Page) {
    match program
    case Binary(_, size) => OnBinary(size, q)
    case Elf(elfMemory, hs) =>
      var i := TopAt(elfMemory, hs, q);
      i >= 0 && hs[i].flags / 2 % 2 == 1
  }

  lemma WritesAreMapped(program: Program, q: Page)
    ensures ProgramWrites(program, q) ==> ProgramMaps(program, q)
  {
  }

  /** The frame it gives the page. */
  function ProgramFrame(program: Program, q: Page): int
    requires ProgramMaps(program, q)
  {
    match program
    case Binary(ptr, _) => ptr / PAGE_SIZE + q - PROGRAM_VIRTUAL_ADDRESS / PAGE_SIZE
    case Elf(elfMemory, hs) => FrameAt(elfMemory, hs[TopAt(elfMemory, hs, q)], q)
  }

  predicate InBlocks(base: int, blocks: nat, f: int) {
    base / PAGE_SIZE <= f < base / PAGE_SIZE + blocks
  }

  /** All pages of the program are below page `limit`. */
  ghost predicate ProgramBelow(program: Program, limit: int) {
    forall q: Page | ProgramMaps(program, q) :: q < limit
  }

  /** The writeable pages of the program, but for those the stack takes, lie in the `blocks` blocks its file was
      read into. */
  ghost predicate WritesInFile(program: Program, blocks: nat) {
    forall q: Page | ProgramWrites(program, q) && !OnStack(q) ::
      InBlocks(ImageBase(program), blocks, ProgramFrame(program, q))
  }

  /** A program that can be mapped, below page `limit`, and writes nothing but its own file. */
  ghost predicate ProgramFits(program: Program, blocks: nat, limit: int) {
    ProgramRight(program) && ProgramBelow(program, limit) && WritesInFile(program, blocks)
  }

  /** Over pages that are not writeable, exactly the stack window and the program's writeable pages become so, and
      lead into the stack and to the program's frames. */
  lemma LoadedWrites(program: Program, stack: Word, q: Page, old_: Word, e: Word)
    requires !MayWrite(old_) && e == LoadedEntry(program, stack, q, old_)
    ensures MayWrite(e) <==> OnStack(q) || ProgramWrites(program, q)
    ensures OnStack(q) ==> FrameOf(e) == stack / PAGE_SIZE + q - STACK_VIRTUAL_END / PAGE_SIZE
    ensures !OnStack(q) && ProgramWrites(program, q) ==> FrameOf(e) == ProgramFrame(program, q)
  {
    hide OnPage, FrameAt, TopAt, MayWrite;
    FlagsDecide(FrameOf(e));
    assert e == MakeEntry(FrameOf(e), e % PAGE_SIZE);
  }

  /**
    Whether a program's stores stay in its file: every writeable page off the stack leads into the blocks the file
    was read into if and only if the program's headers say so for each page whose last segment is writeable.
  */
  lemma LoadedStaysInFile(m: Memory, d: Frame, program: Program, stack: Word, blocks: nat)
    requires ValidDirectory(m, d) && ProgramRight(program) && StackRight(stack)
    requires forall q: Page :: !MayWrite(Entry(m, d, q))
    ensures var m' := MapMemory(m, d, program, stack).1;
            (forall q: Page | MayWrite(Entry(m', d, q)) && !OnStack(q) ::
               InBlocks(ImageBase(program), blocks, FrameOf(Entry(m', d, q))))
            <==> WritesInFile(program, blocks)
  {
    hide MapMemory, MayWrite, Entry, ValidDirectory, LoadedEntry, OnStack, InBlocks;
    MapMemoryEffect(m, d, program, stack);
    var m' := MapMemory(m, d, program, stack).1;
    forall q: Page
      ensures MayWrite(Entry(m', d, q)) && !OnStack(q) <==> ProgramWrites(program, q) && !OnStack(q)
      ensures MayWrite(Entry(m', d, q)) && !OnStack(q) ==> FrameOf(Entry(m', d, q)) == ProgramFrame(program, q)
    {
      LoadedWrites(program, stack, q, Entry(m, d, q), Entry(m', d, q));
    }
  }

  /** The header has pages and makes them writeable. */
  predicate TakesWriteable(h: Phdr) {
    h.flags / 2 % 2 == 1 && FirstPage(h) < LastPage(h)
  }

  /** For well-formed segments on disjoint pages above the stack that is a matter of each segment: those that are
      writeable have to end, with the memory behind their file bytes, inside the file. */
  lemma SegmentsStayInFile(elfMemory: Word, hs: seq<Phdr>, blocks: nat)
    requires ImageRight(elfMemory, hs) && DisjointPages(elfMemory, hs)
    requires forall i | 0 <= i < |hs| :: hs[i].vaddr >= PROGRAM_VIRTUAL_ADDRESS
    ensures WritesInFile(Elf(elfMemory, hs), blocks) <==>
            forall i | 0 <= i < |hs| && TakesWriteable(hs[i]) :: hs[i].offset + hs[i].memsz <= PAGE_SIZE * blocks
  {
    hide OnPage, FrameAt, TopAt, SegmentFlags;
    var program := Elf(elfMemory, hs);
    if WritesInFile(program, blocks) {
      forall i | 0 <= i < |hs| && TakesWriteable(hs[i]) ensures hs[i].offset + hs[i].memsz <= PAGE_SIZE * blocks {
        var q: Page := LastPage(hs[i]) - 1;
        RightPages(elfMemory, hs[i], q);
        assert TopAt(elfMemory, hs, q) == i;
        NotInStack(hs[i], q);
        assert ProgramWrites(program, q);
      }
    }
    if forall i | 0 <= i < |hs| && TakesWriteable(hs[i]) :: hs[i].offset + hs[i].memsz <= PAGE_SIZE * blocks {
      forall q: Page | ProgramWrites(program, q) && !OnStack(q)
        ensures InBlocks(elfMemory, blocks, ProgramFrame(program, q))
      {
        RightPages(elfMemory, hs[TopAt(elfMemory, hs, q)], q);
      }
    }
  }

  /** A writeable segment of three pages whose file ends with its first: its third page is mapped, writeable, to the
      frame behind the file's two blocks. */
  lemma LargeBssLeavesFile(m: Memory, d: Frame, elfMemory: Word, stack: Word)
    requires ValidDirectory(m, d) && StackRight(stack)
    requires elfMemory % PAGE_SIZE == 0 && elfMemory + 0x4000 <= 0x1_0000_0000 - PAGE_SIZE
    ensures var h := Phdr(PT_LOAD, 0x1000, 0x40_0000, 0x40_0000, 0x10, 0x3000, PF_W);
            var r := MapMemory(m, d, Elf(elfMemory, [h]), stack);
            && r.0 == 0 && MayWrite(Entry(r.1, d, 0x402))
            && FrameOf(Entry(r.1, d, 0x402)) == elfMemory / PAGE_SIZE + 3
            && !WritesInFile(Elf(elfMemory, [h]), 2)
  {
    hide MapMemory, Entry, ValidDirectory, OnPage, FrameAt;
    var h := Phdr(PT_LOAD, 0x1000, 0x40_0000, 0x40_0000, 0x10, 0x3000, PF_W);
    var program := Elf(elfMemory, [h]);
    RightIsMappable(elfMemory, [h]);
    RightPages(elfMemory, h, 0x402);
    MapMemoryEffect(m, d, program, stack);
    assert TopAt(elfMemory, [h], 0x402) == 0 && ProgramWrites(program, 0x402);
    FlagsDecide(elfMemory / PAGE_SIZE + 3);
  }

  // ---------------------------------------------------------------- the calls

  /** process_map_elf */
  method ProcessMapElf(k: Machine, directory: Word, elfMemory: Word, hs: seq<Phdr>) returns (res: int)
    requires k.Valid() && directory % PAGE_SIZE == 0
    modifies k.mem
    ensures (res, k.M()) == MapElf(old(k.M()), FrameOf(directory), elfMemory, hs)
  {
    hide MapTo;
    hide AlignUp;
    res := 0;
    for i := 0 to |hs|
      invariant res == 0 && (res, k.M()) == MapElf(old(k.M()), FrameOf(directory), elfMemory, hs[..i])
    {
      assert hs[..i + 1][..i] == hs[..i];
      var h := hs[i];
      var phys := PhysAddress(elfMemory, h);
      var flags := IS_PRESENT + ACCESS_FROM_ALL;
      if IsWriteable(h) {
        flags := flags + IS_WRITEABLE;
      }
      res := PagingMapTo(k, directory, AlignDown(h.vaddr), AlignDown(phys), AlignUp(Wrap(phys + h.memsz)), flags);
      if res < 0 {
        MapElfStops(old(k.M()), FrameOf(directory), elfMemory, hs, i + 1);
        return;
      }
      MapToResult(old(k.M()), FrameOf(directory), elfMemory, hs[..i + 1]);
    }
    assert hs[..|hs|] == hs;
  }

  lemma MapToResult(m: Memory, d: Frame, elfMemory: Word, hs: seq<Phdr>)
    ensures MapElf(m, d, elfMemory, hs).0 == 0 || MapElf(m, d, elfMemory, hs).0 < 0
  {
  }

  /** Headers after one that fails change nothing. */
  lemma {:induction false} MapElfStops(m: Memory, d: Frame, elfMemory: Word, hs: seq<Phdr>, n: nat)
    requires n <= |hs| && MapElf(m, d, elfMemory, hs[..n]).0 < 0
    ensures MapElf(m, d, elfMemory, hs) == MapElf(m, d, elfMemory, hs[..n])
    decreases |hs|
  {
    if n == |hs| {
      assert hs[..n] == hs;
    } else {
      assert hs[..|hs| - 1][..n] == hs[..n];
      MapElfStops(m, d, elfMemory, hs[..|hs| - 1], n);
    }
  }

  /** process_map_memory */
  method ProcessMapMemory(k: Machine, directory: Word, program: Program, stack: Word) returns (res: int)
    requires k.Valid() && directory % PAGE_SIZE == 0
    modifies k.mem
    ensures (res, k.M()) == MapMemory(old(k.M()), FrameOf(directory), program, stack)
  {
    hide MapTo;
    hide AlignUp;
    match program {
      case Binary(ptr, size) =>
        res := PagingMapTo(k, directory, PROGRAM_VIRTUAL_ADDRESS, ptr, AlignUp(Wrap(ptr + size)), 7);
      case Elf(elfMemory, hs) =>
        res := ProcessMapElf(k, directory, elfMemory, hs);
    }
    if res < 0 {
      return;
    }
    var ignored := PagingMapTo(k, directory, STACK_VIRTUAL_END, stack, AlignUp(Wrap(stack + STACK_SIZE)), 7);
  }
}
