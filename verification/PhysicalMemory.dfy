/**
  Physical memory as a value: the whole 32-bit address space as little-endian words, seen as 2^20
  frames of 1024 words. The heap pool is the frames from `hb` on, one frame a block.
*/
module PhysicalMemory {
  import opened Words
  import opened HeapTable

  const MEM_WORDS := 0x4000_0000
  const FRAMES := 0x10_0000

  type Frame = f: int | 0 <= f < FRAMES
  type Index = w: int | 0 <= w < PAGE_WORDS
  type Memory = m: seq<Word> | |m| == MEM_WORDS ghost witness seq(MEM_WORDS, _ => 0)

  /** Word `w` of frame `f`. */
  function Cell(m: Memory, f: Frame, w: Index): Word {
    m[PAGE_WORDS * f + w]
  }

  function WithCell(m: Memory, f: Frame, w: Index, v: Word): Memory {
    m[PAGE_WORDS * f + w := v]
  }

  lemma WithCellEffect(m: Memory, f: Frame, w: Index, v: Word, g: Frame, x: Index)
    ensures Cell(WithCell(m, f, w, v), g, x) == if g == f && x == w then v else Cell(m, g, x)
  {
  }

  /** Frame `f` holds the same words in both memories. */
  ghost predicate SameFrame(m: Memory, n: Memory, f: Frame) {
    forall w: Index :: Cell(m, f, w) == Cell(n, f, w)
  }

  lemma WithCellFrame(m: Memory, f: Frame, w: Index, v: Word, g: Frame)
    requires g != f
    ensures SameFrame(m, WithCell(m, f, w, v), g)
  {
  }

  // ---------------------------------------------------------------- bytes

  function ByteAt(m: Memory, a: Word): Byte {
    ByteOf(m[a / 4], a % 4)
  }

  function WithByte(m: Memory, a: Word, b: Byte): Memory {
    m[a / 4 := SetByte(m[a / 4], a % 4, b)]
  }

  /** A stored byte is read back, and no other byte changes. */
  lemma WithByteEffect(m: Memory, a: Word, b: Byte, c: Word)
    ensures ByteAt(WithByte(m, a, b), c) == if c == a then b else ByteAt(m, c)
  {
    SetByteEffect(m[a / 4], a % 4, b, c % 4);
    if c / 4 == a / 4 && c % 4 == a % 4 { assert c == a; }
  }

  lemma WithByteFrame(m: Memory, a: Word, b: Byte, f: Frame)
    requires f != a / PAGE_SIZE
    ensures SameFrame(m, WithByte(m, a, b), f)
  {
    assert a / 4 / PAGE_WORDS == a / PAGE_SIZE;
  }

  /** The two memories agree outside frame `f`. */
  ghost predicate SameExcept(m: Memory, n: Memory, f: Frame) {
    forall g: Frame | g != f :: SameFrame(m, n, g)
  }

  /** Byte `i` of the buffer at physical address `a`. */
  function BufferByte(m: Memory, a: Word, i: nat): Byte
    requires a + i < 0x1_0000_0000
  {
    ByteAt(m, a + i)
  }

  lemma ByteOfFrame(m: Memory, n: Memory, a: Word)
    requires SameFrame(m, n, a / PAGE_SIZE)
    ensures ByteAt(m, a) == ByteAt(n, a)
  {
    assert Cell(m, a / PAGE_SIZE, a / 4 % PAGE_WORDS) == Cell(n, a / PAGE_SIZE, a / 4 % PAGE_WORDS);
    assert PAGE_WORDS * (a / PAGE_SIZE) + a / 4 % PAGE_WORDS == a / 4;
  }

  /** Bytes decide frames. */
  lemma BytesSameFrame(m: Memory, n: Memory, g: Frame)
    requires forall a: Word | a / PAGE_SIZE == g :: ByteAt(n, a) == ByteAt(m, a)
    ensures SameFrame(m, n, g)
  {
    forall w: Index ensures Cell(m, g, w) == Cell(n, g, w) {
      var i := PAGE_WORDS * g + w;
      forall b: nat | b < 4 ensures ByteOf(m[i], b) == ByteOf(n[i], b) {
        var a: Word := 4 * i + b;
        assert a / PAGE_SIZE == g && a / 4 == i && a % 4 == b;
        assert ByteAt(n, a) == ByteAt(m, a);
      }
      BytesDetermineWord(m[i], n[i]);
    }
  }

  lemma StoreIn(m: Memory, n: Memory, a: Word, b: Byte)
    requires SameExcept(m, n, a / PAGE_SIZE)
    ensures SameExcept(m, WithByte(n, a, b), a / PAGE_SIZE)
  {
    forall g: Frame | g != a / PAGE_SIZE ensures SameFrame(m, WithByte(n, a, b), g) {
      WithByteFrame(n, a, b, g);
      assert SameFrame(m, n, g);
    }
  }

  lemma BufferStore(m: Memory, a: Word, i: nat, b: Byte)
    requires a + i < 0x1_0000_0000
    ensures BufferByte(WithByte(m, a + i, b), a, i) == b
    ensures forall j: nat | a + j < 0x1_0000_0000 && j != i ::
              BufferByte(WithByte(m, a + i, b), a, j) == BufferByte(m, a, j)
  {
    WithByteEffect(m, a + i, b, a + i);
    forall j: nat | a + j < 0x1_0000_0000 && j != i
      ensures BufferByte(WithByte(m, a + i, b), a, j) == BufferByte(m, a, j)
    {
      WithByteEffect(m, a + i, b, a + j);
    }
  }

  /** Word `i` of memory after bytes `lo .. hi` were cleared. */
  function ZeroWord(w: Word, i: nat, lo: nat, hi: nat): Word {
    if 4 * i + 4 <= lo || hi <= 4 * i then w
    else Compose(if lo <= 4 * i < hi then 0 else ByteOf(w, 0), if lo <= 4 * i + 1 < hi then 0 else ByteOf(w, 1),
                 if lo <= 4 * i + 2 < hi then 0 else ByteOf(w, 2), if lo <= 4 * i + 3 < hi then 0 else ByteOf(w, 3))
  }

  function ZeroFill(m: Memory, lo: nat, size: nat): Memory {
    seq(MEM_WORDS, i requires 0 <= i < MEM_WORDS => ZeroWord(m[i], i, lo, lo + size))
  }

  /** One more byte of a memset. */
  lemma ZeroFillStep(m: Memory, lo: Word, k: nat)
    requires lo + k < 0x1_0000_0000
    ensures ZeroFill(m, lo, k + 1) == WithByte(ZeroFill(m, lo, k), lo + k, 0)
  {
    var x := (lo + k) / 4;
    ZeroWordStep(m[x], x, lo, lo + k);
    forall i | 0 <= i < MEM_WORDS && i != x
      ensures ZeroWord(m[i], i, lo, lo + k + 1) == ZeroWord(m[i], i, lo, lo + k)
    {
    }
  }

  lemma ZeroWordStep(w: Word, i: nat, lo: nat, hi: nat)
    requires lo <= hi && hi / 4 == i
    ensures ZeroWord(w, i, lo, hi + 1) == SetByte(ZeroWord(w, i, lo, hi), hi % 4, 0)
  {
    if hi > 4 * i && lo < 4 * i + 4 {
      ComposeBytes(if lo <= 4 * i < hi then 0 else ByteOf(w, 0), if lo <= 4 * i + 1 < hi then 0 else ByteOf(w, 1),
                   if lo <= 4 * i + 2 < hi then 0 else ByteOf(w, 2), if lo <= 4 * i + 3 < hi then 0 else ByteOf(w, 3));
    }
  }

  /** Clearing the `n` frames' worth of bytes from frame `f` reads back zero there and touches no other frame. */
  lemma ZeroFillEffect(m: Memory, f: Frame, size: nat, a: Word)
    ensures ByteAt(ZeroFill(m, PAGE_SIZE * f, size), a) ==
            if PAGE_SIZE * f <= a < PAGE_SIZE * f + size then 0 else ByteAt(m, a)
  {
    var i := a / 4;
    var lo, hi := PAGE_SIZE * f, PAGE_SIZE * f + size;
    if lo < 4 * i + 4 && 4 * i < hi {
      ComposeBytes(if lo <= 4 * i < hi then 0 else ByteOf(m[i], 0), if lo <= 4 * i + 1 < hi then 0 else ByteOf(m[i], 1),
                   if lo <= 4 * i + 2 < hi then 0 else ByteOf(m[i], 2),
                   if lo <= 4 * i + 3 < hi then 0 else ByteOf(m[i], 3));
    }
  }

  lemma ZeroFillFrame(m: Memory, f: Frame, n: nat, size: nat, g: Frame)
    requires size <= PAGE_SIZE * n && !(f <= g < f + n)
    ensures SameFrame(m, ZeroFill(m, PAGE_SIZE * f, size), g)
  {
  }

  // ---------------------------------------------------------------- the kernel heap over memory

  /** The pool: not at address 0, below 4 GiB, offsets in signed range. */
  predicate PoolBounds(hb: int, blocks: int) {
    0 < hb && 0 <= blocks < 0x8_0000 && hb + blocks < FRAMES
  }

  /** Sizes whose rounding does not wrap. */
  type Size = s: Word | s <= 0x1_0000_0000 - PAGE_SIZE

  /** kzalloc: the new table, the new memory, and the pointer, null when the search failed. */
  function KzallocSpec(hb: int, t: Table, m: Memory, size: Size): (r: (Table, Memory, Word))
    requires PoolBounds(hb, |t|) && Safe(t, Blocks(size))
    ensures |r.0| == |t|
  {
    var (t', s) := MallocBlocks(t, Blocks(size));
    if s < 0 then (t', m, 0)
    else (t', ZeroFill(m, PAGE_SIZE * (hb + s), size), PAGE_SIZE * (hb + s))
  }

  /** kfree of a pointer into the pool. */
  function KfreeSpec(hb: int, t: Table, ptr: Word): (u: Table)
    requires ptr / PAGE_SIZE >= hb
    ensures |u| == |t|
  {
    FreeChain(t, ptr / PAGE_SIZE - hb)
  }
}
