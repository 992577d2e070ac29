/**
  Machine words of the 32-bit kernel: wrap-around arithmetic, page alignment and byte access.
*/
module Words {

  ghost predicate Distinct<T>(s: seq<T>) {
    forall i, j | 0 <= i < j < |s| :: s[i] != s[j]
  }

  type Byte = x: int | 0 <= x < 0x100
  type Word = x: int | 0 <= x < 0x1_0000_0000

  const EIO := 1
  const EINVARG := 2

  /** Size of a page and of a heap block. */
  const PAGE_SIZE := 4096
  const PAGE_WORDS := 1024

  /** Unsigned 32-bit wrap-around. */
  function Wrap(x: int): Word { x % 0x1_0000_0000 }

  lemma WrapSmall(x: Word)
    ensures Wrap(x) == x
  {
  }

  /** The value of a 32-bit pattern read as a signed integer. */
  function Signed(x: Word): (i: int)
    ensures Wrap(i) == x && -0x8000_0000 <= i < 0x8000_0000
  {
    if x < 0x8000_0000 then x else x - 0x1_0000_0000
  }

  /** Division and remainder as C defines them: towards zero. */
  function TruncDiv(a: int, b: int): int
    requires b > 0
  {
    if a >= 0 then a / b else -((-a) / b)
  }

  function TruncMod(a: int, b: int): int
    requires b > 0
  {
    a - b * TruncDiv(a, b)
  }

  /** Quotient and remainder are the only ones there are. */
  lemma DivUnique(a: nat, b: nat, q: nat, r: nat)
    requires b > 0 && a == q * b + r && r < b
    ensures a / b == q && a % b == r
  {
    var d := a / b - q;
    assert a == (a / b) * b + a % b;
    assert d * b == (a / b) * b - q * b;
    MulAtLeast(d, b);
  }

  lemma MulAtLeast(d: int, b: nat)
    ensures d >= 1 ==> d * b >= b
    ensures d <= -1 ==> d * b + b <= 0
  {
  }

  /** Round up to a multiple of the page size. Wraps to 0 in the last page of the address space. */
  function AlignUp(x: Word): Word {
    if x % PAGE_SIZE == 0 then x else Wrap(x + PAGE_SIZE - x % PAGE_SIZE)
  }

  function AlignDown(x: Word): Word { x - x % PAGE_SIZE }

  /** Blocks that a request of `size` bytes is rounded to, with the 32-bit wrap of the rounding. */
  function Blocks(size: Word): nat { AlignUp(size) / PAGE_SIZE }

  /** Rounding up computes the ceiling exactly for sizes that do not wrap; the others get no block. */
  lemma BlocksExact(size: Word)
    ensures Blocks(size) == (size + PAGE_SIZE - 1) / PAGE_SIZE <==> size <= 0x1_0000_0000 - PAGE_SIZE
    ensures Blocks(size) == 0 <==> size == 0 || size > 0x1_0000_0000 - PAGE_SIZE
  {
  }

  // ---------------------------------------------------------------- bytes of little-endian words

  function ByteOf(w: Word, k: nat): Byte
    requires k < 4
  {
    if k == 0 then w % 0x100
    else if k == 1 then w / 0x100 % 0x100
    else if k == 2 then w / 0x100 / 0x100 % 0x100
    else w / 0x100 / 0x100 / 0x100
  }

  function Compose(b0: Byte, b1: Byte, b2: Byte, b3: Byte): Word {
    b0 + 0x100 * (b1 + 0x100 * (b2 + 0x100 * b3))
  }

  function SetByte(w: Word, k: nat, b: Byte): Word
    requires k < 4
  {
    Compose(if k == 0 then b else ByteOf(w, 0), if k == 1 then b else ByteOf(w, 1),
            if k == 2 then b else ByteOf(w, 2), if k == 3 then b else ByteOf(w, 3))
  }

  lemma ComposeBytes(b0: Byte, b1: Byte, b2: Byte, b3: Byte)
    ensures ByteOf(Compose(b0, b1, b2, b3), 0) == b0
    ensures ByteOf(Compose(b0, b1, b2, b3), 1) == b1
    ensures ByteOf(Compose(b0, b1, b2, b3), 2) == b2
    ensures ByteOf(Compose(b0, b1, b2, b3), 3) == b3
  {
    var w := Compose(b0, b1, b2, b3);
    assert w / 0x100 == b1 + 0x100 * (b2 + 0x100 * b3);
    assert w / 0x100 / 0x100 == b2 + 0x100 * b3;
    assert w / 0x100 / 0x100 / 0x100 == b3;
  }

  /** Writing one byte of a word changes that byte and no other. */
  lemma SetByteEffect(w: Word, k: nat, b: Byte, j: nat)
    requires k < 4 && j < 4
    ensures ByteOf(SetByte(w, k, b), j) == if j == k then b else ByteOf(w, j)
  {
    ComposeBytes(if k == 0 then b else ByteOf(w, 0), if k == 1 then b else ByteOf(w, 1),
                 if k == 2 then b else ByteOf(w, 2), if k == 3 then b else ByteOf(w, 3));
  }

  lemma BytesDetermineWord(v: Word, w: Word)
    requires forall k: nat | k < 4 :: ByteOf(v, k) == ByteOf(w, k)
    ensures v == w
  {
    assert ByteOf(v, 0) == ByteOf(w, 0) && ByteOf(v, 1) == ByteOf(w, 1);
    assert ByteOf(v, 2) == ByteOf(w, 2) && ByteOf(v, 3) == ByteOf(w, 3);
  }
}
