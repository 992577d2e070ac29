/**
  pparser.c: the path parser, which builds a list of path parts out of heap blocks, and its destructor.
*/
module PathParser {
  import opened Words
  import opened HeapTable
  import opened HeapRuns
  import opened PhysicalMemory
  import opened Splitting
  import opened PathText
  import opened Directory
  import opened Paging
  import opened Kheap

  const EBADPATH := 4

  /** Size of `struct path_root` and of `struct path_part`: two words. */
  const NODE_SIZE := 8

  // ---------------------------------------------------------------- the structures in memory

  /** The text `s`, with its terminator, at the start of frame `f`. */
  ghost predicate StringAt(m: Memory, f: Frame, s: seq<Byte>) {
    && |s| < PAGE_SIZE
    && (forall j | 0 <= j < |s| :: BufferByte(m, PAGE_SIZE * f, j) == s[j])
    && BufferByte(m, PAGE_SIZE * f, |s|) == 0
  }

  /** A `struct path_part` in frame `node`: its text is in frame `str`. */
  ghost predicate PartAt(m: Memory, str: Frame, node: Frame, text: seq<Byte>, next: Word) {
    Cell(m, node, 0) == PAGE_SIZE * str && Cell(m, node, 1) == next && StringAt(m, str, text)
  }

  /** The frames of a parsed path: the root, then a text and a node for each part. */
  function Str(fs: seq<Frame>, j: nat): Frame
    requires 2 * j + 1 < |fs|
  {
    fs[2 * j + 1]
  }

  function Node(fs: seq<Frame>, j: nat): Frame
    requires 2 * j + 2 < |fs|
  {
    fs[2 * j + 2]
  }

  /** Pointer to the node of part `j` of `c`, null behind the last. */
  function NodePtr(fs: seq<Frame>, j: nat, c: nat): Word
    requires 2 * c + 1 <= |fs|
  {
    if j < c then PAGE_SIZE * Node(fs, j) else 0
  }

  ghost predicate PartsAt(m: Memory, fs: seq<Frame>, parts: seq<seq<Byte>>, c: nat)
    requires 2 * c + 1 <= |fs| && c <= |parts|
  {
    forall j: nat | j < c :: PartAt(m, Str(fs, j), Node(fs, j), parts[j], NodePtr(fs, j + 1, c))
  }

  ghost predicate PathAt(m: Memory, fs: seq<Frame>, drive: Word, parts: seq<seq<Byte>>) {
    && |fs| == 2 * |parts| + 1
    && Cell(m, fs[0], 0) == drive
    && Cell(m, fs[0], 1) == NodePtr(fs, 0, |parts|)
    && PartsAt(m, fs, parts, |parts|)
  }

  /** Following the links in memory from `ptr` on meets the texts `parts`, and then null. */
  ghost predicate ListReads(m: Memory, ptr: Word, parts: seq<seq<Byte>>)
    decreases |parts|
  {
    if parts == [] then ptr == 0
    else
      && ptr != 0 && ptr % 4096 == 0 && Cell(m, ptr / 4096, 0) % 4096 == 0
      && StringAt(m, Cell(m, ptr / 4096, 0) / 4096, parts[0])
      && ListReads(m, Cell(m, ptr / 4096, 1), parts[1..])
  }

  /** The structure at `root`: the drive, and the list of parts. */
  ghost predicate PathReads(m: Memory, root: Word, drive: Word, parts: seq<seq<Byte>>) {
    root % 4096 == 0 && Cell(m, root / 4096, 0) == drive && ListReads(m, Cell(m, root / 4096, 1), parts)
  }

  lemma {:induction false} PartsRead(m: Memory, fs: seq<Frame>, parts: seq<seq<Byte>>, j: nat)
    requires 2 * |parts| + 1 <= |fs| && PartsAt(m, fs, parts, |parts|) && DistinctFrames(fs) && j <= |parts|
    ensures ListReads(m, NodePtr(fs, j, |parts|), parts[j..])
    decreases |parts| - j
  {
    hide StringAt;
    if j < |parts| {
      assert PartAt(m, Str(fs, j), Node(fs, j), parts[j], NodePtr(fs, j + 1, |parts|));
      PartsRead(m, fs, parts, j + 1);
      assert parts[j..][1..] == parts[j + 1..];
    }
  }

  /** The frames of a batch: different from each other, and none at address 0. */
  ghost predicate DistinctFrames(fs: seq<Frame>) {
    Distinct(fs) && forall i | 0 <= i < |fs| :: fs[i] > 0
  }

  lemma StringKept(m: Memory, n: Memory, f: Frame, s: seq<Byte>)
    requires StringAt(m, f, s) && SameFrame(m, n, f)
    ensures StringAt(n, f, s)
  {
    forall j: nat | j < PAGE_SIZE ensures BufferByte(m, PAGE_SIZE * f, j) == BufferByte(n, PAGE_SIZE * f, j) {
      ByteOfFrame(m, n, PAGE_SIZE * f + j);
    }
  }

  lemma PartKept(m: Memory, n: Memory, str: Frame, node: Frame, text: seq<Byte>, next: Word)
    requires PartAt(m, str, node, text, next) && SameFrame(m, n, str) && SameFrame(m, n, node)
    ensures PartAt(n, str, node, text, next)
  {
    StringKept(m, n, str, text);
    assert Cell(m, node, 0) == Cell(n, node, 0) && Cell(m, node, 1) == Cell(n, node, 1);
  }

  // ---------------------------------------------------------------- frames of a batch

  /** The frames that the next `n` one-block allocations hand out. */
  function NextFrames(hb: int, t: Table, n: nat): (fs: seq<Frame>)
    requires PoolBounds(hb, |t|) && FreeCount(t) >= n
    ensures |fs| == n
  {
    Frames(hb, |t|, TakeAll(t, n).1)
  }

  lemma NextFramesDistinct(hb: int, t: Table, n: nat)
    requires PoolBounds(hb, |t|) && WellFormed(t) && FreeCount(t) >= n
    ensures DistinctFrames(NextFrames(hb, t, n))
    ensures forall i | 0 <= i < n :: NextFrames(hb, t, n)[i] >= hb && NextFrames(hb, t, n)[i] == hb + TakeAll(t, n).1[i]
  {
    TakeAllLive(t, n);
  }

  lemma NextFramesPrefix(hb: int, t: Table, n: nat)
    requires PoolBounds(hb, |t|) && FreeCount(t) >= n + 1
    ensures NextFrames(hb, t, n + 1)[..n] == NextFrames(hb, t, n)
  {
    hide TakeAll, FreeCount, NextFrames;
    TakePrefix(t, n);
    forall i | 0 <= i < n ensures NextFrames(hb, t, n + 1)[..n][i] == NextFrames(hb, t, n)[i] {
      BatchAt(hb, t, n + 1, i);
      BatchAt(hb, t, n, i);
    }
  }

  lemma BatchAt(hb: int, t: Table, n: nat, i: nat)
    requires PoolBounds(hb, |t|) && i < n <= FreeCount(t)
    ensures NextFrames(hb, t, n)[i] == hb + TakeAll(t, n).1[i]
  {
    hide TakeAll, FreeCount;
  }

  /** A block allocated and freed again leaves the table as it was. */
  lemma TempFreed(t: Table, i: nat, n: nat)
    requires WellFormed(t) && i < n <= FreeCount(t)
    ensures FreeChain(TakeAll(t, i + 1).0, TakeAll(t, n).1[i]) == TakeAll(t, i).0
  {
    TakeAllLive(t, i);
    TakeStep(t, i, n);
    FreeUndoesMalloc(TakeAll(t, i).0, 1);
  }

  // ---------------------------------------------------------------- parsing

  /** The buffer holds the first `c` bytes of `s`, and zeros behind them. */
  ghost predicate Filled(m: Memory, f: Frame, s: seq<Byte>, c: nat) {
    && c <= |s| < MAX_PATH
    && (forall j: nat | j < c :: BufferByte(m, PAGE_SIZE * f, j) == s[j])
    && (forall j: nat | c <= j < MAX_PATH :: BufferByte(m, PAGE_SIZE * f, j) == 0)
  }

  lemma FilledStart(m: Memory, f: Frame, s: seq<Byte>)
    requires |s| < MAX_PATH
    ensures Filled(ZeroFill(m, PAGE_SIZE * f, MAX_PATH), f, s, 0)
    ensures SameExcept(m, ZeroFill(m, PAGE_SIZE * f, MAX_PATH), f)
  {
    hide ZeroFill;
    var n := ZeroFill(m, PAGE_SIZE * f, MAX_PATH);
    forall j: nat | j < MAX_PATH ensures BufferByte(n, PAGE_SIZE * f, j) == 0 {
      ZeroFillEffect(m, f, MAX_PATH, PAGE_SIZE * f + j);
    }
    forall g: Frame | g != f ensures SameFrame(m, n, g) {
      ZeroFillFrame(m, f, 1, MAX_PATH, g);
    }
  }

  lemma FilledStep(m: Memory, f: Frame, s: seq<Byte>, c: nat)
    requires Filled(m, f, s, c) && c < |s|
    ensures Filled(WithByte(m, PAGE_SIZE * f + c, s[c]), f, s, c + 1)
  {
    hide WithByte;
    BufferStore(m, PAGE_SIZE * f, c, s[c]);
    var n := WithByte(m, PAGE_SIZE * f + c, s[c]);
    forall j: nat | j < MAX_PATH && j != c ensures BufferByte(n, PAGE_SIZE * f, j) == BufferByte(m, PAGE_SIZE * f, j) {
    }
  }

  lemma FilledAll(m: Memory, f: Frame, s: seq<Byte>)
    requires Filled(m, f, s, |s|)
    ensures StringAt(m, f, s)
  {
  }

  /** Within a part the character at `p` is the next one of the part's text. */
  lemma PartText(path: seq<Byte>, pos: nat, p: nat)
    requires pos <= p <= |path| && PartEnd(path, p) == PartEnd(path, pos)
    ensures p < |path| && path[p] != SLASH <==> p < PartEnd(path, pos)
    ensures p < PartEnd(path, pos) ==>
              path[p] == path[pos..PartEnd(path, pos)][p - pos] && PartEnd(path, p + 1) == PartEnd(path, pos)
  {
  }

  /** pathparser_get_path_part: the text of the part at `pos`, or null for an empty one. */
  method GetPathPart(k: Machine, path: seq<Byte>, pos: nat, ghost t: Table, ghost i: nat, ghost n: nat)
    returns (result: Word, next: nat)
    requires k.Valid() && WellFormed(t) && i < n <= FreeCount(t) && k.T() == TakeAll(t, i).0
    requires 3 <= pos <= |path| <= MAX_PATH && 0 !in path
    modifies k.heap.table, k.mem
    ensures next == AfterPart(path, pos)
    ensures SameExcept(old(k.M()), k.M(), NextFrames(k.Hb(), t, n)[i])
    ensures PartEnd(path, pos) == pos ==> result == 0 && k.T() == old(k.T())
    ensures PartEnd(path, pos) > pos ==>
              && k.T() == TakeAll(t, i + 1).0 && result == PAGE_SIZE * NextFrames(k.Hb(), t, n)[i]
              && StringAt(k.M(), NextFrames(k.Hb(), t, n)[i], path[pos..PartEnd(path, pos)])
  {
    hide TakeAll, FreeCount, WellFormed, ZeroFill, WithByte, PartEnd, NextFrames, Filled, StringAt, SameExcept;
    ghost var m := k.M();
    ghost var f := NextFrames(k.Hb(), t, n)[i];
    ghost var s := path[pos..PartEnd(path, pos)];
    BatchAt(k.Hb(), t, n, i);
    result := TakeBlock(k, t, i, n, MAX_PATH);
    FilledStart(m, f, s);
    var p := pos;
    var c := 0;
    PartText(path, pos, p);
    while p < |path| && path[p] != SLASH
      modifies k.mem
      invariant pos <= p <= |path| && c == p - pos && PartEnd(path, p) == PartEnd(path, pos)
      invariant p < |path| && path[p] != SLASH <==> c < |s|
      invariant c <= |s| && SameExcept(m, k.M(), f) && Filled(k.M(), f, s, c)
    {
      PartText(path, pos, p);
      PartText(path, pos, p + 1);
      FilledStep(k.M(), f, s, c);
      StoreIn(m, k.M(), result + c, path[p]);
      k.StoreByte(result + c, path[p]);
      p, c := p + 1, c + 1;
    }
    next := p;
    if next < |path| {
      next := next + 1;
    }
    FilledAll(k.M(), f, s);
    if c == 0 {
      TempFreed(t, i, n);
      k.Kfree(result);
      result := 0;
    }
  }

  /** Frame `f` keeps its first word, and its second becomes `p`: what `last_part->next = part` does. */
  ghost predicate Linked(m: Memory, n: Memory, f: Frame, p: Word) {
    Cell(n, f, 0) == Cell(m, f, 0) && Cell(n, f, 1) == p
  }

  /** Memory once a cleared block at `node` was made a part and hung behind `last`. */
  function WithPart(m: Memory, str: Word, node: Frame, last: Word): Memory {
    var m' := WithCell(WithCell(ZeroFill(m, PAGE_SIZE * node, NODE_SIZE), node, 0, str), node, 1, 0);
    if last == 0 then m' else WithCell(m', last / PAGE_SIZE, 1, PAGE_SIZE * node)
  }

  /**
    From `m` to `n` a part was built in the frames `str` and `node` and hung behind `last`, if that is not
    null; no other frame changed.
  */
  ghost predicate PartAdded(m: Memory, n: Memory, str: Frame, node: Frame, s: seq<Byte>, last: Word) {
    && PartAt(n, str, node, s, 0)
    && (last != 0 ==> Linked(m, n, last / PAGE_SIZE, PAGE_SIZE * node))
    && (forall g: Frame | g != str && g != node && (last == 0 || g != last / PAGE_SIZE) :: SameFrame(m, n, g))
  }

  lemma WithPartAdds(m: Memory, m1: Memory, str: Frame, node: Frame, s: seq<Byte>, last: Word)
    requires SameExcept(m, m1, str) && StringAt(m1, str, s)
    requires str != node && last % PAGE_SIZE == 0 && last / PAGE_SIZE != str && last / PAGE_SIZE != node
    ensures PartAdded(m, WithPart(m1, PAGE_SIZE * str, node, last), str, node, s, last)
  {
    hide ZeroFill, StringAt;
    var m2 := ZeroFill(m1, PAGE_SIZE * node, NODE_SIZE);
    var n := WithPart(m1, PAGE_SIZE * str, node, last);
    forall g: Frame | g != node && (last == 0 || g != last / PAGE_SIZE) ensures SameFrame(m1, n, g) {
      WithPartKeeps(m1, PAGE_SIZE * str, node, last, g);
    }
    StringKept(m1, n, str, s);
    forall g: Frame | g != str && g != node && (last == 0 || g != last / PAGE_SIZE) ensures SameFrame(m, n, g) {
      assert SameFrame(m, m1, g) && SameFrame(m1, n, g);
    }
    if last != 0 {
      var f := last / PAGE_SIZE;
      ZeroFillFrame(m1, node, 1, NODE_SIZE, f);
      assert SameFrame(m, m1, f) && SameFrame(m1, m2, f);
      assert Cell(m2, f, 0) == Cell(m1, f, 0) == Cell(m, f, 0);
    }
  }

  lemma WithPartKeeps(m: Memory, str: Word, node: Frame, last: Word, g: Frame)
    requires g != node && (last == 0 || g != last / PAGE_SIZE)
    ensures SameFrame(m, WithPart(m, str, node, last), g)
  {
    hide ZeroFill;
    ZeroFillFrame(m, node, 1, NODE_SIZE, g);
  }

  /** pathparser_parse_path_part: one more part, hung behind `lastPart` unless that is null. */
  method ParsePathPart(k: Machine, lastPart: Word, path: seq<Byte>, pos: nat,
                       ghost t: Table, ghost i: nat, ghost n: nat)
    returns (part: Word, next: nat)
    requires k.Valid() && WellFormed(t) && i < n <= FreeCount(t) && k.T() == TakeAll(t, i).0
    requires 3 <= pos <= |path| <= MAX_PATH && 0 !in path
    requires PartEnd(path, pos) > pos ==> i + 1 < n
    requires lastPart % PAGE_SIZE == 0 && lastPart / PAGE_SIZE !in NextFrames(k.Hb(), t, n)[i..]
    modifies k.heap.table, k.mem
    ensures next == AfterPart(path, pos)
    ensures PartEnd(path, pos) == pos ==>
              part == 0 && k.T() == old(k.T()) && SameExcept(old(k.M()), k.M(), NextFrames(k.Hb(), t, n)[i])
    ensures PartEnd(path, pos) > pos ==>
              var fs := NextFrames(k.Hb(), t, n);
              && k.T() == TakeAll(t, i + 2).0 && part == PAGE_SIZE * fs[i + 1] > 0
              && PartAdded(old(k.M()), k.M(), fs[i], fs[i + 1], path[pos..PartEnd(path, pos)], lastPart)
  {
    hide TakeAll, FreeCount, WellFormed, ZeroFill, PartEnd, NextFrames, StringAt, PartAdded;
    ghost var fs := NextFrames(k.Hb(), t, n);
    NextFramesDistinct(k.Hb(), t, n);
    ghost var m := k.M();
    var str;
    str, next := GetPathPart(k, path, pos, t, i, n);
    if str == 0 {
      return 0, next;
    }
    ghost var m1 := k.M();
    part := TakeBlock(k, t, i + 1, n, NODE_SIZE);
    k.StoreWord(part / PAGE_SIZE, 0, str);
    k.StoreWord(part / PAGE_SIZE, 1, 0);
    if lastPart != 0 {
      k.StoreWord(lastPart / PAGE_SIZE, 1, part);
    }
    WithPartAdds(m, m1, fs[i], fs[i + 1], path[pos..PartEnd(path, pos)], lastPart);
  }

  // ---------------------------------------------------------------- the whole path

  /** The next part joins the `c` parts that are already in memory. */
  lemma PartsGrow(m: Memory, n: Memory, fs: seq<Frame>, parts: seq<seq<Byte>>, c: nat)
    requires DistinctFrames(fs) && 2 * c + 3 <= |fs| && c < |parts| && PartsAt(m, fs, parts, c)
    requires PartAdded(m, n, Str(fs, c), Node(fs, c), parts[c], if c == 0 then 0 else PAGE_SIZE * Node(fs, c - 1))
    ensures PartsAt(n, fs, parts, c + 1)
    ensures SameFrame(m, n, fs[0])
  {
    hide StringAt;
    forall j: nat | j < c + 1
      ensures PartAt(n, Str(fs, j), Node(fs, j), parts[j], NodePtr(fs, j + 1, c + 1))
    {
      if j < c {
        var str, node := Str(fs, j), Node(fs, j);
        assert PartAt(m, str, node, parts[j], NodePtr(fs, j + 1, c));
        assert SameFrame(m, n, str);
        StringKept(m, n, str, parts[j]);
        if j + 1 < c {
          assert SameFrame(m, n, node);
          PartKept(m, n, str, node, parts[j], NodePtr(fs, j + 1, c));
        }
      }
    }
  }

  ghost predicate SameBeyond(m: Memory, n: Memory, fs: seq<Frame>) {
    forall g: Frame | g !in fs :: SameFrame(m, n, g)
  }

  /** The root and the first `c` parts are in memory, and `rest` is where the parser goes on reading. */
  ghost predicate Building(m: Memory, n: Memory, fs: seq<Frame>, path: seq<Byte>, parts: seq<seq<Byte>>, c: nat,
                           rest: nat, first: Word)
  {
    && DistinctFrames(fs) && |fs| == 2 * |parts| + 2 && c <= |parts| && 3 <= rest <= |path|
    && Components(path, rest) == parts[c..]
    && Cell(n, fs[0], 0) == path[0] - ZERO && Cell(n, fs[0], 1) == first
    && PartsAt(n, fs, parts, c)
    && SameBeyond(m, n, fs)
  }

  function LastPtr(fs: seq<Frame>, c: nat): Word
    requires 2 * c + 1 <= |fs|
  {
    if c == 0 then 0 else PAGE_SIZE * Node(fs, c - 1)
  }

  lemma RootBuilt(m: Memory, n: Memory, fs: seq<Frame>, path: seq<Byte>, root: Word)
    requires ValidFormat(path) && DistinctFrames(fs) && |fs| == 2 * |Components(path, 3)| + 2
    requires root == PAGE_SIZE * fs[0]
    requires n == WithCell(WithCell(ZeroFill(m, root, NODE_SIZE), fs[0], 0, path[0] - ZERO), fs[0], 1, 0)
    ensures Building(m, n, fs, path, Components(path, 3), 0, 3, 0)
  {
    hide ZeroFill, Components;
    forall g: Frame | g != fs[0] ensures SameFrame(m, n, g) { ZeroFillFrame(m, fs[0], 1, NODE_SIZE, g); }
  }

  /** What the next call of `ParsePathPart` finds. */
  lemma NextPart(m: Memory, n: Memory, fs: seq<Frame>, path: seq<Byte>, parts: seq<seq<Byte>>, c: nat,
                 rest: nat, first: Word)
    requires Building(m, n, fs, path, parts, c, rest, first)
    ensures PartEnd(path, rest) > rest <==> c < |parts|
    ensures c < |parts| ==> path[rest..PartEnd(path, rest)] == parts[c]
    ensures c < |parts| ==> Components(path, AfterPart(path, rest)) == parts[c + 1..]
    ensures LastPtr(fs, c) % PAGE_SIZE == 0 && LastPtr(fs, c) / PAGE_SIZE !in fs[2 * c + 1..]
  {
    hide PartsAt, SameBeyond, PartEnd, AfterPart;
    assert Components(path, rest) != [] ==> parts[c + 1..] == parts[c..][1..];
    var later := fs[2 * c + 1..];
    forall k | 0 <= k < |later| ensures later[k] != LastPtr(fs, c) / PAGE_SIZE {
      if c > 0 { assert fs[2 * (c - 1) + 2] != fs[2 * c + 1 + k]; }
    }
  }

  lemma PartBuilt(m: Memory, n: Memory, n': Memory, fs: seq<Frame>, path: seq<Byte>, parts: seq<seq<Byte>>, c: nat,
                  rest: nat, first: Word)
    requires Building(m, n, fs, path, parts, c, rest, first) && c < |parts|
    requires PartAdded(n, n', Str(fs, c), Node(fs, c), parts[c], LastPtr(fs, c))
    ensures Building(m, n', fs, path, parts, c + 1, AfterPart(path, rest), first)
  {
    NextPart(m, n, fs, path, parts, c, rest, first);
    PartsGrow(n, n', fs, parts, c);
    hide PartsAt, PartEnd, AfterPart, Components, PartAt;
    assert Cell(n', fs[0], 0) == Cell(n, fs[0], 0) && Cell(n', fs[0], 1) == Cell(n, fs[0], 1);
    forall g: Frame | g !in fs ensures SameFrame(m, n', g) {
      assert SameFrame(m, n, g);
      assert Str(fs, c) in fs && Node(fs, c) in fs && (c > 0 ==> Node(fs, c - 1) in fs);
      assert SameFrame(n, n', g);
    }
  }

  /** Writes outside the frames of the finished parts leave them as they are. */
  lemma PartsKept(m: Memory, n: Memory, fs: seq<Frame>, parts: seq<seq<Byte>>, c: nat)
    requires 2 * c + 1 <= |fs| && c <= |parts| && PartsAt(m, fs, parts, c)
    requires forall k | 1 <= k < 2 * c + 1 :: SameFrame(m, n, fs[k])
    ensures PartsAt(n, fs, parts, c)
  {
    hide PartAt;
    forall j: nat | j < c ensures PartAt(n, Str(fs, j), Node(fs, j), parts[j], NodePtr(fs, j + 1, c)) {
      assert PartAt(m, Str(fs, j), Node(fs, j), parts[j], NodePtr(fs, j + 1, c));
      PartKept(m, n, Str(fs, j), Node(fs, j), parts[j], NodePtr(fs, j + 1, c));
    }
  }

  lemma FirstLinked(m: Memory, n: Memory, fs: seq<Frame>, path: seq<Byte>, parts: seq<seq<Byte>>, rest: nat, p: Word)
    requires Building(m, n, fs, path, parts, 1, rest, 0)
    ensures Building(m, WithCell(n, fs[0], 1, p), fs, path, parts, 1, rest, p)
  {
    hide Components;
    var n' := WithCell(n, fs[0], 1, p);
    forall g: Frame | g != fs[0] ensures SameFrame(n, n', g) { WithCellFrame(n, fs[0], 1, p, g); }
    PartsKept(n, n', fs, parts, 1);
    forall g: Frame | g !in fs ensures SameFrame(m, n', g) {
      assert SameFrame(m, n, g) && SameFrame(n, n', g);
    }
  }

  lemma TempDropped(m: Memory, n: Memory, n': Memory, fs: seq<Frame>, path: seq<Byte>, parts: seq<seq<Byte>>,
                    rest: nat, first: Word)
    requires Building(m, n, fs, path, parts, |parts|, rest, first)
    requires SameExcept(n, n', fs[2 * |parts| + 1])
    ensures Building(m, n', fs, path, parts, |parts|, rest, first)
  {
    hide Components;
    forall k | 0 <= k < 2 * |parts| + 1 ensures SameFrame(n, n', fs[k]) {
      assert fs[k] != fs[2 * |parts| + 1];
    }
    PartsKept(n, n', fs, parts, |parts|);
    assert SameFrame(n, n', fs[0]);
    assert Cell(n', fs[0], 0) == Cell(n, fs[0], 0) && Cell(n', fs[0], 1) == Cell(n, fs[0], 1);
    forall g: Frame | g !in fs ensures SameFrame(m, n', g) {
      assert SameFrame(m, n, g) && fs[2 * |parts| + 1] in fs && SameFrame(n, n', g);
    }
  }

  lemma PathBuilt(m: Memory, n: Memory, fs: seq<Frame>, path: seq<Byte>, parts: seq<seq<Byte>>, rest: nat)
    requires |fs| == 2 * |parts| + 2 && Building(m, n, fs, path, parts, |parts|, rest, NodePtr(fs, 0, |parts|))
    ensures PathAt(n, fs[..2 * |parts| + 1], path[0] - ZERO, parts) && SameBeyond(m, n, fs)
  {
    hide Components, PartAt;
    var fs' := fs[..2 * |parts| + 1];
    forall j: nat | j < |parts|
      ensures PartAt(n, Str(fs', j), Node(fs', j), parts[j], NodePtr(fs', j + 1, |parts|))
    {
      assert Str(fs', j) == Str(fs, j) && Node(fs', j) == Node(fs, j);
      assert PartAt(n, Str(fs, j), Node(fs, j), parts[j], NodePtr(fs, j + 1, |parts|));
    }
  }

  /** pathparser_get_drive_by_path */
  method DriveByPath(path: seq<Byte>) returns (drive: int, next: nat)
    requires 0 !in path
    ensures !ValidFormat(path) ==> drive == -EBADPATH && next == 0
    ensures ValidFormat(path) ==> drive == path[0] - ZERO && next == 3
  {
    var len := if |path| < MAX_PATH then |path| else MAX_PATH;
    if !(len >= 3 && ZERO <= path[0] <= ZERO + 9 && path[1] == COLON && path[2] == SLASH) {
      return -EBADPATH, 0;
    }
    return path[0] - ZERO, 3;
  }

  /** One call of the part parser, seen from the path being built. */
  method AddPart(k: Machine, last: Word, path: seq<Byte>, pos: nat, ghost t: Table, ghost m: Memory,
                 ghost parts: seq<seq<Byte>>, ghost c: nat, ghost first: Word)
    returns (part: Word, next: nat)
    requires k.Valid() && WellFormed(t) && 2 * |parts| + 2 <= FreeCount(t) && c <= |parts|
    requires k.T() == TakeAll(t, 2 * c + 1).0
    requires 3 <= pos <= |path| <= MAX_PATH && 0 !in path
    requires Building(m, k.M(), NextFrames(k.Hb(), t, 2 * |parts| + 2), path, parts, c, pos, first)
    requires last == LastPtr(NextFrames(k.Hb(), t, 2 * |parts| + 2), c)
    modifies k.heap.table, k.mem
    ensures c == |parts| ==>
              && part == 0 && k.T() == old(k.T())
              && Building(m, k.M(), NextFrames(k.Hb(), t, 2 * |parts| + 2), path, parts, c, pos, first)
    ensures c < |parts| ==>
              && part == LastPtr(NextFrames(k.Hb(), t, 2 * |parts| + 2), c + 1) > 0
              && k.T() == TakeAll(t, 2 * c + 3).0 && 3 <= next <= |path|
              && Building(m, k.M(), NextFrames(k.Hb(), t, 2 * |parts| + 2), path, parts, c + 1, next, first)
  {
    hide TakeAll, FreeCount, WellFormed, PartEnd, AfterPart, Components, NextFrames, PartAdded, Building;
    ghost var n := 2 * |parts| + 2;
    ghost var fs := NextFrames(k.Hb(), t, n);
    ghost var m' := k.M();
    NextPart(m, m', fs, path, parts, c, pos, first);
    part, next := ParsePathPart(k, last, path, pos, t, 2 * c + 1, n);
    if c < |parts| {
      PartBuilt(m, m', k.M(), fs, path, parts, c, pos, first);
    } else {
      TempDropped(m, m', k.M(), fs, path, parts, pos, first);
    }
  }

  /** pathparser_create_root */
  method CreateRoot(k: Machine, drive: Word, ghost path: seq<Byte>) returns (root: Word)
    requires k.Valid() && WellFormed(k.T()) && ValidFormat(path) && drive == path[0] - ZERO
    requires FreeCount(k.T()) >= 2 * |Components(path, 3)| + 2
    modifies k.heap.table, k.mem
    ensures k.T() == TakeAll(old(k.T()), 1).0
    ensures var fs := NextFrames(k.Hb(), old(k.T()), 2 * |Components(path, 3)| + 2);
            root == PAGE_SIZE * fs[0] && Building(old(k.M()), k.M(), fs, path, Components(path, 3), 0, 3, 0)
  {
    hide TakeAll, FreeCount, WellFormed, ZeroFill, Components, NextFrames, Building;
    ghost var t, m := k.T(), k.M();
    ghost var n := 2 * |Components(path, 3)| + 2;
    NextFramesDistinct(k.Hb(), t, n);
    TakeNone(t);
    root := TakeBlock(k, t, 0, n, NODE_SIZE);
    k.StoreWord(root / PAGE_SIZE, 0, drive);
    k.StoreWord(root / PAGE_SIZE, 1, 0);
    RootBuilt(m, k.M(), NextFrames(k.Hb(), t, n), path, root);
  }

  /** The parts behind the first, of which `part` is the address. */
  method LaterParts(k: Machine, first: Word, path: seq<Byte>, start: nat, ghost t: Table, ghost m: Memory,
                    ghost parts: seq<seq<Byte>>)
    returns (ghost rest: nat)
    requires k.Valid() && WellFormed(t) && 2 * |parts| + 2 <= FreeCount(t) && 1 <= |parts|
    requires k.T() == TakeAll(t, 3).0
    requires 3 <= start <= |path| <= MAX_PATH && 0 !in path
    requires Building(m, k.M(), NextFrames(k.Hb(), t, 2 * |parts| + 2), path, parts, 1, start, first)
    requires first == LastPtr(NextFrames(k.Hb(), t, 2 * |parts| + 2), 1) > 0
    modifies k.heap.table, k.mem
    ensures k.T() == TakeAll(t, 2 * |parts| + 1).0
    ensures Building(m, k.M(), NextFrames(k.Hb(), t, 2 * |parts| + 2), path, parts, |parts|, rest, first)
  {
    hide TakeAll, FreeCount, WellFormed, NextFrames, Building;
    ghost var fs := NextFrames(k.Hb(), t, 2 * |parts| + 2);
    ghost var c: nat := 1;
    rest := start;
    var part, pos := AddPart(k, first, path, start, t, m, parts, 1, first);
    if c < |parts| { c, rest := c + 1, pos; }
    while part != 0
      invariant 1 <= c <= |parts| && k.T() == TakeAll(t, 2 * c + 1).0
      invariant Building(m, k.M(), fs, path, parts, c, rest, first)
      invariant part != 0 ==> part == LastPtr(fs, c) && rest == pos && 3 <= pos <= |path|
      invariant part == 0 ==> c == |parts|
      decreases |parts| - c, part != 0
    {
      ghost var more := c < |parts|;
      part, pos := AddPart(k, part, path, pos, t, m, parts, c, first);
      if more { c, rest := c + 1, pos; }
    }
  }

  /** The list at `root` is the parsed path, in the blocks that the batch handed out; nothing else changed. */
  ghost predicate ListBuilt(hb: int, t: Table, m: Memory, t': Table, m': Memory, path: seq<Byte>, root: Word)
    requires PoolBounds(hb, |t|) && ParsePath(path).Parsed?
    requires FreeCount(t) >= 2 * |ParsePath(path).parts| + 2
  {
    var Parsed(drive, parts) := ParsePath(path);
    var fs := NextFrames(hb, t, 2 * |parts| + 1);
    && t' == TakeAll(t, 2 * |parts| + 1).0
    && root == PAGE_SIZE * fs[0]
    && PathAt(m', fs, drive, parts)
    && SameBeyond(m, m', NextFrames(hb, t, 2 * |parts| + 2))
  }

  lemma BuiltAll(hb: int, t: Table, m: Memory, t': Table, m': Memory, path: seq<Byte>, root: Word, rest: nat)
    requires PoolBounds(hb, |t|) && ParsePath(path).Parsed?
    requires var parts := Components(path, 3);
             && FreeCount(t) >= 2 * |parts| + 2
             && t' == TakeAll(t, 2 * |parts| + 1).0
             && var fs := NextFrames(hb, t, 2 * |parts| + 2);
             && root == PAGE_SIZE * fs[0]
             && Building(m, m', fs, path, parts, |parts|, rest, NodePtr(fs, 0, |parts|))
    ensures ListBuilt(hb, t, m, t', m', path, root)
  {
    hide TakeAll, FreeCount, Components, NextFrames, Building, PathAt;
    var parts := Components(path, 3);
    NextFramesPrefix(hb, t, 2 * |parts| + 1);
    PathBuilt(m, m', NextFrames(hb, t, 2 * |parts| + 2), path, parts, rest);
  }

  lemma BuiltReads(hb: int, t: Table, m: Memory, t': Table, m': Memory, path: seq<Byte>, root: Word)
    requires PoolBounds(hb, |t|) && WellFormed(t) && ParsePath(path).Parsed?
    requires FreeCount(t) >= 2 * |ParsePath(path).parts| + 2 && ListBuilt(hb, t, m, t', m', path, root)
    ensures PathReads(m', root, path[0] - 48, UntilEmpty(Pieces(path[3..])))
  {
    hide TakeAll, FreeCount, WellFormed, Components, NextFrames, PartsAt, ListReads;
    AcceptedPaths(path);
    var parts := ParsePath(path).parts;
    NextFramesDistinct(hb, t, 2 * |parts| + 1);
    PartsRead(m', NextFrames(hb, t, 2 * |parts| + 1), parts, 0);
    assert parts[0..] == parts;
  }

  /**
    pathparser_parse. A bad path gives null and changes nothing; any other path takes one block for the root
    and two for each part, and they hold the parsed path.
  */
  method Parse(k: Machine, path: seq<Byte>) returns (root: Word)
    requires k.Valid() && WellFormed(k.T()) && 0 !in path
    requires ParsePath(path).Parsed? ==> FreeCount(k.T()) >= 2 * |ParsePath(path).parts| + 2
    modifies k.heap.table, k.mem
    ensures ParsePath(path).BadPath? ==> root == 0 && k.T() == old(k.T()) && k.M() == old(k.M())
    ensures ParsePath(path).Parsed? ==> ListBuilt(k.Hb(), old(k.T()), old(k.M()), k.T(), k.M(), path, root)
    ensures ParsePath(path).Parsed? ==> PathReads(k.M(), root, path[0] - 48, UntilEmpty(Pieces(path[3..])))
  {
    hide TakeAll, FreeCount, WellFormed, Components, NextFrames, Building, ListBuilt, PathReads;
    if |path| > MAX_PATH {
      return 0;
    }
    var drive, pos := DriveByPath(path);
    if drive < 0 {
      return 0;
    }
    ghost var t, m := k.T(), k.M();
    ghost var parts := Components(path, 3);
    ghost var fs := NextFrames(k.Hb(), t, 2 * |parts| + 2);
    root := CreateRoot(k, drive, path);
    var part;
    part, pos := AddPart(k, 0, path, pos, t, m, parts, 0, 0);
    if part == 0 {
      BuiltAll(k.Hb(), t, m, k.T(), k.M(), path, root, 3);
      BuiltReads(k.Hb(), t, m, k.T(), k.M(), path, root);
      return;
    }
    FirstLinked(m, k.M(), fs, path, parts, pos, part);
    k.StoreWord(root / PAGE_SIZE, 1, part);
    ghost var rest := LaterParts(k, part, path, pos, t, m, parts);
    BuiltAll(k.Hb(), t, m, k.T(), k.M(), path, root, rest);
    BuiltReads(k.Hb(), t, m, k.T(), k.M(), path, root);
  }

  // ---------------------------------------------------------------- freeing

  /** The order in which the frames of a path are freed: text and node of each part, then the root. */
  function FreeOrder(fs: seq<Frame>): seq<Frame>
    requires fs != []
  {
    fs[1..] + [fs[0]]
  }

  lemma FreeOrderAt(fs: seq<Frame>)
    requires fs != []
    ensures |FreeOrder(fs)| == |fs| && FreeOrder(fs)[|fs| - 1] == fs[0]
    ensures forall i | 0 <= i < |fs| :: FreeOrder(fs)[i] in fs
    ensures forall j: nat | 2 * j + 2 < |fs| ::
              FreeOrder(fs)[2 * j] == Str(fs, j) && FreeOrder(fs)[2 * j + 1] == Node(fs, j)
  {
  }

  lemma RootIsLast(fs: seq<Frame>)
    requires fs != []
    ensures |FreeOrder(fs)| == |fs| && FreeOrder(fs)[|fs| - 1] == fs[0]
  {
  }

  /** The table once the first `n` frames of the order were freed. */
  ghost function Freed(hb: int, t: Table, fs: seq<Frame>, n: nat): (u: Table)
    requires fs != [] && n <= |fs| && InPool(hb, |t|, fs)
    ensures |u| == |t|
  {
    FreeOrderAt(fs);
    FreeAll(t, PoolBlocks(hb, FreeOrder(fs)[..n]))
  }

  lemma FreedNext(hb: int, t: Table, fs: seq<Frame>, n: nat)
    requires n < |fs| && InPool(hb, |t|, fs)
    ensures Freed(hb, t, fs, 0) == t
    ensures FreeOrder(fs)[n] >= hb && Freed(hb, t, fs, n + 1) == FreeChain(Freed(hb, t, fs, n), FreeOrder(fs)[n] - hb)
    ensures n + 1 == |fs| ==> Freed(hb, t, fs, n + 1) == FreeAll(t, PoolBlocks(hb, FreeOrder(fs)))
  {
    FreeOrderAt(fs);
    var gs := FreeOrder(fs);
    assert n + 1 == |fs| ==> gs[..n + 1] == gs;
    hide FreeAll, FreeChain, FreeOrder, PoolBlocks;
    NoneFreed(hb, t, gs);
    FreeNext(hb, t, gs, n);
  }

  lemma RootWords(m: Memory, fs: seq<Frame>, drive: Word, parts: seq<seq<Byte>>)
    requires PathAt(m, fs, drive, parts)
    ensures |fs| == 2 * |parts| + 1 && m[PAGE_SIZE * fs[0] / 4 + 1] == NodePtr(fs, 0, |parts|)
  {
    hide PartsAt;
  }

  /** What the loop reads from the node of part `c`. */
  lemma NodeWords(m: Memory, fs: seq<Frame>, drive: Word, parts: seq<seq<Byte>>, c: nat)
    requires PathAt(m, fs, drive, parts) && c < |parts| && |fs| == 2 * |parts| + 1
    ensures m[PAGE_SIZE * Node(fs, c) / 4] == PAGE_SIZE * Str(fs, c)
    ensures m[PAGE_SIZE * Node(fs, c) / 4 + 1] == NodePtr(fs, c + 1, |parts|)
  {
    hide StringAt;
    assert PartAt(m, Str(fs, c), Node(fs, c), parts[c], NodePtr(fs, c + 1, |parts|));
  }

  /** One turn of the loop of pathparser_free. */
  method FreePart(k: Machine, part: Word, ghost t: Table, ghost fs: seq<Frame>, ghost drive: Word,
                  ghost parts: seq<seq<Byte>>, ghost c: nat)
    returns (nextPart: Word)
    requires k.Valid() && |t| == |k.T()| && InPool(k.Hb(), |t|, fs)
    requires PathAt(k.M(), fs, drive, parts) && c < |parts| && |fs| == 2 * |parts| + 1
    requires part == PAGE_SIZE * Node(fs, c) && k.T() == Freed(k.Hb(), t, fs, 2 * c)
    modifies k.heap.table
    ensures nextPart == NodePtr(fs, c + 1, |parts|)
    ensures k.T() == Freed(k.Hb(), t, fs, 2 * c + 2)
  {
    hide FreeAll, FreeChain, PoolBlocks, FreeOrder, PathAt, Freed;
    FreeOrderAt(fs);
    NodeWords(k.M(), fs, drive, parts, c);
    nextPart := k.mem[part / 4 + 1];
    FreedNext(k.Hb(), t, fs, 2 * c);
    k.Kfree(k.mem[part / 4]);
    FreedNext(k.Hb(), t, fs, 2 * c + 1);
    k.Kfree(part);
  }

  /** The loop of pathparser_free, from the first part on. */
  method FreeParts(k: Machine, first: Word, ghost fs: seq<Frame>, ghost drive: Word, ghost parts: seq<seq<Byte>>)
    requires k.Valid() && InPool(k.Hb(), |k.T()|, fs)
    requires PathAt(k.M(), fs, drive, parts) && |fs| == 2 * |parts| + 1 && first == NodePtr(fs, 0, |parts|)
    modifies k.heap.table
    ensures k.T() == Freed(k.Hb(), old(k.T()), fs, 2 * |parts|)
  {
    hide FreeAll, FreeChain, PoolBlocks, FreeOrder, PathAt, Freed;
    ghost var t := k.T();
    FreedNext(k.Hb(), t, fs, 0);
    var part := first;
    ghost var c: nat := 0;
    while part != 0
      invariant c <= |parts| && part == NodePtr(fs, c, |parts|)
      invariant k.T() == Freed(k.Hb(), t, fs, 2 * c)
      decreases |parts| - c
    {
      part := FreePart(k, part, t, fs, drive, parts, c);
      c := c + 1;
    }
    assert c == |parts|;
  }

  /** pathparser_free: walks the list and returns every block of it, the root last. */
  method Free(k: Machine, root: Word, ghost fs: seq<Frame>, ghost drive: Word, ghost parts: seq<seq<Byte>>)
    requires k.Valid() && PathAt(k.M(), fs, drive, parts) && root == PAGE_SIZE * fs[0]
    requires InPool(k.Hb(), |k.T()|, fs)
    modifies k.heap.table
    ensures k.T() == FreeAll(old(k.T()), PoolBlocks(k.Hb(), FreeOrder(fs)))
  {
    hide FreeAll, FreeChain, PoolBlocks, FreeOrder, PathAt, Freed;
    RootWords(k.M(), fs, drive, parts);
    RootIsLast(fs);
    ghost var t := k.T();
    FreeParts(k, k.mem[root / 4 + 1], fs, drive, parts);
    FreedNext(k.Hb(), t, fs, 2 * |parts|);
    k.Kfree(root);
  }

  lemma FreeUndoesBatch(hb: int, t: Table, n: nat)
    requires PoolBounds(hb, |t|) && WellFormed(t) && 1 <= n <= FreeCount(t)
    ensures InPool(hb, |t|, NextFrames(hb, t, n))
    ensures FreeAll(TakeAll(t, n).0, PoolBlocks(hb, FreeOrder(NextFrames(hb, t, n)))) == t
  {
    var ss := TakeAll(t, n).1;
    var order := PoolBlocks(hb, FreeOrder(NextFrames(hb, t, n)));
    NextFramesDistinct(hb, t, n);
    TakeAllLive(t, n);
    assert order == ss[1..] + [ss[0]];
    assert Elements(order) == Elements(ss) by {
      assert ss == [ss[0]] + ss[1..];
    }
    FreeAllUndoesTakeAll(t, n, order);
  }

  /**
    What `Parse` leaves is what `Free` asks for, and freeing it restores the heap table to its state before
    the parse, bit for bit.
  */
  lemma FreeUndoesParse(hb: int, t: Table, m: Memory, t': Table, m': Memory, path: seq<Byte>, root: Word)
    requires PoolBounds(hb, |t|) && WellFormed(t) && ParsePath(path).Parsed?
    requires FreeCount(t) >= 2 * |ParsePath(path).parts| + 2 && ListBuilt(hb, t, m, t', m', path, root)
    ensures var Parsed(drive, parts) := ParsePath(path);
            var fs := NextFrames(hb, t, 2 * |parts| + 1);
            && PathAt(m', fs, drive, parts) && root == PAGE_SIZE * fs[0] && InPool(hb, |t'|, fs)
            && FreeAll(t', PoolBlocks(hb, FreeOrder(fs))) == t
  {
    hide TakeAll, FreeAll, FreeCount, PoolBlocks, FreeOrder, PathAt, Components;
    FreeUndoesBatch(hb, t, 2 * |ParsePath(path).parts| + 1);
  }
}
