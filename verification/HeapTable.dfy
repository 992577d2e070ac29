/**
  The block table of the kernel heap, as a value.

  One byte describes each 4096-byte block. An allocation of `n` blocks is a chain of `n` consecutive
  bytes: the first carries IS_FIRST, all but the last carry HAS_NEXT. Everything the allocator knows
  about its live allocations is in these bytes; `Live` reads them back.
*/
module HeapTable {

  const FREE: bv8 := 0x00
  const TAKEN: bv8 := 0x01
  const HAS_NEXT: bv8 := 0x80
  const IS_FIRST: bv8 := 0x40
  const ENOMEM := 3

  type Table = seq<bv8>

  predicate IsFree(e: bv8) { e & 0x0f == FREE }

  predicate HasNext(e: bv8) { e & HAS_NEXT != 0 }

  predicate IsFirst(e: bv8) { e & IS_FIRST != 0 }

  /** A block inside an allocation that is not its head. */
  predicate IsInner(e: bv8) { !IsFree(e) && !IsFirst(e) }

  /** The byte of block `k` of an allocation of `n` blocks. */
  function ChainByte(k: nat, n: nat): (e: bv8)
    requires k < n
    ensures Legal(e) && !IsFree(e)
    ensures IsFirst(e) <==> k == 0
    ensures HasNext(e) <==> k + 1 < n
  {
    TAKEN | (if k == 0 then IS_FIRST else 0) | (if k + 1 < n then HAS_NEXT else 0)
  }

  /** The five bytes the allocator ever writes. */
  predicate Legal(e: bv8) {
    e == FREE || e == 0x41 || e == 0xC1 || e == 0x81 || e == 0x01
  }

  /** A partition into free blocks and chains: a block announces a next one exactly when its neighbour
      continues a chain. */
  ghost predicate WellFormed(t: Table) {
    && (forall i | 0 <= i < |t| :: Legal(t[i]))
    && (forall i, j | 0 <= i < j < |t| && j == i + 1 :: HasNext(t[i]) <==> IsInner(t[j]))
    && (|t| > 0 ==> !IsInner(t[0]) && !HasNext(t[|t| - 1]))
  }

  // ---------------------------------------------------------------- chains

  /** Number of blocks that following HAS_NEXT from `s` visits. */
  function ChainLen(t: Table, s: nat): (n: nat)
    ensures s < |t| ==> 1 <= n <= |t| - s
    decreases |t| - s
  {
    if s >= |t| then 0 else if HasNext(t[s]) then 1 + ChainLen(t, s + 1) else 1
  }

  /** The live allocations recorded in a table: first block to number of blocks. */
  function Live(t: Table): map<nat, nat> {
    map s: nat | 0 <= s < |t| && IsFirst(t[s]) :: ChainLen(t, s)
  }

  /** The head of the chain that block `i` belongs to. */
  function HeadOf(t: Table, i: nat): (r: nat)
    requires i < |t|
    ensures r <= i
  {
    if i == 0 || IsFirst(t[i]) then i else HeadOf(t, i - 1)
  }

  lemma {:induction false} ChainShape(t: Table, s: nat)
    requires WellFormed(t) && s < |t| && !IsFree(t[s])
    ensures forall i | s <= i < s + ChainLen(t, s) :: !IsFree(t[i]) && (IsFirst(t[i]) ==> i == s)
    ensures forall i | s <= i < s + ChainLen(t, s) :: HasNext(t[i]) <==> i + 1 < s + ChainLen(t, s)
    ensures s + ChainLen(t, s) < |t| ==> !IsInner(t[s + ChainLen(t, s)])
    decreases |t| - s
  {
    if HasNext(t[s]) {
      assert s + 1 < |t| && IsInner(t[s + 1]);
      ChainShape(t, s + 1);
    }
  }

  /** Each block of a live chain holds the byte its position in the chain dictates. */
  lemma ChainBytes(t: Table, s: nat)
    requires WellFormed(t) && s in Live(t)
    ensures forall i | s <= i < s + Live(t)[s] :: t[i] == ChainByte(i - s, Live(t)[s])
  {
    ChainShape(t, s);
  }

  lemma {:induction false} HeadOfTaken(t: Table, i: nat)
    requires WellFormed(t) && i < |t| && !IsFree(t[i])
    ensures HeadOf(t, i) in Live(t)
    ensures HeadOf(t, i) <= i < HeadOf(t, i) + Live(t)[HeadOf(t, i)]
  {
    if !IsFirst(t[i]) {
      assert IsInner(t[i]) && i > 0 && HasNext(t[i - 1]);
      HeadOfTaken(t, i - 1);
      ChainShape(t, HeadOf(t, i - 1));
    }
  }

  /** Distinct live chains do not overlap. */
  lemma ChainsDisjoint(t: Table, r: nat, s: nat)
    requires WellFormed(t) && r in Live(t) && s in Live(t) && r < s
    ensures r + Live(t)[r] <= s && s + Live(t)[s] <= |t|
  {
    ChainShape(t, r);
  }

  /** Every taken block lies in exactly one live chain, the one `HeadOf` names. */
  lemma Partition(t: Table, i: nat, s: nat)
    requires WellFormed(t) && i < |t|
    ensures !IsFree(t[i]) ==> HeadOf(t, i) in Live(t) && HeadOf(t, i) <= i < HeadOf(t, i) + Live(t)[HeadOf(t, i)]
    ensures s in Live(t) && s <= i < s + Live(t)[s] ==> !IsFree(t[i]) && s == HeadOf(t, i)
  {
    if !IsFree(t[i]) { HeadOfTaken(t, i); }
    if s in Live(t) && s <= i < s + Live(t)[s] {
      ChainShape(t, s);
      var h := HeadOf(t, i);
      if h < s {
        ChainsDisjoint(t, h, s);
      } else if s < h {
        ChainsDisjoint(t, s, h);
      }
    }
  }

  /** The blocks of a live chain lie in the table, are taken and lead back to it. */
  lemma BlockIn(t: Table, c: nat, b: nat)
    requires WellFormed(t) && c in Live(t) && c <= b < c + Live(t)[c]
    ensures b < |t| && !IsFree(t[b]) && HeadOf(t, b) == c
  {
    Partition(t, b, c);
  }

  /** The table is determined by its live allocations: no two well-formed tables of one length record
      the same set. Whatever order allocations and frees came in, equal live sets mean equal bytes. */
  lemma Canonical(t: Table, u: Table)
    requires WellFormed(t) && WellFormed(u) && |t| == |u| && Live(t) == Live(u)
    ensures t == u
  {
    forall i: nat | i < |t| ensures t[i] == u[i] {
      SameByte(t, u, i);
      SameByte(u, t, i);
    }
  }

  lemma SameByte(t: Table, u: Table, i: nat)
    requires WellFormed(t) && WellFormed(u) && |t| == |u| && Live(t) == Live(u) && i < |t|
    ensures !IsFree(t[i]) ==> t[i] == u[i]
  {
    if !IsFree(t[i]) {
      HeadOfTaken(t, i);
      var h := HeadOf(t, i);
      ChainBytes(t, h);
      assert h in Live(u);
      ChainBytes(u, h);
    }
  }

  lemma {:induction false} SameChainLen(t: Table, u: Table, s: nat)
    requires |t| == |u| && s < |t|
    requires forall i | s <= i < s + ChainLen(t, s) :: HasNext(t[i]) <==> HasNext(u[i])
    ensures ChainLen(u, s) == ChainLen(t, s)
    decreases |t| - s
  {
    if HasNext(t[s]) && s + 1 < |t| {
      SameChainLen(t, u, s + 1);
    }
  }

  // ---------------------------------------------------------------- first fit

  ghost predicate FreeRun(t: Table, s: int, n: nat) {
    0 <= s && s + n <= |t| && forall i | s <= i < s + n :: IsFree(t[i])
  }

  ghost predicate CanFit(t: Table, n: nat) {
    exists s :: FreeRun(t, s, n)
  }

  /** Start of the free blocks that end the table; the table's length when its last block is taken. */
  function TrailingRun(t: Table): (s: nat)
    ensures s <= |t|
    ensures forall i | s <= i < |t| :: IsFree(t[i])
    ensures s > 0 ==> !IsFree(t[s - 1])
  {
    if t == [] || !IsFree(t[|t| - 1]) then |t| else TrailingRun(t[..|t| - 1])
  }

  /** The lowest start of `n` free blocks at or after `from`, or -1. */
  function FirstRun(t: Table, n: nat, from: nat): (s: int)
    ensures s == -1 || (from <= s && FreeRun(t, s, n))
    ensures forall r | from <= r && (s == -1 || r < s) :: !FreeRun(t, r, n)
    decreases |t| - from
  {
    if from + n > |t| then -1
    else if forall i | from <= i < from + n :: IsFree(t[i]) then from
    else if from == |t| then -1
    else FirstRun(t, n, from + 1)
  }

  /** What the search returns, including its answer when nothing fits: the error only if the last block
      is taken, otherwise the start of a trailing run that is too short. */
  function StartBlock(t: Table, n: nat): int {
    if n >= 1 && FirstRun(t, n, 0) >= 0 then FirstRun(t, n, 0)
    else if TrailingRun(t) == |t| then -ENOMEM
    else TrailingRun(t)
  }

  /** First fit is exact. */
  lemma FirstFitExact(t: Table, n: nat)
    requires n >= 1
    ensures CanFit(t, n) ==>
              FreeRun(t, StartBlock(t, n), n) && forall r | 0 <= r < StartBlock(t, n) :: !FreeRun(t, r, n)
    ensures !CanFit(t, n) && (t == [] || !IsFree(t[|t| - 1])) ==> StartBlock(t, n) == -ENOMEM
    ensures !CanFit(t, n) && t != [] && IsFree(t[|t| - 1]) ==>
              && 0 <= StartBlock(t, n) < |t| < StartBlock(t, n) + n
              && FreeRun(t, StartBlock(t, n), |t| - StartBlock(t, n))
              && (StartBlock(t, n) > 0 ==> !IsFree(t[StartBlock(t, n) - 1]))
  {
    var s := FirstRun(t, n, 0);
    if CanFit(t, n) {
      var r :| FreeRun(t, r, n);
      assert s != -1;
    } else {
      assert s == -1;
      var q := TrailingRun(t);
      if q + n <= |t| {
        assert FreeRun(t, q, n);
      }
    }
  }

  /** The requests the allocator answers inside its table. */
  ghost predicate Safe(t: Table, n: nat) {
    n == 0 || CanFit(t, n) || t == [] || !IsFree(t[|t| - 1])
  }

  /** Marking stays inside the table exactly for the safe requests. */
  lemma SafeExact(t: Table, n: nat)
    ensures Safe(t, n) <==> StartBlock(t, n) < 0 || StartBlock(t, n) + n <= |t|
  {
    if n >= 1 { FirstFitExact(t, n); }
  }

  /** Two blocks asked of a pool of one: the search answers the start of the pool, though one block is all
      there is. */
  lemma ShortTailIsGranted()
    ensures WellFormed([FREE]) && StartBlock([FREE], 2) == 0 && !Safe([FREE], 2)
  {
    assert Legal(FREE) && !IsInner(FREE) && !HasNext(FREE);
    FirstFitExact([FREE], 2);
  }

  /** A request for one block is always safe. */
  lemma SafeOne(t: Table)
    ensures Safe(t, 1)
  {
    if t != [] && IsFree(t[|t| - 1]) {
      assert FreeRun(t, |t| - 1, 1);
    }
  }

  // ---------------------------------------------------------------- marking and freeing

  /** The table with blocks `s .. s + n` turned into one chain. */
  function MarkTaken(t: Table, s: nat, n: nat): (u: Table)
    requires s + n <= |t|
    ensures |u| == |t|
    ensures forall i | 0 <= i < |t| :: u[i] == if s <= i < s + n then ChainByte(i - s, n) else t[i]
  {
    seq(|t|, i requires 0 <= i < |t| => if s <= i < s + n then ChainByte(i - s, n) else t[i])
  }

  /** The table after following HAS_NEXT from `s` and clearing each byte on the way. */
  function FreeChain(t: Table, s: nat): (u: Table)
    ensures |u| == |t| && (s >= |t| ==> u == t)
    decreases |t| - s
  {
    if s >= |t| then t
    else if HasNext(t[s]) then FreeChain(t[s := FREE], s + 1)
    else t[s := FREE]
  }

  /** `heap_malloc_blocks` on a table: the new table and the start block, negative for failure. */
  function MallocBlocks(t: Table, n: nat): (r: (Table, int))
    requires Safe(t, n)
    ensures |r.0| == |t|
    ensures r.1 < 0 ==> r.1 == -ENOMEM
    ensures r.1 >= 0 ==> r.1 < |t| && r.1 + n <= |t|
  {
    SafeExact(t, n);
    var s := StartBlock(t, n);
    if s < 0 then (t, s) else (MarkTaken(t, s, n), s)
  }

  lemma {:induction false} FreeChainClears(t: Table, s: nat)
    requires s < |t|
    ensures forall i | 0 <= i < |t| ::
              FreeChain(t, s)[i] == if s <= i < s + ChainLen(t, s) then FREE else t[i]
    decreases |t| - s
  {
    if HasNext(t[s]) && s + 1 < |t| {
      var u := t[s := FREE];
      SameChainLen(t, u, s + 1);
      FreeChainClears(u, s + 1);
    }
  }

  /** A chain none of whose blocks change keeps its length. */
  lemma ChainKept(t: Table, u: Table, r: nat)
    requires WellFormed(t) && |t| == |u| && r in Live(t)
    requires forall i | r <= i < r + Live(t)[r] :: u[i] == t[i]
    ensures r in Live(u) && Live(u)[r] == Live(t)[r]
  {
    SameChainLen(t, u, r);
  }

  /** Allocating adds exactly one live chain and changes no other. */
  lemma MarkTakenLive(t: Table, s: nat, n: nat)
    requires WellFormed(t) && FreeRun(t, s, n) && n >= 1
    ensures WellFormed(MarkTaken(t, s, n))
    ensures s !in Live(t)
    ensures Live(MarkTaken(t, s, n)) == Live(t)[s := n]
  {
    var u := MarkTaken(t, s, n);
    MarkTakenWellFormed(t, s, n);
    NewChainLen(u, s, n, 0);
    assert !IsFirst(t[s]) by { assert IsFree(t[s]) && Legal(t[s]); }
    forall r | r in Live(t) ensures r in Live(u) && Live(u)[r] == Live(t)[r] {
      MarkTakenKeeps(t, s, n, r);
    }
    LiveWith(t, u, s, n);
  }

  lemma LiveWith(t: Table, u: Table, s: nat, n: nat)
    requires |u| == |t| && s + n <= |t| && n >= 1
    requires forall i | 0 <= i < |t| :: u[i] == if s <= i < s + n then ChainByte(i - s, n) else t[i]
    requires s !in Live(t) && ChainLen(u, s) == n
    requires forall r | r in Live(t) :: r in Live(u) && Live(u)[r] == Live(t)[r]
    ensures Live(u) == Live(t)[s := n]
  {
    hide ChainLen, IsFree, HasNext;
    forall r: nat ensures r in Live(u) <==> r == s || r in Live(t) {}
  }

  lemma MarkTakenKeeps(t: Table, s: nat, n: nat, r: nat)
    requires WellFormed(t) && FreeRun(t, s, n) && n >= 1 && r in Live(t)
    ensures r in Live(MarkTaken(t, s, n)) && Live(MarkTaken(t, s, n))[r] == Live(t)[r]
  {
    ChainShape(t, r);
    assert IsFirst(t[r]);
    ChainKept(t, MarkTaken(t, s, n), r);
  }

  lemma MarkTakenWellFormed(t: Table, s: nat, n: nat)
    requires WellFormed(t) && FreeRun(t, s, n) && n >= 1
    ensures WellFormed(MarkTaken(t, s, n))
  {
    var u := MarkTaken(t, s, n);
    forall i | 0 <= i < |u| ensures Legal(u[i]) {}
    forall i, j | 0 <= i < j < |u| && j == i + 1 ensures HasNext(u[i]) <==> IsInner(u[j]) {
      assert HasNext(t[i]) <==> IsInner(t[j]);
    }
  }

  lemma {:induction false} NewChainLen(u: Table, s: nat, n: nat, k: nat)
    requires k < n && s + n <= |u|
    requires forall i | s <= i < s + n :: u[i] == ChainByte(i - s, n)
    ensures ChainLen(u, s + k) == n - k
    decreases n - k
  {
    if k + 1 < n { NewChainLen(u, s, n, k + 1); }
  }

  lemma FreeChainKeeps(t: Table, s: nat, r: nat)
    requires WellFormed(t) && s in Live(t) && r in Live(t) && r != s
    ensures r in Live(FreeChain(t, s)) && Live(FreeChain(t, s))[r] == Live(t)[r]
  {
    FreeChainClears(t, s);
    if r < s { ChainsDisjoint(t, r, s); } else { ChainsDisjoint(t, s, r); }
    ChainKept(t, FreeChain(t, s), r);
  }

  /** Freeing a live chain removes exactly that chain: its blocks become free, every other block keeps
      its byte, even where another chain is adjacent. */
  lemma FreeChainLive(t: Table, s: nat)
    requires WellFormed(t) && s in Live(t)
    ensures WellFormed(FreeChain(t, s))
    ensures Live(FreeChain(t, s)) == Live(t) - {s}
    ensures forall i | 0 <= i < |t| ::
              FreeChain(t, s)[i] == if s <= i < s + Live(t)[s] then FREE else t[i]
  {
    FreeChainClears(t, s);
    FreeChainWellFormed(t, s);
    forall r | r in Live(t) && r != s ensures r in Live(FreeChain(t, s)) && Live(FreeChain(t, s))[r] == Live(t)[r] {
      FreeChainKeeps(t, s, r);
    }
    LiveWithout(t, FreeChain(t, s), s);
  }

  lemma LiveWithout(t: Table, u: Table, s: nat)
    requires |u| == |t| && s < |t| && u[s] == FREE
    requires forall i | 0 <= i < |t| :: u[i] == t[i] || u[i] == FREE
    requires forall r | r in Live(t) && r != s :: r in Live(u) && Live(u)[r] == Live(t)[r]
    ensures Live(u) == Live(t) - {s}
  {
    assert !IsFirst(FREE);
  }

  lemma FreeChainWellFormed(t: Table, s: nat)
    requires WellFormed(t) && s in Live(t)
    ensures WellFormed(FreeChain(t, s))
  {
    FreeChainClears(t, s);
    assert Legal(FREE) && !HasNext(FREE) && !IsInner(FREE);
    hide HasNext, IsInner, IsFree, IsFirst, Legal, FreeChain;
    forall i, j | 0 <= i < j < |t| && j == i + 1
      ensures HasNext(FreeChain(t, s)[i]) <==> IsInner(FreeChain(t, s)[j])
    {
      ChainEnds(t, s, i);
    }
  }

  /** No chain is entered from the block before it, none runs on into the block after it. */
  lemma ChainEnds(t: Table, s: nat, i: nat)
    requires WellFormed(t) && s in Live(t) && i + 1 < |t|
    ensures HasNext(t[i]) <==> IsInner(t[i + 1])
    ensures i + 1 == s ==> !HasNext(t[i])
    ensures i + 1 == s + Live(t)[s] ==> !IsInner(t[i + 1])
  {
    ChainShape(t, s);
  }

  /** A request is granted if and only if a run of free blocks fits, and then adds one chain of exactly the
      requested length at the lowest such run. */
  lemma MallocBlocksLive(t: Table, n: nat)
    requires WellFormed(t) && n >= 1 && Safe(t, n)
    ensures MallocBlocks(t, n).1 < 0 <==> !CanFit(t, n)
    ensures MallocBlocks(t, n).1 < 0 ==> MallocBlocks(t, n).0 == t
    ensures MallocBlocks(t, n).1 >= 0 ==>
              && FreeRun(t, MallocBlocks(t, n).1, n)
              && (forall r | 0 <= r < MallocBlocks(t, n).1 :: !FreeRun(t, r, n))
              && WellFormed(MallocBlocks(t, n).0)
              && MallocBlocks(t, n).1 !in Live(t)
              && Live(MallocBlocks(t, n).0) == Live(t)[MallocBlocks(t, n).1 := n]
  {
    FirstFitExact(t, n);
    SafeExact(t, n);
    if StartBlock(t, n) >= 0 { MarkTakenLive(t, StartBlock(t, n), n); }
  }

  /** A request for no block takes none: it is answered with the start of the free blocks that end the table, and
      refused if the last block is taken. */
  lemma NothingIsGranted(t: Table)
    ensures Safe(t, 0) && MallocBlocks(t, 0).0 == t
    ensures t == [] || !IsFree(t[|t| - 1]) ==> MallocBlocks(t, 0).1 == -ENOMEM
    ensures t != [] && IsFree(t[|t| - 1]) ==>
              && 0 <= MallocBlocks(t, 0).1 < |t| && FreeRun(t, MallocBlocks(t, 0).1, |t| - MallocBlocks(t, 0).1)
              && (MallocBlocks(t, 0).1 > 0 ==> !IsFree(t[MallocBlocks(t, 0).1 - 1]))
  {
  }

  /** Freeing the most recent allocation restores the table bit for bit. */
  lemma FreeUndoesMalloc(t: Table, n: nat)
    requires WellFormed(t) && n >= 1 && Safe(t, n) && MallocBlocks(t, n).1 >= 0
    ensures FreeChain(MallocBlocks(t, n).0, MallocBlocks(t, n).1) == t
  {
    MallocBlocksLive(t, n);
    FreeUndoesMark(t, MallocBlocks(t, n).1, n);
  }

  lemma FreeUndoesMark(t: Table, s: nat, n: nat)
    requires WellFormed(t) && FreeRun(t, s, n) && n >= 1
    ensures FreeChain(MarkTaken(t, s, n), s) == t
  {
    hide Live, WellFormed;
    MarkTakenLive(t, s, n);
    FreeChainLive(MarkTaken(t, s, n), s);
    AddRemove(Live(t), s, n);
    Canonical(FreeChain(MarkTaken(t, s, n), s), t);
  }

  lemma AddRemove(l: map<nat, nat>, s: nat, n: nat)
    requires s !in l
    ensures l[s := n] - {s} == l
  {
  }
}
