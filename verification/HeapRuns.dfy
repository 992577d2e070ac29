/**
  Runs of the heap: batches of single-block allocations and frees, and arbitrary interleavings.

  The abstract heap is a set of disjoint block intervals. Every run of the table refines it, and a run
  that ends with the intervals it started with ends with the very bytes it started with.
*/
module HeapRuns {
  import opened Words
  import opened HeapTable

  // ---------------------------------------------------------------- counting free blocks

  function FreeCount(t: Table): (n: nat)
    ensures n <= |t|
  {
    if t == [] then 0 else FreeCount(t[..|t| - 1]) + (if IsFree(t[|t| - 1]) then 1 else 0)
  }

  lemma {:induction false} FreeCountIs(t: Table)
    ensures FreeCount(t) == |set i | 0 <= i < |t| && IsFree(t[i])|
  {
    if t != [] {
      var n := |t| - 1;
      FreeCountIs(t[..n]);
      var front := set i | 0 <= i < n && IsFree(t[..n][i]);
      assert (set i | 0 <= i < |t| && IsFree(t[i])) == if IsFree(t[n]) then front + {n} else front;
    }
  }

  lemma {:induction false} FreeCountUpdate(t: Table, s: nat, e: bv8)
    requires s < |t| && IsFree(t[s]) && !IsFree(e)
    ensures FreeCount(t[s := e]) == FreeCount(t) - 1
  {
    var u := t[s := e];
    if s == |t| - 1 {
      assert u[..|t| - 1] == t[..|t| - 1];
    } else {
      assert u[..|t| - 1] == t[..|t| - 1][s := e];
      FreeCountUpdate(t[..|t| - 1], s, e);
    }
  }

  lemma {:induction false} FreeBlockExists(t: Table)
    requires FreeCount(t) > 0
    ensures CanFit(t, 1)
  {
    if IsFree(t[|t| - 1]) {
      assert FreeRun(t, |t| - 1, 1);
    } else {
      FreeBlockExists(t[..|t| - 1]);
      var s :| FreeRun(t[..|t| - 1], s, 1);
      assert t[s] == t[..|t| - 1][s];
      assert FreeRun(t, s, 1);
    }
  }

  // ---------------------------------------------------------------- batches of single blocks

  /** The table and the blocks handed out by `k` successive one-block allocations. */
  function TakeAll(t: Table, k: nat): (r: (Table, seq<nat>))
    requires FreeCount(t) >= k
    ensures |r.0| == |t| && |r.1| == k
    ensures FreeCount(r.0) == FreeCount(t) - k
    ensures forall i | 0 <= i < k :: r.1[i] < |t|
  {
    if k == 0 then (t, [])
    else
      var (t0, ss) := TakeAll(t, k - 1);
      FreeBlockExists(t0);
      FirstFitExact(t0, 1);
      var s := StartBlock(t0, 1);
      assert MarkTaken(t0, s, 1) == t0[s := ChainByte(0, 1)];
      FreeCountUpdate(t0, s, ChainByte(0, 1));
      (MarkTaken(t0, s, 1), ss + [s])
  }

  lemma TakeNext(t: Table, k: nat)
    requires WellFormed(t) && k < FreeCount(t)
    ensures Safe(TakeAll(t, k).0, 1)
    ensures MallocBlocks(TakeAll(t, k).0, 1) == (TakeAll(t, k + 1).0, TakeAll(t, k + 1).1[k])
  {
    hide StartBlock, MarkTaken, MallocBlocks, FreeCount, Safe, WellFormed, Live;
    TakeAllLive(t, k);
    TakeOne(TakeAll(t, k).0);
  }

  lemma TakePrefix(t: Table, n: nat)
    requires FreeCount(t) >= n + 1
    ensures forall i | 0 <= i < n :: TakeAll(t, n + 1).1[i] == TakeAll(t, n).1[i]
  {
    hide FreeCount, StartBlock, MarkTaken;
  }

  /** The `k`-th allocation of a batch of `n` is the `k`-th block the batch hands out. */
  lemma {:induction false} TakeStep(t: Table, k: nat, n: nat)
    requires WellFormed(t) && k < n <= FreeCount(t)
    ensures Safe(TakeAll(t, k).0, 1)
    ensures MallocBlocks(TakeAll(t, k).0, 1) == (TakeAll(t, k + 1).0, TakeAll(t, n).1[k])
    decreases n
  {
    hide TakeAll, MallocBlocks, FreeCount, Safe;
    if k + 1 == n {
      TakeNext(t, k);
    } else {
      TakeStep(t, k, n - 1);
      TakePrefix(t, n - 1);
    }
  }

  function Singles(ss: seq<nat>): map<nat, nat> {
    map s | s in ss :: 1
  }

  lemma SinglesSnoc(l: map<nat, nat>, ss: seq<nat>, s: nat)
    ensures l + Singles(ss + [s]) == (l + Singles(ss))[s := 1]
  {
    assert Singles(ss + [s]).Keys == Singles(ss).Keys + {s};
  }

  /** One block, when one is free: the lowest free block becomes a chain of its own. */
  lemma TakeOne(t: Table)
    requires WellFormed(t) && FreeCount(t) > 0
    ensures 0 <= StartBlock(t, 1) < |t| && IsFree(t[StartBlock(t, 1)]) && StartBlock(t, 1) !in Live(t)
    ensures Safe(t, 1) && MallocBlocks(t, 1) == (MarkTaken(t, StartBlock(t, 1), 1), StartBlock(t, 1))
    ensures WellFormed(MarkTaken(t, StartBlock(t, 1), 1))
    ensures Live(MarkTaken(t, StartBlock(t, 1), 1)) == Live(t)[StartBlock(t, 1) := 1]
  {
    FreeBlockExists(t);
    FirstFitExact(t, 1);
    MarkTakenLive(t, StartBlock(t, 1), 1);
  }

  ghost predicate AllFree(t: Table, ss: seq<nat>) {
    forall i | 0 <= i < |ss| :: ss[i] < |t| && IsFree(t[ss[i]])
  }

  lemma AllFreeSnoc(t: Table, ss: seq<nat>, s: nat)
    requires AllFree(t, ss) && s < |t| && IsFree(t[s])
    ensures AllFree(t, ss + [s])
  {
  }

  lemma FreeNotLive(t: Table, ss: seq<nat>)
    requires WellFormed(t) && AllFree(t, ss)
    ensures forall s | s in ss :: s !in Live(t)
  {
    forall s | s in ss ensures s !in Live(t) { assert Legal(t[s]); }
  }

  lemma AddedChains(t: Table, u: Table, ss: seq<nat>)
    requires WellFormed(t) && AllFree(t, ss) && Live(u) == Live(t) + Singles(ss)
    ensures forall r | r in Live(t) :: r in Live(u) && Live(u)[r] == Live(t)[r]
    ensures forall s | s in ss :: s in Live(u)
  {
    FreeNotLive(t, ss);
    forall s | s in ss ensures s in Live(u) { assert s in Singles(ss); }
    forall r | r in Live(t) ensures r in Live(u) && Live(u)[r] == Live(t)[r] {
      assert r !in Singles(ss);
    }
  }

  /** A block free in a table with more live chains was free in the one with fewer. */
  lemma TakenStaysTaken(t: Table, u: Table, s: nat)
    requires WellFormed(t) && WellFormed(u) && |t| == |u| && s < |t| && IsFree(u[s])
    requires forall r | r in Live(t) :: r in Live(u) && Live(u)[r] == Live(t)[r]
    ensures IsFree(t[s]) && s !in Live(t)
  {
    if !IsFree(t[s]) {
      HeadOfTaken(t, s);
      var h := HeadOf(t, s);
      Partition(u, s, h);
    }
    assert Legal(t[s]);
  }

  /** `u` is `t` with one-block chains added at the distinct, formerly free blocks `ss`. */
  ghost predicate Batch(t: Table, u: Table, ss: seq<nat>) {
    && WellFormed(u) && |u| == |t|
    && Distinct(ss) && AllFree(t, ss)
    && Live(u) == Live(t) + Singles(ss)
  }

  lemma BatchSnoc(t: Table, u: Table, ss: seq<nat>)
    requires WellFormed(t) && Batch(t, u, ss) && FreeCount(u) > 0
    ensures 0 <= StartBlock(u, 1) < |u|
    ensures Batch(t, MarkTaken(u, StartBlock(u, 1), 1), ss + [StartBlock(u, 1)])
  {
    TakeOne(u);
    var s := StartBlock(u, 1);
    assert s !in ss && s < |t| && IsFree(t[s]) by {
      AddedChains(t, u, ss);
      TakenStaysTaken(t, u, s);
    }
    AllFreeSnoc(t, ss, s);
    SinglesSnoc(Live(t), ss, s);
  }

  /** A batch hands out distinct blocks that were free, and adds exactly them to the live chains. */
  lemma {:induction false} TakeAllLive(t: Table, k: nat)
    requires WellFormed(t) && FreeCount(t) >= k
    ensures Batch(t, TakeAll(t, k).0, TakeAll(t, k).1)
  {
    if k == 0 {
      assert Live(t) + Singles([]) == Live(t);
    } else {
      TakeAllLive(t, k - 1);
      BatchSnoc(t, TakeAll(t, k - 1).0, TakeAll(t, k - 1).1);
    }
  }

  /** The table after freeing the chains that start at `ss`, in order. */
  function FreeAll(t: Table, ss: seq<nat>): (u: Table)
    ensures |u| == |t|
  {
    if ss == [] then t else FreeChain(FreeAll(t, ss[..|ss| - 1]), ss[|ss| - 1])
  }

  lemma {:induction false} FreeAllLive(t: Table, ss: seq<nat>)
    requires WellFormed(t) && Distinct(ss) && forall s | s in ss :: s in Live(t)
    ensures WellFormed(FreeAll(t, ss))
    ensures Live(FreeAll(t, ss)) == Live(t) - Elements(ss)
    decreases |ss|
  {
    if ss != [] {
      var ss', s := ss[..|ss| - 1], ss[|ss| - 1];
      FreeAllLive(t, ss');
      ElementsSnoc(Live(t), ss', s);
      assert ss == ss' + [s];
      assert s in ss && s !in ss';
      FreeChainLive(FreeAll(t, ss'), s);
    }
  }

  function Elements(ss: seq<nat>): set<nat> {
    set s | s in ss
  }

  lemma ElementsSnoc(l: map<nat, nat>, ss: seq<nat>, s: nat)
    ensures l - Elements(ss + [s]) == l - Elements(ss) - {s}
  {
  }

  /** Freeing what a batch handed out, in any order, restores the table bit for bit. */
  lemma FreeAllUndoesTakeAll(t: Table, k: nat, ss: seq<nat>)
    requires WellFormed(t) && FreeCount(t) >= k
    requires Distinct(ss) && Elements(ss) == Elements(TakeAll(t, k).1)
    ensures FreeAll(TakeAll(t, k).0, ss) == t
  {
    TakeAllLive(t, k);
    var (u, taken) := TakeAll(t, k);
    FreeNotLive(t, taken);
    forall s | s in ss ensures s in Live(u) {
      assert s in Elements(ss) && s in Singles(taken);
    }
    FreeAllLive(u, ss);
    TakenAway(Live(t), taken);
    Canonical(FreeAll(u, ss), t);
  }

  lemma TakenAway(l: map<nat, nat>, ss: seq<nat>)
    requires forall s | s in ss :: s !in l
    ensures l + Singles(ss) - Elements(ss) == l
  {
  }

  // ---------------------------------------------------------------- arbitrary interleavings

  datatype Op = Malloc(n: nat) | Free(s: nat)

  /** What the allocator asks of its callers. */
  ghost predicate Allowed(t: Table, op: Op) {
    match op
    case Malloc(n) => n >= 1 && Safe(t, n)
    case Free(s) => s in Live(t)
  }

  ghost function Step(t: Table, op: Op): Table
    requires Allowed(t, op)
  {
    match op
    case Malloc(n) => MallocBlocks(t, n).0
    case Free(s) => FreeChain(t, s)
  }

  /** One step of the abstract heap: grant the lowest interval disjoint from the live ones, refuse if there is none,
      or drop a live interval. */
  ghost predicate AbstractStep(size: nat, l: map<nat, nat>, op: Op, l': map<nat, nat>) {
    match op
    case Malloc(n) =>
      if s: nat :| IsLowest(size, l, s, n) then l' == l[s := n]
      else l' == l
    case Free(s) => s in l && l' == l - {s}
  }

  /** The interval lies in the heap beside the live ones ... */
  ghost predicate FitsBeside(size: nat, l: map<nat, nat>, s: nat, n: nat) {
    s + n <= size && forall r | r in l :: r + l[r] <= s || s + n <= r
  }

  /** ... and no lower one does. */
  ghost predicate IsLowest(size: nat, l: map<nat, nat>, s: nat, n: nat) {
    FitsBeside(size, l, s, n) && forall r: nat | r < s :: !FitsBeside(size, l, r, n)
  }

  ghost predicate AllowedRun(t: Table, ops: seq<Op>)
    decreases |ops|
  {
    ops == [] || (Allowed(t, ops[0]) && AllowedRun(Step(t, ops[0]), ops[1..]))
  }

  ghost function Run(t: Table, ops: seq<Op>): Table
    requires AllowedRun(t, ops)
    decreases |ops|
  {
    if ops == [] then t else Run(Step(t, ops[0]), ops[1..])
  }

  /** Runs of free blocks are the intervals beside the live ones. */
  lemma FreeIsBeside(t: Table, s: nat, n: nat)
    requires WellFormed(t) && n >= 1
    ensures FreeRun(t, s, n) <==> FitsBeside(|t|, Live(t), s, n)
  {
    hide Live, WellFormed, IsFree;
    if FreeRun(t, s, n) {
      forall r | r in Live(t) ensures r + Live(t)[r] <= s || s + n <= r {
        if s <= r < s + n { ChainStart(t, r); BlockIn(t, r, r); }
        if r < s < r + Live(t)[r] { BlockIn(t, r, s); }
      }
    }
    if FitsBeside(|t|, Live(t), s, n) {
      forall i | s <= i < s + n ensures IsFree(t[i]) {
        if !IsFree(t[i]) { HeadOfTaken(t, i); }
      }
    }
  }

  lemma ChainStart(t: Table, r: nat)
    requires r in Live(t)
    ensures r < |t| && Live(t)[r] >= 1
  {
  }

  lemma LowestIs(t: Table, s: nat, n: nat)
    requires WellFormed(t) && n >= 1
    ensures IsLowest(|t|, Live(t), s, n) <==> FreeRun(t, s, n) && forall r | 0 <= r < s :: !FreeRun(t, r, n)
  {
    hide Live, WellFormed, FreeRun, FitsBeside;
    FreeIsBeside(t, s, n);
    forall r: nat | r < s ensures FreeRun(t, r, n) <==> FitsBeside(|t|, Live(t), r, n) { FreeIsBeside(t, r, n); }
  }

  /** A run is its calls, one after the other. */
  lemma {:induction false} RunSnoc(t: Table, ops: seq<Op>, op: Op)
    requires AllowedRun(t, ops) && Allowed(Run(t, ops), op)
    ensures AllowedRun(t, ops + [op]) && Run(t, ops + [op]) == Step(Run(t, ops), op)
    decreases |ops|
  {
    var all := ops + [op];
    if ops == [] {
      assert all[1..] == [];
    } else {
      assert all[1..] == ops[1..] + [op];
      RunSnoc(Step(t, ops[0]), ops[1..], op);
    }
  }

  lemma StepRefines(t: Table, op: Op)
    requires WellFormed(t) && Allowed(t, op)
    ensures WellFormed(Step(t, op)) && |Step(t, op)| == |t|
    ensures AbstractStep(|t|, Live(t), op, Live(Step(t, op)))
  {
    hide Live, WellFormed, FreeRun, IsLowest;
    match op
    case Malloc(n) =>
      MallocBlocksLive(t, n);
      forall s: nat | IsLowest(|t|, Live(t), s, n)
        ensures FreeRun(t, s, n) && MallocBlocks(t, n).1 == s
      {
        LowestIs(t, s, n);
        assert CanFit(t, n);
      }
      if MallocBlocks(t, n).1 >= 0 { LowestIs(t, MallocBlocks(t, n).1, n); }
    case Free(s) => FreeChainLive(t, s);
  }

  ghost predicate Refines(size: nat, l: map<nat, nat>, ops: seq<Op>, l': map<nat, nat>)
    decreases |ops|
  {
    if ops == [] then l' == l
    else exists m :: AbstractStep(size, l, ops[0], m) && Refines(size, m, ops[1..], l')
  }

  /** Every interleaving of allowed allocations and frees keeps the table well formed, and its live
      chains go through a run of the abstract interval heap. */
  lemma {:induction false} RunRefines(t: Table, ops: seq<Op>)
    requires WellFormed(t) && AllowedRun(t, ops)
    ensures WellFormed(Run(t, ops)) && |Run(t, ops)| == |t|
    ensures Refines(|t|, Live(t), ops, Live(Run(t, ops)))
    decreases |ops|
  {
    if ops != [] {
      StepRefines(t, ops[0]);
      RunRefines(Step(t, ops[0]), ops[1..]);
    }
  }

  /** Two runs from one table that leave the same intervals live leave the same bytes. */
  lemma RunsAgree(t: Table, ops: seq<Op>, ops': seq<Op>)
    requires WellFormed(t) && AllowedRun(t, ops) && AllowedRun(t, ops')
    requires Live(Run(t, ops)) == Live(Run(t, ops'))
    ensures Run(t, ops) == Run(t, ops')
  {
    RunRefines(t, ops);
    RunRefines(t, ops');
    Canonical(Run(t, ops), Run(t, ops'));
  }
}
