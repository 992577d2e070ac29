/**
  Splitting text at separators: the meaning that strtok and peachos_parse_command are held to.
*/
module Splitting {
  import opened Words

  // ---------------------------------------------------------------- text in a buffer

  /** Number of bytes from position `p` up to the terminator, or up to the end of the buffer. */
  function TextLen(b: seq<Byte>, p: nat): (n: nat)
    ensures p <= |b| ==> p + n <= |b|
    ensures forall k | p <= k < p + n && k < |b| :: b[k] != 0
    ensures p + n < |b| ==> b[p + n] == 0
    decreases |b| - p
  {
    if p >= |b| || b[p] == 0 then 0 else 1 + TextLen(b, p + 1)
  }

  function Text(b: seq<Byte>, p: nat): (s: seq<Byte>)
    requires p <= |b|
    ensures 0 !in s
  {
    b[p..p + TextLen(b, p)]
  }

  predicate Terminated(b: seq<Byte>, p: nat) { p + TextLen(b, p) < |b| }

  lemma TextLenIs(b: seq<Byte>, p: nat, n: nat)
    requires p + n <= |b| && (forall k | p <= k < p + n :: b[k] != 0)
    requires p + n < |b| ==> b[p + n] == 0
    ensures TextLen(b, p) == n && Text(b, p) == b[p..p + n]
  {
  }

  /** The first `limit` bytes of a text, or all if it has no more. */
  function Cut(s: seq<Byte>, limit: nat): (r: seq<Byte>)
    ensures r <= s && |r| <= limit && (|r| < limit ==> r == s)
  {
    if |s| <= limit then s else s[..limit]
  }

  // ---------------------------------------------------------------- runs and tokens

  /** First position from `p` on that does not hold a separator. */
  function SkipTo(s: seq<Byte>, p: nat, d: seq<Byte>): (q: nat)
    requires p <= |s|
    ensures p <= q <= |s|
    ensures forall k | p <= k < q :: s[k] in d
    ensures q < |s| ==> s[q] !in d
    decreases |s| - p
  {
    if p < |s| && s[p] in d then SkipTo(s, p + 1, d) else p
  }

  /** First position from `p` on that holds a separator. */
  function RunEnd(s: seq<Byte>, p: nat, d: seq<Byte>): (e: nat)
    requires p <= |s|
    ensures p <= e <= |s|
    ensures forall k | p <= k < e :: s[k] !in d
    ensures e < |s| ==> s[e] in d
    decreases |s| - p
  {
    if p < |s| && s[p] !in d then RunEnd(s, p + 1, d) else p
  }

  datatype Run = Run(start: nat, end: nat)

  function Runs(s: seq<Byte>, p: nat, d: seq<Byte>): (rs: seq<Run>)
    requires p <= |s|
    ensures forall k | 0 <= k < |rs| :: p <= rs[k].start < rs[k].end <= |s|
    decreases |s| - p
  {
    var q := SkipTo(s, p, d);
    if q == |s| then [] else [Run(q, RunEnd(s, q, d))] + Runs(s, RunEnd(s, q, d), d)
  }

  function TokensFrom(s: seq<Byte>, p: nat, d: seq<Byte>): seq<seq<Byte>>
    requires p <= |s|
    decreases |s| - p
  {
    var q := SkipTo(s, p, d);
    if q == |s| then [] else [s[q..RunEnd(s, q, d)]] + TokensFrom(s, RunEnd(s, q, d), d)
  }

  function Tokens(s: seq<Byte>, d: seq<Byte>): seq<seq<Byte>> { TokensFrom(s, 0, d) }

  /** A stretch without separators that cannot be extended on either side. */
  ghost predicate MaximalRun(s: seq<Byte>, d: seq<Byte>, r: Run) {
    && r.start < r.end <= |s|
    && (forall k | r.start <= k < r.end :: s[k] !in d)
    && (r.start > 0 ==> s[r.start - 1] in d)
    && (r.end < |s| ==> s[r.end] in d)
  }

  /** Runs are looked for from the start of the text or from a position next to a separator. */
  predicate Between(s: seq<Byte>, p: nat, d: seq<Byte>) {
    p <= |s| && (0 < p < |s| ==> s[p] in d || s[p - 1] in d)
  }

  lemma {:induction false} RunsAreMaximal(s: seq<Byte>, p: nat, d: seq<Byte>, k: nat)
    requires Between(s, p, d) && k < |Runs(s, p, d)|
    ensures MaximalRun(s, d, Runs(s, p, d)[k])
    decreases |s| - p
  {
    var q := SkipTo(s, p, d);
    var e := RunEnd(s, q, d);
    if k > 0 { RunsAreMaximal(s, e, d, k - 1); }
  }

  lemma {:induction false} MaximalIsRun(s: seq<Byte>, p: nat, d: seq<Byte>, r: Run)
    requires Between(s, p, d) && MaximalRun(s, d, r) && p <= r.start
    ensures r in Runs(s, p, d)
    decreases |s| - p
  {
    var q := SkipTo(s, p, d);
    assert s[r.start] !in d && q <= r.start;
    var e := RunEnd(s, q, d);
    if r.start < e {
      assert r == Run(q, e);
    } else {
      MaximalIsRun(s, e, d, r);
    }
  }

  lemma {:induction false} RunsOrdered(s: seq<Byte>, p: nat, d: seq<Byte>, j: nat, k: nat)
    requires Between(s, p, d) && j < k < |Runs(s, p, d)|
    ensures Runs(s, p, d)[j].end < Runs(s, p, d)[k].start
    decreases |s| - p
  {
    var q := SkipTo(s, p, d);
    var e := RunEnd(s, q, d);
    var rest := Runs(s, e, d);
    assert Runs(s, p, d) == [Run(q, e)] + rest;
    hide Runs, SkipTo, RunEnd;
    if j > 0 {
      RunsOrdered(s, e, d, j - 1, k - 1);
    } else {
      RunsAreMaximal(s, e, d, k - 1);
      assert s[rest[k - 1].start] !in d;
    }
  }

  lemma {:induction false} TokensAreSlices(s: seq<Byte>, p: nat, d: seq<Byte>)
    requires p <= |s|
    ensures |TokensFrom(s, p, d)| == |Runs(s, p, d)|
    ensures forall k | 0 <= k < |Runs(s, p, d)| ::
              TokensFrom(s, p, d)[k] == s[Runs(s, p, d)[k].start..Runs(s, p, d)[k].end]
    decreases |s| - p
  {
    var q := SkipTo(s, p, d);
    if q < |s| { TokensAreSlices(s, RunEnd(s, q, d), d); }
  }

  /** The tokens of a text are its maximal runs of non-separators, all of them, in order of position. */
  lemma TokensAreMaximalRuns(s: seq<Byte>, d: seq<Byte>)
    ensures forall r: Run :: r in Runs(s, 0, d) <==> MaximalRun(s, d, r)
    ensures forall j, k | 0 <= j < k < |Runs(s, 0, d)| :: Runs(s, 0, d)[j].end < Runs(s, 0, d)[k].start
    ensures |Tokens(s, d)| == |Runs(s, 0, d)|
    ensures forall k | 0 <= k < |Runs(s, 0, d)| ::
              Tokens(s, d)[k] == s[Runs(s, 0, d)[k].start..Runs(s, 0, d)[k].end]
  {
    hide Runs, TokensFrom, MaximalRun;
    TokensAreSlices(s, 0, d);
    var rs := Runs(s, 0, d);
    forall r: Run ensures r in rs <==> MaximalRun(s, d, r) {
      if r in rs {
        var k :| 0 <= k < |rs| && rs[k] == r;
        RunsAreMaximal(s, 0, d, k);
      }
      if MaximalRun(s, d, r) { MaximalIsRun(s, 0, d, r); }
    }
    forall j, k | 0 <= j < k < |rs| ensures rs[j].end < rs[k].start {
      RunsOrdered(s, 0, d, j, k);
    }
  }

  /** A separator at the front does not matter, nor does the text before the starting point. */
  lemma TokensOfSuffix(s: seq<Byte>, p: nat, d: seq<Byte>)
    requires p <= |s|
    ensures TokensFrom(s, p, d) == Tokens(s[p..], d)
  {
    SuffixFrom(s, p, 0, d);
  }

  lemma {:induction false} SuffixFrom(s: seq<Byte>, p: nat, k: nat, d: seq<Byte>)
    requires p + k <= |s|
    ensures TokensFrom(s, p + k, d) == TokensFrom(s[p..], k, d)
    decreases |s| - k
  {
    hide SkipTo, RunEnd;
    var t := s[p..];
    SkipSuffix(s, p, k, d);
    var q := SkipTo(t, k, d);
    if q < |t| {
      EndSuffix(s, p, q, d);
      var e := RunEnd(t, q, d);
      assert e > q by { assert t[q] !in d && (e < |t| ==> t[e] in d); }
      SuffixFrom(s, p, e, d);
      assert s[p + q..p + e] == t[q..e];
    }
  }

  lemma {:induction false} SkipSuffix(s: seq<Byte>, p: nat, k: nat, d: seq<Byte>)
    requires p + k <= |s|
    ensures SkipTo(s, p + k, d) == p + SkipTo(s[p..], k, d)
    decreases |s| - k
  {
    if p + k < |s| && s[p + k] in d { SkipSuffix(s, p, k + 1, d); }
  }

  lemma {:induction false} EndSuffix(s: seq<Byte>, p: nat, k: nat, d: seq<Byte>)
    requires p + k <= |s|
    ensures RunEnd(s, p + k, d) == p + RunEnd(s[p..], k, d)
    decreases |s| - k
  {
    if p + k < |s| && s[p + k] !in d { EndSuffix(s, p, k + 1, d); }
  }

  // ---------------------------------------------------------------- splitting undoes joining

  ghost predicate IsToken(t: seq<Byte>, d: seq<Byte>) { t != [] && forall k | 0 <= k < |t| :: t[k] !in d }

  function Join(ts: seq<seq<Byte>>, c: Byte): seq<Byte> {
    if ts == [] then [] else if |ts| == 1 then ts[0] else ts[0] + [c] + Join(ts[1..], c)
  }

  lemma RunEndIs(s: seq<Byte>, p: nat, d: seq<Byte>, e: nat)
    requires p <= e <= |s| && (forall k | p <= k < e :: s[k] !in d) && (e < |s| ==> s[e] in d)
    ensures RunEnd(s, p, d) == e
  {
  }

  lemma TokenAlone(t: seq<Byte>, d: seq<Byte>)
    requires IsToken(t, d)
    ensures Tokens(t, d) == [t]
  {
    RunEndIs(t, 0, d, |t|);
    assert t[0] !in d && t[0..|t|] == t && TokensFrom(t, |t|, d) == [];
  }

  lemma TokenInFront(t: seq<Byte>, c: Byte, u: seq<Byte>, d: seq<Byte>)
    requires IsToken(t, d) && c in d
    ensures Tokens(t + [c] + u, d) == [t] + Tokens(u, d)
  {
    var s, n := t + [c] + u, |t|;
    assert forall k | 0 <= k < n :: s[k] == t[k];
    RunEndIs(s, 0, d, n);
    assert s[0..n] == t && s[n] == c && s[n + 1..] == u;
    assert Tokens(s, d) == [t] + TokensFrom(s, n, d);
    assert TokensFrom(s, n, d) == TokensFrom(s, n + 1, d) by { assert SkipTo(s, n, d) == SkipTo(s, n + 1, d); }
    hide TokensFrom;
    TokensOfSuffix(s, n + 1, d);
  }

  /** Words written with a separator between them come back as they were. */
  lemma {:induction false} SplitUndoesJoin(ts: seq<seq<Byte>>, c: Byte, d: seq<Byte>)
    requires c in d && forall k | 0 <= k < |ts| :: IsToken(ts[k], d)
    ensures Tokens(Join(ts, c), d) == ts
  {
    if |ts| == 1 {
      TokenAlone(ts[0], d);
      assert ts == [ts[0]];
    } else if |ts| > 1 {
      SplitUndoesJoin(ts[1..], c, d);
      TokenInFront(ts[0], c, Join(ts[1..], c), d);
      assert ts == [ts[0]] + ts[1..];
    }
  }
}
