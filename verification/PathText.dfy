/**
  What a path means: a drive digit, `:/`, and parts between slashes. The parser of pparser.c is held to this.
*/
module PathText {
  import opened Words
  import opened Splitting

  const MAX_PATH := 108
  const ZERO: Byte := 48
  const COLON: Byte := 58
  const SLASH: Byte := 47

  /** Where the part that starts at `p` ends, and where the one after it starts. */
  function PartEnd(s: seq<Byte>, p: nat): (e: nat)
    requires p <= |s|
    ensures p <= e <= |s|
  {
    RunEnd(s, p, [SLASH])
  }

  function AfterPart(s: seq<Byte>, p: nat): (q: nat)
    requires p <= |s|
    ensures p <= q <= |s|
    ensures p < PartEnd(s, p) ==> p < q
  {
    if PartEnd(s, p) < |s| then PartEnd(s, p) + 1 else PartEnd(s, p)
  }

  /** The parts the parser collects: it stops at the first empty one. */
  function Components(s: seq<Byte>, p: nat): seq<seq<Byte>>
    requires p <= |s|
    decreases |s| - p
  {
    if PartEnd(s, p) == p then [] else [s[p..PartEnd(s, p)]] + Components(s, AfterPart(s, p))
  }

  predicate ValidFormat(path: seq<Byte>) {
    |path| >= 3 && ZERO <= path[0] <= ZERO + 9 && path[1] == COLON && path[2] == SLASH
  }

  datatype Parsed = BadPath | Parsed(drive: nat, parts: seq<seq<Byte>>)

  function ParsePath(path: seq<Byte>): Parsed {
    if |path| > MAX_PATH || !ValidFormat(path) then BadPath
    else Parsed(path[0] - ZERO, Components(path, 3))
  }

  // ---------------------------------------------------------------- the parts, independently

  /** All that stands between slashes, empty pieces included. */
  function Pieces(s: seq<Byte>): (ps: seq<seq<Byte>>)
    ensures ps != []
    decreases |s|
  {
    var e := PartEnd(s, 0);
    if e == |s| then [s] else [s[..e]] + Pieces(s[e + 1..])
  }

  predicate SlashFree(ps: seq<seq<Byte>>) { forall k | 0 <= k < |ps| :: SLASH !in ps[k] }

  /** `Pieces` undoes joining with slashes. */
  lemma {:induction false} PiecesOfJoin(ps: seq<seq<Byte>>)
    requires ps != [] && SlashFree(ps)
    ensures Pieces(Join(ps, SLASH)) == ps
  {
    var s, n := Join(ps, SLASH), |ps[0]|;
    assert forall k | 0 <= k < n :: s[k] == ps[0][k];
    RunEndIs(s, 0, [SLASH], n);
    if |ps| > 1 {
      assert s[..n] == ps[0] && s[n + 1..] == Join(ps[1..], SLASH);
      PiecesOfJoin(ps[1..]);
    }
  }

  /** Joining with slashes undoes `Pieces`. */
  lemma {:induction false} JoinOfPieces(s: seq<Byte>)
    ensures Join(Pieces(s), SLASH) == s && SlashFree(Pieces(s))
    decreases |s|
  {
    var e := PartEnd(s, 0);
    if e < |s| {
      JoinOfPieces(s[e + 1..]);
      assert Pieces(s)[1..] == Pieces(s[e + 1..]);
    }
  }

  function UntilEmpty(ps: seq<seq<Byte>>): seq<seq<Byte>> {
    if ps == [] || ps[0] == [] then [] else [ps[0]] + UntilEmpty(ps[1..])
  }

  lemma {:induction false} ComponentsOfSuffix(s: seq<Byte>, p: nat, k: nat)
    requires p + k <= |s|
    ensures Components(s, p + k) == Components(s[p..], k)
    decreases |s| - k
  {
    var t := s[p..];
    EndSuffix(s, p, k, [SLASH]);
    var e := PartEnd(t, k);
    if e > k {
      ComponentsOfSuffix(s, p, AfterPart(t, k));
      assert s[p + k..p + e] == t[k..e];
    }
  }

  /** The parts collected are the pieces before the first empty one. */
  lemma {:induction false} ComponentsArePieces(s: seq<Byte>)
    ensures Components(s, 0) == UntilEmpty(Pieces(s))
    decreases |s|
  {
    var e := PartEnd(s, 0);
    if e == |s| {
      assert Pieces(s)[1..] == [] && s[0..e] == s;
    } else {
      ComponentsArePieces(s[e + 1..]);
      ComponentsOfSuffix(s, e + 1, 0);
      assert Pieces(s)[1..] == Pieces(s[e + 1..]);
    }
  }

  // ---------------------------------------------------------------- printing

  /** Parts that can be written in a path. */
  predicate Printable(ps: seq<seq<Byte>>) { forall k | 0 <= k < |ps| :: ps[k] != [] && SLASH !in ps[k] }

  function Print(drive: nat, ps: seq<seq<Byte>>): seq<Byte>
    requires drive <= 9
  {
    [ZERO + drive, COLON, SLASH] + Join(ps, SLASH)
  }

  lemma {:induction false} NothingEmpty(ps: seq<seq<Byte>>)
    requires Printable(ps)
    ensures UntilEmpty(ps) == ps
  {
    if ps != [] { NothingEmpty(ps[1..]); }
  }

  /** Parsing undoes printing, for every path of at most 108 characters. */
  lemma ParseUndoesPrint(drive: nat, ps: seq<seq<Byte>>)
    requires drive <= 9 && Printable(ps) && |Print(drive, ps)| <= MAX_PATH
    ensures ParsePath(Print(drive, ps)) == Parsed(drive, ps)
  {
    var path := Print(drive, ps);
    assert path[3..] == Join(ps, SLASH);
    ComponentsOfSuffix(path, 3, 0);
    ComponentsArePieces(path[3..]);
    if ps != [] {
      PiecesOfJoin(ps);
      NothingEmpty(ps);
    }
  }

  /** A text is a path exactly if it has at most 108 characters and starts with a digit, a colon and a slash. */
  lemma AcceptedPaths(path: seq<Byte>)
    ensures ParsePath(path).Parsed? <==>
            |path| <= 108 && |path| >= 3 && 48 <= path[0] <= 57 && path[1] == 58 && path[2] == 47
    ensures ParsePath(path).Parsed? ==>
              ParsePath(path).drive == path[0] - 48 && ParsePath(path).parts == UntilEmpty(Pieces(path[3..]))
  {
    if ParsePath(path).Parsed? {
      ComponentsOfSuffix(path, 3, 0);
      ComponentsArePieces(path[3..]);
    }
  }

  lemma {:induction false} UntilFirstEmpty(ps: seq<seq<Byte>>, qs: seq<seq<Byte>>)
    requires Printable(ps)
    ensures UntilEmpty(ps + [[]] + qs) == ps
  {
    if ps != [] {
      assert (ps + [[]] + qs)[1..] == ps[1..] + [[]] + qs;
      UntilFirstEmpty(ps[1..], qs);
    }
  }

  /** An empty piece ends the path: nothing behind it counts, and a slash at the end is ignored. */
  lemma EmptyPieceEnds(drive: nat, ps: seq<seq<Byte>>, qs: seq<seq<Byte>>)
    requires drive <= 9 && Printable(ps) && SlashFree(qs)
    requires |Join(ps + [[]] + qs, SLASH)| + 3 <= 108
    ensures ParsePath([48 + drive, 58, 47] + Join(ps + [[]] + qs, SLASH)) == Parsed(drive, ps)
  {
    var path := [48 + drive, 58, 47] + Join(ps + [[]] + qs, SLASH);
    assert path[3..] == Join(ps + [[]] + qs, SLASH);
    AcceptedPaths(path);
    PiecesOfJoin(ps + [[]] + qs);
    UntilFirstEmpty(ps, qs);
  }

  lemma {:induction false} UntilEmptyPrefix(ps: seq<seq<Byte>>)
    requires SlashFree(ps)
    ensures UntilEmpty(ps) <= ps && Printable(UntilEmpty(ps))
    ensures |UntilEmpty(ps)| < |ps| ==> ps[|UntilEmpty(ps)|] == []
  {
    if ps != [] && ps[0] != [] {
      UntilEmptyPrefix(ps[1..]);
      assert ps == [ps[0]] + ps[1..];
    }
  }

  /** The parts of any path: printable, and the pieces of its text up to an empty piece or the end. */
  lemma PartsOfPath(path: seq<Byte>)
    requires ParsePath(path).Parsed?
    ensures var Parsed(drive, parts) := ParsePath(path);
            var ps := Pieces(path[3..]);
            && path == [ZERO + drive, COLON, SLASH] + Join(ps, SLASH) && SlashFree(ps)
            && parts <= ps && Printable(parts)
            && (|parts| < |ps| ==> ps[|parts|] == [])
  {
    var ps := Pieces(path[3..]);
    JoinOfPieces(path[3..]);
    ComponentsOfSuffix(path, 3, 0);
    ComponentsArePieces(path[3..]);
    UntilEmptyPrefix(ps);
    assert path == path[..3] + path[3..];
  }
}
