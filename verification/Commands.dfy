/**
  The user library's strtok, with its global cursor, and peachos_parse_command on top of it
  (programs/stdlib/src/string.c and programs/stdlib/src/peachos.c).
*/
module Commands {
  import opened Words
  import opened Splitting

  const SPACE: Byte := 32

  /** Size of the local command buffer, and of the text of one argument. */
  const COMMAND_SIZE := 1025
  const ARGUMENT_SIZE := 512

  /** A `char *`. */
  datatype Cursor = Null | At(buf: array<Byte>, pos: nat)

  // ---------------------------------------------------------------- strncpy

  /** `now` is `was` with `i` bytes of `text` and a terminator written over its front. */
  ghost predicate Copied(was: seq<Byte>, now: seq<Byte>, text: seq<Byte>, i: nat) {
    && i <= |text| && i < |was| == |now| && now[i] == 0
    && (forall k | 0 <= k < i :: now[k] == text[k])
    && (forall k | i < k < |was| :: now[k] == was[k])
  }

  lemma CopiedText(was: seq<Byte>, now: seq<Byte>, text: seq<Byte>, i: nat, limit: nat)
    requires Copied(was, now, text, i) && 0 !in text && i <= limit && (i == limit || i == |text|)
    ensures Terminated(now, 0) && Text(now, 0) == Cut(text, limit)
    ensures |Cut(text, limit)| == i && now[i + 1..] == was[i + 1..]
  {
    TextLenIs(now, 0, i);
    assert now[0..i] == text[..i];
  }

  /** Copies text up to its terminator, at most `count - 1` bytes of it, and terminates it. */
  method Strncpy(dest: array<Byte>, src: array<Byte>, from: nat, count: nat)
    requires 0 < count <= dest.Length && dest != src
    requires Terminated(src[..], from) || from + count - 1 <= src.Length
    modifies dest
    ensures var s := Cut(Text(src[..], from), count - 1);
            && Terminated(dest[..], 0) && Text(dest[..], 0) == s
            && |s| < dest.Length && dest[|s| + 1..] == old(dest[..])[|s| + 1..]
  {
    ghost var b, text, was := src[..], Text(src[..], from), dest[..];
    assert forall k | 0 <= k < |text| :: text[k] == b[from + k] != 0;
    assert from + |text| < |b| ==> b[from + |text|] == 0;
    hide Text, TextLen;
    var i := 0;
    while i < count - 1
      invariant i <= count - 1 && i <= |text|
      invariant forall k | 0 <= k < i :: dest[k] == text[k]
      invariant forall k | i <= k < dest.Length :: dest[k] == was[k]
    {
      if src[from + i] == 0 {
        break;
      }
      dest[i] := src[from + i];
      i := i + 1;
    }
    dest[i] := 0;
    assert Copied(was, dest[..], text, i);
    hide Copied, Cut;
    CopiedText(was, dest[..], text, i, count - 1);
  }

  // ---------------------------------------------------------------- strtok

  /** Where the next token of text `s` is, and where the search for the one after it starts. */
  datatype Found = Nothing | Found(start: nat, end: nat, next: nat)

  function NextToken(s: seq<Byte>, d: seq<Byte>): (f: Found)
    ensures f.Found? ==> f.start < f.end <= |s| && f.next == if f.end < |s| then f.end + 1 else |s|
  {
    var rs := Runs(s, 0, d);
    if rs == [] then Nothing
    else Found(rs[0].start, rs[0].end, if rs[0].end < |s| then rs[0].end + 1 else |s|)
  }

  /**
    What one search from position `base` of buffer `buf` does: `was` and `now` are the bytes before and after,
    `token` is the result and `sp` the cursor for the next search.
  */
  ghost predicate Scanned(buf: array<Byte>, base: nat, was: seq<Byte>, now: seq<Byte>, d: seq<Byte>,
                          token: Cursor, sp: Cursor)
    requires base <= |was|
  {
    match NextToken(Text(was, base), d)
    case Nothing => token.Null? && sp.Null? && now == was
    case Found(start, end, next) =>
      base + end < |was| && token == At(buf, base + start) && sp == At(buf, base + next) && now == was[base + end := 0]
  }

  lemma ScanEnds(buf: array<Byte>, base: nat, was: seq<Byte>, d: seq<Byte>)
    requires base <= |was| && SkipTo(Text(was, base), 0, d) == |Text(was, base)|
    ensures Scanned(buf, base, was, was, d, Null, Null)
  {
  }

  lemma NextTokenIs(s: seq<Byte>, d: seq<Byte>)
    ensures var q := SkipTo(s, 0, d);
            var e := RunEnd(s[q..], 0, d);
            NextToken(s, d) ==
            if q == |s| then Nothing else Found(q, q + e, q + if e < |s[q..]| then e + 1 else |s[q..]|)
  {
    EndSuffix(s, SkipTo(s, 0, d), 0, d);
  }

  /** Skipping separators and then looking for the end of what is left finds the next token. */
  lemma ScanFinds(buf: array<Byte>, base: nat, was: seq<Byte>, now: seq<Byte>, d: seq<Byte>, sp: Cursor)
    requires Terminated(was, base)
    requires var s := Text(was, base);
             var q := SkipTo(s, 0, d);
             && q < |s|
             && var s' := Text(was, base + q);
             var e := RunEnd(s', 0, d);
             && base + q + e < |was| && now == was[base + q + e := 0]
             && sp == At(buf, base + q + if e < |s'| then e + 1 else |s'|)
    ensures Scanned(buf, base, was, now, d, At(buf, base + SkipTo(Text(was, base), 0, d)), sp)
  {
    hide Text, TextLen, SkipTo, RunEnd, NextToken;
    var s := Text(was, base);
    TextOfRest(was, base, SkipTo(s, 0, d));
    NextTokenIs(s, d);
  }

  /** The inner loop of both scans: index of the delimiter that `c` is, or their number. */
  method Match(c: Byte, delimiters: seq<Byte>) returns (i: nat)
    ensures i <= |delimiters| && (i < |delimiters| <==> c in delimiters)
  {
    i := 0;
    while i < |delimiters|
      invariant i <= |delimiters| && forall k | 0 <= k < i :: delimiters[k] != c
    {
      if c == delimiters[i] {
        break;
      }
      i := i + 1;
    }
  }

  /** The library's global cursor. */
  class Tokenizer {
    var sp: Cursor

    /** Text the next call of `Strtok(str, ..)` looks at: the saved cursor wins over the argument. */
    function Source(str: Cursor): Cursor
      reads this
    {
      if sp.Null? then str else sp
    }

    /**
      strtok. `delimiters` is the text of the second argument. Everything before the token found is skipped,
      the separator behind it is overwritten by a terminator, and the cursor moves past that.
    */
    method Strtok(str: Cursor, delimiters: seq<Byte>) returns (token: Cursor)
      requires 0 !in delimiters
      requires Source(str).At? ==> Terminated(Source(str).buf[..], Source(str).pos)
      modifies this, if Source(str).At? then {Source(str).buf} else {}
      ensures old(Source(str)).Null? ==> token.Null? && sp.Null?
      ensures old(Source(str)).At? ==>
                var c := old(Source(str));
                Scanned(c.buf, c.pos, old(c.buf[..]), c.buf[..], delimiters, token, sp)
    {
      hide Text, TextLen, Runs, SkipTo, RunEnd, NextToken, Scanned;
      if str.Null? && sp.Null? {
        return Null;
      }
      if sp.Null? {
        sp := str;
      }

      ghost var was := sp.buf[..];
      ghost var base := sp.pos;
      ghost var s := Text(was, base);
      var start := SkipDelimiters(delimiters);
      TextIsSlice(was, base);
      TextOfRest(was, base, start - base);
      sp := At(sp.buf, start);
      if sp.buf[sp.pos] == 0 {
        ScanEnds(sp.buf, base, was, delimiters);
        sp := Null;
        return sp;
      }
      var buf := sp.buf;
      FindEnd(delimiters);
      ScanFinds(buf, base, was, buf[..], delimiters, sp);
      return At(buf, start);
    }

    /** The first loop of strtok. */
    method SkipDelimiters(delimiters: seq<Byte>) returns (start: nat)
      requires 0 !in delimiters && sp.At? && Terminated(sp.buf[..], sp.pos)
      ensures start == sp.pos + SkipTo(Text(sp.buf[..], sp.pos), 0, delimiters)
    {
      hide Text, TextLen, SkipTo;
      ghost var s := Text(sp.buf[..], sp.pos);
      TextIsSlice(sp.buf[..], sp.pos);
      start := sp.pos;
      while true
        invariant sp.pos <= start <= sp.pos + |s|
        invariant SkipTo(s, start - sp.pos, delimiters) == SkipTo(s, 0, delimiters)
        decreases sp.pos + |s| - start
      {
        SkipStep(s, start - sp.pos, delimiters);
        var i := Match(sp.buf[start], delimiters);
        if i < |delimiters| {
          start := start + 1;
        }
        if i == |delimiters| {
          break;
        }
      }
    }

    /** The last loop of strtok, which terminates the token. */
    method FindEnd(delimiters: seq<Byte>)
      requires 0 !in delimiters && sp.At? && Terminated(sp.buf[..], sp.pos)
      modifies this, sp.buf
      ensures var At(buf, base) := old(sp);
              var was := old(sp.buf[..]);
              var s := Text(was, base);
              var e := RunEnd(s, 0, delimiters);
              buf[..] == was[base + e := 0] && sp == At(buf, base + if e < |s| then e + 1 else |s|)
    {
      hide Text, TextLen, RunEnd;
      var buf := sp.buf;
      ghost var was := buf[..];
      ghost var base := sp.pos;
      ghost var s := Text(was, base);
      ghost var e := RunEnd(s, 0, delimiters);
      TextIsSlice(was, base);
      RunStep(s, |s|, delimiters);
      while buf[sp.pos] != 0
        invariant sp.At? && sp.buf == buf && base <= sp.pos <= base + |s| && buf[..] == was
        invariant RunEnd(s, sp.pos - base, delimiters) == e
        invariant sp.pos < base + |s| ==> buf[sp.pos] == s[sp.pos - base] != 0
        decreases base + |s| - sp.pos
      {
        RunStep(s, sp.pos - base, delimiters);
        var i := Match(buf[sp.pos], delimiters);
        if i < |delimiters| {
          buf[sp.pos] := 0;
        }
        sp := At(buf, sp.pos + 1);
        if i < |delimiters| {
          return;
        }
      }
    }
  }

  lemma TextIsSlice(b: seq<Byte>, p: nat)
    requires Terminated(b, p)
    ensures var s := Text(b, p); p + |s| < |b| && b[p + |s|] == 0 && forall k | 0 <= k < |s| :: s[k] == b[p + k] != 0
  {
  }

  lemma TextOfRest(b: seq<Byte>, p: nat, k: nat)
    requires Terminated(b, p) && k <= |Text(b, p)|
    ensures Terminated(b, p + k) && Text(b, p + k) == Text(b, p)[k..]
  {
    TextIsSlice(b, p);
    TextLenIs(b, p + k, |Text(b, p)| - k);
  }

  lemma SkipStep(s: seq<Byte>, k: nat, d: seq<Byte>)
    requires k <= |s|
    ensures SkipTo(s, k, d) == if k < |s| && s[k] in d then SkipTo(s, k + 1, d) else k
  {
  }

  lemma RunStep(s: seq<Byte>, k: nat, d: seq<Byte>)
    requires k <= |s|
    ensures RunEnd(s, k, d) == if k < |s| && s[k] !in d then RunEnd(s, k + 1, d) else k
  {
  }

  /** A terminator stored at offset `e` of a text ends what is before it ... */
  lemma StoredTerminator(was: seq<Byte>, p: nat, q: nat, e: nat, now: seq<Byte>)
    requires Terminated(was, p) && q <= e <= |Text(was, p)| && now == was[p + e := 0]
    ensures Terminated(now, p + q) && Text(now, p + q) == Text(was, p)[q..e]
  {
    TextIsSlice(was, p);
    hide Text, TextLen;
    TextLenIs(now, p + q, e - q);
    assert now[p + q..p + e] == Text(was, p)[q..e];
  }

  /** ... and leaves what is behind it. */
  lemma BehindTerminator(was: seq<Byte>, p: nat, e: nat, now: seq<Byte>)
    requires Terminated(was, p) && e < |Text(was, p)| && now == was[p + e := 0]
    ensures Terminated(now, p + e + 1) && Text(now, p + e + 1) == Text(was, p)[e + 1..]
  {
    TextIsSlice(was, p);
    var n := |Text(was, p)|;
    hide Text, TextLen;
    TextLenIs(now, p + e + 1, n - e - 1);
    assert now[p + e + 1..p + n] == Text(was, p)[e + 1..];
  }

  /** The tokens of a text are the first one and those of what follows it. */
  lemma FirstToken(s: seq<Byte>, d: seq<Byte>)
    ensures match NextToken(s, d)
            case Nothing => Tokens(s, d) == []
            case Found(start, end, next) => Tokens(s, d) == [s[start..end]] + Tokens(s[next..], d)
  {
    var q := SkipTo(s, 0, d);
    if q < |s| {
      var e := RunEnd(s, q, d);
      var next := if e < |s| then e + 1 else |s|;
      TokensOfSuffix(s, next, d);
      if e < |s| { SkipStep(s, e, d); }
      assert TokensFrom(s, e, d) == TokensFrom(s, next, d);
    }
  }

  /**
    The meaning of one call: no token is left exactly when it returns null; otherwise the text at the result
    is the first token, and the tokens of the text at the saved cursor are the others.
  */
  lemma ScannedSplits(buf: array<Byte>, base: nat, was: seq<Byte>, now: seq<Byte>, d: seq<Byte>,
                      token: Cursor, sp: Cursor)
    requires Terminated(was, base) && Scanned(buf, base, was, now, d, token, sp)
    ensures token.Null? <==> Tokens(Text(was, base), d) == []
    ensures token.Null? ==> sp.Null? && now == was
    ensures token.At? ==>
              && token.buf == buf && Terminated(now, token.pos)
              && sp.At? && sp.buf == buf && Terminated(now, sp.pos)
              && Tokens(Text(was, base), d) == [Text(now, token.pos)] + Tokens(Text(now, sp.pos), d)
  {
    hide Text, TextLen, Tokens, TokensFrom, Runs, SkipTo, RunEnd, NextToken;
    var s := Text(was, base);
    FirstToken(s, d);
    var f := NextToken(s, d);
    if f.Found? {
      StoredTerminator(was, base, f.start, f.end, now);
      if f.end < |s| {
        BehindTerminator(was, base, f.end, now);
      } else {
        StoredTerminator(was, base, f.end, f.end, now);
        assert s[f.end..f.end] == s[f.next..];
      }
    }
  }

  /** Started on another line while words of the last one are left, strtok goes on with the last one: the call
      for `b` answers the second word of `a`. */
  method StaleCursorWins(lib: Tokenizer, a: array<Byte>, b: array<Byte>, d: seq<Byte>) returns (token: Cursor)
    requires lib.sp.Null? && a != b && 0 !in d && Terminated(a[..], 0) && |Tokens(Text(a[..], 0), d)| >= 2
    modifies lib, a
    ensures token.At? && token.buf == a && Terminated(a[..], token.pos)
    ensures Text(a[..], token.pos) == old(Tokens(Text(a[..], 0), d))[1]
  {
    hide Text, TextLen, Tokens, Scanned;
    ghost var line := a[..];
    token := lib.Strtok(At(a, 0), d);
    ghost var rest := a[..];
    ScannedSplits(a, 0, line, rest, d, token, lib.sp);
    ghost var p := lib.sp.pos;
    token := lib.Strtok(At(b, 0), d);
    ScannedSplits(a, p, rest, a[..], d, token, lib.sp);
  }

  // ---------------------------------------------------------------- peachos_parse_command

  class CommandArgument {
    const argument: array<Byte>
    var next: CommandArgument?

    constructor ()
      ensures fresh(argument) && argument.Length == ARGUMENT_SIZE
    {
      argument := new Byte[ARGUMENT_SIZE];
    }
  }

  /** `nodes` are the elements of the list that starts at `root`, linked by `next` and ended by null. */
  ghost predicate Linked(root: CommandArgument?, nodes: seq<CommandArgument>)
    reads nodes
  {
    && (if nodes == [] then root == null else root == nodes[0] && nodes[|nodes| - 1].next == null)
    && Distinct(nodes)
    && (forall i | 0 <= i < |nodes| - 1 :: nodes[i].next == nodes[i + 1])
  }

  lemma LinkedIs(root: CommandArgument?, nodes: seq<CommandArgument>)
    requires nodes != [] && root == nodes[0] && nodes[|nodes| - 1].next == null
    requires forall k, j | 0 <= k < j < |nodes| :: nodes[k] != nodes[j]
    requires forall k | 0 <= k < |nodes| - 1 :: nodes[k].next == nodes[k + 1]
    ensures Linked(root, nodes)
  {
  }

  /** A node holds a word, cut to what fits. */
  ghost predicate Keeps(node: CommandArgument, word: seq<Byte>)
    reads node.argument
  {
    Terminated(node.argument[..], 0) && Text(node.argument[..], 0) == Cut(word, ARGUMENT_SIZE - 1)
  }

  /** The words of a command line: those of its first 1024 bytes. */
  function CommandWords(command: seq<Byte>): seq<seq<Byte>> {
    Tokens(Cut(Text(command, 0), COMMAND_SIZE - 1), [SPACE])
  }

  /** Of a longer line only the first 1024 bytes count. */
  lemma LongLineIsCut(command: seq<Byte>)
    requires |command| >= 1024 && 0 !in command[..1024]
    ensures CommandWords(command) == Tokens(command[..1024], [32])
  {
    forall k | 0 <= k < 1024 ensures command[k] != 0 { assert command[..1024][k] == command[k]; }
    assert TextLen(command, 0) >= 1024;
    assert Cut(Text(command, 0), 1024) == command[..1024];
  }

  lemma {:induction false} JoinHasNoTerminator(ts: seq<seq<Byte>>, c: Byte)
    requires c != 0 && forall k | 0 <= k < |ts| :: 0 !in ts[k]
    ensures 0 !in Join(ts, c)
  {
    if |ts| > 1 { JoinHasNoTerminator(ts[1..], c); }
  }

  /** A command line printed from words, if it fits, is parsed back into those words. */
  lemma PrintedWordsComeBack(ts: seq<seq<Byte>>, rest: seq<Byte>)
    requires forall k | 0 <= k < |ts| :: IsToken(ts[k], [SPACE]) && 0 !in ts[k]
    requires |Join(ts, SPACE)| < COMMAND_SIZE
    ensures CommandWords(Join(ts, SPACE) + [0] + rest) == ts
  {
    var line := Join(ts, SPACE);
    JoinHasNoTerminator(ts, SPACE);
    TextLenIs(line + [0] + rest, 0, |line|);
    assert (line + [0] + rest)[0..|line|] == line;
    SplitUndoesJoin(ts, SPACE, [SPACE]);
  }

  function Min(a: nat, b: nat): nat { if a <= b then a else b }

  lemma MinIs(a: nat, b: nat, m: nat)
    requires m <= a && m <= b
    ensures m == a || m == b ==> Min(a, b) == m
  {
  }

  /** The words from number `k` on are ahead of position `p` of the line. */
  ghost predicate Ahead(line: seq<Byte>, p: nat, words: seq<seq<Byte>>, k: nat) {
    k <= |words| && Terminated(line, p) && Tokens(Text(line, p), [SPACE]) == words[k..]
  }

  /** `p` is where word `k` of the line reads as text. */
  ghost predicate AtWord(line: seq<Byte>, p: nat, words: seq<seq<Byte>>, k: nat) {
    k < |words| && Terminated(line, p) && Text(line, p) == words[k]
  }

  lemma WordStep(line: array<Byte>, p: nat, was: seq<Byte>, now: seq<Byte>, token: Cursor, sp: Cursor,
                 words: seq<seq<Byte>>, k: nat)
    requires Ahead(was, p, words, k) && Scanned(line, p, was, now, [SPACE], token, sp)
    ensures token.Null? ==> sp.Null? && k == |words|
    ensures token.At? ==> token.buf == line && AtWord(now, token.pos, words, k)
    ensures token.At? ==> sp.At? && sp.buf == line && Ahead(now, sp.pos, words, k + 1)
  {
    hide Text, TextLen, Tokens, NextToken, Scanned;
    ScannedSplits(line, p, was, now, [SPACE], token, sp);
    if k < |words| {
      assert words[k..] == [words[k]] + words[k + 1..];
    }
  }

  /** The private copy of the command line that is then taken apart. */
  method CopyLine(command: array<Byte>) returns (scommand: array<Byte>)
    requires Terminated(command[..], 0) || COMMAND_SIZE - 1 <= command.Length
    ensures fresh(scommand) && Ahead(scommand[..], 0, CommandWords(command[..]), 0)
  {
    hide Text, TextLen, Tokens;
    scommand := new Byte[COMMAND_SIZE];
    Strncpy(scommand, command, 0, COMMAND_SIZE);
  }

  /** strtok as the parser calls it: `str` is the line in the first call and null in the others. */
  method NextWord(lib: Tokenizer, str: Cursor, line: array<Byte>, ghost base: nat, ghost words: seq<seq<Byte>>,
                  ghost k: nat)
    returns (token: Cursor)
    requires At(line, base) == if lib.sp.Null? then str else lib.sp
    requires Ahead(line[..], base, words, k)
    modifies lib, line
    ensures token.Null? ==> lib.sp.Null? && k == |words|
    ensures token.At? ==> k < |words| && token.buf == line && AtWord(line[..], token.pos, words, k)
    ensures token.At? ==> lib.sp.At? && lib.sp.buf == line && Ahead(line[..], lib.sp.pos, words, k + 1)
  {
    ghost var was := line[..];
    assert Terminated(was, base) && lib.Source(str) == At(line, base);
    hide *;
    token := lib.Strtok(str, [SPACE]);
    WordStep(line, base, was, line[..], token, lib.sp, words, k);
  }

  /** One element of the list: allocated, filled from word `k` and not linked to anything yet. */
  method NewArgument(line: array<Byte>, pos: nat, ghost words: seq<seq<Byte>>, ghost k: nat)
    returns (node: CommandArgument)
    requires AtWord(line[..], pos, words, k)
    ensures fresh(node) && fresh(node.argument) && node.next == null && Keeps(node, words[k])
  {
    hide Text, TextLen;
    node := new CommandArgument();
    Strncpy(node.argument, line, pos, ARGUMENT_SIZE);
    node.next := null;
  }

  /** The elements behind the first: the loop of the parser, entered after the first element was made. */
  method OtherArguments(lib: Tokenizer, scommand: array<Byte>, root: CommandArgument, ghost words: seq<seq<Byte>>,
                        granted: nat)
    returns (ghost nodes: seq<CommandArgument>)
    requires 1 <= granted && 1 <= |words| && root.next == null && Keeps(root, words[0]) && root.argument != scommand
    requires lib.sp.At? && lib.sp.buf == scommand && Ahead(scommand[..], lib.sp.pos, words, 1)
    modifies lib, scommand, root`next
    ensures nodes != [] && nodes[0] == root && forall k | 1 <= k < |nodes| :: fresh(nodes[k])
    ensures Linked(root, nodes) && |nodes| == Min(granted, |words|)
    ensures forall k | 0 <= k < |nodes| :: Keeps(nodes[k], words[k])
    ensures lib.sp.Null? <==> |words| <= granted
  {
    nodes := [root];
    hide Keeps, AtWord, Ahead, Linked;
    var served, current := 1, root;
    var token := NextWord(lib, Null, scommand, lib.sp.pos, words, 1);
    while token.At?
      invariant 1 <= |nodes| == served <= granted && served <= |words|
      invariant nodes[0] == root && (current == root || fresh(current))
      invariant forall k | 1 <= k < |nodes| :: fresh(nodes[k])
      invariant forall k | 0 <= k < |nodes| :: nodes[k].argument != scommand
      invariant current == nodes[|nodes| - 1] && current.next == null
      invariant forall k, j | 0 <= k < j < |nodes| :: nodes[k] != nodes[j]
      invariant forall k | 0 <= k < |nodes| - 1 :: nodes[k].next == nodes[k + 1]
      invariant forall k | 0 <= k < |nodes| :: Keeps(nodes[k], words[k])
      invariant token.At? ==> served < |words| && token.buf == scommand
      invariant token.At? ==> AtWord(scommand[..], token.pos, words, served)
      invariant token.At? ==>
                  lib.sp.At? && lib.sp.buf == scommand && Ahead(scommand[..], lib.sp.pos, words, served + 1)
      invariant token.Null? ==> lib.sp.Null? && served == |words|
      decreases |words| - served
    {
      if served == granted {
        break;
      }
      var newest := NewArgument(scommand, token.pos, words, served);
      served := served + 1;
      current.next := newest;
      current := newest;
      nodes := nodes + [newest];
      token := NextWord(lib, Null, scommand, lib.sp.pos, words, served);
    }
    LinkedIs(root, nodes);
  }

  /**
    peachos_parse_command. `granted` is the number of allocations that succeed before one fails. The list
    holds the words of the command line in order, one per successful allocation; the cursor is left null
    exactly when no allocation failed, and only then is the next call independent of this one.
  */
  method ParseCommand(lib: Tokenizer, command: array<Byte>, max: int, granted: nat)
    returns (root: CommandArgument?, ghost nodes: seq<CommandArgument>)
    requires lib.sp.Null?
    requires Terminated(command[..], 0) || COMMAND_SIZE - 1 <= command.Length
    modifies lib
    ensures Linked(root, nodes) && forall k | 0 <= k < |nodes| :: fresh(nodes[k])
    ensures max < 0 || max >= COMMAND_SIZE ==> nodes == [] && lib.sp.Null?
    ensures 0 <= max < COMMAND_SIZE ==>
              && |nodes| == Min(granted, |CommandWords(command[..])|)
              && (forall k | 0 <= k < |nodes| :: Keeps(nodes[k], CommandWords(command[..])[k]))
              && (lib.sp.Null? <==> |CommandWords(command[..])| <= granted)
  {
    root := null;
    nodes := [];
    assert Linked(root, nodes);
    if max < 0 || max >= COMMAND_SIZE {
      return;
    }
    hide *;
    var scommand := CopyLine(command);
    ghost var words := CommandWords(command[..]);
    var token := NextWord(lib, At(scommand, 0), scommand, 0, words, 0);
    MinIs(granted, |words|, 0);
    if token.At? {
      if granted > 0 {
        root := NewArgument(scommand, token.pos, words, 0);
        nodes := OtherArguments(lib, scommand, root, words, granted);
      }
    }
  }
}
