/**
  string.c: itoa, which writes the decimal text of a signed 32-bit integer backwards into a 12-byte buffer,
  working on the non-positive side so that the most negative integer needs no special case.
*/
module Itoa {
  import opened Words

  type Int32 = x: int | -0x8000_0000 <= x < 0x8000_0000

  const ZERO: Byte := 48
  const MINUS: Byte := 45

  predicate IsDigit(c: Byte) { ZERO <= c <= ZERO + 9 }

  predicate AllDigits(s: seq<Byte>) { forall k | 0 <= k < |s| :: IsDigit(s[k]) }

  function Pow10(n: nat): (p: nat)
    ensures p >= 1
  {
    if n == 0 then 1 else 10 * Pow10(n - 1)
  }

  /** The number that a string of digits denotes. */
  function Magnitude(s: seq<Byte>): nat
    requires AllDigits(s)
  {
    if s == [] then 0 else 10 * Magnitude(s[..|s| - 1]) + s[|s| - 1] - ZERO
  }

  /** Digits without a superfluous leading zero. */
  predicate Plain(s: seq<Byte>) { s != [] && AllDigits(s) && (|s| > 1 ==> s[0] != ZERO) }

  /** Decimal text: no leading zeros, and a sign in front of negative numbers only. */
  predicate IsDecimal(s: seq<Byte>) {
    if s != [] && s[0] == MINUS then Plain(s[1..]) && s[1] != ZERO else Plain(s)
  }

  function Value(s: seq<Byte>): int
    requires IsDecimal(s)
  {
    if s[0] == MINUS then 0 - Magnitude(s[1..]) else Magnitude(s)
  }

  lemma {:induction false} MagnitudeFirst(s: seq<Byte>)
    requires s != [] && AllDigits(s)
    ensures Magnitude(s) == (s[0] - ZERO) * Pow10(|s| - 1) + Magnitude(s[1..])
  {
    if |s| > 1 {
      var t := s[..|s| - 1];
      MagnitudeFirst(t);
      assert s[1..][..|s| - 2] == t[1..];
      assert Pow10(|s| - 1) == 10 * Pow10(|t| - 1);
      var d, p := s[0] - ZERO, Pow10(|t| - 1);
      assert 10 * (d * p) == d * (10 * p);
    }
  }

  lemma PlainPositive(s: seq<Byte>)
    requires Plain(s) && s[0] != ZERO
    ensures Magnitude(s) > 0
  {
    MagnitudeFirst(s);
  }

  lemma {:induction false} PlainUnique(s: seq<Byte>, t: seq<Byte>)
    requires Plain(s) && Plain(t) && Magnitude(s) == Magnitude(t)
    ensures s == t
    decreases |s|
  {
    var s', t' := s[..|s| - 1], t[..|t| - 1];
    assert Magnitude(s') == Magnitude(t') && s[|s| - 1] == t[|t| - 1];
    if s' != [] { PlainPositive(s'); }
    if t' != [] { PlainPositive(t'); }
    if s' != [] {
      PlainUnique(s', t');
    }
    assert s == s' + [s[|s| - 1]] && t == t' + [t[|t| - 1]];
  }

  /** A number has only one decimal text, so the contract of `Itoa` leaves no choice of output. */
  lemma DecimalUnique(s: seq<Byte>, t: seq<Byte>)
    requires IsDecimal(s) && IsDecimal(t) && Value(s) == Value(t)
    ensures s == t
  {
    if s[0] == MINUS {
      PlainPositive(s[1..]);
      PlainUnique(s[1..], t[1..]);
      assert s == [MINUS] + s[1..] && t == [MINUS] + t[1..];
    } else {
      if t[0] == MINUS { PlainPositive(t[1..]); }
      PlainUnique(s, t);
    }
  }

  /** The number still to be printed: `rest`, followed by the digits `s` written so far. */
  ghost function Joined(rest: nat, s: seq<Byte>): nat
    requires AllDigits(s)
  {
    rest * Pow10(|s|) + Magnitude(s)
  }

  lemma JoinedEnds(rest: nat, s: seq<Byte>)
    requires AllDigits(s)
    ensures Joined(rest, []) == rest && Joined(0, s) == Magnitude(s) && Magnitude([ZERO]) == 0
  {
    assert Pow10(0) == 1 && Magnitude([]) == 0;
  }

  lemma AtLeastOnce(a: nat, b: nat)
    requires a > 0
    ensures a * b >= b
  {
  }

  lemma TenDigits()
    ensures Pow10(10) == 10_000_000_000
  {
    assert Pow10(5) == 10 * (10 * (10 * (10 * 10)));
    assert Pow10(10) == 10 * (10 * (10 * (10 * (10 * Pow10(5)))));
  }

  /** A positive rest leaves room in the buffer. */
  lemma RoomLeft(rest: nat, s: seq<Byte>)
    requires AllDigits(s) && rest > 0 && |s| <= 10 && Joined(rest, s) <= 0x8000_0000
    ensures |s| <= 9
  {
    TenDigits();
    hide Pow10, Magnitude;
    AtLeastOnce(rest, Pow10(|s|));
  }

  lemma SplitProduct(rest: nat, p: nat)
    ensures rest * p == rest / 10 * (10 * p) + rest % 10 * p
  {
    var q, r := rest / 10, rest % 10;
    assert rest == 10 * q + r;
    assert (10 * q + r) * p == q * (10 * p) + r * p;
  }

  /** One division moves the last digit of the rest in front of the digits written. */
  lemma OneDigit(rest: nat, c: Byte, s: seq<Byte>)
    requires AllDigits(s) && c == ZERO + rest % 10
    ensures AllDigits([c] + s)
    ensures Joined(rest, s) == Joined(rest / 10, [c] + s)
  {
    var t := [c] + s;
    assert t[1..] == s;
    assert Pow10(|s| + 1) == 10 * Pow10(|s|);
    hide Magnitude, Pow10;
    MagnitudeFirst(t);
    SplitProduct(rest, Pow10(|s|));
  }

  method Itoa(text: array<Byte>, n: Int32) returns (loc: nat)
    requires text.Length == 12
    modifies text
    ensures loc < 11 && text[11] == 0
    ensures IsDecimal(text[loc..11]) && Value(text[loc..11]) == n
    ensures forall k | 0 <= k < loc :: text[k] == old(text[k])
  {
    hide Magnitude, Joined, Pow10;
    loc := 11;
    text[11] := 0;
    var neg := true;
    var i: int := n;
    if i >= 0 {
      neg := false;
      i := -i;
    }
    ghost var size := -i;
    JoinedEnds(size, []);
    assert text[loc..11] == [];
    while i != 0
      invariant 1 <= loc <= 11 && -0x8000_0000 <= i <= 0 && text[11] == 0
      invariant AllDigits(text[loc..11])
      invariant size == Joined(-i, text[loc..11])
      invariant i == 0 && loc < 11 ==> text[loc] != ZERO
      invariant loc == 11 ==> i == -size
      invariant forall k | 0 <= k < loc :: text[k] == old(text[k])
      decreases -i
    {
      ghost var digits := text[loc..11];
      RoomLeft(-i, digits);
      loc := loc - 1;
      text[loc] := ZERO - TruncMod(i, 10);
      assert text[loc..11] == [text[loc]] + digits;
      OneDigit(-i, text[loc], digits);
      i := TruncDiv(i, 10);
    }
    JoinedEnds(0, text[loc..11]);
    if loc == 11 {
      loc := loc - 1;
      text[loc] := ZERO;
      assert text[loc..11] == [ZERO];
    }
    assert Plain(text[loc..11]) && Magnitude(text[loc..11]) == size;
    if neg {
      ghost var digits := text[loc..11];
      loc := loc - 1;
      text[loc] := MINUS;
      assert text[loc..11][1..] == digits;
    }
  }
}
