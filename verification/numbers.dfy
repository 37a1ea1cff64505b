/** Numbers as the report sees them: Python's `float(text)` restricted to
    plain decimal notation, and the `.0f` rendering of a number (round to the
    nearest integer, ties to even, sign kept). Amounts are exact `real`s. */
module Numbers {
  import opened Wrappers
  import opened Strings

  predicate IsDigit(c: char) {
    '0' <= c <= '9'
  }

  predicate AllDigits(s: string) {
    forall i :: 0 <= i < |s| ==> IsDigit(s[i])
  }

  function DigitValue(c: char): nat
    requires IsDigit(c)
  {
    c as int - '0' as int
  }

  function DigitChar(d: nat): (c: char)
    requires d < 10
    ensures IsDigit(c) && DigitValue(c) == d
  {
    ('0' as int + d) as char
  }

  /** Value of a string of decimal digits, most significant first. */
  function DigitsValue(ds: string): nat
    requires AllDigits(ds)
  {
    if |ds| == 0 then 0 else DigitsValue(ds[..|ds| - 1]) * 10 + DigitValue(ds[|ds| - 1])
  }

  function Pow10(n: nat): (r: nat)
    ensures r >= 1
  {
    if n == 0 then 1 else 10 * Pow10(n - 1)
  }

  /** `str(n)` for a non-negative integer: its decimal digits, no leading zero. */
  function NatToString(n: nat): (r: string)
    ensures |r| >= 1 && AllDigits(r)
    ensures DigitsValue(r) == n
    ensures |r| > 1 ==> r[0] != '0'
  {
    if n < 10 then [DigitChar(n)]
    else
      var r := NatToString(n / 10) + [DigitChar(n % 10)];
      assert r[..|r| - 1] == NatToString(n / 10);
      r
  }

  /** Unsigned decimal literal: digits, optionally a '.' and more digits,
      with at least one digit in all ("5", "5.", ".5", "5.25"). */
  function ParseUnsigned(t: string): (r: Option<real>)
    ensures r.Some? ==> r.value >= 0.0
  {
    var parts := Split(t, '.');
    if |parts| > 2 then None
    else if |parts| == 1 then
      if |t| == 0 || !AllDigits(t) then None else Some(DigitsValue(t) as real)
    else
      var whole, frac := parts[0], parts[1];
      if |whole| + |frac| == 0 || !AllDigits(whole) || !AllDigits(frac) then None
      else Some(DigitsValue(whole) as real + FractionValue(frac))
  }

  /** Value of the digits after the decimal point. */
  function FractionValue(ds: string): (r: real)
    requires AllDigits(ds)
    ensures 0.0 <= r
    ensures |ds| == 0 ==> r == 0.0
  {
    if |ds| == 0 then 0.0 else DigitsValue(ds) as real / Pow10(|ds|) as real
  }

  /** An optionally signed unsigned decimal literal. */
  function ParseDecimal(t: string): Option<real> {
    var signed := |t| > 0 && (t[0] == '+' || t[0] == '-');
    var magnitude := ParseUnsigned(if signed then t[1..] else t);
    if magnitude.None? then None
    else if signed && t[0] == '-' then Some(-magnitude.value)
    else magnitude
  }

  // ---------------------------------------------------------------------
  // The blanks `float` ignores

  /** A blank `float` ignores around its number. CPython first turns every
      non-ASCII Unicode space into ' ' and then skips only the ASCII blanks
      " \t\n\v\f\r". The separator controls U+001C-U+001F, which
      `str.strip()` removes, are not among them. */
  predicate FloatSpace(c: char) {
    c == ' ' || ('\t' <= c <= '\r') || (c as int >= 127 && IsSpace(c))
  }

  predicate AllFloatSpace(s: string) {
    forall i :: 0 <= i < |s| ==> FloatSpace(s[i])
  }

  /** Leading blanks skipped. */
  function TrimLeft(s: string): (r: string)
    ensures |r| <= |s|
  {
    if |s| > 0 && FloatSpace(s[0]) then TrimLeft(s[1..]) else s
  }

  /** Trailing blanks skipped. */
  function TrimRight(s: string): (r: string)
    ensures |r| <= |s|
  {
    if |s| > 0 && FloatSpace(s[|s| - 1]) then TrimRight(s[..|s| - 1]) else s
  }

  lemma {:induction false} TrimLeftFacts(s: string)
    ensures var r := TrimLeft(s);
      && r == s[|s| - |r|..]
      && (forall k :: 0 <= k < |s| - |r| ==> FloatSpace(s[k]))
      && (r == [] || !FloatSpace(r[0]))
  {
    if |s| > 0 && FloatSpace(s[0]) {
      TrimLeftFacts(s[1..]);
    }
  }

  lemma {:induction false} TrimRightFacts(s: string)
    ensures var r := TrimRight(s);
      && r == s[..|r|]
      && (forall k :: |r| <= k < |s| ==> FloatSpace(s[k]))
      && (r == [] || !FloatSpace(r[|r| - 1]))
  {
    if |s| > 0 && FloatSpace(s[|s| - 1]) {
      TrimRightFacts(s[..|s| - 1]);
    }
  }

  /** `r` is `s` with `i` blanks cut on the left and only blanks cut on the
      right, blank meaning `FloatSpace`. */
  predicate TrimsTo(s: string, i: nat, r: string) {
    && i + |r| <= |s| && r == s[i..i + |r|]
    && (forall k :: 0 <= k < i ==> FloatSpace(s[k]))
    && (forall k :: i + |r| <= k < |s| ==> FloatSpace(s[k]))
  }

  /** The text `float` reads: `s` without its `FloatSpace` margins. This is
      `Strings.Strip` with `FloatSpace` in place of `IsSpace`; `TrimLeft`,
      `TrimRight` and their lemmas mirror the strip family the same way. */
  function Trim(s: string): (r: string)
    ensures exists i: nat :: TrimsTo(s, i, r)
    ensures r == [] || (!FloatSpace(r[0]) && !FloatSpace(r[|r| - 1]))
    ensures r == [] <==> AllFloatSpace(s)
  {
    TrimBoth(s);
    TrimRight(TrimLeft(s))
  }

  lemma TrimBoth(s: string)
    ensures var r := TrimRight(TrimLeft(s));
      && TrimsTo(s, |s| - |TrimLeft(s)|, r)
      && (r == [] || (!FloatSpace(r[0]) && !FloatSpace(r[|r| - 1])))
      && (r == [] <==> AllFloatSpace(s))
  {
    var l := TrimLeft(s);
    var r := TrimRight(l);
    var i := |s| - |l|;
    TrimLeftFacts(s);
    TrimRightFacts(l);
    assert TrimsTo(s, i, r) by {
      assert s[i..] == l;
      assert s[i..i + |r|] == r;
    }
    assert r == [] ==> AllFloatSpace(s) by {
      if r == [] {
        assert l == [];
      }
    }
    assert r != [] ==> !AllFloatSpace(s) by {
      if r != [] {
        assert s[i..] == l;
        assert s[i] == r[0] && !FloatSpace(s[i]);
      }
    }
  }

  /** A non-blank character of `s` survives the trim. */
  lemma InTrim(s: string, c: char)
    requires c in s && !FloatSpace(c)
    ensures c in Trim(s)
  {
    var r := Trim(s);
    var i: nat :| TrimsTo(s, i, r);
    var k :| 0 <= k < |s| && s[k] == c;
    assert i <= k < i + |r|;
    assert r[k - i] == c;
  }

  /** Text without blank ends is its own trim. */
  lemma TrimUnchanged(s: string)
    requires s == [] || (!FloatSpace(s[0]) && !FloatSpace(s[|s| - 1]))
    ensures Trim(s) == s
  {
  }

  lemma {:induction false} TrimLeftSpaces(k: nat, t: string)
    requires |t| > 0 && !FloatSpace(t[0])
    ensures TrimLeft(Spaces(k) + t) == t
  {
    if k > 0 {
      assert (Spaces(k) + t)[1..] == Spaces(k - 1) + t;
      TrimLeftSpaces(k - 1, t);
    } else {
      assert Spaces(0) + t == t;
    }
  }

  /** A right-aligned field trims back to what was put in it. */
  lemma TrimPadLeft(t: string, w: nat)
    requires |t| > 0 && !FloatSpace(t[0]) && !FloatSpace(t[|t| - 1])
    ensures Trim(PadLeft(t, w)) == t
  {
    if |t| < w {
      TrimLeftSpaces(w - |t|, t);
    }
  }

  /** `str.strip()` and `float` disagree on the separator controls:
      "\x1c5".strip() is "5", but `float("\x1c5")` fails. */
  lemma SeparatorControlNotFloatSpace()
    ensures Strip("\U{1C}5") == "5"
    ensures Trim("\U{1C}5") == "\U{1C}5"
    ensures ParseFloat("\U{1C}5") == None
  {
    ParseFloatRejects("\U{1C}5", '\U{1C}');
  }

  // ---------------------------------------------------------------------
  // `float`

  /** `float(s)`: the blanks `float` skips are ignored, the rest must be a
      (signed) decimal literal; `None` stands for the `ValueError`. */
  function ParseFloat(s: string): Option<real> {
    ParseDecimal(Trim(s))
  }

  /** A character that can never occur in text `float` accepts. */
  predicate Foreign(c: char) {
    !IsDigit(c) && c != '.' && c != '+' && c != '-' && !FloatSpace(c)
  }

  lemma {:induction false} ParseUnsignedRejects(t: string, c: char)
    requires c in t && Foreign(c)
    ensures ParseUnsigned(t) == None
  {
    var parts := Split(t, '.');
    JoinSplit(t, '.');
    InJoin(parts, '.', c);
  }

  /** `float` fails on any text holding a letter or other foreign
      character, so such a numeric cell falls back to 0. */
  lemma ParseFloatRejects(s: string, c: char)
    requires c in s && Foreign(c)
    ensures ParseFloat(s) == None
  {
    var t := Trim(s);
    InTrim(s, c);
    if |t| > 0 && (t[0] == '+' || t[0] == '-') {
      var k :| 0 <= k < |t| && t[k] == c;
      assert k > 0;
      assert t[1..][k - 1] == c;
      ParseUnsignedRejects(t[1..], c);
    } else {
      ParseUnsignedRejects(t, c);
    }
  }

  /** A non-empty digit string reads as its value. */
  lemma ParseUnsignedDigits(d: string)
    requires |d| >= 1 && AllDigits(d)
    ensures ParseUnsigned(d) == Some(DigitsValue(d) as real)
  {
    assert '.' !in d by {
      assert forall k :: 0 <= k < |d| ==> d[k] != '.';
    }
    SplitNoSep(d, '.');
  }

  /** Blank text is not a number: either `float` skips all of it, or it
      holds a separator control `float` does not skip. */
  lemma ParseFloatBlank(s: string)
    requires AllSpace(s)
    ensures ParseFloat(s) == None
  {
    if Trim(s) == "" {
      assert Split("", '.') == [""];
    } else {
      var k :| 0 <= k < |s| && !FloatSpace(s[k]);
      assert IsSpace(s[k]);
      ParseFloatRejects(s, s[k]);
    }
  }

  /** `float` reads a non-empty digit string as its value. */
  lemma ParseFloatDigits(s: string)
    requires |s| >= 1 && AllDigits(s)
    ensures ParseFloat(s) == Some(DigitsValue(s) as real)
  {
    assert IsDigit(s[0]) && IsDigit(s[|s| - 1]);
    TrimUnchanged(s);
    ParseUnsignedDigits(s);
    assert ParseDecimal(s) == ParseUnsigned(s);
  }

  /** `-x` for a real, `abs(x)`. */
  function Abs(x: real): (r: real)
    ensures r >= 0.0 && (r == x || r == -x)
  {
    if x < 0.0 then -x else x
  }

  /** The integer `format(x, '.0f')` shows: the nearest integer, ties to even. */
  function RoundHalfEven(x: real): (n: int)
    ensures x - 0.5 <= n as real <= x + 0.5
    ensures (n as real == x - 0.5 || n as real == x + 0.5) ==> n % 2 == 0
    ensures x >= 0.0 ==> n >= 0
  {
    var f := x.Floor;
    var d := x - f as real;
    if d < 0.5 then f
    else if d > 0.5 then f + 1
    else if f % 2 == 0 then f
    else f + 1
  }

  /** `format(x, '.0f')`: the rounded magnitude in decimal, preceded by
      '-' whenever `x` is negative (so -0.4 shows as "-0"). Exact reals
      have no negative zero, so where Python's amount is -0.0 (which it
      shows as "-0") this shows "0". */
  function Fixed0(x: real): string {
    (if x < 0.0 then "-" else "") + NatToString(RoundHalfEven(Abs(x)))
  }

  /** A `.0f` rendering is an optional '-' and then decimal digits. */
  lemma Fixed0Shape(x: real)
    ensures var t := Fixed0(x);
      && |t| >= 1
      && (forall i :: 0 <= i < |t| ==> t[i] == '-' || IsDigit(t[i]))
      && IsDigit(t[|t| - 1])
      && !IsSpace(t[0]) && !IsSpace(t[|t| - 1])
      && !FloatSpace(t[0]) && !FloatSpace(t[|t| - 1])
  {
  }

  /** Reading back a `.0f` rendering gives a number within one half of the
      value rendered: the display rounds to nearest. */
  lemma Fixed0RoundTrip(x: real)
    ensures ParseFloat(Fixed0(x)).Some?
    ensures -0.5 <= ParseFloat(Fixed0(x)).value - x <= 0.5
  {
    var k := RoundHalfEven(Abs(x));
    var digits := NatToString(k);
    var t := Fixed0(x);
    if x < 0.0 {
      assert t[0] == '-' && t[1..] == digits;
      ParseFloatNegated(t);
    } else {
      assert t == digits;
      ParseFloatDigits(digits);
    }
  }

  /** `float` reads a '-' followed by digits as minus their value. */
  lemma ParseFloatNegated(t: string)
    requires |t| >= 2 && t[0] == '-' && AllDigits(t[1..])
    ensures ParseFloat(t) == Some(-(DigitsValue(t[1..]) as real))
  {
    assert IsDigit(t[1..][|t| - 2]);
    TrimUnchanged(t);
    ParseUnsignedDigits(t[1..]);
  }

  /** An integral amount renders as its plain decimal digits. */
  lemma Fixed0Integral(n: nat)
    ensures Fixed0(n as real) == NatToString(n)
  {
  }
}
