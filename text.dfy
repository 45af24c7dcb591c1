/**
 * String and number helpers shared by the validators, the filename sanitiser
 * and the size formatter.  Character classes are the ASCII parts of Python's
 * `\w` and `\s` (and of `str.isspace`, which agrees with `\s`).
 */
module Text {

  predicate IsAsciiLetter(c: char) { 'a' <= c <= 'z' || 'A' <= c <= 'Z' }

  predicate IsDigit(c: char) { '0' <= c <= '9' }

  /** `\w` on ASCII: letters, digits and underscore. */
  predicate IsWordChar(c: char) { IsAsciiLetter(c) || IsDigit(c) || c == '_' }

  /** `\s` on ASCII: space, tab, line feed, vertical tab, form feed, carriage return, 0x1C-0x1F. */
  predicate IsSpace(c: char) { c == ' ' || 9 <= c as int <= 13 || 28 <= c as int <= 31 }

  predicate AllSpace(s: string) { forall k :: 0 <= k < |s| ==> IsSpace(s[k]) }

  predicate IsPrefix(p: string, s: string) { |p| <= |s| && s[..|p|] == p }

  /** The number of whitespace characters `s` starts with. */
  function LeadingSpaces(s: string): (n: nat)
    ensures n <= |s| && AllSpace(s[..n])
    ensures n < |s| ==> !IsSpace(s[n])
  {
    if s != [] && IsSpace(s[0]) then
      var n := LeadingSpaces(s[1..]);
      assert forall k :: 1 <= k < n + 1 ==> s[k] == s[1..][..n][k - 1];
      1 + n
    else
      0
  }

  /** The number of whitespace characters `s` ends with; all of `s` exactly when it is all whitespace. */
  function TrailingSpaces(s: string): (n: nat)
    ensures n <= |s| && AllSpace(s[|s| - n..])
    ensures n < |s| ==> !IsSpace(s[|s| - n - 1])
    ensures n == |s| <==> AllSpace(s)
  {
    if s != [] && IsSpace(s[|s| - 1]) then
      var n := TrailingSpaces(s[..|s| - 1]);
      TrailingStep(s, s[..|s| - 1], n);
      1 + n
    else
      assert s != [] ==> !AllSpace(s) by {
        if s != [] { assert !IsSpace(s[|s| - 1]); }
      }
      0
  }

  /** One more whitespace character at the end extends the trailing run by one. */
  lemma TrailingStep(s: string, init: string, n: nat)
    requires s != [] && IsSpace(s[|s| - 1]) && init == s[..|s| - 1]
    requires n <= |init| && AllSpace(init[|init| - n..])
    requires n < |init| ==> !IsSpace(init[|init| - n - 1])
    requires n == |init| <==> AllSpace(init)
    ensures AllSpace(s[|s| - (n + 1)..])
    ensures n + 1 < |s| ==> !IsSpace(s[|s| - (n + 1) - 1])
    ensures n + 1 == |s| <==> AllSpace(s)
  {
    assert forall k :: |s| - 1 - n <= k < |s| - 1 ==> s[k] == init[|init| - n..][k - (|s| - 1 - n)];
    assert forall k :: 0 <= k < |s| - 1 ==> s[k] == init[k];
    if n + 1 < |s| {
      assert !IsSpace(s[|s| - n - 2]);
    }
  }

  /**
   * Python's `str.strip()`: the middle slice of `s` left after cutting away
   * its leading and trailing whitespace; it neither starts nor ends with
   * whitespace, and it is empty exactly when `s` is all whitespace.
   */
  function Strip(s: string): (r: string)
    ensures r == [] || (!IsSpace(r[0]) && !IsSpace(r[|r| - 1]))
    ensures LeadingSpaces(s) + |r| <= |s| && r == s[LeadingSpaces(s)..LeadingSpaces(s) + |r|]
    ensures AllSpace(s[..LeadingSpaces(s)]) && AllSpace(s[LeadingSpaces(s) + |r|..])
    ensures r == [] <==> AllSpace(s)
  {
    var i := LeadingSpaces(s);
    var rest := s[i..];
    var n := TrailingSpaces(rest);
    var r := rest[..|rest| - n];
    StripSlices(s, i, rest, n, r);
    StripEmpty(s, i, rest, n, r);
    r
  }

  /** The stripped string is a middle slice of `s` with whitespace on both sides. */
  lemma StripIsMiddle(s: string) returns (i: nat, j: nat)
    ensures i <= j <= |s| && Strip(s) == s[i..j] && AllSpace(s[..i]) && AllSpace(s[j..])
  {
    i := LeadingSpaces(s);
    j := i + |Strip(s)|;
  }

  /** A string that neither starts nor ends with whitespace is its own strip. */
  lemma StripUnchanged(s: string)
    requires s == [] || (!IsSpace(s[0]) && !IsSpace(s[|s| - 1]))
    ensures Strip(s) == s
  {
    var r := Strip(s);
    if s != [] {
      assert LeadingSpaces(s) == 0;
      assert !AllSpace(s) by { assert !IsSpace(s[0]); }
      assert s[..|r|] == s;
    }
  }

  /** The slices of `s` around the middle part `r`, from what the two counts promise. */
  lemma StripSlices(s: string, i: nat, rest: string, n: nat, r: string)
    requires i <= |s| && AllSpace(s[..i]) && rest == s[i..]
    requires n <= |rest| && AllSpace(rest[|rest| - n..]) && r == rest[..|rest| - n]
    ensures i + |r| <= |s| && r == s[i..i + |r|] && AllSpace(s[..i]) && AllSpace(s[i + |r|..])
  {
    assert s[i + |r|..] == rest[|rest| - n..];
  }

  /** The middle part neither starts nor ends with whitespace, and is empty exactly for all-whitespace input. */
  lemma StripEmpty(s: string, i: nat, rest: string, n: nat, r: string)
    requires i <= |s| && AllSpace(s[..i]) && (i < |s| ==> !IsSpace(s[i])) && rest == s[i..]
    requires n <= |rest| && (n < |rest| ==> !IsSpace(rest[|rest| - n - 1])) && (n == |rest| <==> AllSpace(rest))
    requires r == rest[..|rest| - n]
    ensures r == [] || (!IsSpace(r[0]) && !IsSpace(r[|r| - 1]))
    ensures r == [] <==> AllSpace(s)
  {
    if i < |s| {
      assert rest[0] == s[i];
      assert !AllSpace(rest) by { assert !IsSpace(rest[0]); }
      assert r[0] == rest[0] && r[|r| - 1] == rest[|rest| - n - 1];
      assert !AllSpace(s) by { assert !IsSpace(s[i]); }
    } else {
      assert s[..i] == s;
    }
  }

  function DigitChar(d: nat): (c: char)
    requires d < 10
    ensures IsDigit(c)
  {
    ('0' as int + d) as char
  }

  function DigitValue(c: char): (d: nat)
    requires IsDigit(c)
    ensures d < 10 && DigitChar(d) == c
  {
    c as int - '0' as int
  }

  predicate AllDigits(s: string) { forall k :: 0 <= k < |s| ==> IsDigit(s[k]) }

  /** Python's `str(n)` for a non-negative integer: decimal digits, no leading zero. */
  function NatToString(n: nat): (r: string)
    ensures |r| >= 1 && AllDigits(r)
    ensures |r| > 1 ==> r[0] != '0'
  {
    if n < 10 then [DigitChar(n)] else NatToString(n / 10) + [DigitChar(n % 10)]
  }

  /** The number a string of decimal digits denotes. */
  function DecimalValue(s: string): nat
    requires AllDigits(s)
  {
    if s == [] then 0 else 10 * DecimalValue(s[..|s| - 1]) + DigitValue(s[|s| - 1])
  }

  /** Reading back the digits of `NatToString(n)` gives `n`. */
  lemma {:induction false} DecimalValueOfNatToString(n: nat)
    ensures DecimalValue(NatToString(n)) == n
  {
    var r := NatToString(n);
    if n >= 10 {
      DecimalValueOfNatToString(n / 10);
      assert r[..|r| - 1] == NatToString(n / 10);
    }
  }

  /** `DecimalValue` of a concatenation: the left part is shifted by the right part's length. */
  lemma {:induction false} DecimalValueAppend(a: string, b: string)
    requires AllDigits(a) && AllDigits(b)
    ensures AllDigits(a + b)
    ensures DecimalValue(a + b) == DecimalValue(a) * Pow10(|b|) + DecimalValue(b)
    decreases |b|
  {
    var c := a + b;
    assert AllDigits(c) by {
      assert forall k :: 0 <= k < |c| ==> c[k] == if k < |a| then a[k] else b[k - |a|];
    }
    if b != [] {
      var b' := b[..|b| - 1];
      var d := DigitValue(b[|b| - 1]);
      assert c[..|c| - 1] == a + b';
      DecimalValueAppend(a, b');
      var x, p, y := DecimalValue(a), Pow10(|b'|), DecimalValue(b');
      assert DecimalValue(c) == 10 * DecimalValue(a + b') + d;
      ShiftDigit(x, p, y, d);
    } else {
      assert c == a;
    }
  }

  /** One more digit on the right: the arithmetic step of `DecimalValueAppend`. */
  lemma ShiftDigit(x: int, p: int, y: int, d: int)
    ensures 10 * (x * p + y) + d == x * (10 * p) + (10 * y + d)
  {
    assert 10 * (x * p) == x * (10 * p);
  }

  function Pow10(d: nat): (p: nat)
    ensures p >= 1
  {
    if d == 0 then 1 else 10 * Pow10(d - 1)
  }
}
