/**
 * The string operations the user store relies on: case folding, Java's
 * `trim()`-based blank test, substring containment and `Long.toString`.
 * Case folding is ASCII only (see README).
 */
module Text {
  import opened Wrappers

  // ---------------------------------------------------------------- case folding

  /** Lower-cases an ASCII capital letter; every other character is unchanged. */
  function LowerChar(c: char): char {
    if 'A' <= c <= 'Z' then (c as int + 32) as char else c
  }

  /** Character-by-character lower-casing, the model of SQL `LOWER` and Java `toLowerCase`. */
  function Lower(s: string): (r: string)
    ensures |r| == |s|
    ensures forall i :: 0 <= i < |s| ==> r[i] == LowerChar(s[i])
  {
    if |s| == 0 then [] else [LowerChar(s[0])] + Lower(s[1..])
  }

  /** Lower-casing distributes over concatenation. */
  lemma LowerConcat(a: string, b: string)
    ensures Lower(a + b) == Lower(a) + Lower(b)
  {
    assert forall i :: 0 <= i < |a + b| ==> Lower(a + b)[i] == (Lower(a) + Lower(b))[i];
  }

  // ---------------------------------------------------------------- blank strings

  /** Java's `Character <= ' '` test used by `String.trim()`. */
  predicate IsTrimmed(c: char) {
    c <= ' '
  }

  /** Drops leading characters at or below the space character. */
  function TrimStart(s: string): (r: string)
    ensures |r| <= |s| && r == s[|s| - |r|..]
    ensures |r| > 0 ==> !IsTrimmed(r[0])
    ensures forall i :: 0 <= i < |s| - |r| ==> IsTrimmed(s[i])
  {
    if |s| > 0 && IsTrimmed(s[0]) then TrimStart(s[1..]) else s
  }

  /** Drops trailing characters at or below the space character. */
  function TrimEnd(s: string): (r: string)
    ensures |r| <= |s| && r == s[..|r|]
    ensures |r| > 0 ==> !IsTrimmed(r[|r| - 1])
    ensures forall i :: |r| <= i < |s| ==> IsTrimmed(s[i])
  {
    if |s| > 0 && IsTrimmed(s[|s| - 1]) then TrimEnd(s[..|s| - 1]) else s
  }

  /** Java's `String.trim()`: strips both ends. */
  function Trim(s: string): string {
    TrimEnd(TrimStart(s))
  }

  /** Every character is whitespace or a control character. */
  predicate IsBlank(s: string) {
    forall i :: 0 <= i < |s| ==> IsTrimmed(s[i])
  }

  /** `s` has no `';'`. */
  predicate Semicolonless(s: string) {
    forall i :: 0 <= i < |s| ==> s[i] != ';'
  }

  /** A string is blank exactly when trimming leaves nothing: the test Bean Validation's `@NotBlank` applies. */
  lemma TrimEmptyIffBlank(s: string)
    ensures |Trim(s)| == 0 <==> IsBlank(s)
  {
    var t := TrimStart(s);
    if |Trim(s)| == 0 {
      assert |t| == 0;
    } else {
      var k :| 0 <= k < |Trim(s)|;
      assert Trim(s)[0] == t[0] == s[|s| - |t|];
    }
  }

  // ---------------------------------------------------------------- substrings

  /** `p` is a prefix of `s`. */
  predicate IsPrefix(p: string, s: string) {
    |p| <= |s| && s[..|p|] == p
  }

  /** `f` occurs in `s` as a contiguous run of characters: Java's `String.contains`. */
  predicate Contains(s: string, f: string)
    decreases |s|
  {
    IsPrefix(f, s) || (|s| > 0 && Contains(s[1..], f))
  }

  /** Reference definition of an occurrence: `f` equals the slice of `s` starting at some position. */
  ghost predicate Occurs(s: string, f: string) {
    exists i :: OccursAt(s, f, i)
  }

  ghost predicate OccursAt(s: string, f: string, i: int) {
    0 <= i <= |s| - |f| && s[i..i + |f|] == f
  }

  lemma {:induction false} ContainsImpliesOccurs(s: string, f: string)
    requires Contains(s, f)
    ensures Occurs(s, f)
    decreases |s|
  {
    if IsPrefix(f, s) {
      assert OccursAt(s, f, 0);
    } else {
      ContainsImpliesOccurs(s[1..], f);
      var i :| OccursAt(s[1..], f, i);
      assert s[i + 1..i + 1 + |f|] == f;
      assert OccursAt(s, f, i + 1);
    }
  }

  lemma {:induction false} OccursImpliesContains(s: string, f: string)
    requires Occurs(s, f)
    ensures Contains(s, f)
    decreases |s|
  {
    var i :| OccursAt(s, f, i);
    if i > 0 {
      assert s[1..][i - 1..i - 1 + |f|] == f;
      assert OccursAt(s[1..], f, i - 1);
      OccursImpliesContains(s[1..], f);
    }
  }

  /** The scanning definition of containment agrees with the slice definition. */
  lemma ContainsIffOccurs(s: string, f: string)
    ensures Contains(s, f) <==> Occurs(s, f)
  {
    if Contains(s, f) {
      ContainsImpliesOccurs(s, f);
    }
    if Occurs(s, f) {
      OccursImpliesContains(s, f);
    }
  }

  // ---------------------------------------------------------------- decimal numbers

  function DigitChar(d: nat): (c: char)
    requires d < 10
    ensures '0' <= c <= '9'
  {
    ('0' as int + d) as char
  }

  predicate IsDigit(c: char) {
    '0' <= c <= '9'
  }

  /** Decimal digits of a natural number, most significant first, without leading zeros. */
  function NatToDecimal(n: nat): (r: string)
    ensures |r| >= 1
    ensures forall i :: 0 <= i < |r| ==> IsDigit(r[i])
    decreases n
  {
    if n < 10 then [DigitChar(n)] else NatToDecimal(n / 10) + [DigitChar(n % 10)]
  }

  /** Java's `Long.toString` (via string concatenation) for the value of a `long`. */
  function DecimalString(n: int): string {
    if n < 0 then "-" + NatToDecimal(-n) else NatToDecimal(n)
  }

  function DigitValue(c: char): (d: nat)
    requires IsDigit(c)
    ensures d < 10
  {
    c as int - '0' as int
  }

  /** The value of a string of decimal digits. */
  function DigitsValue(s: string): nat
    requires forall i :: 0 <= i < |s| ==> IsDigit(s[i])
  {
    if |s| == 0 then 0 else DigitsValue(s[..|s| - 1]) * 10 + DigitValue(s[|s| - 1])
  }

  /** Reads back an optionally signed decimal number; `None` for anything else. */
  function ParseLong(s: string): Option<int> {
    if |s| > 1 && s[0] == '-' && forall i :: 1 <= i < |s| ==> IsDigit(s[i]) then
      Some(0 - DigitsValue(s[1..]))
    else if |s| > 0 && forall i :: 0 <= i < |s| ==> IsDigit(s[i]) then
      Some(DigitsValue(s))
    else
      None
  }

  lemma {:induction false} NatToDecimalValue(n: nat)
    ensures DigitsValue(NatToDecimal(n)) == n
    decreases n
  {
    if n >= 10 {
      NatToDecimalValue(n / 10);
      var r := NatToDecimal(n);
      assert r[..|r| - 1] == NatToDecimal(n / 10);
    }
  }

  /** Rendering an id and reading it back gives the id: a message that includes the rendering identifies the id. */
  lemma DecimalRoundTrip(n: int)
    ensures ParseLong(DecimalString(n)) == Some(n)
  {
    if n < 0 {
      NegativeRoundTrip(-n);
    } else {
      var digits := NatToDecimal(n);
      ParseUnsigned(digits);
      NatToDecimalValue(n);
    }
  }

  lemma NegativeRoundTrip(m: nat)
    requires m > 0
    ensures ParseLong("-" + NatToDecimal(m)) == Some(0 - m)
  {
    ParseNegative(NatToDecimal(m));
    NatToDecimalValue(m);
  }

  lemma ParseNegative(digits: string)
    requires |digits| > 0 && forall i :: 0 <= i < |digits| ==> IsDigit(digits[i])
    ensures ParseLong("-" + digits) == Some(0 - DigitsValue(digits))
  {
    var s := "-" + digits;
    assert s[1..] == digits;
  }

  lemma ParseUnsigned(digits: string)
    requires |digits| > 0 && forall i :: 0 <= i < |digits| ==> IsDigit(digits[i])
    ensures ParseLong(digits) == Some(DigitsValue(digits))
  {
    assert digits[0] != '-';
  }
}
