/**
 * ASCII character classes with the meaning Python's `re` and `str` give them
 * on ASCII text: `\d`, `\w`, `\s`, `str.isspace`, `str.isalpha` and
 * `str.lower`, together with the maximal-run scanners the regular
 * expressions of the source are built from.
 */
module Ascii {

  predicate IsDigit(c: char) { '0' <= c <= '9' }

  predicate IsUpper(c: char) { 'A' <= c <= 'Z' }

  predicate IsLowerLetter(c: char) { 'a' <= c <= 'z' }

  /** `str.isalpha` */
  predicate IsAlpha(c: char) { IsUpper(c) || IsLowerLetter(c) }

  /** `\w`: letters, digits and the underscore. */
  predicate IsWordChar(c: char) { IsAlpha(c) || IsDigit(c) || c == '_' }

  /** `\s` and `str.isspace`: space, tab to carriage return, and the separators 0x1C to 0x1F. */
  predicate IsSpace(c: char) { c == ' ' || 9 <= c as int <= 13 || 28 <= c as int <= 31 }

  predicate AllDigits(s: string) { forall i :: 0 <= i < |s| ==> IsDigit(s[i]) }

  predicate AllSpaces(s: string) { forall i :: 0 <= i < |s| ==> IsSpace(s[i]) }

  /** `str.lower` on one character. */
  function LowerChar(c: char): (d: char)
    ensures IsUpper(c) ==> IsLowerLetter(d) && d as int == c as int + 32
    ensures !IsUpper(c) ==> d == c
  {
    if IsUpper(c) then (c as int + 32) as char else c
  }

  /** `str.lower` */
  function Lower(s: string): (r: string)
    ensures |r| == |s|
    ensures forall i :: 0 <= i < |s| ==> r[i] == LowerChar(s[i])
  {
    seq(|s|, i requires 0 <= i < |s| => LowerChar(s[i]))
  }

  lemma LowerConcat(a: string, b: string)
    ensures Lower(a + b) == Lower(a) + Lower(b)
  {
    assert forall i :: 0 <= i < |a + b| ==> Lower(a + b)[i] == (Lower(a) + Lower(b))[i];
  }

  /** Lowering leaves a string without upper-case letters as it is. */
  lemma LowerNoUpper(s: string)
    requires forall i :: 0 <= i < |s| ==> !IsUpper(s[i])
    ensures Lower(s) == s
  {
  }

  /** The value of a decimal digit, 0 for any other character. */
  function DigitValue(c: char): (v: nat)
    ensures v <= 9
  {
    if IsDigit(c) then c as int - '0' as int else 0
  }

  /** The natural number a string of decimal digits denotes ("" denotes 0). */
  function DigitsValue(d: string): nat
  {
    if d == [] then 0 else DigitsValue(d[..|d| - 1]) * 10 + DigitValue(d[|d| - 1])
  }

  /**
   * The value of the digits after a decimal point: "5" is 0.5, "25" is 0.25.
   * Each digit counts a tenth of what the one before it counts, so the value
   * is below one.
   */
  function FractionValue(f: string): (v: real)
    ensures 0.0 <= v < 1.0
  {
    if f == [] then 0.0
    else (DigitValue(f[0]) as real + FractionValue(f[1..])) / 10.0
  }

  /** End of the maximal run of digits starting at `i` (`\d*`, greedy). */
  function DigitRunEnd(s: string, i: nat): (j: nat)
    requires i <= |s|
    ensures i <= j <= |s|
    ensures AllDigits(s[i..j])
    ensures j < |s| ==> !IsDigit(s[j])
    decreases |s| - i
  {
    if i < |s| && IsDigit(s[i]) then DigitRunEnd(s, i + 1) else i
  }

  /** End of the maximal run of whitespace starting at `i` (`\s*`, greedy). */
  function SpaceRunEnd(s: string, i: nat): (j: nat)
    requires i <= |s|
    ensures i <= j <= |s|
    ensures AllSpaces(s[i..j])
    ensures j < |s| ==> !IsSpace(s[j])
    decreases |s| - i
  {
    if i < |s| && IsSpace(s[i]) then SpaceRunEnd(s, i + 1) else i
  }

  /** A run of digits that ends at `j` is the maximal run: `DigitRunEnd` finds exactly `j`. */
  lemma {:induction false} DigitRunEndExact(s: string, i: nat, j: nat)
    requires i <= j <= |s| && AllDigits(s[i..j])
    requires j == |s| || !IsDigit(s[j])
    ensures DigitRunEnd(s, i) == j
    decreases j - i
  {
    if i < j {
      assert IsDigit(s[i..j][0]);
      assert s[i + 1..j] == s[i..j][1..];
      DigitRunEndExact(s, i + 1, j);
    }
  }
}
