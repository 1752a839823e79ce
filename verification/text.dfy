/**
 * The few string operations the poll code leans on: `trim`, ASCII case folding,
 * prefix tests, `String.prototype.replace` with a string pattern, decimal
 * rendering of integers and `padStart`.
 */
module Text {

  /** The characters `String.prototype.trim` strips, restricted to a fixed set:
      ASCII blanks and line ends, NBSP, BOM and the two Unicode line separators. */
  predicate IsSpace(c: char) {
    c == ' ' || c == '\t' || c == '\n' || c == '\r' || c == '\U{000B}' || c == '\U{000C}'
    || c == '\U{00A0}' || c == '\U{FEFF}' || c == '\U{2028}' || c == '\U{2029}'
  }

  predicate AllSpace(s: string) {
    forall i :: 0 <= i < |s| ==> IsSpace(s[i])
  }

  function TrimStart(s: string): (r: string)
    ensures |r| <= |s| && r == s[|s| - |r|..]
    ensures AllSpace(s[..|s| - |r|])
    ensures r == [] || !IsSpace(r[0])
  {
    if |s| > 0 && IsSpace(s[0]) then
      var r := TrimStart(s[1..]);
      assert s[1..][..|s| - 1 - |r|] == s[1..|s| - |r|];
      r
    else s
  }

  function TrimEnd(s: string): (r: string)
    ensures |r| <= |s| && r == s[..|r|]
    ensures AllSpace(s[|r|..])
    ensures r == [] || !IsSpace(r[|r| - 1])
  {
    if |s| > 0 && IsSpace(s[|s| - 1]) then
      var r := TrimEnd(s[..|s| - 1]);
      assert s[..|s| - 1][|r|..] == s[|r|..|s| - 1];
      assert s[|r|..] == s[|r|..|s| - 1] + [s[|s| - 1]];
      r
    else s
  }

  /** Slicing a suffix of `s` is slicing `s` itself. */
  lemma SuffixSlices(s: string, i: nat, k: nat)
    requires i + k <= |s|
    ensures s[i..][..k] == s[i..i + k] && s[i..][k..] == s[i + k..]
  {
  }

  /** `s.trim()`: `s` with its leading and trailing blanks removed. The result is a
      slice of `s`, everything cut off is blank, and it neither starts nor ends
      with a blank. */
  function Trim(s: string): (r: string)
    ensures exists i, j :: 0 <= i <= j <= |s| && r == s[i..j] && AllSpace(s[..i]) && AllSpace(s[j..])
    ensures r == [] || (!IsSpace(r[0]) && !IsSpace(r[|r| - 1]))
  {
    var a := TrimStart(s);
    var r := TrimEnd(a);
    var i, j := |s| - |a|, |s| - |a| + |r|;
    SuffixSlices(s, i, |r|);
    r
  }

  /** A string trims to nothing exactly when every character in it is blank. */
  lemma TrimEmptyIffBlank(s: string)
    ensures Trim(s) == [] <==> AllSpace(s)
  {
    if AllSpace(s) {
      BlankTrimsEmpty(s);
    }
    if Trim(s) == [] {
      EmptyTrimIsBlank(s);
    }
  }

  lemma BlankTrimsEmpty(s: string)
    requires AllSpace(s)
    ensures Trim(s) == []
  {
  }

  lemma EmptyTrimIsBlank(s: string)
    requires Trim(s) == []
    ensures AllSpace(s)
  {
    var a := TrimStart(s);
    assert TrimEnd(a) == [];
    assert a == [] by { assert a[0..] == a; }
    assert s[..|s|] == s;
  }

  /** A string with a non-blank character somewhere does not trim to nothing. */
  lemma TrimKeepsNonBlank(s: string, k: nat)
    requires k < |s| && !IsSpace(s[k])
    ensures Trim(s) != []
  {
    TrimEmptyIffBlank(s);
  }

  /** A string without blanks at either end trims to itself. */
  lemma TrimUnpadded(s: string)
    requires s == [] || (!IsSpace(s[0]) && !IsSpace(s[|s| - 1]))
    ensures Trim(s) == s
  {
    assert TrimStart(s) == s;
  }

  /** Trimming twice is trimming once. */
  lemma TrimIdempotent(s: string)
    ensures Trim(Trim(s)) == Trim(s)
  {
    var r := Trim(s);
    assert TrimStart(r) == r;
  }

  /** ASCII case folding, the part of `toLowerCase` this model keeps. */
  function LowerChar(c: char): char {
    if 'A' <= c <= 'Z' then (c as int - 'A' as int + 'a' as int) as char else c
  }

  function ToLower(s: string): (r: string)
    ensures |r| == |s|
  {
    seq(|s|, i requires 0 <= i < |s| => LowerChar(s[i]))
  }

  /** `s.startsWith(p)`. */
  predicate StartsWith(s: string, p: string) {
    |p| <= |s| && s[..|p|] == p
  }

  /** `s.replace(pat, rep)` with a string pattern: only the FIRST occurrence of
      `pat` is replaced; a string without `pat` is returned unchanged. */
  function ReplaceFirst(s: string, pat: string, rep: string): (r: string)
    decreases |s|
  {
    if StartsWith(s, pat) then rep + s[|pat|..]
    else if |s| <= |pat| then s
    else [s[0]] + ReplaceFirst(s[1..], pat, rep)
  }

  /** Removing a prefix that is there with `replace(prefix, '')` keeps the rest. */
  lemma ReplaceFirstStripsPrefix(p: string, rest: string)
    ensures ReplaceFirst(p + rest, p, "") == rest
  {
    assert (p + rest)[..|p|] == p;
    assert (p + rest)[|p|..] == rest;
  }

  function DigitChar(d: nat): char
    requires d < 10
  {
    ('0' as int + d) as char
  }

  predicate IsDigit(c: char) {
    '0' <= c <= '9'
  }

  function DigitValue(c: char): nat
    requires IsDigit(c)
  {
    c as int - '0' as int
  }

  /** `n.toString()` for a non-negative integer: decimal digits, no leading zero. */
  function NatToString(n: nat): (r: string)
    ensures |r| >= 1
    ensures forall i :: 0 <= i < |r| ==> IsDigit(r[i])
    ensures n < 10 <==> |r| == 1
    ensures n < 100 <==> |r| <= 2
  {
    if n < 10 then [DigitChar(n)] else NatToString(n / 10) + [DigitChar(n % 10)]
  }

  /** `Number(s)` for a string of decimal digits. */
  function ParseDigits(s: string): nat
    requires forall i :: 0 <= i < |s| ==> IsDigit(s[i])
  {
    if |s| == 0 then 0 else ParseDigits(s[..|s| - 1]) * 10 + DigitValue(s[|s| - 1])
  }

  /** Decimal rendering and parsing are inverse. */
  lemma {:induction false} NatToStringRoundTrip(n: nat)
    ensures ParseDigits(NatToString(n)) == n
  {
    if n >= 10 {
      var r := NatToString(n);
      assert r[..|r| - 1] == NatToString(n / 10);
      NatToStringRoundTrip(n / 10);
    }
  }

  /** Leading zeros do not change the parsed value. */
  lemma {:induction false} ParseDigitsLeadingZero(s: string)
    requires forall i :: 0 <= i < |s| ==> IsDigit(s[i])
    ensures ParseDigits("0" + s) == ParseDigits(s)
  {
    if |s| > 0 {
      assert ("0" + s)[..|s|] == "0" + s[..|s| - 1];
      ParseDigitsLeadingZero(s[..|s| - 1]);
    }
  }

  /** `Number.prototype.toString` for an integer: a minus sign and the digits of
      the magnitude for a negative value. */
  function IntToString(i: int): string {
    if i < 0 then "-" + NatToString(-i) else NatToString(i)
  }

  /** `s.padStart(width, fill)`: `fill` repeated in front until `s` is `width` long. */
  function PadStart(s: string, width: nat, fill: char): (r: string)
    ensures |s| >= width ==> r == s
    ensures |s| < width ==> |r| == width && r[width - |s|..] == s
    ensures forall i :: 0 <= i < |r| - |s| ==> r[i] == fill
    decreases width - |s|
  {
    if |s| >= width then s else PadStart([fill] + s, width, fill)
  }
}
