/** The handful of Python `str` operations the modelled code relies on:
    `strip()`, `replace()`, `lower()`, the `in` substring test, `str(n)` for
    a natural number and `int(s)` for a decimal string. */
module Strings {
  import opened Common

  /** Python's `str.isspace()` for one character: the ASCII whitespace and
      separator controls plus the Unicode space separators. */
  predicate IsSpace(c: char) {
    || ('\t' <= c <= '\r')
    || ('\U{1C}' <= c <= '\U{1F}')
    || c == ' ' || c == '\U{85}' || c == '\U{A0}' || c == '\U{1680}'
    || ('\U{2000}' <= c <= '\U{200A}')
    || c == '\U{2028}' || c == '\U{2029}' || c == '\U{202F}' || c == '\U{205F}' || c == '\U{3000}'
  }

  /** Number of whitespace characters at the front of `s`. */
  function LeadingSpaces(s: string): (k: nat)
    ensures k <= |s|
    ensures forall i :: 0 <= i < k ==> IsSpace(s[i])
    ensures k < |s| ==> !IsSpace(s[k])
  {
    if |s| == 0 || !IsSpace(s[0]) then 0 else 1 + LeadingSpaces(s[1..])
  }

  /** Number of whitespace characters at the back of `s`. */
  function TrailingSpaces(s: string): (k: nat)
    ensures k <= |s|
    ensures forall i :: |s| - k <= i < |s| ==> IsSpace(s[i])
    ensures k < |s| ==> !IsSpace(s[|s| - 1 - k])
  {
    if |s| == 0 || !IsSpace(s[|s| - 1]) then 0 else 1 + TrailingSpaces(s[..|s| - 1])
  }

  /** Python's `s.strip()`: the slice of `s` left after dropping whitespace
      at both ends (`StripIsSlice`). */
  function Strip(s: string): (r: string)
    ensures |r| <= |s|
    ensures |r| > 0 ==> !IsSpace(r[0]) && !IsSpace(r[|r| - 1])
  {
    var i := LeadingSpaces(s);
    var t := s[i..];
    t[..|t| - TrailingSpaces(t)]
  }

  /** The stripped text is a slice of the input whose cut-off parts are
      all whitespace. */
  lemma StripIsSlice(s: string)
    ensures exists i, j :: && 0 <= i <= j <= |s| && Strip(s) == s[i..j]
                           && (forall k :: 0 <= k < i ==> IsSpace(s[k]))
                           && (forall k :: j <= k < |s| ==> IsSpace(s[k]))
  {
    var i := LeadingSpaces(s);
    var t := s[i..];
    var r := t[..|t| - TrailingSpaces(t)];
    assert r == s[i..i + |r|];
    assert forall k :: i + |r| <= k < |s| ==> s[k] == t[k - i];
  }

  /** Stripping a string with no whitespace at either end changes nothing. */
  lemma StripNoSpaces(s: string)
    requires |s| > 0 ==> !IsSpace(s[0]) && !IsSpace(s[|s| - 1])
    ensures Strip(s) == s
  {
  }

  /** One space on each side of a word is stripped away. */
  lemma StripPadded(w: string)
    requires |w| > 0 && !IsSpace(w[0]) && !IsSpace(w[|w| - 1])
    ensures Strip(" " + w + " ") == w
  {
    var s := " " + w + " ";
    assert s[0] == ' ' && s[1] == w[0];
    assert LeadingSpaces(s) == 1;
    var t := s[1..];
    assert t == w + " ";
    assert t[|t| - 1] == ' ' && t[|t| - 2] == w[|w| - 1];
    assert TrailingSpaces(t) == 1;
    assert t[..|t| - 1] == w;
  }

  /** Python's `s.replace(a, b)` for single characters. */
  function ReplaceChar(s: string, a: char, b: char): (r: string)
    ensures |r| == |s|
    ensures forall i :: 0 <= i < |s| ==> r[i] == (if s[i] == a then b else s[i])
  {
    if |s| == 0 then [] else [if s[0] == a then b else s[0]] + ReplaceChar(s[1..], a, b)
  }

  predicate IsUpperAscii(c: char) { 'A' <= c <= 'Z' }

  function LowerChar(c: char): char {
    if IsUpperAscii(c) then (c as int + 32) as char else c
  }

  /** Python's `s.lower()` restricted to ASCII letters. */
  function Lower(s: string): (r: string)
    ensures |r| == |s|
    ensures forall i :: 0 <= i < |s| ==> r[i] == LowerChar(s[i]) && !IsUpperAscii(r[i])
  {
    if |s| == 0 then [] else [LowerChar(s[0])] + Lower(s[1..])
  }

  /** `sub` occurs in `s` at position `k`. */
  predicate OccursAt(s: string, sub: string, k: nat) {
    k + |sub| <= |s| && s[k..k + |sub|] == sub
  }

  /** `sub` occurs in `s` starting at some position `k >= from`. */
  function ContainsFrom(s: string, sub: string, from: nat): (r: bool)
    decreases |s| - from
    ensures r <==> exists k: nat :: from <= k && OccursAt(s, sub, k)
  {
    if from + |sub| > |s| then false
    else if OccursAt(s, sub, from) then true
    else
      var r := ContainsFrom(s, sub, from + 1);
      assert forall k: nat :: from <= k && OccursAt(s, sub, k) ==> k == from || from + 1 <= k;
      r
  }

  /** Python's `sub in s`. */
  function Contains(s: string, sub: string): (r: bool)
    ensures r <==> exists k: nat :: OccursAt(s, sub, k)
  {
    ContainsFrom(s, sub, 0)
  }

  predicate IsDigit(c: char) { '0' <= c <= '9' }

  function DigitChar(d: nat): char
    requires d < 10
  {
    ('0' as int + d) as char
  }

  function DigitValue(c: char): nat
    requires IsDigit(c)
  {
    c as int - '0' as int
  }

  /** The number a non-empty run of decimal digits denotes. */
  function DigitsValue(ds: string): nat
    requires forall i :: 0 <= i < |ds| ==> IsDigit(ds[i])
  {
    if |ds| == 0 then 0 else DigitsValue(ds[..|ds| - 1]) * 10 + DigitValue(ds[|ds| - 1])
  }

  /** Python's `str(n)` for a natural number. */
  function NatToString(n: nat): (r: string)
    ensures |r| > 0
    ensures forall i :: 0 <= i < |r| ==> IsDigit(r[i])
    ensures |r| > 1 ==> r[0] != '0'
  {
    if n < 10 then [DigitChar(n)] else NatToString(n / 10) + [DigitChar(n % 10)]
  }

  /** Python's `int(s)` on text: surrounding whitespace, an optional sign and
      a non-empty run of ASCII digits; anything else raises (`None` here). */
  function ParseInt(s: string): (r: Option<int>)
  {
    var t := Strip(s);
    var signed := |t| > 0 && (t[0] == '-' || t[0] == '+');
    var ds := if signed then t[1..] else t;
    if |ds| == 0 || exists i :: 0 <= i < |ds| && !IsDigit(ds[i]) then None
    else
      var v: int := DigitsValue(ds);
      if signed && t[0] == '-' then Some(-v) else Some(v)
  }

  /** The digits `str(n)` writes denote `n`. */
  lemma {:induction false} DigitsOfNatToString(n: nat)
    ensures DigitsValue(NatToString(n)) == n
  {
    var r := NatToString(n);
    if n >= 10 {
      DigitsOfNatToString(n / 10);
      assert r[..|r| - 1] == NatToString(n / 10);
    }
  }

  /** `int(str(n)) == n`: the decimal rendering parses back. */
  lemma ParseIntOfNatToString(n: nat)
    ensures ParseInt(NatToString(n)) == Some(n)
  {
    var s := NatToString(n);
    assert IsDigit(s[0]) && IsDigit(s[|s| - 1]);
    StripNoSpaces(s);
    assert s[0] != '-' && s[0] != '+';
    DigitsOfNatToString(n);
  }
}
