/** The string operations of the storefront: `toLowerCase` (as ASCII
    lower-casing), `includes`, the code-unit ordering used by
    `localeCompare` and the default `sort`, and integer formatting. */
module Strings {

  /** ASCII lower-casing of one character. */
  function LowerChar(c: char): char {
    if 'A' <= c <= 'Z' then (c as int + 32) as char else c
  }

  /** `s.toLowerCase()`, restricted to ASCII letters. */
  function Lower(s: string): (r: string)
    ensures |r| == |s|
    ensures forall i :: 0 <= i < |s| ==> r[i] == LowerChar(s[i])
  {
    seq(|s|, i requires 0 <= i < |s| => LowerChar(s[i]))
  }

  /** `part` occurs in `text` starting at index `i`. */
  predicate OccursAt(text: string, part: string, i: int) {
    0 <= i <= |text| - |part| && text[i..][..|part|] == part
  }

  predicate IsPrefix(part: string, text: string) {
    |part| <= |text| && text[..|part|] == part
  }

  /** `text.includes(part)`. */
  predicate Includes(text: string, part: string)
    decreases |text|
  {
    IsPrefix(part, text) || (text != [] && Includes(text[1..], part))
  }

  /** `includes` holds exactly when `part` occurs at some index of `text`. */
  lemma {:induction false} IncludesIffOccurs(text: string, part: string)
    ensures Includes(text, part) <==> exists i :: OccursAt(text, part, i)
    decreases |text|
  {
    if IsPrefix(part, text) {
      assert text[0..] == text;
      assert OccursAt(text, part, 0);
    } else if text == [] {
      assert |part| > 0;
    } else {
      IncludesIffOccurs(text[1..], part);
      if Includes(text[1..], part) {
        var i :| OccursAt(text[1..], part, i);
        assert text[1..][i..] == text[i + 1..];
        assert OccursAt(text, part, i + 1);
      }
      if i :| OccursAt(text, part, i) {
        assert i != 0 by { assert text[0..] == text; }
        assert text[1..][i - 1..] == text[i..];
        assert OccursAt(text[1..], part, i - 1);
      }
    }
  }

  /** Three-way lexicographic comparison by character code: -1, 0 or 1. */
  function LexCompare(x: string, y: string): (r: int)
    ensures -1 <= r <= 1
  {
    if x == [] then (if y == [] then 0 else -1)
    else if y == [] then 1
    else if x[0] < y[0] then -1
    else if x[0] > y[0] then 1
    else LexCompare(x[1..], y[1..])
  }

  lemma {:induction false} LexCompareZero(x: string, y: string)
    ensures LexCompare(x, y) == 0 <==> x == y
  {
    if x != [] && y != [] && x[0] == y[0] {
      LexCompareZero(x[1..], y[1..]);
      assert x == [x[0]] + x[1..] && y == [y[0]] + y[1..];
    }
  }

  lemma {:induction false} LexCompareFlip(x: string, y: string)
    ensures LexCompare(x, y) == -LexCompare(y, x)
  {
    if x != [] && y != [] && x[0] == y[0] {
      LexCompareFlip(x[1..], y[1..]);
    }
  }

  lemma {:induction false} LexCompareTransitive(x: string, y: string, z: string)
    requires LexCompare(x, y) <= 0 && LexCompare(y, z) <= 0
    ensures LexCompare(x, z) <= 0
  {
    if x != [] && y != [] && z != [] && x[0] == y[0] == z[0] {
      LexCompareTransitive(x[1..], y[1..], z[1..]);
    }
  }

  function DigitChar(d: nat): char
    requires d < 10
  {
    ('0' as int + d) as char
  }

  /** The number a string of decimal digits denotes, most significant digit first. */
  function DecimalValue(s: string): int
    decreases |s|
  {
    if s == [] then 0 else DecimalValue(s[..|s| - 1]) * 10 + (s[|s| - 1] as int - '0' as int)
  }

  /** The decimal text of a non-negative integer, as a template literal
      renders it: digits only, no leading zero, denoting `n`. */
  function DecimalString(n: nat): (r: string)
    ensures |r| >= 1
    ensures forall i :: 0 <= i < |r| ==> '0' <= r[i] <= '9'
    ensures |r| > 1 ==> r[0] != '0'
    ensures DecimalValue(r) == n
  {
    if n < 10 then [DigitChar(n)]
    else
      var init := DecimalString(n / 10);
      var r := init + [DigitChar(n % 10)];
      assert r[..|r| - 1] == init;
      r
  }
}
