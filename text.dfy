/**
 * Character and string helpers shared by the extractor and the normalizer:
 * ASCII digit tests (`str.isdigit`), ASCII case mapping (`str.lower`,
 * `str.capitalize`), the regular-expression class `\s` and `str.strip`.
 */
module Text {

  predicate IsDigit(c: char) { '0' <= c <= '9' }

  /** `s.isdigit()`: non-empty and every character a decimal digit. */
  predicate IsDigits(s: string) {
    |s| > 0 && forall k :: 0 <= k < |s| ==> IsDigit(s[k])
  }

  /**
   * The characters `\s` and `str.strip()` treat as whitespace (ASCII part):
   * space, tab, line feed, vertical tab, form feed, carriage return, and the
   * four separators U+001C to U+001F.
   */
  predicate IsSpace(c: char) {
    c == ' ' || '\t' <= c <= '\r' || '\U{001C}' <= c <= '\U{001F}'
  }

  function LowerChar(c: char): (d: char)
    ensures 'A' <= c <= 'Z' ==> 'a' <= d <= 'z'
    ensures !('A' <= c <= 'Z') ==> d == c
  {
    if 'A' <= c <= 'Z' then (c as int + 32) as char else c
  }

  function UpperChar(c: char): (d: char)
    ensures 'a' <= c <= 'z' ==> 'A' <= d <= 'Z'
    ensures !('a' <= c <= 'z') ==> d == c
  {
    if 'a' <= c <= 'z' then (c as int - 32) as char else c
  }

  function Lower(s: string): (r: string)
    ensures |r| == |s|
    ensures forall k :: 0 <= k < |s| ==> r[k] == LowerChar(s[k])
  {
    if s == [] then [] else [LowerChar(s[0])] + Lower(s[1..])
  }

  /** `s.capitalize()`: first character upper case, all the others lower case. */
  function Capitalize(s: string): (r: string)
    ensures |r| == |s|
    ensures |s| > 0 ==> r[0] == UpperChar(s[0])
    ensures forall k :: 0 < k < |s| ==> r[k] == LowerChar(s[k])
  {
    if s == [] then [] else [UpperChar(s[0])] + Lower(s[1..])
  }

  /** Two strings are equal up to ASCII letter case. */
  predicate SameIgnoringCase(s: string, t: string) {
    |s| == |t| && forall k :: 0 <= k < |s| ==> LowerChar(s[k]) == LowerChar(t[k])
  }

  /** Capitalizing depends only on the letters, not on their case. */
  lemma CapitalizeIgnoresCase(s: string, t: string)
    requires SameIgnoringCase(s, t)
    ensures Capitalize(s) == Capitalize(t)
  {
    var cs, ct := Capitalize(s), Capitalize(t);
    forall k | 0 <= k < |s| ensures cs[k] == ct[k] {
      assert LowerChar(s[k]) == LowerChar(t[k]);
      if k == 0 {
        assert UpperChar(s[0]) == UpperChar(t[0]);
      }
    }
  }

  /**
   * Python's `str.strip()` restricted to ASCII whitespace: the middle of `s`
   * between its leading and its trailing run of whitespace.
   */
  function Strip(s: string): (r: string)
    ensures exists a, b ::
      (0 <= a <= b <= |s| && r == s[a..b] &&
       (forall j :: 0 <= j < a ==> IsSpace(s[j])) && (forall j :: b <= j < |s| ==> IsSpace(s[j])))
    ensures |r| > 0 ==> !IsSpace(r[0]) && !IsSpace(r[|r| - 1])
  {
    var a := SpaceRun(s, 0);
    var b := ContentEnd(s, a, |s|);
    SpaceRunSpec(s, 0);
    s[a..b]
  }

  /** A text that neither starts nor ends with whitespace is its own strip. */
  lemma StripUnchanged(s: string)
    requires |s| > 0 && !IsSpace(s[0]) && !IsSpace(s[|s| - 1])
    ensures Strip(s) == s
  {
    assert SpaceRun(s, 0) == 0;
    assert ContentEnd(s, 0, |s|) == |s|;
  }

  /** The end of `s[a..e]` once its trailing whitespace is dropped. */
  function ContentEnd(s: string, a: nat, e: nat): (b: nat)
    requires a <= e <= |s|
    ensures a <= b <= e
    ensures forall j :: b <= j < e ==> IsSpace(s[j])
    ensures a < b ==> !IsSpace(s[b - 1])
    decreases e
  {
    if e == a || !IsSpace(s[e - 1]) then e else ContentEnd(s, a, e - 1)
  }

  /** `w` occurs in `t` starting at `i`, letter case included. */
  predicate OccursAt(t: string, i: nat, w: string) {
    i + |w| <= |t| && forall k :: 0 <= k < |w| ==> t[i + k] == w[k]
  }

  /** Substring test, as XPath's `contains()`. */
  predicate Contains(t: string, w: string) {
    exists i: nat :: i <= |t| && OccursAt(t, i, w)
  }

  /** Length of the run of whitespace characters starting at `i` (`\s*`, greedy). */
  function SpaceRun(s: string, i: nat): (n: nat)
    requires i <= |s|
    ensures i + n <= |s|
    decreases |s| - i
  {
    if i < |s| && IsSpace(s[i]) then 1 + SpaceRun(s, i + 1) else 0
  }

  /** The whitespace run is all whitespace and stops at the end or at a non-space. */
  lemma {:induction false} SpaceRunSpec(s: string, i: nat)
    requires i <= |s|
    ensures forall p :: i <= p < i + SpaceRun(s, i) ==> IsSpace(s[p])
    ensures i + SpaceRun(s, i) < |s| ==> !IsSpace(s[i + SpaceRun(s, i)])
    decreases |s| - i
  {
    if i < |s| && IsSpace(s[i]) {
      SpaceRunSpec(s, i + 1);
    }
  }

  /** Length of the run of digits starting at `i` (greedy, as `\d+`). */
  function DigitRun(s: string, i: nat): (n: nat)
    requires i <= |s|
    ensures i + n <= |s|
    decreases |s| - i
  {
    if i < |s| && IsDigit(s[i]) then 1 + DigitRun(s, i + 1) else 0
  }

  /** The digit run is all digits and stops at the end or at a non-digit. */
  lemma {:induction false} DigitRunSpec(s: string, i: nat)
    requires i <= |s|
    ensures forall p :: i <= p < i + DigitRun(s, i) ==> IsDigit(s[p])
    ensures i + DigitRun(s, i) < |s| ==> !IsDigit(s[i + DigitRun(s, i)])
    decreases |s| - i
  {
    if i < |s| && IsDigit(s[i]) {
      DigitRunSpec(s, i + 1);
    }
  }

  /** `s` from `i` on is a digit run of length `n` followed by the end or a non-digit. */
  lemma {:induction false} DigitRunOver(s: string, i: nat, n: nat)
    requires i + n <= |s|
    requires forall p :: i <= p < i + n ==> IsDigit(s[p])
    requires i + n == |s| || !IsDigit(s[i + n])
    ensures DigitRun(s, i) == n
    decreases n
  {
    if n > 0 {
      DigitRunOver(s, i + 1, n - 1);
    }
  }

  /** `s` from `i` on is a whitespace run of length `n` followed by the end or a non-space. */
  lemma {:induction false} SpaceRunOver(s: string, i: nat, n: nat)
    requires i + n <= |s|
    requires forall p :: i <= p < i + n ==> IsSpace(s[p])
    requires i + n == |s| || !IsSpace(s[i + n])
    ensures SpaceRun(s, i) == n
    decreases n
  {
    if n > 0 {
      SpaceRunOver(s, i + 1, n - 1);
    }
  }
}
