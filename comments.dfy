/**
 * The clean-up of the "Comments" column in `process_and_clean_data`: a
 * missing comment, or the text "nan" left by turning a missing value into
 * text, becomes "Not Assigned"; then every footnote marker such as "[3]" or
 * "[2.5]", with the whitespace after it, is removed by one left-to-right
 * pass of `\[\d+(\.\d+)?\]\s*`.
 */
module Comments {
  import opened Wrappers
  import opened Text
  import opened Frames

  const NotAssigned := "Not Assigned"

  /** The values `replace(["nan", pd.NA, None, float("nan")], ...)` and `fillna` map to "Not Assigned". */
  predicate IsMissing(c: Cell) {
    c.None? || c.value == "nan"
  }

  function DefaultComment(c: Cell): (t: string)
    ensures IsMissing(c) ==> t == NotAssigned
    ensures !IsMissing(c) ==> Some(t) == c
  {
    if IsMissing(c) then NotAssigned else c.value
  }

  // ---- the pattern `\[\d+(\.\d+)?\]\s*`, read as a set of texts ----

  /** `\d+(\.\d+)?`: digits, then optionally a point and more digits. */
  predicate IsDecimalNumber(u: string) {
    IsDigits(u) || exists k :: 0 < k < |u| && u[k] == '.' && IsDigits(u[..k]) && IsDigits(u[k + 1..])
  }

  /** `\[\d+(\.\d+)?\]`: a number in square brackets. */
  predicate IsBracketNumber(t: string) {
    |t| >= 3 && t[0] == '[' && t[|t| - 1] == ']' && IsDecimalNumber(t[1..|t| - 1])
  }

  /** The whole of `t` matches `\[\d+(\.\d+)?\]\s*`: a bracketed number, then whitespace only. */
  predicate IsMarker(t: string) {
    exists c :: 3 <= c <= |t| && IsBracketNumber(t[..c]) && forall j :: c <= j < |t| ==> IsSpace(t[j])
  }

  /** The `n` characters of `s` from `i` on match the pattern. */
  predicate MatchesAt(s: string, i: nat, n: nat) {
    i + n <= |s| && IsMarker(s[i..i + n])
  }

  /**
   * Length of the bracketed number `\[\d+(\.\d+)?\]` at `i`, if there is
   * one. The digit runs are maximal, so when the fraction is present but
   * not closed by ']' the pattern cannot fall back to the shorter form: that
   * form needs ']' where the text has '.'.
   */
  function BracketEnd(s: string, i: nat): (c: Option<nat>)
    requires i <= |s|
    ensures c.Some? ==> 3 <= c.value && i + c.value <= |s| && s[i] == '['
  {
    if i < |s| && s[i] == '[' then
      var d := DigitRun(s, i + 1);
      var j := i + 1 + d;
      if d == 0 || j == |s| then None
      else if s[j] == ']' then Some(d + 2)
      else if s[j] == '.' then
        var e := DigitRun(s, j + 1);
        var k := j + 1 + e;
        if e > 0 && k < |s| && s[k] == ']' then Some(d + e + 3) else None
      else None
    else None
  }

  /** Length of the marker match at `i`, if the pattern matches there: the bracketed number and all the whitespace after it. */
  function MarkerAt(s: string, i: nat): (n: Option<nat>)
    requires i <= |s|
    ensures n.Some? ==> 3 <= n.value && i + n.value <= |s| && s[i] == '['
  {
    match BracketEnd(s, i)
    case Some(c) => Some(c + SpaceRun(s, i + c))
    case None => None
  }

  /**
   * What `MarkerAt` reports is a match of the pattern that takes all the
   * whitespace after the bracket, as the greedy `\s*` does; when it reports
   * none, no text starting at `i` matches the pattern.
   */
  lemma MarkerAtSpec(s: string, i: nat)
    requires i <= |s|
    ensures MarkerAt(s, i).Some? ==> var n := MarkerAt(s, i).value;
      MatchesAt(s, i, n) && (i + n == |s| || !IsSpace(s[i + n]))
    ensures MarkerAt(s, i).None? ==> forall n: nat :: !MatchesAt(s, i, n)
  {
    if MarkerAt(s, i).Some? {
      var c := BracketEnd(s, i).value;
      BracketEndSound(s, i);
      SpaceRunSpec(s, i + c);
      MatchFromParts(s, i, c, MarkerAt(s, i).value);
    }
    forall n: nat | MatchesAt(s, i, n) ensures MarkerAt(s, i).Some? {
      MarkerAtComplete(s, i, n);
    }
  }

  /** A bracketed number then whitespace only: a match. */
  lemma MatchFromParts(s: string, i: nat, c: nat, n: nat)
    requires 3 <= c <= n && i + n <= |s| && IsBracketNumber(s[i..i + c])
    requires forall q :: i + c <= q < i + n ==> IsSpace(s[q])
    ensures MatchesAt(s, i, n)
  {
    var t := s[i..i + n];
    SliceOfSlice(s, i, n, 0, c);
    assert t[..c] == t[0..c];
    forall q | c <= q < |t| ensures IsSpace(t[q]) {
      assert t[q] == s[i + q];
    }
  }

  /** A match splits into a bracketed number and whitespace. */
  lemma PartsOfMatch(s: string, i: nat, n: nat) returns (c: nat)
    requires MatchesAt(s, i, n)
    ensures 3 <= c <= n && IsBracketNumber(s[i..i + c])
    ensures forall q :: i + c <= q < i + n ==> IsSpace(s[q])
  {
    var t := s[i..i + n];
    c :| 3 <= c <= |t| && IsBracketNumber(t[..c]) && forall j :: c <= j < |t| ==> IsSpace(t[j]);
    SliceOfSlice(s, i, n, 0, c);
    assert t[..c] == t[0..c];
    forall q | i + c <= q < i + n ensures IsSpace(s[q]) {
      assert s[q] == t[q - i];
    }
  }

  /** What `BracketEnd` reports is a bracketed number. */
  lemma BracketEndSound(s: string, i: nat)
    requires i <= |s| && BracketEnd(s, i).Some?
    ensures IsBracketNumber(s[i..i + BracketEnd(s, i).value])
  {
    var d := DigitRun(s, i + 1);
    DigitRunSpec(s, i + 1);
    var j := i + 1 + d;
    if s[j] == ']' {
      BracketWhole(s, i, d);
    } else {
      DigitRunSpec(s, j + 1);
      BracketFraction(s, i, d, DigitRun(s, j + 1));
    }
  }

  /** A slice of the slice `s[i..i + n]` as a slice of `s`. */
  lemma SliceOfSlice(s: string, i: nat, n: nat, a: nat, b: nat)
    requires a <= b <= n && i + n <= |s|
    ensures s[i..i + n][a..b] == s[i + a..i + b]
  {
    var x, y := s[i..i + n][a..b], s[i + a..i + b];
    forall q | 0 <= q < b - a ensures x[q] == y[q] {
      assert x[q] == s[i + a + q];
    }
  }

  lemma BracketWhole(s: string, i: nat, d: nat)
    requires 0 < d && i + d + 2 <= |s| && s[i] == '[' && s[i + d + 1] == ']'
    requires forall q :: i + 1 <= q < i + 1 + d ==> IsDigit(s[q])
    ensures IsBracketNumber(s[i..i + d + 2])
  {
    SliceOfSlice(s, i, d + 2, 1, d + 1);
    var u := s[i + 1..i + d + 1];
    assert forall q :: 0 <= q < |u| ==> u[q] == s[i + 1 + q];
  }

  lemma BracketFraction(s: string, i: nat, d: nat, e: nat)
    requires 0 < d && 0 < e && i + d + e + 3 <= |s|
    requires s[i] == '[' && s[i + 1 + d] == '.' && s[i + d + e + 2] == ']'
    requires forall q :: i + 1 <= q < i + 1 + d ==> IsDigit(s[q])
    requires forall q :: i + 2 + d <= q < i + 2 + d + e ==> IsDigit(s[q])
    ensures IsBracketNumber(s[i..i + d + e + 3])
  {
    var t := s[i..i + d + e + 3];
    var u := s[i + 1..i + d + e + 2];
    SliceOfSlice(s, i, d + e + 3, 1, d + e + 2);
    assert t[1..|t| - 1] == u;
    var u1, u2 := u[..d], u[d + 1..];
    assert IsDigits(u1) by {
      forall q | 0 <= q < |u1| ensures IsDigit(u1[q]) {
        assert u1[q] == s[i + 1 + q];
      }
    }
    assert IsDigits(u2) by {
      forall q | 0 <= q < |u2| ensures IsDigit(u2[q]) {
        assert u2[q] == s[i + 2 + d + q];
      }
    }
    assert u[d] == '.';
    assert IsDecimalNumber(u);
  }

  /** Any text at `i` that matches the pattern makes `MarkerAt` report a match, of that length when the whitespace is all taken. */
  lemma MarkerAtComplete(s: string, i: nat, n: nat)
    requires MatchesAt(s, i, n)
    ensures MarkerAt(s, i).Some?
    ensures i + n == |s| || !IsSpace(s[i + n]) ==> MarkerAt(s, i) == Some(n)
  {
    var c := PartsOfMatch(s, i, n);
    BracketAt(s, i, c);
    if i + n == |s| || !IsSpace(s[i + n]) {
      SpaceRunOver(s, i + c, n - c);
    }
  }

  /** A bracketed number at `i` is what `BracketEnd` finds there. */
  lemma BracketAt(s: string, i: nat, c: nat)
    requires i + c <= |s| && IsBracketNumber(s[i..i + c])
    ensures BracketEnd(s, i) == Some(c)
  {
    var b := s[i..i + c];
    var u := b[1..c - 1];
    SliceOfSlice(s, i, c, 1, c - 1);
    assert s[i] == b[0] && s[i + c - 1] == b[c - 1];
    if IsDigits(u) {
      WholeAt(s, i, c);
    } else {
      var k :| 0 < k < |u| && u[k] == '.' && IsDigits(u[..k]) && IsDigits(u[k + 1..]);
      FractionAt(s, i, c, k);
    }
  }

  lemma WholeAt(s: string, i: nat, c: nat)
    requires 3 <= c && i + c <= |s| && s[i] == '[' && s[i + c - 1] == ']'
    requires IsDigits(s[i + 1..i + c - 1])
    ensures BracketEnd(s, i) == Some(c)
  {
    var u := s[i + 1..i + c - 1];
    forall q | i + 1 <= q < i + c - 1 ensures IsDigit(s[q]) {
      assert s[q] == u[q - i - 1];
    }
    DigitRunOver(s, i + 1, c - 2);
  }

  lemma FractionAt(s: string, i: nat, c: nat, k: nat)
    requires 3 <= c && i + c <= |s| && s[i] == '[' && s[i + c - 1] == ']'
    requires 0 < k < c - 2
    requires s[i + 1..i + c - 1][k] == '.'
    requires IsDigits(s[i + 1..i + c - 1][..k]) && IsDigits(s[i + 1..i + c - 1][k + 1..])
    ensures BracketEnd(s, i) == Some(c)
  {
    var u := s[i + 1..i + c - 1];
    var u1, u2 := u[..k], u[k + 1..];
    forall q | i + 1 <= q < i + 1 + k ensures IsDigit(s[q]) {
      assert s[q] == u1[q - i - 1];
    }
    assert s[i + 1 + k] == u[k];
    forall q | i + 2 + k <= q < i + c - 1 ensures IsDigit(s[q]) {
      assert s[q] == u2[q - i - 2 - k];
    }
    DigitRunOver(s, i + 1, k);
    DigitRunOver(s, i + 2 + k, c - 3 - k);
  }

  /** `re.sub` from position `i`: each match is removed and scanning resumes after it. */
  function StripFrom(s: string, i: nat): (r: string)
    requires i <= |s|
    ensures |r| <= |s| - i
    decreases |s| - i
  {
    if i == |s| then []
    else match MarkerAt(s, i)
      case Some(n) => StripFrom(s, i + n)
      case None => [s[i]] + StripFrom(s, i + 1)
  }

  /** `re.sub` over the whole text: it changes the text exactly when a marker occurs in it. */
  function StripMarkers(s: string): (t: string)
    ensures |t| <= |s|
    ensures t == s <==> NoMarkerFrom(s, 0)
  {
    StripUnchangedIff(s);
    StripFrom(s, 0)
  }

  /** The comment as the cleaned frame holds it: a missing comment reads "Not Assigned". */
  function CleanComment(c: Cell): (t: string)
    ensures IsMissing(c) ==> t == NotAssigned
    ensures !IsMissing(c) ==> |t| <= |c.value| && (t == c.value <==> NoMarkerFrom(c.value, 0))
  {
    NotAssignedHasNoMarker();
    StripMarkers(DefaultComment(c))
  }

  /** No marker starts at or after `i`. */
  predicate NoMarkerFrom(s: string, i: nat)
    requires i <= |s|
  {
    forall j :: i <= j < |s| ==> MarkerAt(s, j).None?
  }

  // ---- properties ----

  lemma {:induction false} StripFromUnchanged(s: string, i: nat)
    requires i <= |s| && NoMarkerFrom(s, i)
    ensures StripFrom(s, i) == s[i..]
    decreases |s| - i
  {
    if i < |s| {
      StripFromUnchanged(s, i + 1);
      assert s[i..] == [s[i]] + s[i + 1..];
    }
  }

  lemma {:induction false} StripFromShortens(s: string, i: nat, j: nat)
    requires i <= j < |s| && MarkerAt(s, j).Some?
    ensures |StripFrom(s, i)| < |s| - i
    decreases |s| - i
  {
    if MarkerAt(s, i).None? {
      assert i < j;
      StripFromShortens(s, i + 1, j);
    }
  }

  /** The pass changes a text exactly when a marker occurs in it. */
  lemma StripUnchangedIff(s: string)
    ensures StripFrom(s, 0) == s <==> NoMarkerFrom(s, 0)
  {
    if NoMarkerFrom(s, 0) {
      StripFromUnchanged(s, 0);
    } else {
      var j :| 0 <= j < |s| && MarkerAt(s, j).Some?;
      StripFromShortens(s, 0, j);
    }
  }

  /** A text without '[' is left alone; "Not Assigned" is one. */
  lemma NoBracketUnchanged(s: string)
    requires forall i :: 0 <= i < |s| ==> s[i] != '['
    ensures StripMarkers(s) == s
  {
    assert NoMarkerFrom(s, 0) by {
      forall j | 0 <= j < |s| ensures MarkerAt(s, j).None? {
        assert s[j] != '[';
      }
    }
  }

  lemma NotAssignedHasNoMarker()
    ensures NoMarkerFrom(NotAssigned, 0)
  {
    forall j | 0 <= j < |NotAssigned| ensures MarkerAt(NotAssigned, j).None? {
      assert NotAssigned[j] != '[';
    }
  }

  /**
   * A single pass can leave a marker behind: in "[[1]2]" the inner "[1]" is
   * removed, which assembles the marker "[2]".
   */
  lemma StripNotIdempotent()
    ensures StripMarkers("[[1]2]") == "[2]"
    ensures StripMarkers("[2]") == ""
  {
    var s := "[[1]2]";
    assert MarkerAt(s, 0).None? by { assert DigitRun(s, 1) == 0; }
    assert DigitRun(s, 2) == 1 by { assert DigitRun(s, 3) == 0; }
    assert SpaceRun(s, 4) == 0;
    assert MarkerAt(s, 1) == Some(3);
    assert MarkerAt(s, 4).None? && MarkerAt(s, 5).None?;
    var t := "[2]";
    assert DigitRun(t, 1) == 1 by { assert DigitRun(t, 2) == 0; }
    assert SpaceRun(t, 3) == 0;
    assert MarkerAt(t, 0) == Some(3);
  }

  /** A marker with a fraction and the spaces after it go, the rest stays. */
  lemma StripsMarkerAndSpaces()
    ensures StripMarkers("[2.5]  ok") == "ok"
  {
    var s := "[2.5]  ok";
    assert DigitRun(s, 1) == 1 by { assert DigitRun(s, 2) == 0; }
    assert DigitRun(s, 3) == 1 by { assert DigitRun(s, 4) == 0; }
    assert SpaceRun(s, 5) == 2 by { assert SpaceRun(s, 7) == 0; }
    assert MarkerAt(s, 0) == Some(7);
    assert MarkerAt(s, 7).None? && MarkerAt(s, 8).None?;
  }

  /** An unclosed fraction is no marker. */
  lemma UnclosedFractionKept()
    ensures StripMarkers("[1.]") == "[1.]"
  {
    var s := "[1.]";
    assert DigitRun(s, 1) == 1 by { assert DigitRun(s, 2) == 0; }
    assert DigitRun(s, 3) == 0;
    assert NoMarkerFrom(s, 0);
    StripUnchangedIff(s);
  }

  // ---- the pass, character by character ----

  lemma StripFromSkip(s: string, i: nat, n: nat)
    requires i < |s| && MarkerAt(s, i) == Some(n)
    ensures i + n <= |s| && StripFrom(s, i) == StripFrom(s, i + n)
  {
  }

  lemma StripFromKeep(s: string, i: nat)
    requires i < |s| && MarkerAt(s, i).None?
    ensures StripFrom(s, i) == [s[i]] + StripFrom(s, i + 1)
  {
  }

  /** The digit and whitespace runs only look forward, so a suffix sees the same runs. */
  lemma {:induction false} RunsShift(s: string, d: nat, i: nat)
    requires d <= i <= |s|
    ensures DigitRun(s, i) == DigitRun(s[d..], i - d)
    ensures SpaceRun(s, i) == SpaceRun(s[d..], i - d)
    decreases |s| - i
  {
    if i < |s| {
      assert s[d..][i - d] == s[i];
      RunsShift(s, d, i + 1);
    }
  }

  lemma MarkerAtShift(s: string, d: nat, i: nat)
    requires d <= i <= |s|
    ensures MarkerAt(s, i) == MarkerAt(s[d..], i - d)
  {
    var t := s[d..];
    if i < |s| && s[i] == '[' {
      assert t[i - d] == s[i];
      RunsShift(s, d, i + 1);
      var j := i + 1 + DigitRun(s, i + 1);
      if j < |s| {
        assert t[j - d] == s[j];
        RunsShift(s, d, j + 1);
        var k := j + 1 + DigitRun(s, j + 1);
        if k < |s| {
          assert t[k - d] == s[k];
        }
      }
    }
    assert BracketEnd(s, i) == BracketEnd(t, i - d);
    if BracketEnd(s, i).Some? {
      RunsShift(s, d, i + BracketEnd(s, i).value);
    }
  }

  /** The pass from `i` on depends only on the text from `d` on. */
  lemma {:induction false} StripFromShift(s: string, d: nat, i: nat)
    requires d <= i <= |s|
    ensures StripFrom(s, i) == StripFrom(s[d..], i - d)
    decreases |s| - i
  {
    if i < |s| {
      var next, kept := StepBoth(s, d, i);
      StripFromShift(s, d, next);
    }
  }

  /** The pass from `i` keeps `kept` and then goes on as the pass from `next`. */
  predicate StepsTo(s: string, i: nat, kept: string, next: nat)
    requires i <= next <= |s|
  {
    StripFrom(s, i) == kept + StripFrom(s, next)
  }

  /**
   * One step of the pass is the same on the text and on its suffix from
   * `d`: both keep `kept` and continue at `next`, past the marker or the
   * kept character.
   */
  lemma StepBoth(s: string, d: nat, i: nat) returns (next: nat, kept: string)
    requires d <= i < |s|
    ensures i < next <= |s|
    ensures StepsTo(s, i, kept, next) && StepsTo(s[d..], i - d, kept, next - d)
  {
    if MarkerAt(s, i).Some? {
      next, kept := SkipBoth(s, d, i);
    } else {
      next, kept := KeepBoth(s, d, i);
    }
  }

  lemma SkipBoth(s: string, d: nat, i: nat) returns (next: nat, kept: string)
    requires d <= i < |s| && MarkerAt(s, i).Some?
    ensures i < next <= |s|
    ensures StepsTo(s, i, kept, next) && StepsTo(s[d..], i - d, kept, next - d)
  {
    var n := MarkerAt(s, i).value;
    MarkerAtShift(s, d, i);
    SkipStep(s, i, n);
    SkipStep(s[d..], i - d, n);
    next, kept := i + n, [];
    assert next - d == i - d + n;
  }

  lemma KeepBoth(s: string, d: nat, i: nat) returns (next: nat, kept: string)
    requires d <= i < |s| && MarkerAt(s, i).None?
    ensures i < next <= |s|
    ensures StepsTo(s, i, kept, next) && StepsTo(s[d..], i - d, kept, next - d)
  {
    var t := s[d..];
    MarkerAtShift(s, d, i);
    KeepStep(s, i);
    KeepStep(t, i - d);
    assert t[i - d] == s[i];
    next, kept := i + 1, [s[i]];
    assert next - d == i - d + 1;
  }

  lemma SkipStep(s: string, i: nat, n: nat)
    requires i < |s| && MarkerAt(s, i) == Some(n)
    ensures 0 < n && i + n <= |s| && StepsTo(s, i, [], i + n)
  {
    StripFromSkip(s, i, n);
    assert [] + StripFrom(s, i + n) == StripFrom(s, i + n);
  }

  lemma KeepStep(s: string, i: nat)
    requires i < |s| && MarkerAt(s, i).None?
    ensures StepsTo(s, i, [s[i]], i + 1)
  {
    StripFromKeep(s, i);
  }



  /** Where no marker starts, the characters are kept. */
  lemma {:induction false} StripFromKeeps(s: string, i: nat, e: nat)
    requires i <= e <= |s|
    requires forall j :: i <= j < e ==> MarkerAt(s, j).None?
    ensures StripFrom(s, i) == s[i..e] + StripFrom(s, e)
    decreases e - i
  {
    if i < e {
      StripFromKeeps(s, i + 1, e);
      KeepOne(s, i, e, StripFrom(s, e));
    }
  }

  lemma KeepOne(s: string, i: nat, e: nat, rest: string)
    requires i < e <= |s| && MarkerAt(s, i).None?
    requires StripFrom(s, i + 1) == s[i + 1..e] + rest
    ensures StripFrom(s, i) == s[i..e] + rest
  {
    StripFromKeep(s, i);
    assert s[i..e] == [s[i]] + s[i + 1..e];
  }

  /**
   * The pass reads left to right: the text before the first marker is kept,
   * the marker with all the whitespace after it is removed, and the pass
   * goes on with the rest.
   */
  lemma RemovesFirstMarker(p: string, m: string, q: string)
    requires forall j: nat, n: nat :: j < |p| ==> !MatchesAt(p + m + q, j, n)
    requires IsMarker(m) && (q == [] || !IsSpace(q[0]))
    ensures StripMarkers(p + m + q) == p + StripMarkers(q)
  {
    KeepsPrefix(p, m, q);
    SkipsMarker(p, m, q);
  }

  /** Where no match starts, the text in front of the marker is kept. */
  lemma KeepsPrefix(p: string, m: string, q: string)
    requires forall j: nat, n: nat :: j < |p| ==> !MatchesAt(p + m + q, j, n)
    ensures StripFrom(p + m + q, 0) == p + StripFrom(p + m + q, |p|)
  {
    var s := p + m + q;
    forall j | 0 <= j < |p| ensures MarkerAt(s, j).None? {
      MarkerAtSpec(s, j);
    }
    StripFromKeeps(s, 0, |p|);
    assert s[0..|p|] == p;
  }

  /** The marker and the whitespace after it go; the pass goes on with the rest as if on its own. */
  lemma SkipsMarker(p: string, m: string, q: string)
    requires IsMarker(m) && (q == [] || !IsSpace(q[0]))
    ensures StripFrom(p + m + q, |p|) == StripFrom(q, 0)
  {
    var s := p + m + q;
    MarkerInFront(p, m, q);
    SkipStep(s, |p|, |m|);
    assert s[|p| + |m|..] == q;
    SuffixStrip(s, |p| + |m|, q);
  }


  /** The pass from `i` on is the pass over the suffix from `i`. */
  lemma SuffixStrip(s: string, i: nat, t: string)
    requires i <= |s| && s[i..] == t
    ensures StripFrom(s, i) == StripFrom(t, 0)
  {
    StripFromShift(s, i, i);
  }

  /** A marker followed by no whitespace is what `MarkerAt` reports, whole. */
  lemma MarkerInFront(p: string, m: string, q: string)
    requires IsMarker(m) && (q == [] || !IsSpace(q[0]))
    ensures |p| < |p + m + q| && MarkerAt(p + m + q, |p|) == Some(|m|)
  {
    var s := p + m + q;
    assert s[|p|..|p| + |m|] == m;
    if q != [] {
      assert s[|p| + |m|] == q[0];
    }
    MarkerAtComplete(s, |p|, |m|);
  }
}
