/**
 * The section-heading pattern `(Paid|Refused|In Hold)\s+Records`, searched
 * case-insensitively, and the record-type tag taken from its first group.
 */
module Heading {
  import opened Wrappers
  import opened Text

  datatype RecordKind = Paid | Refused | InHold

  /** The text the alternative of group 1 spells, in lower case. */
  function Word(k: RecordKind): string {
    match k
    case Paid => "paid"
    case Refused => "refused"
    case InHold => "in hold"
  }

  /** The tag `group(1).capitalize()` yields for each alternative. */
  function TagName(k: RecordKind): string {
    match k
    case Paid => "Paid"
    case Refused => "Refused"
    case InHold => "In hold"
  }

  predicate IsTag(t: string) {
    t == "Paid" || t == "Refused" || t == "In hold"
  }

  /** `w` matches case-insensitively at position `i` of `s`. */
  predicate WordAt(s: string, i: nat, w: string) {
    i + |w| <= |s| && forall k :: 0 <= k < |w| ==> LowerChar(s[i + k]) == w[k]
  }

  /**
   * Whether the whole pattern matches at position `i` using alternative `k`:
   * the word, one or more whitespace characters, then "records". Since
   * "records" does not start with whitespace, the greedy `\s+` never needs to
   * give characters back.
   */
  predicate AltMatchesAt(s: string, i: nat, k: RecordKind) {
    WordAt(s, i, Word(k)) &&
    var j := i + |Word(k)|;
    var n := SpaceRun(s, j);
    n >= 1 && WordAt(s, j + n, "records")
  }

  /** The alternative that matches at `i`, tried in the pattern's order; none when no alternative matches there. */
  function MatchAt(s: string, i: nat): (m: Option<RecordKind>)
    ensures m.Some? ==> AltMatchesAt(s, i, m.value)
    ensures m.None? ==> forall k :: !AltMatchesAt(s, i, k)
  {
    if AltMatchesAt(s, i, Paid) then Some(Paid)
    else if AltMatchesAt(s, i, Refused) then Some(Refused)
    else if AltMatchesAt(s, i, InHold) then Some(InHold)
    else
      NoAlternative(s, i);
      None
  }

  lemma NoAlternative(s: string, i: nat)
    requires !AltMatchesAt(s, i, Paid) && !AltMatchesAt(s, i, Refused) && !AltMatchesAt(s, i, InHold)
    ensures forall k :: !AltMatchesAt(s, i, k)
  {
    forall k ensures !AltMatchesAt(s, i, k) {
      match k
      case Paid =>
      case Refused =>
      case InHold =>
    }
  }

  datatype Match = Match(kind: RecordKind, start: nat)

  /**
   * `re.search` from position `i` on: the leftmost position where the
   * pattern matches, and none exactly when it matches nowhere from `i` on.
   */
  function SearchFrom(s: string, i: nat): (m: Option<Match>)
    requires i <= |s|
    ensures m.Some? ==> i <= m.value.start <= |s| && MatchAt(s, m.value.start) == Some(m.value.kind)
    decreases |s| - i
  {
    match MatchAt(s, i)
    case Some(k) => Some(Match(k, i))
    case None => if i == |s| then None else SearchFrom(s, i + 1)
  }

  /** No match starts before the one `SearchFrom` reports, and none at all when it reports none. */
  lemma SearchFromLeftmost(s: string, i: nat)
    requires i <= |s|
    ensures SearchFrom(s, i).Some? ==> forall p: nat :: i <= p < SearchFrom(s, i).value.start ==> MatchAt(s, p).None?
    ensures SearchFrom(s, i).None? ==> forall p: nat :: i <= p <= |s| ==> MatchAt(s, p).None?
  {
    LeftmostFrom(s, i);
  }

  /** No match starts in `[i, e)`. */
  predicate NoMatchIn(s: string, i: nat, e: nat) {
    forall p: nat :: i <= p < e ==> MatchAt(s, p).None?
  }

  /** The stretch from `i` up to what `SearchFrom` reports (or past the end) holds no match. */
  predicate Leftmost(s: string, i: nat)
    requires i <= |s|
  {
    NoMatchIn(s, i, if SearchFrom(s, i).Some? then SearchFrom(s, i).value.start else |s| + 1)
  }

  lemma {:induction false} LeftmostFrom(s: string, i: nat)
    requires i <= |s|
    ensures Leftmost(s, i)
    decreases |s| - i
  {
    if i < |s| {
      LeftmostFrom(s, i + 1);
    }
    LeftmostStep(s, i);
  }

  /** The leftmost property at `i` follows from the one at `i + 1`. */
  lemma LeftmostStep(s: string, i: nat)
    requires i <= |s|
    requires i < |s| ==> Leftmost(s, i + 1)
    ensures Leftmost(s, i)
  {
    if MatchAt(s, i).None? && i < |s| {
      SearchFromSkips(s, i);
      var e := if SearchFrom(s, i).Some? then SearchFrom(s, i).value.start else |s| + 1;
      NoMatchBefore(s, i, e);
    } else if MatchAt(s, i).Some? {
      SearchFromStops(s, i);
    }
  }

  lemma SearchFromSkips(s: string, i: nat)
    requires i < |s| && MatchAt(s, i).None?
    ensures SearchFrom(s, i) == SearchFrom(s, i + 1)
  {
  }

  lemma SearchFromStops(s: string, i: nat)
    requires i <= |s| && MatchAt(s, i).Some?
    ensures SearchFrom(s, i) == Some(Match(MatchAt(s, i).value, i))
  {
  }

  /** A position without a match extends a stretch without matches that follows it. */
  lemma NoMatchBefore(s: string, i: nat, e: nat)
    requires i < e && MatchAt(s, i).None?
    requires forall p: nat :: i + 1 <= p < e ==> MatchAt(s, p).None?
    ensures forall p: nat :: i <= p < e ==> MatchAt(s, p).None?
  {
  }

  /** `re.search` on the whole text: the leftmost match, if the pattern occurs anywhere. */
  function Search(s: string): (m: Option<Match>)
    ensures m.Some? ==> m.value.start <= |s| && AltMatchesAt(s, m.value.start, m.value.kind)
    ensures m.Some? ==> forall p: nat :: p < m.value.start ==> MatchAt(s, p).None?
    ensures m.None? <==> forall p: nat, k :: p <= |s| ==> !AltMatchesAt(s, p, k)
  {
    SearchFromLeftmost(s, 0);
    var m := SearchFrom(s, 0);
    if m.None? then NoMatchAnywhere(s); m else m
  }

  lemma NoMatchAnywhere(s: string)
    requires forall p: nat :: p <= |s| ==> MatchAt(s, p).None?
    ensures forall p: nat, k :: p <= |s| ==> !AltMatchesAt(s, p, k)
  {
    forall p: nat, k | p <= |s| ensures !AltMatchesAt(s, p, k) {
      assert MatchAt(s, p).None?;
    }
  }

  /** The text captured by group 1 of a match. */
  function Group1(s: string, m: Match): string
    requires AltMatchesAt(s, m.start, m.kind)
  {
    s[m.start..m.start + |Word(m.kind)|]
  }

  /** `match.group(1).capitalize()`, or nothing when the heading does not match. */
  function RecordType(s: string): (t: Option<string>)
    ensures t.Some? <==> exists p: nat, k :: p <= |s| && AltMatchesAt(s, p, k)
  {
    match Search(s)
    case Some(m) => Some(Capitalize(Group1(s, m)))
    case None => None
  }

  /** Capitalizing the lower-case spelling of an alternative gives its tag. */
  lemma CapitalizedWord(k: RecordKind)
    ensures Capitalize(Word(k)) == TagName(k)
  {
    match k
    case Paid => CapitalizedAs("paid", "Paid");
    case Refused => CapitalizedAs("refused", "Refused");
    case InHold => CapitalizedAs("in hold", "In hold");
  }

  lemma CapitalizedAs(w: string, t: string)
    requires |w| == |t| > 0 && UpperChar(w[0]) == t[0]
    requires forall i :: 0 < i < |w| ==> LowerChar(w[i]) == t[i]
    ensures Capitalize(w) == t
  {
  }

  /** Whatever the letter case of the heading, the tag is the canonical name of the alternative. */
  lemma TagIsCanonical(s: string)
    requires Search(s).Some?
    ensures RecordType(s) == Some(TagName(Search(s).value.kind))
    ensures IsTag(RecordType(s).value)
  {
    var m := Search(s).value;
    var w := Word(m.kind);
    var g := Group1(s, m);
    assert WordAt(s, m.start, w);
    forall k | 0 <= k < |w| ensures LowerChar(g[k]) == LowerChar(w[k]) {
      assert g[k] == s[m.start + k];
      assert LowerChar(w[k]) == w[k];
    }
    CapitalizeIgnoresCase(g, w);
    CapitalizedWord(m.kind);
  }

  /**
   * `\s+` accepts any non-empty run of whitespace between the word and
   * "Records", the letters may be in any case, and the heading may follow
   * any text: the search finds it. When no match starts inside the text in
   * front of it, its own alternative gives the tag.
   */
  lemma {:induction false} PatternAcceptsAnyCaseAndSpacing(pre: string, w: string, ws: string, r: string, rest: string, k: RecordKind)
    requires |w| == |Word(k)| && forall i :: 0 <= i < |w| ==> LowerChar(w[i]) == Word(k)[i]
    requires |ws| >= 1 && forall c :: c in ws ==> IsSpace(c)
    requires |r| == 7 && forall i :: 0 <= i < 7 ==> LowerChar(r[i]) == "records"[i]
    ensures AltMatchesAt(pre + w + ws + r + rest, |pre|, k)
    ensures RecordType(pre + w + ws + r + rest).Some? && IsTag(RecordType(pre + w + ws + r + rest).value)
    ensures (forall p :: 0 <= p < |pre| ==> MatchAt(pre + w + ws + r + rest, p).None?) ==>
      RecordType(pre + w + ws + r + rest) == Some(TagName(k))
  {
    var s := pre + w + ws + r + rest;
    var i := |pre|;
    HeadingAt(pre, w, ws, r, rest, k);
    TagIsCanonical(s);
    FirstMatchingAlternative(s, i, k);
    if forall p :: 0 <= p < |pre| ==> MatchAt(s, p).None? {
      assert Search(s).value.start == i;
    }
  }

  /** The parts of a heading placed after `pre` make its alternative match there. */
  lemma HeadingAt(pre: string, w: string, ws: string, r: string, rest: string, k: RecordKind)
    requires |w| == |Word(k)| && forall i :: 0 <= i < |w| ==> LowerChar(w[i]) == Word(k)[i]
    requires |ws| >= 1 && forall c :: c in ws ==> IsSpace(c)
    requires |r| == 7 && forall i :: 0 <= i < 7 ==> LowerChar(r[i]) == "records"[i]
    ensures AltMatchesAt(pre + w + ws + r + rest, |pre|, k)
  {
    var s := pre + w + ws + r + rest;
    var i := |pre|;
    var j := i + |w|;
    assert WordAt(s, i, Word(k)) by {
      forall p | 0 <= p < |w| ensures LowerChar(s[i + p]) == Word(k)[p] {
        assert s[i + p] == w[p];
      }
    }
    forall p | j <= p < j + |ws| ensures IsSpace(s[p]) {
      assert s[p] == ws[p - j];
    }
    assert WordAt(s, j + |ws|, "records") by {
      forall p | 0 <= p < 7 ensures LowerChar(s[j + |ws| + p]) == "records"[p] {
        assert s[j + |ws| + p] == r[p];
      }
    }
    AltMatchesFrom(s, i, k, |ws|);
  }

  /** The word, a run of `n` whitespace characters, then "records": the alternative matches. */
  lemma AltMatchesFrom(s: string, i: nat, k: RecordKind, n: nat)
    requires WordAt(s, i, Word(k))
    requires n >= 1 && i + |Word(k)| + n <= |s|
    requires forall p :: i + |Word(k)| <= p < i + |Word(k)| + n ==> IsSpace(s[p])
    requires WordAt(s, i + |Word(k)| + n, "records")
    ensures AltMatchesAt(s, i, k)
  {
    var j := i + |Word(k)|;
    assert !IsSpace(s[j + n]) by { assert LowerChar(s[j + n]) == "records"[0]; }
    SpaceRunOver(s, j, n);
  }

  /** Only one alternative can match at a position, since their first letters differ. */
  lemma FirstMatchingAlternative(s: string, i: nat, k: RecordKind)
    requires AltMatchesAt(s, i, k)
    ensures MatchAt(s, i) == Some(k)
  {
    match k
    case Paid =>
    case Refused =>
      assert LowerChar(s[i]) == "refused"[0];
      assert !AltMatchesAt(s, i, Paid) by { assert LowerChar(s[i]) == 'r' && "paid"[0] == 'p'; }
    case InHold =>
      assert LowerChar(s[i]) == "in hold"[0];
      assert !AltMatchesAt(s, i, Paid) by { assert LowerChar(s[i]) == 'i' && "paid"[0] == 'p'; }
      assert !AltMatchesAt(s, i, Refused) by { assert LowerChar(s[i]) == 'i' && "refused"[0] == 'r'; }
  }

  /** Without whitespace between the word and "Records" the pattern does not match. */
  lemma NeedsWhitespace()
    ensures Search("PaidRecords").None?
  {
    var s := "PaidRecords";
    forall p | 0 <= p <= |s| ensures MatchAt(s, p).None? {
      if p == 0 {
        assert SpaceRun(s, 4) == 0;
      }
    }
  }
}
