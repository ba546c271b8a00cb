/**
 * `extract_all_tables` of final_GCP.py: in the rendered page, every element
 * whose first text child contains "Records" is a candidate heading; when its
 * stripped text matches the section-heading pattern, the first table after
 * the element becomes a frame tagged with the record type. Any failure
 * while reading one section (no table after it, a table pandas refuses)
 * skips that section only; a page with no table at all makes the initial
 * wait for a table time out, which fails the whole extraction.
 */
module BrowserExtractor {
  import opened Wrappers
  import opened Text
  import opened Heading
  import opened Frames
  import opened Document

  /** Selected by the XPath query for any element whose text contains 'Records': in XPath 1.0 `text()` is the first text child only. */
  predicate IsCandidate(n: Node) {
    n.Elem? && n.firstText.Some? && Contains(n.firstText.value, "Records")
  }

  /** `match.group(1).strip().capitalize()` on the stripped element text, or nothing when it does not match. */
  function HeaderTag(text: string): (t: Option<string>)
    ensures t.Some? <==> exists p: nat, k :: p <= |Strip(text)| && AltMatchesAt(Strip(text), p, k)
  {
    var s := Strip(text);
    match Search(s)
    case Some(m) => Some(Capitalize(Strip(Group1(s, m))))
    case None => None
  }

  /**
   * What the element at `i` contributes once its `try` block has run: a
   * frame, or nothing when it is no candidate, does not match, has no table
   * after it, has a table without data rows, or pandas refuses the table.
   */
  function SectionAt(doc: Document, i: nat): (s: Option<Frame>)
    requires i < |doc|
    ensures s.Some? <==>
      IsCandidate(doc[i]) && HeaderTag(doc[i].text).Some? && NextTable(doc, i + 1).Some? &&
      DataRows(doc[NextTable(doc, i + 1).value].trs) != [] &&
      |doc[NextTable(doc, i + 1).value].headers| == MaxWidth(DataRows(doc[NextTable(doc, i + 1).value].trs))
    ensures s.Some? ==> |s.value.rows| == |DataRows(doc[NextTable(doc, i + 1).value].trs)| && |s.value.rows| > 0
    ensures s.Some? ==>
      var t := doc[NextTable(doc, i + 1).value];
      SectionOf(s.value, t.headers, DataRows(t.trs), HeaderTag(doc[i].text).value)
  {
    if !IsCandidate(doc[i]) then None
    else match HeaderTag(doc[i].text)
      case None => None
      case Some(tag) =>
        match NextTable(doc, i + 1)
        case None => None
        case Some(j) =>
          var kept := DataRows(doc[j].trs);
          if kept == [] then None
          else
            MadeSectionOf(doc[j].headers, kept, tag);
            match MakeSection(doc[j].headers, kept, tag)
            case Err(_) => None
            case Ok(f) => Some(f)
  }

  /** What each node contributes, position by position. */
  function Outcomes(doc: Document): (outs: seq<Option<Frame>>)
    ensures |outs| == |doc|
    ensures forall i :: 0 <= i < |doc| ==> outs[i] == SectionAt(doc, i)
  {
    seq(|doc|, i requires 0 <= i < |doc| => SectionAt(doc, i))
  }

  /** The frames among the first `n` outcomes, in order. */
  function Kept(outs: seq<Option<Frame>>, n: nat): (fs: seq<Frame>)
    requires n <= |outs|
    ensures |fs| <= n
    ensures forall f :: f in fs ==> Some(f) in outs[..n]
  {
    if n == 0 then []
    else Kept(outs, n - 1) + (if outs[n - 1].Some? then [outs[n - 1].value] else [])
  }

  /** How many of the first `n` outcomes are frames. */
  function CountKept(outs: seq<Option<Frame>>, n: nat): nat
    requires n <= |outs|
  {
    if n == 0 then 0
    else CountKept(outs, n - 1) + (if outs[n - 1].Some? then 1 else 0)
  }

  /** The sections of all candidates in document order, or the timeout of a page without tables. */
  function Extract(doc: Document): (r: Result<seq<Frame>, Error>)
    ensures r.Ok? ==> |r.value| <= |doc|
    ensures r.Err? ==> r.error == RenderTimeout && forall j :: 0 <= j < |doc| ==> !doc[j].Table?
  {
    if NextTable(doc, 0).None? then Err(RenderTimeout)
    else Ok(Kept(Outcomes(doc), |doc|))
  }

  /** The body of the heading loop of `extract_all_tables`, for the node at `i`, with its `try`/`except`. */
  method ReadSection(doc: Document, i: nat) returns (section: Option<Frame>)
    requires i < |doc|
    ensures section == SectionAt(doc, i)
  {
    section := None;
    var node := doc[i];
    if IsCandidate(node) {
      var recordType := HeaderTag(node.text);
      if recordType.Some? {
        var next := NextTable(doc, i + 1);
        if next.Some? {
          var tableData := CollectDataRows(doc[next.value].trs);
          if tableData != [] {
            var df := MakeSection(doc[next.value].headers, tableData, recordType.value);
            if df.Ok? {
              section := Some(df.value);
            }
          }
        }
      }
    }
  }

  /** The wait for a table, then the loop over the candidates, proved to compute `Extract`. */
  method ExtractAllTables(doc: Document) returns (r: Result<seq<Frame>, Error>)
    ensures r == Extract(doc)
  {
    var anyTable := NextTable(doc, 0);
    if anyTable.None? {
      return Err(RenderTimeout);
    }
    ghost var outs := Outcomes(doc);
    var tablesData: seq<Frame> := [];
    var i := 0;
    while i < |doc|
      invariant 0 <= i <= |doc|
      invariant tablesData == Kept(outs, i)
    {
      var section := ReadSection(doc, i);
      assert outs[i] == section;
      if section.Some? {
        tablesData := tablesData + [section.value];
      }
      i := i + 1;
    }
    r := Ok(tablesData);
  }

  // ---- properties of the extraction ----

  /**
   * The extraction fails exactly when the page has no table, and then only
   * with the wait's timeout: a refused table never fails it.
   */
  lemma ExtractFailsIff(doc: Document)
    ensures Extract(doc).Err? <==> forall j :: 0 <= j < |doc| ==> !doc[j].Table?
    ensures Extract(doc).Err? ==> Extract(doc).error == RenderTimeout
  {
    if NextTable(doc, 0).Some? {
      assert doc[NextTable(doc, 0).value].Table?;
    }
  }

  /**
   * Surrounding whitespace of the element text and of the captured word
   * changes nothing: the tag is the canonical name of the alternative that
   * matched, the same as app.py derives from the stripped text.
   */
  lemma HeaderTagIsCanonical(text: string)
    ensures HeaderTag(text) == RecordType(Strip(text))
    ensures HeaderTag(text).Some? <==> Search(Strip(text)).Some?
    ensures HeaderTag(text).Some? ==> IsTag(HeaderTag(text).value)
  {
    var s := Strip(text);
    if Search(s).Some? {
      GroupIsStripped(s, Search(s).value);
      TagIsCanonical(s);
    }
  }

  /** The captured word starts and ends with a letter, so stripping it changes nothing. */
  lemma GroupIsStripped(s: string, m: Match)
    requires AltMatchesAt(s, m.start, m.kind)
    ensures Strip(Group1(s, m)) == Group1(s, m)
  {
    var g := Group1(s, m);
    var w := Word(m.kind);
    assert WordAt(s, m.start, w);
    assert LowerChar(g[0]) == w[0];
    assert LowerChar(g[|g| - 1]) == w[|w| - 1];
    StripUnchanged(g);
  }

  /**
   * The frames are exactly the sections that were not skipped, in the order
   * of their headings: the section of the candidate at `i` is frame number
   * `CountKept(outs, i)`.
   */
  lemma {:induction false} KeptInOrder(outs: seq<Option<Frame>>, n: nat)
    requires n <= |outs|
    ensures |Kept(outs, n)| == CountKept(outs, n)
    ensures forall i :: 0 <= i < n && outs[i].Some? ==>
      CountKept(outs, i) < |Kept(outs, n)| && Kept(outs, n)[CountKept(outs, i)] == outs[i].value
  {
    if n > 0 {
      KeptInOrder(outs, n - 1);
      forall i | 0 <= i < n && outs[i].Some?
        ensures CountKept(outs, i) < |Kept(outs, n)| && Kept(outs, n)[CountKept(outs, i)] == outs[i].value
      {
        if i < n - 1 {
          assert Kept(outs, n)[CountKept(outs, i)] == Kept(outs, n - 1)[CountKept(outs, i)];
        }
      }
    }
  }

  /** Frame positions grow with heading positions. */
  lemma {:induction false} CountKeptMonotone(outs: seq<Option<Frame>>, i: nat, i': nat)
    requires i <= i' <= |outs|
    ensures CountKept(outs, i) <= CountKept(outs, i')
    ensures i < i' && outs[i].Some? ==> CountKept(outs, i) < CountKept(outs, i')
    decreases i' - i
  {
    if i < i' {
      CountKeptMonotone(outs, i + 1, i');
    }
  }

  /** The section of the candidate at `i` is extracted frame number `CountKept(outs, i)`. */
  lemma SectionPosition(doc: Document, i: nat)
    requires Extract(doc).Ok? && i < |doc| && SectionAt(doc, i).Some?
    ensures CountKept(Outcomes(doc), i) < |Extract(doc).value|
    ensures Extract(doc).value[CountKept(Outcomes(doc), i)] == SectionAt(doc, i).value
  {
    var outs := Outcomes(doc);
    assert outs[i] == SectionAt(doc, i);
    KeptInOrder(outs, |doc|);
  }

  /**
   * On a page with a table, every extracted frame sits at the position its
   * heading's section is counted at, and earlier headings give earlier frames.
   */
  lemma SectionsInHeadingOrder(doc: Document, i: nat, i': nat)
    requires Extract(doc).Ok?
    requires i < i' < |doc| && SectionAt(doc, i).Some? && SectionAt(doc, i').Some?
    ensures CountKept(Outcomes(doc), i) < CountKept(Outcomes(doc), i') < |Extract(doc).value|
    ensures Extract(doc).value[CountKept(Outcomes(doc), i)] == SectionAt(doc, i).value
    ensures Extract(doc).value[CountKept(Outcomes(doc), i')] == SectionAt(doc, i').value
  {
    var outs := Outcomes(doc);
    KeptInOrder(outs, |doc|);
    CountKeptMonotone(outs, i, i');
  }

  /**
   * The frame of the candidate at `i` carries that element's own record
   * type, one of "Paid", "Refused" or "In hold", in every row.
   */
  lemma SectionIsTagged(doc: Document, i: nat)
    requires i < |doc| && SectionAt(doc, i).Some?
    ensures IsCandidate(doc[i]) && IsTag(HeaderTag(doc[i].text).value)
    ensures TaggedWith(SectionAt(doc, i).value, HeaderTag(doc[i].text).value)
    ensures TaggedSection(SectionAt(doc, i).value)
  {
    HeaderTagIsCanonical(doc[i].text);
    TaggedWithTag(SectionAt(doc, i).value, HeaderTag(doc[i].text).value);
  }

  /** Every extracted frame has at least one row, and every row carries a canonical record-type tag. */
  lemma ExtractedSectionsTagged(doc: Document)
    requires Extract(doc).Ok?
    ensures forall f :: f in Extract(doc).value ==> TaggedSection(f)
  {
    var outs := Outcomes(doc);
    KeptInOrder(outs, |doc|);
    forall f | f in Extract(doc).value ensures TaggedSection(f) {
      var fs := Extract(doc).value;
      var p :| 0 <= p < |fs| && fs[p] == f;
      KeptFrom(outs, |doc|, p);
      var i :| 0 <= i < |doc| && outs[i].Some? && outs[i].value == f;
      SectionIsTagged(doc, i);
    }
  }

  /** Every extracted frame is the section of some candidate, and carries that element's record type. */
  lemma ExtractFrom(doc: Document, p: nat)
    requires Extract(doc).Ok? && p < |Extract(doc).value|
    ensures exists i :: (0 <= i < |doc| && SectionAt(doc, i) == Some(Extract(doc).value[p]) &&
      IsCandidate(doc[i]) && TaggedWith(Extract(doc).value[p], HeaderTag(doc[i].text).value))
  {
    var outs := Outcomes(doc);
    KeptFrom(outs, |doc|, p);
    var i :| 0 <= i < |doc| && outs[i].Some? && outs[i].value == Extract(doc).value[p];
    SectionIsTagged(doc, i);
  }

  /** Each kept frame comes from some outcome. */
  lemma {:induction false} KeptFrom(outs: seq<Option<Frame>>, n: nat, p: nat)
    requires n <= |outs| && p < |Kept(outs, n)|
    ensures exists i :: 0 <= i < n && outs[i].Some? && outs[i].value == Kept(outs, n)[p]
  {
    if p < |Kept(outs, n - 1)| {
      KeptFrom(outs, n - 1, p);
      assert Kept(outs, n)[p] == Kept(outs, n - 1)[p];
    } else {
      assert outs[n - 1].Some? && outs[n - 1].value == Kept(outs, n)[p];
    }
  }
}
