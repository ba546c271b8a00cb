/**
 * `extract_all_tables` of app.py: the parsed HTML document is searched for
 * strings matching the section-heading pattern; each one takes the first
 * table after its parent element and turns the rows of that table that have
 * data cells into a frame tagged with the record type.
 */
module SoupExtractor {
  import opened Wrappers
  import opened Heading
  import opened Frames
  import opened Document

  /**
   * What the heading at position `i` contributes: nothing (not a matching
   * string, no parent, no table after it, or a table without data rows), or
   * the outcome of building its frame.
   */
  function SectionAt(doc: Document, i: nat): (s: Option<Result<Frame, Error>>)
    requires i < |doc|
    ensures s.Some? <==>
      IsHeading(doc, i) && NextTable(doc, i + 1).Some? && DataRows(doc[NextTable(doc, i + 1).value].trs) != []
    ensures s.Some? && s.value.Ok? ==>
      |s.value.value.rows| == |DataRows(doc[NextTable(doc, i + 1).value].trs)|
    ensures s.Some? && s.value.Ok? ==>
      var t := doc[NextTable(doc, i + 1).value];
      SectionOf(s.value.value, t.headers, DataRows(t.trs), RecordType(doc[i].text).value)
  {
    match doc[i]
    case Table(_, _) => None
    case Elem(_, _) => None
    case Str(text, hasParent) =>
      if !hasParent then None
      else match RecordType(text)
        case None => None
        case Some(tag) =>
          match NextTable(doc, i + 1)
          case None => None
          case Some(j) =>
            var kept := DataRows(doc[j].trs);
            if kept == [] then None
            else
              MadeSectionOf(doc[j].headers, kept, tag);
              Some(MakeSection(doc[j].headers, kept, tag))
  }

  /** What each node contributes, position by position. */
  function Outcomes(doc: Document): (outs: seq<Option<Result<Frame, Error>>>)
    ensures |outs| == |doc|
    ensures forall i {:trigger SectionAt(doc, i)} :: 0 <= i < |doc| ==> outs[i] == SectionAt(doc, i)
  {
    var f := (i: nat) requires i < |doc| => SectionAt(doc, i);
    TabulateAt(|doc|, f);
    Tabulate(|doc|, f)
  }

  /** `[f(0), ..., f(n - 1)]`, built one element at a time. */
  function Tabulate<T>(n: nat, f: nat --> T): (s: seq<T>)
    requires forall i :: 0 <= i < n ==> f.requires(i)
    ensures |s| == n
  {
    if n == 0 then [] else Tabulate(n - 1, f) + [f(n - 1)]
  }

  lemma {:induction false} TabulateAt<T>(n: nat, f: nat --> T)
    requires forall i :: 0 <= i < n ==> f.requires(i)
    ensures forall i :: 0 <= i < n ==> Tabulate(n, f)[i] == f(i)
  {
    if n > 0 {
      TabulateAt(n - 1, f);
    }
  }

  /**
   * The frames of the first `n` outcomes in order; the first refused frame
   * aborts the whole extraction, as the exception pandas raises leaves
   * `extract_all_tables`.
   */
  function Collect(outs: seq<Option<Result<Frame, Error>>>, n: nat): (r: Result<seq<Frame>, Error>)
    requires n <= |outs|
    ensures r.Ok? ==> |r.value| <= n
    ensures r.Err? ==> exists i :: 0 <= i < n && outs[i] == Some(Err(r.error))
  {
    if n == 0 then Ok([])
    else match Collect(outs, n - 1)
      case Err(e) => Err(e)
      case Ok(fs) =>
        match outs[n - 1]
        case None => Ok(fs)
        case Some(Err(e)) => Err(e)
        case Some(Ok(f)) => Ok(fs + [f])
  }

  /** The frames of all headings in document order, or the first error pandas raises. */
  function Extract(doc: Document): (r: Result<seq<Frame>, Error>)
    ensures r.Ok? ==> |r.value| <= |doc|
    ensures r.Err? ==> exists i :: 0 <= i < |doc| && SectionAt(doc, i) == Some(Err(r.error))
  {
    var outs := Outcomes(doc);
    assert forall i :: 0 <= i < |doc| ==> outs[i] == SectionAt(doc, i);
    Collect(outs, |doc|)
  }

  /** Once a frame is refused, the extraction stays refused. */
  lemma {:induction false} ErrorPersists(outs: seq<Option<Result<Frame, Error>>>, k: nat, n: nat, e: Error)
    requires k <= n <= |outs|
    requires Collect(outs, k) == Err(e)
    ensures Collect(outs, n) == Err(e)
    decreases n - k
  {
    if k < n {
      ErrorPersists(outs, k + 1, n, e);
    }
  }

  /** One more outcome, after frames `fs` and no error. */
  lemma CollectNext(outs: seq<Option<Result<Frame, Error>>>, n: nat, fs: seq<Frame>)
    requires n < |outs| && Collect(outs, n) == Ok(fs)
    ensures outs[n].None? ==> Collect(outs, n + 1) == Ok(fs)
    ensures outs[n].Some? && outs[n].value.Err? ==> Collect(outs, n + 1) == Err(outs[n].value.error)
    ensures outs[n].Some? && outs[n].value.Ok? ==> Collect(outs, n + 1) == Ok(fs + [outs[n].value.value])
  {
  }

  /** The body of the heading loop of `extract_all_tables`, for the node at `i`. */
  method ReadSection(doc: Document, i: nat) returns (section: Option<Result<Frame, Error>>)
    requires i < |doc|
    ensures section == Outcomes(doc)[i]
  {
    assert Outcomes(doc)[i] == SectionAt(doc, i);
    section := None;
    var node := doc[i];
    if node.Str? && node.hasParent {
      var recordType := RecordType(node.text);
      if recordType.Some? {
        var next := NextTable(doc, i + 1);
        if next.Some? {
          var tableData := CollectDataRows(doc[next.value].trs);
          if tableData != [] {
            section := Some(MakeSection(doc[next.value].headers, tableData, recordType.value));
          }
        }
      }
    }
  }

  /** The loop of `extract_all_tables`, proved to compute `Extract`. */
  method ExtractAllTables(doc: Document) returns (r: Result<seq<Frame>, Error>)
    ensures r == Extract(doc)
  {
    ghost var outs := Outcomes(doc);
    assert Extract(doc) == Collect(outs, |doc|);
    var tablesData: seq<Frame> := [];
    var i := 0;
    while i < |doc|
      invariant 0 <= i <= |doc|
      invariant Collect(outs, i) == Ok(tablesData)
    {
      var section := ReadSection(doc, i);
      CollectNext(outs, i, tablesData);
      match section {
        case None =>
        case Some(Err(e)) =>
          ErrorPersists(outs, i + 1, |doc|, e);
          return Err(e);
        case Some(Ok(df)) =>
          tablesData := tablesData + [df];
      }
      i := i + 1;
    }
    r := Ok(tablesData);
  }

  // ---- properties of the extraction ----

  /** A matching heading string that has a parent element. */
  predicate IsHeading(doc: Document, i: nat)
    requires i < |doc|
  {
    doc[i].Str? && doc[i].hasParent && RecordType(doc[i].text).Some?
  }

  /**
   * No heading, or no heading with a table after it, is not an error: the
   * extraction is then empty (and the caller reports "No valid tables found.").
   */
  lemma NoSectionsIsEmpty(doc: Document)
    requires forall i :: 0 <= i < |doc| && IsHeading(doc, i) ==> NextTable(doc, i + 1).None?
    ensures Extract(doc) == Ok([])
  {
    var outs := Outcomes(doc);
    forall i | 0 <= i < |doc| ensures outs[i].None? {
      assert outs[i] == SectionAt(doc, i);
      if IsHeading(doc, i) {
        assert NextTable(doc, i + 1).None?;
      }
    }
    CollectNothing(outs, |doc|);
  }

  lemma {:induction false} CollectNothing(outs: seq<Option<Result<Frame, Error>>>, n: nat)
    requires n <= |outs|
    requires forall i :: 0 <= i < n ==> outs[i].None?
    ensures Collect(outs, n) == Ok([])
  {
    if n > 0 {
      CollectNothing(outs, n - 1);
    }
  }

  /** The heading at `i` has a table that pandas refuses to turn into a frame. */
  predicate Refused(doc: Document, i: nat)
    requires i < |doc|
  {
    SectionAt(doc, i).Some? && SectionAt(doc, i).value.Err?
  }

  /** The extraction fails exactly when some heading's table is refused by pandas. */
  lemma ExtractFailsIff(doc: Document)
    ensures Extract(doc).Err? <==> exists i :: 0 <= i < |doc| && Refused(doc, i)
  {
    var outs := Outcomes(doc);
    CollectFailsIff(outs, |doc|);
    if exists i :: 0 <= i < |doc| && outs[i].Some? && outs[i].value.Err? {
      var i :| 0 <= i < |doc| && outs[i].Some? && outs[i].value.Err?;
      assert Refused(doc, i);
    }
  }

  lemma {:induction false} CollectFailsIff(outs: seq<Option<Result<Frame, Error>>>, n: nat)
    requires n <= |outs|
    ensures Collect(outs, n).Err? <==> exists i :: 0 <= i < n && outs[i].Some? && outs[i].value.Err?
  {
    if n > 0 {
      CollectFailsIff(outs, n - 1);
    }
  }

  /**
   * The frame of the heading at `i` carries that heading's own record type,
   * one of "Paid", "Refused" or "In hold", in every row.
   */
  lemma SectionIsTagged(doc: Document, i: nat)
    requires i < |doc| && SectionAt(doc, i).Some? && SectionAt(doc, i).value.Ok?
    ensures IsHeading(doc, i) && IsTag(RecordType(doc[i].text).value)
    ensures TaggedWith(SectionAt(doc, i).value.value, RecordType(doc[i].text).value)
    ensures TaggedSection(SectionAt(doc, i).value.value)
  {
    var tag := RecordType(doc[i].text).value;
    TagIsCanonical(doc[i].text);
    TaggedWithTag(SectionAt(doc, i).value.value, tag);
  }

  /**
   * Every extracted frame has at least one row, and every row carries a
   * record-type tag that is one of "Paid", "Refused" or "In hold".
   */
  lemma ExtractedSectionsTagged(doc: Document)
    requires Extract(doc).Ok?
    ensures forall f :: f in Extract(doc).value ==> TaggedSection(f)
  {
    var outs := Outcomes(doc);
    forall i | 0 <= i < |doc| && outs[i].Some? && outs[i].value.Ok?
      ensures TaggedSection(outs[i].value.value)
    {
      SectionIsTagged(doc, i);
    }
    CollectKeeps(outs, |doc|, TaggedSection);
  }

  /** Every frame collected is one of the outcomes, so a property of all outcomes holds of all frames. */
  lemma {:induction false} CollectKeeps(outs: seq<Option<Result<Frame, Error>>>, n: nat, P: Frame -> bool)
    requires n <= |outs|
    requires forall i :: 0 <= i < n && outs[i].Some? && outs[i].value.Ok? ==> P(outs[i].value.value)
    requires Collect(outs, n).Ok?
    ensures forall f :: f in Collect(outs, n).value ==> P(f)
  {
    if n > 0 {
      CollectKeeps(outs, n - 1, P);
    }
  }

  // ---- order and provenance of the extracted frames ----

  /** How many of the first `n` outcomes are frames. */
  function CountOk(outs: seq<Option<Result<Frame, Error>>>, n: nat): nat
    requires n <= |outs|
  {
    if n == 0 then 0
    else CountOk(outs, n - 1) + (if outs[n - 1].Some? && outs[n - 1].value.Ok? then 1 else 0)
  }

  /**
   * When nothing was refused, the frames are exactly the frames among the
   * outcomes, in order: the frame of the outcome at `i` is frame number
   * `CountOk(outs, i)`.
   */
  lemma {:induction false} CollectInOrder(outs: seq<Option<Result<Frame, Error>>>, n: nat)
    requires n <= |outs| && Collect(outs, n).Ok?
    ensures |Collect(outs, n).value| == CountOk(outs, n)
    ensures forall i :: 0 <= i < n && outs[i].Some? && outs[i].value.Ok? ==>
      CountOk(outs, i) < |Collect(outs, n).value| && Collect(outs, n).value[CountOk(outs, i)] == outs[i].value.value
  {
    if n > 0 {
      assert Collect(outs, n - 1).Ok?;
      var fs0 := Collect(outs, n - 1).value;
      CollectInOrder(outs, n - 1);
      CollectNext(outs, n - 1, fs0);
      var fs := Collect(outs, n).value;
      assert fs[..|fs0|] == fs0;
      forall i | 0 <= i < n && outs[i].Some? && outs[i].value.Ok?
        ensures CountOk(outs, i) < |fs| && fs[CountOk(outs, i)] == outs[i].value.value
      {
        if i < n - 1 {
          assert fs[CountOk(outs, i)] == fs[..|fs0|][CountOk(outs, i)];
        }
      }
    }
  }

  /** Frame positions grow with outcome positions. */
  lemma {:induction false} CountOkMonotone(outs: seq<Option<Result<Frame, Error>>>, i: nat, i': nat)
    requires i <= i' <= |outs|
    ensures CountOk(outs, i) <= CountOk(outs, i')
    ensures i < i' && outs[i].Some? && outs[i].value.Ok? ==> CountOk(outs, i) < CountOk(outs, i')
    decreases i' - i
  {
    if i < i' {
      CountOkMonotone(outs, i + 1, i');
    }
  }

  /** Each collected frame is the frame of some outcome. */
  lemma {:induction false} CollectFrom(outs: seq<Option<Result<Frame, Error>>>, n: nat, p: nat)
    requires n <= |outs| && Collect(outs, n).Ok? && p < |Collect(outs, n).value|
    ensures exists i :: 0 <= i < n && outs[i] == Some(Ok(Collect(outs, n).value[p]))
  {
    var fs0 := Collect(outs, n - 1).value;
    if p < |fs0| {
      CollectFrom(outs, n - 1, p);
      assert Collect(outs, n).value[p] == fs0[p];
    } else {
      assert outs[n - 1] == Some(Ok(Collect(outs, n).value[p]));
    }
  }

  /** The section of the heading at `i` is extracted frame number `CountOk(outs, i)`. */
  lemma SectionPosition(doc: Document, i: nat)
    requires Extract(doc).Ok? && i < |doc| && SectionAt(doc, i).Some? && SectionAt(doc, i).value.Ok?
    ensures CountOk(Outcomes(doc), i) < |Extract(doc).value|
    ensures Extract(doc).value[CountOk(Outcomes(doc), i)] == SectionAt(doc, i).value.value
  {
    var outs := Outcomes(doc);
    assert outs[i] == SectionAt(doc, i);
    CollectInOrder(outs, |doc|);
  }

  /**
   * The frames come in the order of their headings: the sections of two
   * headings `i < i'` are frames number `CountOk(.., i) < CountOk(.., i')`.
   */
  lemma SectionsInHeadingOrder(doc: Document, i: nat, i': nat)
    requires Extract(doc).Ok?
    requires i < i' < |doc| && Outcomes(doc)[i].Some? && Outcomes(doc)[i'].Some?
    ensures Outcomes(doc)[i].value.Ok? && Outcomes(doc)[i'].value.Ok?
    ensures CountOk(Outcomes(doc), i) < CountOk(Outcomes(doc), i') < |Extract(doc).value|
    ensures Extract(doc).value[CountOk(Outcomes(doc), i)] == Outcomes(doc)[i].value.value
    ensures Extract(doc).value[CountOk(Outcomes(doc), i')] == Outcomes(doc)[i'].value.value
  {
    var outs := Outcomes(doc);
    CollectFailsIff(outs, |doc|);
    CollectInOrder(outs, |doc|);
    CountOkMonotone(outs, i, i');
  }

  /** Every extracted frame is the section of some heading, and carries that heading's record type. */
  lemma ExtractFrom(doc: Document, p: nat)
    requires Extract(doc).Ok? && p < |Extract(doc).value|
    ensures exists i :: (0 <= i < |doc| && Outcomes(doc)[i] == Some(Ok(Extract(doc).value[p])) &&
      IsHeading(doc, i) && TaggedWith(Extract(doc).value[p], RecordType(doc[i].text).value))
  {
    var outs := Outcomes(doc);
    CollectFrom(outs, |doc|, p);
    var i :| 0 <= i < |doc| && outs[i] == Some(Ok(Extract(doc).value[p]));
    SectionIsTagged(doc, i);
  }
}
