/**
 * `process_html_file` of both files: extract the sections, stop with "No
 * valid tables found." when there are none, concatenate them into the raw
 * frame and clean it.
 *
 * app.py fetches the page first and reports a status other than 200, and
 * its clean-up catches its own errors: the run then still reports success,
 * but no cleaned workbook exists. final_GCP.py has no such catch, so a
 * clean-up error ends the run with "Error: ...".
 */
module Pipeline {
  import opened Wrappers
  import opened Heading
  import opened Frames
  import opened Document
  import SoupExtractor
  import BrowserExtractor
  import opened Normalizer
  import Repair

  /**
   * How a run ends: "Failed to fetch HTML content: <status>", "Error: <e>",
   * "No valid tables found.", or the success message with the raw frame and
   * the cleaned result, if the clean-up produced one.
   */
  datatype Run<C> =
    | FetchFailed(status: int)
    | Failed(error: Error)
    | NoValidTables
    | Done(raw: Frame, cleaned: Option<C>)

  lemma SectionsRectangular(fs: seq<Frame>)
    requires forall f :: f in fs ==> TaggedSection(f)
    ensures AllRectangular(fs)
  {
    forall i | 0 <= i < |fs| ensures Rectangular(fs[i]) {
      assert fs[i] in fs;
    }
  }

  /** app.py: the run for a page fetched with `status` whose document is `doc`. */
  function AppRun(status: int, doc: Document): (r: Run<Cleaned>)
    ensures r.FetchFailed? <==> status != 200
    ensures r.Failed? ==> SoupExtractor.Extract(doc) == Err(r.error)
    ensures r.Done? ==> Rectangular(r.raw)
    ensures r.Done? <==> status == 200 && SoupExtractor.Extract(doc).Ok? && SoupExtractor.Extract(doc).value != []
    ensures r.Done? ==> AllRectangular(SoupExtractor.Extract(doc).value)
    ensures r.Done? ==> r.raw == Concat(SoupExtractor.Extract(doc).value)
    ensures r.Done? ==> r.cleaned == (if CleanApp(r.raw).Ok? then Some(CleanApp(r.raw).value) else None)
  {
    if status != 200 then FetchFailed(status)
    else match SoupExtractor.Extract(doc)
      case Err(e) => Failed(e)
      case Ok(fs) =>
        if fs == [] then NoValidTables
        else
          SoupExtractor.ExtractedSectionsTagged(doc);
          SectionsRectangular(fs);
          var raw := Concat(fs);
          Done(raw, match CleanApp(raw) case Ok(c) => Some(c) case Err(_) => None)
  }

  /** final_GCP.py: the run for a rendered page `doc`. */
  function GcpRun(doc: Document): (r: Run<Frame>)
    ensures !r.FetchFailed?
    ensures r.Failed? ==> BrowserExtractor.Extract(doc) == Err(r.error) || r.error == NoPrimaryRecords
    ensures r.Done? ==> Rectangular(r.raw) && r.cleaned.Some?
    ensures r.Done? ==> BrowserExtractor.Extract(doc).Ok? && BrowserExtractor.Extract(doc).value != []
    ensures r.Done? ==> AllRectangular(BrowserExtractor.Extract(doc).value)
    ensures r.Done? ==> r.raw == Concat(BrowserExtractor.Extract(doc).value)
    ensures r.Done? ==> CleanRecords(r.raw).Ok? && r.cleaned == Some(CleanRecords(r.raw).value)
  {
    match BrowserExtractor.Extract(doc)
    case Err(e) => Failed(e)
    case Ok(fs) =>
      if fs == [] then NoValidTables
      else
        BrowserExtractor.ExtractedSectionsTagged(doc);
        SectionsRectangular(fs);
        var raw := Concat(fs);
        match CleanRecords(raw)
        case Err(e) => Failed(e)
        case Ok(h) => Done(raw, Some(h))
  }

  method ProcessHtmlFile(status: int, doc: Document) returns (r: Run<Cleaned>)
    ensures r == AppRun(status, doc)
  {
    if status != 200 {
      return FetchFailed(status);
    }
    var allTables := SoupExtractor.ExtractAllTables(doc);
    if allTables.Err? {
      return Failed(allTables.error);
    }
    if allTables.value == [] {
      return NoValidTables;
    }
    SoupExtractor.ExtractedSectionsTagged(doc);
    SectionsRectangular(allTables.value);
    var combined := Concat(allTables.value);
    var cleaned := CleanAppFrame(combined);
    r := Done(combined, if cleaned.Ok? then Some(cleaned.value) else None);
  }

  method ProcessRenderedPage(doc: Document) returns (r: Run<Frame>)
    ensures r == GcpRun(doc)
  {
    var allTables := BrowserExtractor.ExtractAllTables(doc);
    if allTables.Err? {
      return Failed(allTables.error);
    }
    if allTables.value == [] {
      return NoValidTables;
    }
    BrowserExtractor.ExtractedSectionsTagged(doc);
    SectionsRectangular(allTables.value);
    var combined := Concat(allTables.value);
    var cleaned := CleanFrame(combined);
    if cleaned.Err? {
      return Failed(cleaned.error);
    }
    r := Done(combined, Some(cleaned.value));
  }

  // ---- properties ----

  /**
   * In both files the run stops with "No valid tables found." exactly when
   * the extraction succeeds with no section; nothing is concatenated or
   * cleaned then.
   */
  lemma NoTablesStopsEarly(status: int, doc: Document)
    ensures status == 200 ==> (AppRun(status, doc) == NoValidTables <==> SoupExtractor.Extract(doc) == Ok([]))
    ensures GcpRun(doc) == NoValidTables <==> BrowserExtractor.Extract(doc) == Ok([])
  {
  }

  /** A row of a tagged section keeps its own tag when it is realigned on labels that include "Record_Type". */
  lemma RealignedTag(f: Frame, k: nat, cols: seq<string>)
    requires TaggedSection(f) && k < |f.rows| && "Record_Type" in cols
    ensures IndexOf(cols, "Record_Type") < |Realign(f, f.rows[k], cols)|
    ensures var t := Realign(f, f.rows[k], cols)[IndexOf(cols, "Record_Type")];
      t == f.rows[k][IndexOf(f.columns, "Record_Type")] && t.Some? && IsTag(t.value)
  {
    var j := IndexOf(cols, "Record_Type");
    var j' := IndexOf(f.columns, "Record_Type");
    assert Realign(f, f.rows[k], cols)[j] == f.rows[k][j'];
  }

  /**
   * Row `k` of section `p` is the raw row `RowsBefore(fs, p) + k`, and it
   * holds `tag` in the raw frame's "Record_Type" column.
   */
  predicate RowTagged(fs: seq<Frame>, p: nat, k: nat, tag: string)
    requires AllRectangular(fs) && p < |fs|
  {
    var raw := Concat(fs);
    var n := RowsBefore(fs, p) + k;
    "Record_Type" in raw.columns && n < |raw.rows| && IndexOf(raw.columns, "Record_Type") < |raw.rows[n]| &&
    raw.rows[n][IndexOf(raw.columns, "Record_Type")] == Some(tag)
  }

  /**
   * Every raw row carries its section's tag: the row `k` of section `i` sits
   * at position `RowsBefore(fs, i) + k`, and its "Record_Type" cell is the
   * one that row has in its section, one of "Paid", "Refused" or "In hold".
   */
  lemma RawRowsTagged(fs: seq<Frame>, i: nat, k: nat)
    requires AllRectangular(fs) && forall m :: 0 <= m < |fs| ==> TaggedSection(fs[m])
    requires i < |fs| && k < |fs[i].rows|
    ensures RowsBefore(fs, i) + k < |Concat(fs).rows|
    ensures "Record_Type" in fs[i].columns && IndexOf(fs[i].columns, "Record_Type") < |fs[i].rows[k]|
    ensures var own := fs[i].rows[k][IndexOf(fs[i].columns, "Record_Type")];
      own.Some? && IsTag(own.value) && RowTagged(fs, i, k, own.value)
  {
    assert TaggedSection(fs[i]);
    var cols := UnionColumns(fs);
    assert InSome(fs, "Record_Type") by { assert fs[i] in fs; }
    ConcatRowsAt(fs, cols, i, k);
    RealignedTag(fs[i], k, cols);
  }

  /** In the raw frame, the rows of a section tagged `tag` hold `tag`. */
  lemma RawRowsTaggedWith(fs: seq<Frame>, p: nat, k: nat, tag: string)
    requires AllRectangular(fs) && forall f :: f in fs ==> TaggedSection(f)
    requires p < |fs| && TaggedWith(fs[p], tag) && k < |fs[p].rows|
    ensures RowTagged(fs, p, k, tag)
  {
    forall m | 0 <= m < |fs| ensures TaggedSection(fs[m]) {
      assert fs[m] in fs;
    }
    RawRowsTagged(fs, p, k);
  }

  /**
   * app.py: row `k` of the section under the heading at `i` is raw row
   * `RowsBefore(fs, CountOk(outs, i)) + k`, and its "Record_Type" cell is
   * that heading's record type.
   */
  lemma AppRowTaggedByHeading(doc: Document, i: nat, k: nat)
    requires SoupExtractor.Extract(doc).Ok? && i < |doc|
    requires SoupExtractor.SectionAt(doc, i).Some? && SoupExtractor.SectionAt(doc, i).value.Ok?
    requires k < |SoupExtractor.SectionAt(doc, i).value.value.rows|
    ensures SoupExtractor.IsHeading(doc, i)
    ensures var fs := SoupExtractor.Extract(doc).value;
      AllRectangular(fs) && SoupExtractor.CountOk(SoupExtractor.Outcomes(doc), i) < |fs| &&
      AppRun(200, doc).Done? && AppRun(200, doc).raw == Concat(fs)
    ensures var fs := SoupExtractor.Extract(doc).value;
      RowTagged(fs, SoupExtractor.CountOk(SoupExtractor.Outcomes(doc), i), k, RecordType(doc[i].text).value)
  {
    var outs := SoupExtractor.Outcomes(doc);
    var fs := SoupExtractor.Extract(doc).value;
    var p := SoupExtractor.CountOk(outs, i);
    SoupExtractor.SectionPosition(doc, i);
    var tag := RecordType(doc[i].text).value;
    assert AllRectangular(fs) && p < |fs| && RowTagged(fs, p, k, tag) by {
      SoupExtractor.SectionIsTagged(doc, i);
      SoupExtractor.ExtractedSectionsTagged(doc);
      SectionsRectangular(fs);
      RawRowsTaggedWith(fs, p, k, tag);
    }
  }

  /**
   * final_GCP.py: row `k` of the section of the candidate at `i` is raw row
   * `RowsBefore(fs, CountKept(outs, i)) + k`, and its "Record_Type" cell is
   * that element's record type.
   */
  lemma GcpRowTaggedByHeading(doc: Document, i: nat, k: nat)
    requires BrowserExtractor.Extract(doc).Ok? && i < |doc|
    requires BrowserExtractor.SectionAt(doc, i).Some?
    requires k < |BrowserExtractor.SectionAt(doc, i).value.rows|
    ensures BrowserExtractor.IsCandidate(doc[i])
    ensures var fs := BrowserExtractor.Extract(doc).value;
      AllRectangular(fs) && BrowserExtractor.CountKept(BrowserExtractor.Outcomes(doc), i) < |fs|
    ensures GcpRun(doc).Done? ==> GcpRun(doc).raw == Concat(BrowserExtractor.Extract(doc).value)
    ensures var fs := BrowserExtractor.Extract(doc).value;
      RowTagged(fs, BrowserExtractor.CountKept(BrowserExtractor.Outcomes(doc), i), k,
        BrowserExtractor.HeaderTag(doc[i].text).value)
  {
    var outs := BrowserExtractor.Outcomes(doc);
    var fs := BrowserExtractor.Extract(doc).value;
    var p := BrowserExtractor.CountKept(outs, i);
    BrowserExtractor.SectionPosition(doc, i);
    var tag := BrowserExtractor.HeaderTag(doc[i].text).value;
    assert AllRectangular(fs) && p < |fs| && RowTagged(fs, p, k, tag) by {
      BrowserExtractor.SectionIsTagged(doc, i);
      BrowserExtractor.ExtractedSectionsTagged(doc);
      SectionsRectangular(fs);
      RawRowsTaggedWith(fs, p, k, tag);
    }
  }

  /** In app.py a failed clean-up leaves the raw frame and the success message. */
  lemma AppCleanFailureIsSilent(doc: Document)
    requires SoupExtractor.Extract(doc).Ok? && SoupExtractor.Extract(doc).value != []
    ensures AppRun(200, doc).Done?
    ensures AppRun(200, doc).cleaned.None? <==> CleanApp(AppRun(200, doc).raw).Err?
  {
  }

  /**
   * In final_GCP.py a page with sections writes the concatenated sections
   * as the raw workbook, then either ends with their cleaned frame or fails
   * with the clean-up's error, exactly when no raw row is a record.
   */
  lemma GcpCleanFailureFails(doc: Document)
    requires BrowserExtractor.Extract(doc).Ok? && BrowserExtractor.Extract(doc).value != []
    ensures AllRectangular(BrowserExtractor.Extract(doc).value)
    ensures var raw := Concat(BrowserExtractor.Extract(doc).value);
      (GcpRun(doc).Failed? <==> CleanRecords(raw).Err?) &&
      (GcpRun(doc).Done? <==> CleanRecords(raw).Ok?)
    ensures var raw := Concat(BrowserExtractor.Extract(doc).value);
      GcpRun(doc).Failed? <==> forall k :: 0 <= k < |raw.rows| ==> !Repair.IsPrimary(raw.rows[k])
    ensures GcpRun(doc).Failed? ==> GcpRun(doc).error == NoPrimaryRecords
  {
    BrowserExtractor.ExtractedSectionsTagged(doc);
    var fs := BrowserExtractor.Extract(doc).value;
    SectionsRectangular(fs);
    CleanFailsIff(Concat(fs));
  }
}
