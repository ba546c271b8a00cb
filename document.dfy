/**
 * The rendered report as the extractors see it, flattened into its nodes in
 * document order, with the table lookups both extractors share.
 *
 * `Str` is a string of the parsed HTML (app.py); it stands at the position
 * where its parent element starts, so the tables after it are the ones
 * `parent.find_next("table")` can return. For a parsed page `hasParent` is
 * always true: every string `find_all` yields has at least the document
 * itself as its parent, so the skip for a string without a parent never
 * applies there. `Elem` is an element of the live
 * DOM (final_GCP.py) with its first text child and its rendered text; it
 * stands where the element ends, so the tables after it are those of the
 * XPath axis `following::`. A `Table` holds its header-cell texts and, per
 * `tr`, the texts of its `td` cells.
 */
module Document {
  import opened Wrappers
  import opened Heading
  import opened Frames

  datatype Node =
    | Str(text: string, hasParent: bool)
    | Elem(firstText: Option<string>, text: string)
    | Table(headers: seq<string>, trs: seq<seq<string>>)

  type Document = seq<Node>

  /** Index of the first table at or after position `from`. */
  function NextTable(doc: Document, from: nat): (t: Option<nat>)
    ensures t.Some? ==> from <= t.value < |doc| && doc[t.value].Table?
    ensures t.Some? ==> forall j :: from <= j < t.value ==> !doc[j].Table?
    ensures t.None? ==> forall j :: from <= j < |doc| ==> !doc[j].Table?
    decreases |doc| - from
  {
    if from >= |doc| then None
    else if doc[from].Table? then Some(from)
    else NextTable(doc, from + 1)
  }

  /** The `tr`s that have at least one `td`, in their order. */
  function DataRows(trs: seq<seq<string>>): (kept: seq<seq<string>>)
    ensures |kept| <= |trs|
    ensures forall k :: 0 <= k < |kept| ==> kept[k] != []
  {
    if trs == [] then []
    else
      var last := trs[|trs| - 1];
      DataRows(trs[..|trs| - 1]) + (if last != [] then [last] else [])
  }

  /**
   * A `tr` is kept exactly when it has a `td`, even if every cell text is
   * empty; header-only rows are dropped.
   */
  lemma {:induction false} DataRowsSpec(trs: seq<seq<string>>)
    ensures forall r :: r in DataRows(trs) ==> r != [] && r in trs
    ensures forall r :: r in trs && r != [] ==> r in DataRows(trs)
  {
    if trs != [] {
      var init := trs[..|trs| - 1];
      DataRowsSpec(init);
      assert trs == init + [trs[|trs| - 1]];
    }
  }

  /** Keeping data rows distributes over a split of the rows, so the kept rows stay in order. */
  lemma {:induction false} DataRowsAppend(a: seq<seq<string>>, b: seq<seq<string>>)
    ensures DataRows(a + b) == DataRows(a) + DataRows(b)
    decreases |b|
  {
    if b != [] {
      var b' := b[..|b| - 1];
      assert (a + b)[..|a + b| - 1] == a + b';
      DataRowsAppend(a, b');
    } else {
      assert a + b == a;
    }
  }

  /** The inner loop of `extract_all_tables` (both variants): the `td` texts of each `tr` that has any. */
  method CollectDataRows(trs: seq<seq<string>>) returns (tableData: seq<seq<string>>)
    ensures tableData == DataRows(trs)
  {
    tableData := [];
    var m := 0;
    while m < |trs|
      invariant 0 <= m <= |trs|
      invariant tableData == DataRows(trs[..m])
    {
      assert trs[..m + 1][..m] == trs[..m];
      if trs[m] != [] {
        tableData := tableData + [trs[m]];
      }
      m := m + 1;
    }
    assert trs[..m] == trs;
  }

  /**
   * Headings with no table between them read the same table: the lookup
   * after each finds the same node, so both sections hold its rows.
   */
  lemma {:induction false} HeadingsShareNextTable(doc: Document, i: nat, i': nat)
    requires i < i' < |doc|
    requires forall j :: i < j <= i' ==> !doc[j].Table?
    ensures NextTable(doc, i + 1) == NextTable(doc, i' + 1)
    decreases i' - i
  {
    if i + 1 < i' {
      HeadingsShareNextTable(doc, i + 1, i');
    }
  }

  /** A frame as the extractor leaves it: rectangular, with at least one row, every row tagged. */
  predicate TaggedSection(f: Frame) {
    Rectangular(f) && |f.rows| > 0 && "Record_Type" in f.columns &&
    forall k, j :: 0 <= k < |f.rows| && 0 <= j < |f.columns| && f.columns[j] == "Record_Type" ==>
      f.rows[k][j].Some? && IsTag(f.rows[k][j].value)
  }

  /** A section of at least one row whose every "Record_Type" cell holds `tag`. */
  predicate TaggedWith(f: Frame, tag: string) {
    Rectangular(f) && |f.rows| > 0 && "Record_Type" in f.columns &&
    forall k, j :: 0 <= k < |f.rows| && 0 <= j < |f.columns| && f.columns[j] == "Record_Type" ==>
      f.rows[k][j] == Some(tag)
  }

  /**
   * `f` is the frame of the data rows `rows` read under `headers`: one row
   * each, every header cell the row's own text or missing past its end, and
   * `tag` in every "Record_Type" cell.
   */
  predicate SectionOf(f: Frame, headers: seq<string>, rows: seq<seq<string>>, tag: string) {
    TaggedWith(f, tag) && |f.rows| == |rows| &&
    f.columns == (if "Record_Type" in headers then headers else headers + ["Record_Type"]) &&
    forall k, j :: 0 <= k < |rows| && 0 <= j < |headers| && headers[j] != "Record_Type" ==>
      f.rows[k][j] == (if j < |rows[k]| then Some(rows[k][j]) else None)
  }

  /** A frame built from data rows holds those rows under the headers, tagged. */
  lemma MadeSectionOf(headers: seq<string>, rows: seq<seq<string>>, tag: string)
    requires rows != []
    ensures MakeSection(headers, rows, tag).Ok? ==> SectionOf(MakeSection(headers, rows, tag).value, headers, rows, tag)
  {
  }

  /** A section tagged with one of the three record types is a tagged section. */
  lemma TaggedWithTag(f: Frame, tag: string)
    requires TaggedWith(f, tag) && IsTag(tag)
    ensures TaggedSection(f)
  {
  }

  /** A frame built from data rows under a canonical tag is a tagged section. */
  lemma MadeSectionTagged(headers: seq<string>, rows: seq<seq<string>>, tag: string)
    requires IsTag(tag) && rows != [] && MakeSection(headers, rows, tag).Ok?
    ensures TaggedSection(MakeSection(headers, rows, tag).value)
  {
  }
}
