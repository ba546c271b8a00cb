/**
 * `process_and_clean_data`: the combined frame is given a "Comments" column
 * when it has none, its first column is turned into text, continuation rows
 * are folded into the records before them, and the comments are cleaned.
 * app.py then renames the columns and converts the currency columns to
 * numbers; final_GCP.py stops after the comments.
 *
 * The frame is the one written as the raw workbook and read back from
 * storage; that round trip is taken to give back the same frame.
 */
module Normalizer {
  import opened Wrappers
  import opened Text
  import opened Frames
  import opened Repair
  import opened Comments
  import opened Currency

  /** `if "Comments" not in df.columns: df["Comments"] = None`. */
  function WithComments(f: Frame): (g: Frame)
    requires Rectangular(f)
    ensures Rectangular(g) && |g.rows| == |f.rows| && "Comments" in g.columns
    ensures g.columns == if "Comments" in f.columns then f.columns else f.columns + ["Comments"]
    ensures forall k :: 0 <= k < |f.rows| ==>
      g.rows[k] == if "Comments" in f.columns then f.rows[k] else f.rows[k] + [None]
  {
    if "Comments" in f.columns then f else SetColumn(f, "Comments", None)
  }

  /** `df.iloc[:, 0] = df.iloc[:, 0].astype(str)`: a missing first cell becomes "nan". */
  function FirstColumnAsText(f: Frame): (g: Frame)
    requires Rectangular(f)
    ensures g.columns == f.columns && Rectangular(g) && |g.rows| == |f.rows|
    ensures forall k :: 0 <= k < |f.rows| && 0 < |f.rows[k]| ==>
      g.rows[k][0] == Some(FirstText(f.rows[k])) && g.rows[k][1..] == f.rows[k][1..]
  {
    Frame(f.columns, seq(|f.rows|, k requires 0 <= k < |f.rows| =>
      var r := f.rows[k];
      if |r| == 0 then r else r[0 := Some(FirstText(r))]))
  }

  /** The two comment replacements, applied to the cell at `ci` of every row. */
  function CleanCommentCells(rows: seq<Row>, ci: nat): (out: seq<Row>)
    ensures |out| == |rows|
    ensures forall k :: 0 <= k < |rows| ==> |out[k]| == |rows[k]|
    ensures forall k :: 0 <= k < |rows| && ci < |rows[k]| ==> out[k][ci] == Some(CleanComment(rows[k][ci]))
    ensures forall k, j :: 0 <= k < |rows| && 0 <= j < |rows[k]| && j != ci ==> out[k][j] == rows[k][j]
  {
    seq(|rows|, k requires 0 <= k < |rows| =>
      var r := rows[k];
      if ci < |r| then r[ci := Some(CleanComment(r[ci]))] else r)
  }

  /** The frame the row loop reads, and the position of its "Comments" column. */
  function Prepared(f: Frame): (g: Frame)
    requires Rectangular(f)
    ensures Rectangular(g) && "Comments" in g.columns && |g.rows| == |f.rows|
    ensures g.columns == if "Comments" in f.columns then f.columns else f.columns + ["Comments"]
    ensures forall k :: 0 <= k < |f.rows| ==> g.rows[k][0] == Some(FirstText(f.rows[k]))
    ensures forall k, j :: 0 <= k < |f.rows| && 0 < j < |f.columns| ==> g.rows[k][j] == f.rows[k][j]
    ensures "Comments" !in f.columns && 0 < |f.columns| ==>
      forall k :: 0 <= k < |f.rows| ==> g.rows[k][|f.columns|] == None
  {
    var w := WithComments(f);
    var g := FirstColumnAsText(w);
    assert forall k :: 0 <= k < |f.rows| ==> FirstText(w.rows[k]) == FirstText(f.rows[k]) by {
      forall k | 0 <= k < |f.rows| ensures FirstText(w.rows[k]) == FirstText(f.rows[k]) {
        if "Comments" !in f.columns && 0 < |f.columns| {
          assert w.rows[k][0] == f.rows[k][0];
        }
      }
    }
    g
  }

  function CommentIndex(g: Frame): nat
    requires "Comments" in g.columns
  {
    IndexOf(g.columns, "Comments")
  }

  /**
   * The part of `process_and_clean_data` both files share. An empty repair
   * leaves `pd.DataFrame([])`, which has no "Comments" column to clean.
   */
  function CleanRecords(f: Frame): (r: Result<Frame, Error>)
    requires Rectangular(f)
    ensures r.Err? ==> r.error == NoPrimaryRecords
    ensures r.Ok? ==> |r.value.rows| > 0 && "Comments" in r.value.columns
    ensures r.Ok? ==> r.value.columns == if "Comments" in f.columns then f.columns else f.columns + ["Comments"]
  {
    var g := Prepared(f);
    var ci := CommentIndex(g);
    var rows := Repair.Repair(g.rows, ci);
    if rows == [] then Err(NoPrimaryRecords)
    else Ok(Frame(g.columns, CleanCommentCells(rows, ci)))
  }

  /** The shared part, with the row loop as the source writes it. */
  method CleanFrame(f: Frame) returns (r: Result<Frame, Error>)
    requires Rectangular(f)
    ensures r == CleanRecords(f)
  {
    var g := Prepared(f);
    var ci := CommentIndex(g);
    var cleaned := RepairRows(g.rows, ci);
    if cleaned == [] {
      return Err(NoPrimaryRecords);
    }
    r := Ok(Frame(g.columns, CleanCommentCells(cleaned, ci)));
  }

  // ---- app.py only: renaming and currency ----

  const Renames: map<string, string> := map[
    "SEQ NUMBER" := "SeqNumber",
    "SERVICE DATE" := "ServiceDate",
    "PRACTITIONER NUMBER" := "PractitionerNumber",
    "PHN" := "PHN",
    "FEE ITEM" := "FeeItem",
    "SHADOW BILL" := "ShadowBill",
    "OUT OF PROVINCE" := "OutOfProvince",
    "BILLED" := "Billed",
    "ADJUST" := "Adjust",
    "PAID" := "Paid",
    "Record_Type" := "Record_Type",
    "Comments" := "Comments"
  ]

  function RenameLabel(c: string): string {
    if c in Renames then Renames[c] else c
  }

  /** `rename(columns=...)`: mapped labels are replaced, all others kept. */
  function Rename(f: Frame): (g: Frame)
    ensures g.rows == f.rows && |g.columns| == |f.columns|
    ensures forall j :: 0 <= j < |f.columns| ==> g.columns[j] == RenameLabel(f.columns[j])
  {
    Frame(seq(|f.columns|, j requires 0 <= j < |f.columns| => RenameLabel(f.columns[j])), f.rows)
  }

  /** The numbers of one converted currency column. */
  datatype Amounts = Amounts(column: string, values: seq<Number>)

  /** The cleaned frame of app.py: its currency columns hold the numbers in `amounts` instead of text. */
  datatype Cleaned = Cleaned(frame: Frame, amounts: seq<Amounts>)

  /** The labels of `cols` that `labels` holds, in the order of `cols`. */
  function Present(cols: seq<string>, labels: seq<string>): (ps: seq<string>)
    ensures forall c :: c in ps <==> c in cols && c in labels
  {
    if cols == [] then []
    else (if cols[0] in labels then [cols[0]] else []) + Present(cols[1..], labels)
  }

  /** The column names of converted columns, in order. */
  function AmountColumns(amounts: seq<Amounts>): (names: seq<string>)
    ensures |names| == |amounts| && forall p :: 0 <= p < |amounts| ==> names[p] == amounts[p].column
  {
    seq(|amounts|, p requires 0 <= p < |amounts| => amounts[p].column)
  }

  /** The currency loop: each of `cols` the frame has, in order; the first refused value ends it. */
  function ConvertCurrency(f: Frame, cols: seq<string>): (r: Result<seq<Amounts>, Error>)
    ensures r.Ok? ==> |r.value| <= |cols|
    ensures r.Err? ==> r.error.BadNumber? && r.error.column in cols
  {
    if cols == [] then Ok([])
    else
      var c := cols[0];
      if c !in f.columns then ConvertCurrency(f, cols[1..])
      else match ConvertColumn(f.rows, IndexOf(f.columns, c), c)
        case Err(e) => Err(e)
        case Ok(vs) =>
          match ConvertCurrency(f, cols[1..])
          case Err(e) => Err(e)
          case Ok(rest) => Ok([Amounts(c, vs)] + rest)
  }

  /** `process_and_clean_data` of app.py up to the cleaned workbook. */
  function CleanApp(f: Frame): (r: Result<Cleaned, Error>)
    requires Rectangular(f)
    ensures r.Err? ==> r.error == NoPrimaryRecords || (r.error.BadNumber? && r.error.column in CurrencyColumns)
    ensures r.Ok? ==> CleanRecords(f).Ok? && r.value.frame.rows == CleanRecords(f).value.rows
    ensures r.Ok? ==> |r.value.amounts| <= 3
    ensures r.Ok? ==> |r.value.frame.columns| == |CleanRecords(f).value.columns|
    ensures r.Ok? ==> forall j :: 0 <= j < |r.value.frame.columns| ==>
      r.value.frame.columns[j] == RenameLabel(CleanRecords(f).value.columns[j])
    ensures r.Ok? ==> AmountColumns(r.value.amounts) == Present(CurrencyColumns, r.value.frame.columns)
    ensures r.Ok? ==> EntriesConverted(r.value.frame, CurrencyColumns, r.value.amounts)
  {
    match CleanRecords(f)
    case Err(e) => Err(e)
    case Ok(h) =>
      var g := Rename(h);
      ConvertCurrencyHolds(g, CurrencyColumns);
      match ConvertCurrency(g, CurrencyColumns)
      case Err(e) => Err(e)
      case Ok(amounts) =>
        ConvertCurrencyColumns(g, CurrencyColumns);
        Ok(Cleaned(g, amounts))
  }

  method CleanAppFrame(f: Frame) returns (r: Result<Cleaned, Error>)
    requires Rectangular(f)
    ensures r == CleanApp(f)
  {
    var h := CleanFrame(f);
    if h.Err? {
      return Err(h.error);
    }
    var g := Rename(h.value);
    var amounts := ConvertCurrency(g, CurrencyColumns);
    if amounts.Err? {
      return Err(amounts.error);
    }
    r := Ok(Cleaned(g, amounts.value));
  }

  // ---- properties ----

  /** The loop sees the same first-cell text as the combined frame holds. */
  lemma PreparedFirstText(f: Frame, k: nat)
    requires Rectangular(f) && k < |f.rows|
    ensures FirstText(Prepared(f).rows[k]) == FirstText(f.rows[k])
  {
    var w := WithComments(f);
    assert FirstText(Prepared(f).rows[k]) == FirstText(w.rows[k]);
    if "Comments" !in f.columns {
      if 0 < |f.columns| {
        assert w.columns[0] == f.columns[0];
        assert w.rows[k][0] == f.rows[k][0];
      } else {
        assert w.rows[k][0] == None;
      }
    }
  }

  /** Cleaning fails exactly when no row of the frame is a record, and only with that error. */
  lemma CleanFailsIff(f: Frame)
    requires Rectangular(f)
    ensures CleanRecords(f).Err? <==> forall k :: 0 <= k < |f.rows| ==> !IsPrimary(f.rows[k])
    ensures CleanRecords(f).Err? ==> CleanRecords(f).error == NoPrimaryRecords
  {
    var g := Prepared(f);
    forall k | 0 <= k < |f.rows| ensures IsPrimary(g.rows[k]) == IsPrimary(f.rows[k]) {
      PreparedFirstText(f, k);
    }
    RepairKeepsRecords(g.rows, CommentIndex(g));
    PrimariesEmptyIff(g.rows);
  }

  /** No records means nothing is kept, and the other way round. */
  lemma {:induction false} PrimariesEmptyIff(rows: seq<Row>)
    ensures Primaries(rows) == [] <==> forall k :: 0 <= k < |rows| ==> !IsPrimary(rows[k])
  {
    if rows != [] {
      var init := rows[..|rows| - 1];
      PrimariesEmptyIff(init);
      assert rows == init + [rows[|rows| - 1]];
    }
  }

  /**
   * `h` is rectangular with one row per record of `recs`, of the same
   * width; every cell but the one at `ci` is the record's own, and the
   * one at `ci` is set.
   */
  predicate ShapedAsRecords(h: Frame, recs: seq<Row>, ci: nat) {
    Rectangular(h) && |h.rows| == |recs| &&
    (forall k :: 0 <= k < |h.rows| ==> |recs[k]| == |h.columns|) &&
    (forall k, j :: 0 <= k < |h.rows| && 0 <= j < |h.columns| && j != ci ==> h.rows[k][j] == recs[k][j]) &&
    (forall k :: 0 <= k < |h.rows| && ci < |h.columns| ==> h.rows[k][ci].Some?)
  }

  /**
   * A cleaned frame has the input's labels (plus "Comments"), one row per
   * record, every cell but the comment equal to its record's, and a
   * cleaned comment (never missing) in every row.
   */
  lemma CleanShape(f: Frame)
    requires Rectangular(f) && CleanRecords(f).Ok?
    ensures var g := Prepared(f);
      var ci := CommentIndex(g);
      CleanRecords(f).value.columns == g.columns && ci < |g.columns| &&
      ShapedAsRecords(CleanRecords(f).value, Primaries(g.rows), ci)
  {
    var g := Prepared(f);
    var ci := CommentIndex(g);
    RepairKeepsRecords(g.rows, ci);
    PrimariesRectangular(g.rows, |g.columns|);
  }

  lemma {:induction false} PrimariesRectangular(rows: seq<Row>, w: nat)
    requires forall k :: 0 <= k < |rows| ==> |rows[k]| == w
    ensures forall p :: 0 <= p < |Primaries(rows)| ==> |Primaries(rows)[p]| == w
  {
    if rows != [] {
      PrimariesRectangular(rows[..|rows| - 1], w);
    }
  }

  /**
   * The comment of each cleaned row is the cleaned comment of its group:
   * the first-cell text of the record's last continuation, or the record's
   * own comment when it has none.
   */
  lemma CleanIsGroups(f: Frame)
    requires Rectangular(f) && CleanRecords(f).Ok?
    ensures var g := Prepared(f);
      var ci := CommentIndex(g);
      CleanRecords(f).value.rows == CleanCommentCells(Groups(g.rows, ci), ci)
  {
    var g := Prepared(f);
    RepairIsGroups(g.rows, CommentIndex(g));
  }

  /** Labels outside the rename table keep their names. */
  lemma UnmappedLabelsKept(f: Frame, j: nat)
    requires j < |f.columns| && f.columns[j] !in Renames
    ensures Rename(f).columns[j] == f.columns[j]
  {
  }

  /**
   * The currency conversion gives, in order, the numbers of every listed
   * column the frame has, or the first error.
   */
  lemma ConvertCurrencySpec(f: Frame, cols: seq<string>)
    ensures ConvertCurrency(f, cols).Ok? ==>
      forall a :: a in ConvertCurrency(f, cols).value ==> (a.column in cols && a.column in f.columns &&
        ConvertColumn(f.rows, IndexOf(f.columns, a.column), a.column) == Ok(a.values))
    ensures ConvertCurrency(f, cols).Ok? <==>
      forall c :: c in cols && c in f.columns ==> ConvertColumn(f.rows, IndexOf(f.columns, c), c).Ok?
  {
    ConvertCurrencyHolds(f, cols);
  }

  /** Every entry of `amounts` is the conversion of one of `cols` the frame has. */
  predicate EntriesConverted(f: Frame, cols: seq<string>, amounts: seq<Amounts>) {
    forall a :: a in amounts ==> (a.column in cols && a.column in f.columns &&
      ConvertColumn(f.rows, IndexOf(f.columns, a.column), a.column) == Ok(a.values))
  }

  /** Every one of `cols` the frame has converts. */
  predicate AllConverted(f: Frame, cols: seq<string>) {
    forall c :: c in cols && c in f.columns ==> ConvertColumn(f.rows, IndexOf(f.columns, c), c).Ok?
  }

  lemma {:induction false} ConvertCurrencyHolds(f: Frame, cols: seq<string>)
    ensures ConvertCurrency(f, cols).Ok? ==> EntriesConverted(f, cols, ConvertCurrency(f, cols).value)
    ensures ConvertCurrency(f, cols).Ok? <==> AllConverted(f, cols)
  {
    if cols != [] {
      ConvertCurrencyHolds(f, cols[1..]);
      AllConvertedCons(f, cols);
      if ConvertCurrency(f, cols).Ok? {
        var head := ConvertCurrencyCons(f, cols);
        EntriesCons(f, cols, head, ConvertCurrency(f, cols[1..]).value);
      }
    }
  }

  lemma AllConvertedCons(f: Frame, cols: seq<string>)
    requires cols != []
    ensures AllConverted(f, cols) <==>
      (cols[0] in f.columns ==> ConvertColumn(f.rows, IndexOf(f.columns, cols[0]), cols[0]).Ok?) && AllConverted(f, cols[1..])
  {
    assert forall c :: c in cols <==> c == cols[0] || c in cols[1..];
  }

  lemma EntriesCons(f: Frame, cols: seq<string>, head: seq<Amounts>, rest: seq<Amounts>)
    requires cols != [] && EntriesConverted(f, cols[1..], rest)
    requires cols[0] in f.columns ==> ConvertColumn(f.rows, IndexOf(f.columns, cols[0]), cols[0]).Ok?
    requires head == if cols[0] in f.columns then [Amounts(cols[0], ConvertColumn(f.rows, IndexOf(f.columns, cols[0]), cols[0]).value)] else []
    ensures EntriesConverted(f, cols, head + rest)
  {
    forall a | a in head + rest
      ensures a.column in cols && a.column in f.columns && ConvertColumn(f.rows, IndexOf(f.columns, a.column), a.column) == Ok(a.values)
    {
      if a in head {
        assert a == head[0];
      } else {
        assert a in rest;
        assert a.column in cols[1..];
      }
    }
  }


  /** A successful conversion has one entry for each listed column the frame has, in the listed order. */
  lemma {:induction false} ConvertCurrencyColumns(f: Frame, cols: seq<string>)
    requires ConvertCurrency(f, cols).Ok?
    ensures AmountColumns(ConvertCurrency(f, cols).value) == Present(cols, f.columns)
  {
    if cols != [] {
      var head := ConvertCurrencyCons(f, cols);
      ConvertCurrencyColumns(f, cols[1..]);
      var rest := ConvertCurrency(f, cols[1..]).value;
      var pc := if cols[0] in f.columns then [cols[0]] else [];
      assert Present(cols, f.columns) == pc + Present(cols[1..], f.columns);
      AmountColumnsAppend(head, rest);
      assert AmountColumns(head) == pc;
    }
  }

  lemma AmountColumnsAppend(a: seq<Amounts>, b: seq<Amounts>)
    ensures AmountColumns(a + b) == AmountColumns(a) + AmountColumns(b)
  {
  }

  /** The first listed column contributes its own entry, if the frame has it, in front of the rest. */
  lemma ConvertCurrencyCons(f: Frame, cols: seq<string>) returns (head: seq<Amounts>)
    requires cols != [] && ConvertCurrency(f, cols).Ok?
    ensures ConvertCurrency(f, cols[1..]).Ok?
    ensures ConvertCurrency(f, cols).value == head + ConvertCurrency(f, cols[1..]).value
    ensures head == if cols[0] in f.columns then [Amounts(cols[0], ConvertColumn(f.rows, IndexOf(f.columns, cols[0]), cols[0]).value)] else []
  {
    if cols[0] in f.columns {
      head := [Amounts(cols[0], ConvertColumn(f.rows, IndexOf(f.columns, cols[0]), cols[0]).value)];
    } else {
      head := [];
    }
  }

  /** app.py's clean-up fails exactly when the shared part does or a present currency column has a refused value. */
  lemma CleanAppFailsIff(f: Frame)
    requires Rectangular(f)
    ensures CleanApp(f).Err? <==> (CleanRecords(f).Err? ||
      exists c :: c in CurrencyColumns && c in Rename(CleanRecords(f).value).columns &&
        ConvertColumn(Rename(CleanRecords(f).value).rows, IndexOf(Rename(CleanRecords(f).value).columns, c), c).Err?)
  {
    if CleanRecords(f).Ok? {
      ConvertCurrencySpec(Rename(CleanRecords(f).value), CurrencyColumns);
    }
  }
}
