/**
 * The tabular values the pipeline passes between its stages: a data frame
 * with labelled columns whose cells hold text or are missing (pandas' NaN or
 * None), how a frame is built from extracted rows, and how the section frames
 * are concatenated.
 */
module Frames {
  import opened Wrappers

  /** A cell: `Some(text)`, or `None` for a missing value. */
  type Cell = Option<string>
  type Row = seq<Cell>

  datatype Frame = Frame(columns: seq<string>, rows: seq<Row>)

  /** The failures the pipeline reports (each aborts the step it occurs in). */
  datatype Error =
    | ColumnCountMismatch(passed: nat, found: nat)  // DataFrame(rows, columns=headers) refuses the headers
    | RenderTimeout                                 // no table appeared while the browser waited
    | NoPrimaryRecords                              // the repaired frame is empty, so it has no "Comments" column
    | BadNumber(column: string, text: string)       // a currency text float() rejects

  predicate Distinct<T(==)>(s: seq<T>) {
    forall i, j :: 0 <= i < j < |s| ==> s[i] != s[j]
  }

  /** Every row has one cell per column. */
  predicate Rectangular(f: Frame) {
    forall i :: 0 <= i < |f.rows| ==> |f.rows[i]| == |f.columns|
  }

  predicate WellFormed(f: Frame) {
    Rectangular(f) && Distinct(f.columns)
  }

  /** Position of the first occurrence of `x` in `s`. */
  function IndexOf<T(==)>(s: seq<T>, x: T): (i: nat)
    requires x in s
    ensures i < |s| && s[i] == x
    ensures forall j :: 0 <= j < i ==> s[j] != x
  {
    if s[0] == x then 0 else 1 + IndexOf(s[1..], x)
  }

  /** The length of the longest row (0 for no rows). */
  function MaxWidth(rows: seq<seq<string>>): (w: nat)
    ensures forall r :: r in rows ==> |r| <= w
    ensures rows != [] ==> exists r :: r in rows && |r| == w
  {
    if rows == [] then 0
    else
      var rest := MaxWidth(rows[1..]);
      assert forall r :: r in rows ==> r == rows[0] || r in rows[1..];
      if |rows[0]| >= rest then |rows[0]| else rest
  }

  /** A row of texts widened to `width` cells, the missing ones `None`. */
  function Pad(r: seq<string>, width: nat): (p: Row)
    requires |r| <= width
    ensures |p| == width
    ensures forall j :: 0 <= j < |r| ==> p[j] == Some(r[j])
    ensures forall j :: |r| <= j < width ==> p[j] == None
  {
    seq(width, j requires 0 <= j < width => if j < |r| then Some(r[j]) else None)
  }

  /**
   * `df[name] = value`: every column labelled `name` is set to `value`; when
   * there is none, a column `name` is appended.
   */
  function SetColumn(f: Frame, name: string, value: Cell): (g: Frame)
    requires Rectangular(f)
    ensures Rectangular(g) && |g.rows| == |f.rows|
    ensures name in f.columns ==> g.columns == f.columns
    ensures name !in f.columns ==> g.columns == f.columns + [name]
    ensures forall i, j :: 0 <= i < |g.rows| && 0 <= j < |g.columns| ==>
              g.rows[i][j] == if g.columns[j] == name then value else f.rows[i][j]
  {
    if name in f.columns then
      Frame(f.columns, seq(|f.rows|, i requires 0 <= i < |f.rows| =>
        seq(|f.columns|, j requires 0 <= j < |f.columns| =>
          if f.columns[j] == name then value else f.rows[i][j])))
    else
      Frame(f.columns + [name], seq(|f.rows|, i requires 0 <= i < |f.rows| => f.rows[i] + [value]))
  }

  /**
   * `pd.DataFrame(rows, columns=headers)` followed by `df["Record_Type"] = tag`.
   * pandas widens every row to the longest one with missing values and
   * refuses the headers unless there is exactly one per cell of that width.
   */
  function MakeSection(headers: seq<string>, rows: seq<seq<string>>, tag: string): (r: Result<Frame, Error>)
    ensures r.Err? <==> |headers| != MaxWidth(rows)
    ensures r.Err? ==> r.error == ColumnCountMismatch(|headers|, MaxWidth(rows))
    ensures r.Ok? ==> Rectangular(r.value) && |r.value.rows| == |rows|
    ensures r.Ok? ==> "Record_Type" in r.value.columns
    ensures r.Ok? ==> r.value.columns == if "Record_Type" in headers then headers else headers + ["Record_Type"]
    ensures r.Ok? ==> forall i, j :: 0 <= i < |rows| && 0 <= j < |headers| && headers[j] != "Record_Type" ==>
              r.value.rows[i][j] == (if j < |rows[i]| then Some(rows[i][j]) else None)
    ensures r.Ok? ==> forall i, j :: 0 <= i < |rows| && 0 <= j < |r.value.columns| && r.value.columns[j] == "Record_Type" ==>
              r.value.rows[i][j] == Some(tag)
  {
    var width := MaxWidth(rows);
    if |headers| != width then Err(ColumnCountMismatch(|headers|, width))
    else
      var padded := seq(|rows|, i requires 0 <= i < |rows| => assert rows[i] in rows; Pad(rows[i], width));
      Ok(SetColumn(Frame(headers, padded), "Record_Type", Some(tag)))
  }

  // ---- pd.concat(frames, ignore_index=True) ----

  /** `acc` extended by the labels of `cols` it lacks, in their order. */
  function AddNew(acc: seq<string>, cols: seq<string>): (r: seq<string>)
    ensures forall c :: c in r <==> c in acc || c in cols
    ensures |acc| <= |r| && r[..|acc|] == acc
    ensures Distinct(acc) ==> Distinct(r)
    decreases |cols|
  {
    if cols == [] then acc
    else if cols[0] in acc then AddNew(acc, cols[1..])
    else AddNew(acc + [cols[0]], cols[1..])
  }

  /** Some frame of `fs` has the label `c`. */
  predicate InSome(fs: seq<Frame>, c: string) {
    exists i :: 0 <= i < |fs| && c in fs[i].columns
  }

  lemma InSomeSplit(fs: seq<Frame>, c: string)
    requires fs != []
    ensures InSome(fs, c) <==> c in fs[0].columns || InSome(fs[1..], c)
  {
    if InSome(fs[1..], c) {
      var i :| 0 <= i < |fs[1..]| && c in fs[1..][i].columns;
      assert c in fs[i + 1].columns;
    }
    if InSome(fs, c) && c !in fs[0].columns {
      var i :| 0 <= i < |fs| && c in fs[i].columns;
      assert fs[1..][i - 1] == fs[i];
    }
  }

  function UnionFrom(acc: seq<string>, fs: seq<Frame>): (r: seq<string>)
    ensures forall c :: c in r <==> c in acc || InSome(fs, c)
    ensures |acc| <= |r| && r[..|acc|] == acc
    ensures Distinct(acc) ==> Distinct(r)
    decreases |fs|
  {
    if fs == [] then acc
    else
      var r := UnionFrom(AddNew(acc, fs[0].columns), fs[1..]);
      assert forall c :: InSome(fs, c) <==> c in fs[0].columns || InSome(fs[1..], c) by {
        forall c ensures InSome(fs, c) <==> c in fs[0].columns || InSome(fs[1..], c) {
          InSomeSplit(fs, c);
        }
      }
      r
  }

  /** The concatenated frame's labels: every frame's labels, in order of first appearance. */
  function UnionColumns(fs: seq<Frame>): seq<string> {
    UnionFrom([], fs)
  }

  /** One row of `f` laid out on the columns `cols`: its own value where `f` has the label, missing elsewhere. */
  function Realign(f: Frame, r: Row, cols: seq<string>): (out: Row)
    requires |r| == |f.columns|
    ensures |out| == |cols|
    ensures forall j :: 0 <= j < |cols| && cols[j] in f.columns ==> out[j] == r[IndexOf(f.columns, cols[j])]
    ensures forall j :: 0 <= j < |cols| && cols[j] !in f.columns ==> out[j] == None
  {
    seq(|cols|, j requires 0 <= j < |cols| =>
      if cols[j] in f.columns then r[IndexOf(f.columns, cols[j])] else None)
  }

  function RealignAll(f: Frame, cols: seq<string>): (rows: seq<Row>)
    requires Rectangular(f)
    ensures |rows| == |f.rows|
    ensures forall k :: 0 <= k < |f.rows| ==> rows[k] == Realign(f, f.rows[k], cols)
  {
    seq(|f.rows|, k requires 0 <= k < |f.rows| => Realign(f, f.rows[k], cols))
  }

  predicate AllRectangular(fs: seq<Frame>) {
    forall i :: 0 <= i < |fs| ==> Rectangular(fs[i])
  }

  function ConcatRows(fs: seq<Frame>, cols: seq<string>): seq<Row>
    requires AllRectangular(fs)
    decreases |fs|
  {
    if fs == [] then [] else RealignAll(fs[0], cols) + ConcatRows(fs[1..], cols)
  }

  function TotalRows(fs: seq<Frame>): nat {
    if fs == [] then 0 else |fs[0].rows| + TotalRows(fs[1..])
  }

  /** Number of rows of the frames before the `i`th. */
  function RowsBefore(fs: seq<Frame>, i: nat): nat
    requires i <= |fs|
  {
    if i == 0 then 0 else RowsBefore(fs, i - 1) + |fs[i - 1].rows|
  }

  /** `pd.concat(fs, ignore_index=True)`: always rectangular, with the rows of all frames. */
  function Concat(fs: seq<Frame>): (f: Frame)
    requires AllRectangular(fs)
    ensures Rectangular(f) && |f.rows| == TotalRows(fs)
  {
    var cols := UnionColumns(fs);
    ConcatRowsLength(fs, cols);
    Frame(cols, ConcatRows(fs, cols))
  }

  lemma {:induction false} ConcatRowsLength(fs: seq<Frame>, cols: seq<string>)
    requires AllRectangular(fs)
    ensures |ConcatRows(fs, cols)| == TotalRows(fs)
    ensures forall m :: 0 <= m < |ConcatRows(fs, cols)| ==> |ConcatRows(fs, cols)[m]| == |cols|
  {
    if fs != [] {
      ConcatRowsCons(fs, cols);
      ConcatRowsLength(fs[1..], cols);
    }
  }

  lemma {:induction false} RowsBeforeShift(fs: seq<Frame>, i: nat)
    requires 0 < i <= |fs|
    ensures RowsBefore(fs, i) == |fs[0].rows| + RowsBefore(fs[1..], i - 1)
  {
    if i > 1 {
      RowsBeforeShift(fs, i - 1);
    }
  }

  /** Row `k` of the `i`th frame lands at position `RowsBefore(fs, i) + k` of the concatenation. */
  lemma {:induction false} ConcatRowsAt(fs: seq<Frame>, cols: seq<string>, i: nat, k: nat)
    requires AllRectangular(fs)
    requires i < |fs| && k < |fs[i].rows|
    ensures RowsBefore(fs, i) + k < |ConcatRows(fs, cols)|
    ensures ConcatRows(fs, cols)[RowsBefore(fs, i) + k] == RealignAll(fs[i], cols)[k]
    decreases i
  {
    ConcatRowsCons(fs, cols);
    var head := RealignAll(fs[0], cols);
    if i == 0 {
      assert RowsBefore(fs, 0) == 0;
    } else {
      RowsBeforeShift(fs, i);
      assert fs[1..][i - 1] == fs[i];
      ConcatRowsAt(fs[1..], cols, i - 1, k);
      assert RowsBefore(fs, i) + k == |head| + (RowsBefore(fs[1..], i - 1) + k);
    }
  }

  lemma ConcatRowsCons(fs: seq<Frame>, cols: seq<string>)
    requires AllRectangular(fs) && fs != []
    ensures AllRectangular(fs[1..])
    ensures ConcatRows(fs, cols) == RealignAll(fs[0], cols) + ConcatRows(fs[1..], cols)
  {
    forall m | 0 <= m < |fs[1..]| ensures Rectangular(fs[1..][m]) {
      assert fs[1..][m] == fs[m + 1];
    }
  }

  lemma {:induction false} RowsBeforeBound(fs: seq<Frame>, i: nat)
    requires i < |fs|
    ensures RowsBefore(fs, i) + |fs[i].rows| <= TotalRows(fs)
    decreases i
  {
    if i > 0 {
      RowsBeforeShift(fs, i);
      RowsBeforeBound(fs[1..], i - 1);
      assert fs[1..][i - 1] == fs[i];
    }
  }

  predicate AllWellFormed(fs: seq<Frame>) {
    forall i :: 0 <= i < |fs| ==> WellFormed(fs[i])
  }

  /** The concatenated labels: those of all frames without repetition, the first frame's first. */
  lemma ConcatColumns(fs: seq<Frame>)
    requires AllWellFormed(fs)
    ensures Distinct(UnionColumns(fs))
    ensures forall c :: c in UnionColumns(fs) <==> InSome(fs, c)
    ensures fs != [] ==> |fs[0].columns| <= |UnionColumns(fs)| && UnionColumns(fs)[..|fs[0].columns|] == fs[0].columns
  {
    if fs != [] {
      AddNewDistinct([], fs[0].columns);
      assert [] + fs[0].columns == fs[0].columns;
      assert UnionColumns(fs) == UnionFrom(fs[0].columns, fs[1..]);
    }
  }

  /**
   * What `pd.concat(frames, ignore_index=True)` produces: a well-formed frame
   * with as many rows as all frames together. `ConcatRowAt` places each row:
   * frame order, then row order, realigned on the combined labels.
   */
  lemma ConcatWellFormed(fs: seq<Frame>)
    requires AllWellFormed(fs)
    ensures WellFormed(Concat(fs)) && |Concat(fs).rows| == TotalRows(fs)
  {
    ConcatColumns(fs);
    ConcatRowsLength(fs, UnionColumns(fs));
  }

  /** Row `k` of frame `i` is the concatenation's row `RowsBefore(fs, i) + k`, realigned. */
  lemma ConcatRowAt(fs: seq<Frame>, i: nat, k: nat)
    requires AllRectangular(fs) && i < |fs| && k < |fs[i].rows|
    ensures RowsBefore(fs, i) + k < |Concat(fs).rows|
    ensures Concat(fs).rows[RowsBefore(fs, i) + k] == Realign(fs[i], fs[i].rows[k], Concat(fs).columns)
  {
    var cols := UnionColumns(fs);
    ConcatRowsAt(fs, cols, i, k);
    assert RealignAll(fs[i], cols)[k] == Realign(fs[i], fs[i].rows[k], cols);
  }

  /** Adding labels that are distinct and new appends them all. */
  lemma {:induction false} AddNewDistinct(acc: seq<string>, cols: seq<string>)
    requires Distinct(cols)
    requires forall i :: 0 <= i < |cols| ==> cols[i] !in acc
    ensures AddNew(acc, cols) == acc + cols
    decreases |cols|
  {
    if cols != [] {
      DistinctTail(cols);
      FreshTail(acc, cols);
      AddNewFresh(acc, cols);
      AddNewDistinct(acc + [cols[0]], cols[1..]);
      assert acc + [cols[0]] + cols[1..] == acc + cols;
    }
  }

  lemma AddNewFresh(acc: seq<string>, cols: seq<string>)
    requires cols != [] && cols[0] !in acc
    ensures AddNew(acc, cols) == AddNew(acc + [cols[0]], cols[1..])
  {
  }

  /** After the first label is added, the other labels are still new. */
  lemma FreshTail(acc: seq<string>, cols: seq<string>)
    requires cols != [] && cols[0] !in cols[1..]
    requires forall i :: 0 <= i < |cols| ==> cols[i] !in acc
    ensures forall i :: 0 <= i < |cols[1..]| ==> cols[1..][i] !in acc + [cols[0]]
  {
    forall i | 0 <= i < |cols[1..]| ensures cols[1..][i] !in acc + [cols[0]] {
      assert cols[1..][i] == cols[i + 1];
    }
  }

  /** The tail of a sequence without repetitions has none either, and lacks the head. */
  lemma DistinctTail<T>(s: seq<T>)
    requires s != [] && Distinct(s)
    ensures Distinct(s[1..]) && s[0] !in s[1..]
  {
    forall i, j | 0 <= i < j < |s| - 1 ensures s[1..][i] != s[1..][j] {
      assert s[1..][i] == s[i + 1] && s[1..][j] == s[j + 1];
    }
    forall j | 0 <= j < |s| - 1 ensures s[1..][j] != s[0] {
      assert s[1..][j] == s[j + 1];
    }
  }
}
