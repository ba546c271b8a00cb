/**
 * The row repair of `process_and_clean_data` (app.py and final_GCP.py, the
 * same code in both): a row whose first cell, as text, is all digits is a
 * record; any other row continues the record before it and overwrites that
 * record's comment with its own first-cell text. A continuation before the
 * first record is dropped.
 *
 * Rows are those of the combined frame after the first column was turned
 * into text; `ci` is the index of the "Comments" column.
 */
module Repair {
  import opened Wrappers
  import opened Text
  import opened Frames

  /**
   * `str(row.iloc[0])`: a missing value prints as "nan". (Every row of a
   * frame with a "Comments" column has a first cell; the empty row, which
   * never occurs, reads as "nan".)
   */
  function FirstText(r: Row): (t: string)
    ensures t == "nan" || (|r| > 0 && r[0] == Some(t))
  {
    if |r| > 0 && r[0].Some? then r[0].value else "nan"
  }

  /** `seq_number.isdigit()`: the row is a record. */
  predicate IsPrimary(r: Row): (b: bool)
    ensures b <==> |r| > 0 && r[0].Some? && IsDigits(r[0].value)
  {
    assert !IsDigit("nan"[0]);
    IsDigits(FirstText(r))
  }

  /** The record row `r` with its comment cell, at `ci`, set to the first-cell text of row `c`. */
  function Annotate(r: Row, ci: nat, c: Row): (r': Row)
    ensures |r'| == |r|
    ensures ci < |r| ==> r'[ci] == Some(FirstText(c))
    ensures forall j :: 0 <= j < |r| && j != ci ==> r'[j] == r[j]
  {
    if ci < |r| then r[ci := Some(FirstText(c))] else r
  }

  /** One turn of the loop: the emitted rows after reading row `r`. */
  function Step(out: seq<Row>, ci: nat, r: Row): (s: seq<Row>)
    ensures |s| == |out| + (if IsPrimary(r) then 1 else 0)
  {
    if IsPrimary(r) then out + [r]
    else if out == [] then []
    else out[..|out| - 1] + [Annotate(out[|out| - 1], ci, r)]
  }

  /** The rows the loop has emitted after reading `rows`, as a fold from the back. */
  function Repair(rows: seq<Row>, ci: nat): (out: seq<Row>)
    ensures |out| == |Primaries(rows)|
  {
    if rows == [] then []
    else Step(Repair(rows[..|rows| - 1], ci), ci, rows[|rows| - 1])
  }

  /** The record rows, in order: the rows the repair keeps. */
  function Primaries(rows: seq<Row>): (ps: seq<Row>)
    ensures |ps| <= |rows|
  {
    if rows == [] then []
    else Primaries(rows[..|rows| - 1]) + (if IsPrimary(rows[|rows| - 1]) then [rows[|rows| - 1]] else [])
  }

  /** The loop of `process_and_clean_data`, with `last_valid_row`, proved to compute `Repair`. */
  method RepairRows(rows: seq<Row>, ci: nat) returns (cleaned: seq<Row>)
    ensures cleaned == Repair(rows, ci)
  {
    cleaned := [];
    var lastValid: Option<Row> := None;
    var k := 0;
    while k < |rows|
      invariant 0 <= k <= |rows|
      invariant cleaned == Repair(rows[..k], ci)
      invariant lastValid.Some? <==> cleaned != []
      invariant lastValid.Some? ==> lastValid.value == cleaned[|cleaned| - 1]
    {
      assert rows[..k + 1][..k] == rows[..k];
      assert Repair(rows[..k + 1], ci) == Step(cleaned, ci, rows[k]);
      var row := rows[k];
      if IsDigits(FirstText(row)) {
        lastValid := Some(row);
        cleaned := cleaned + [row];
      } else if lastValid.Some? {
        lastValid := Some(Annotate(lastValid.value, ci, row));
        cleaned := cleaned[..|cleaned| - 1] + [lastValid.value];
      }
      k := k + 1;
    }
    assert rows[..k] == rows;
  }

  // ---- what the repair keeps ----

  /**
   * The repair emits one row per record, in order, and each emitted row is
   * its record with nothing changed but possibly the comment.
   */
  lemma {:induction false} RepairKeepsRecords(rows: seq<Row>, ci: nat)
    ensures |Repair(rows, ci)| == |Primaries(rows)|
    ensures forall p :: 0 <= p < |Repair(rows, ci)| ==> |Repair(rows, ci)[p]| == |Primaries(rows)[p]|
    ensures forall p, j :: 0 <= p < |Repair(rows, ci)| && 0 <= j < |Repair(rows, ci)[p]| && j != ci ==>
      Repair(rows, ci)[p][j] == Primaries(rows)[p][j]
  {
    RecordsKept(rows, ci);
  }

  /** Row by row, `out` holds the records `ps` with nothing changed outside the comment column. */
  predicate KeepsRecords(out: seq<Row>, ps: seq<Row>, ci: nat) {
    |out| == |ps| &&
    (forall p :: 0 <= p < |out| ==> |out[p]| == |ps[p]|) &&
    (forall p, j :: 0 <= p < |out| && 0 <= j < |out[p]| && j != ci ==> out[p][j] == ps[p][j])
  }

  lemma {:induction false} RecordsKept(rows: seq<Row>, ci: nat)
    ensures KeepsRecords(Repair(rows, ci), Primaries(rows), ci)
  {
    if rows != [] {
      var init, r := rows[..|rows| - 1], rows[|rows| - 1];
      RecordsKept(init, ci);
      StepKeeps(Repair(init, ci), Primaries(init), ci, r);
    }
  }

  /** One turn of the loop keeps the correspondence with the records read so far. */
  lemma StepKeeps(out: seq<Row>, ps: seq<Row>, ci: nat, r: Row)
    requires KeepsRecords(out, ps, ci)
    ensures KeepsRecords(Step(out, ci, r), ps + (if IsPrimary(r) then [r] else []), ci)
  {
    var out', ps' := Step(out, ci, r), ps + (if IsPrimary(r) then [r] else []);
    if IsPrimary(r) {
      assert out' == out + [r] && ps' == ps + [r];
    } else if out == [] {
      assert out' == [] && ps' == ps;
    } else {
      assert out' == out[..|out| - 1] + [Annotate(out[|out| - 1], ci, r)] && ps' == ps;
      forall p, j | 0 <= p < |out'| && 0 <= j < |out'[p]| && j != ci ensures out'[p][j] == ps'[p][j] {
        if p < |out| - 1 {
          assert out'[p] == out[p];
        }
      }
    }
  }

  // ---- an independent reading: records with the continuations that follow them ----

  /** Number of continuation rows from position `from` up to the next record. */
  function ContinuationRun(rows: seq<Row>, from: nat): (n: nat)
    requires from <= |rows|
    ensures from + n <= |rows|
    ensures forall k :: from <= k < from + n ==> !IsPrimary(rows[k])
    ensures from + n < |rows| ==> IsPrimary(rows[from + n])
    decreases |rows| - from
  {
    if from == |rows| || IsPrimary(rows[from]) then 0
    else 1 + ContinuationRun(rows, from + 1)
  }

  /** A record with the continuations that follow it: the last one, if any, supplies the comment. */
  function WithComment(r: Row, ci: nat, conts: seq<Row>): Row {
    if conts == [] then r else Annotate(r, ci, conts[|conts| - 1])
  }

  /**
   * The rows split into groups, each a record and its continuations; rows
   * before the first record belong to no group.
   */
  function Groups(rows: seq<Row>, ci: nat): (gs: seq<Row>)
    ensures |gs| <= |rows|
    ensures ci != 0 ==> forall p :: 0 <= p < |gs| ==> IsPrimary(gs[p])
    decreases |rows|
  {
    if rows == [] then []
    else if !IsPrimary(rows[0]) then Groups(rows[1..], ci)
    else
      var n := ContinuationRun(rows, 1);
      [WithComment(rows[0], ci, rows[1..1 + n])] + Groups(rows[1 + n..], ci)
  }

  /** A continuation in front of everything is dropped whatever follows. */
  lemma {:induction false} LeadingContinuationDropped(c: Row, rest: seq<Row>, ci: nat)
    requires !IsPrimary(c)
    ensures Repair([c] + rest, ci) == Repair(rest, ci)
    decreases |rest|
  {
    if rest == [] {
      assert ([c] + rest)[..0] == [];
    } else {
      var init := rest[..|rest| - 1];
      assert ([c] + rest)[..|[c] + rest| - 1] == [c] + init;
      LeadingContinuationDropped(c, init, ci);
    }
  }

  /** A record followed by continuations only becomes one row, commented by the last of them. */
  lemma {:induction false} GroupRepair(r: Row, conts: seq<Row>, ci: nat)
    requires IsPrimary(r)
    requires forall k :: 0 <= k < |conts| ==> !IsPrimary(conts[k])
    ensures Repair([r] + conts, ci) == [WithComment(r, ci, conts)]
    decreases |conts|
  {
    if conts == [] {
      assert ([r] + conts)[..0] == [];
    } else {
      var rows := [r] + conts;
      var init, c := conts[..|conts| - 1], conts[|conts| - 1];
      assert rows[..|rows| - 1] == [r] + init;
      assert rows[|rows| - 1] == c;
      assert init + [c] == conts;
      GroupRepair(r, init, ci);
      RepairLast(rows, ci);
      AnnotateLast(r, ci, init, c);
    }
  }

  /** The loop's last turn reads the last row. */
  lemma RepairLast(rows: seq<Row>, ci: nat)
    requires rows != []
    ensures Repair(rows, ci) == Step(Repair(rows[..|rows| - 1], ci), ci, rows[|rows| - 1])
  {
  }

  /** A later continuation overrides the comment of an earlier one. */
  lemma AnnotateLast(r: Row, ci: nat, init: seq<Row>, c: Row)
    requires !IsPrimary(c)
    ensures Step([WithComment(r, ci, init)], ci, c) == [WithComment(r, ci, init + [c])]
  {
    var w := WithComment(r, ci, init);
    assert Step([w], ci, c) == [Annotate(w, ci, c)];
    assert Annotate(w, ci, c) == Annotate(r, ci, c);
    assert (init + [c])[|init + [c]| - 1] == c;
  }

  /** Rows starting with a record have a non-empty repair. */
  lemma RecordFirstNonEmpty(rows: seq<Row>, ci: nat)
    requires rows != [] && IsPrimary(rows[0])
    ensures Repair(rows, ci) != []
  {
    RepairKeepsRecords(rows, ci);
    PrimariesNonEmpty(rows);
  }

  lemma {:induction false} PrimariesNonEmpty(rows: seq<Row>)
    requires rows != [] && IsPrimary(rows[0])
    ensures Primaries(rows) != []
  {
    if |rows| > 1 {
      var init := rows[..|rows| - 1];
      assert init[0] == rows[0];
      PrimariesNonEmpty(init);
    }
  }

  /** A continuation only touches the last emitted row. */
  lemma StepAppend(a: seq<Row>, b: seq<Row>, ci: nat, r: Row)
    requires b != [] && !IsPrimary(r)
    ensures Step(a + b, ci, r) == a + Step(b, ci, r)
  {
    assert (a + b)[..|a + b| - 1] == a + b[..|b| - 1];
    assert (a + b)[|a + b| - 1] == b[|b| - 1];
  }

  /** The repair distributes over a split in front of a record. */
  lemma {:induction false} RepairAppend(x: seq<Row>, y: seq<Row>, ci: nat)
    requires y == [] || IsPrimary(y[0])
    ensures Repair(x + y, ci) == Repair(x, ci) + Repair(y, ci)
    decreases |y|
  {
    if y == [] {
      assert x + y == x;
    } else {
      var y' := y[..|y| - 1];
      var r := y[|y| - 1];
      assert (x + y)[..|x + y| - 1] == x + y';
      assert (x + y)[|x + y| - 1] == r;
      var a := Repair(x, ci);
      if y' == [] {
        assert IsPrimary(r);
        assert x + y' == x;
        assert Repair(y, ci) == Step([], ci, r) == [r];
        assert Repair(x + y, ci) == Step(a, ci, r) == a + [r];
      } else {
        assert y'[0] == y[0];
        RepairAppend(x, y', ci);
        var b := Repair(y', ci);
        assert Repair(x + y, ci) == Step(a + b, ci, r);
        assert Repair(y, ci) == Step(b, ci, r);
        if !IsPrimary(r) {
          RecordFirstNonEmpty(y', ci);
          StepAppend(a, b, ci, r);
        }
      }
    }
  }

  /**
   * The loop computes exactly the grouping: one row per record, carrying the
   * first-cell text of the last continuation of its group as comment.
   */
  lemma {:induction false} RepairIsGroups(rows: seq<Row>, ci: nat)
    ensures Repair(rows, ci) == Groups(rows, ci)
    decreases |rows|
  {
    if rows == [] {
    } else if !IsPrimary(rows[0]) {
      assert rows == [rows[0]] + rows[1..];
      LeadingContinuationDropped(rows[0], rows[1..], ci);
      RepairIsGroups(rows[1..], ci);
    } else {
      var n := ContinuationRun(rows, 1);
      var conts, rest := rows[1..1 + n], rows[1 + n..];
      var group := [rows[0]] + conts;
      assert group == rows[..1 + n] by {
        assert |group| == 1 + n;
        forall k | 0 <= k < 1 + n ensures group[k] == rows[k] {
          if k > 0 { assert group[k] == conts[k - 1]; }
        }
      }
      assert rows == group + rest by { assert rows == rows[..1 + n] + rows[1 + n..]; }
      GroupRepair(rows[0], conts, ci);
      RepairAppend([rows[0]] + conts, rest, ci);
      RepairIsGroups(rest, ci);
    }
  }

  /** Rows that are all records pass through unchanged. */
  lemma {:induction false} RecordsOnlyUnchanged(rows: seq<Row>, ci: nat)
    requires forall k :: 0 <= k < |rows| ==> IsPrimary(rows[k])
    ensures Repair(rows, ci) == rows
  {
    if rows != [] {
      RecordsOnlyUnchanged(rows[..|rows| - 1], ci);
    }
  }

  /**
   * Unless the comment column is the first column, repairing twice is
   * repairing once: every emitted row keeps its record's digits.
   */
  lemma RepairIdempotent(rows: seq<Row>, ci: nat)
    requires ci != 0
    ensures Repair(Repair(rows, ci), ci) == Repair(rows, ci)
  {
    RepairKeepsRecords(rows, ci);
    var out := Repair(rows, ci);
    PrimariesAre(rows);
    forall p | 0 <= p < |out| ensures IsPrimary(out[p]) {
      assert |out[p]| > 0;
      assert out[p][0] == Primaries(rows)[p][0];
    }
    RecordsOnlyUnchanged(out, ci);
  }

  lemma {:induction false} PrimariesAre(rows: seq<Row>)
    ensures forall p :: 0 <= p < |Primaries(rows)| ==> IsPrimary(Primaries(rows)[p])
  {
    if rows != [] {
      PrimariesAre(rows[..|rows| - 1]);
    }
  }
}
