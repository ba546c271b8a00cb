/**
 * The currency conversion of app.py's `process_and_clean_data`: each of the
 * columns "Billed", "Adjust" and "Paid" that the cleaned frame has is turned
 * into text, stripped of every '$' and ',', the empty text is replaced by
 * "0", and the result goes through Python's `float()`; one value `float()`
 * refuses makes the whole conversion fail.
 *
 * Numbers are kept exact: a finite value is `mantissa * 10^exponent` with
 * its sign, as written in the text; rounding to binary floating point is
 * not modelled.
 */
module Currency {
  import opened Wrappers
  import opened Text
  import opened Frames

  const CurrencyColumns: seq<string> := ["Billed", "Adjust", "Paid"]

  datatype Number =
    | Finite(negative: bool, mantissa: nat, exponent: int)
    | NaN
    | Inf(negative: bool)

  function Pow10(n: nat): (p: nat)
    ensures p >= 1
  {
    if n == 0 then 1 else 10 * Pow10(n - 1)
  }

  function DigitValue(c: char): (d: nat)
    ensures d < 10
  {
    if IsDigit(c) then c as int - '0' as int else 0
  }

  /** The value of a string of decimal digits. */
  function DigitsValue(s: string): nat {
    if s == [] then 0
    else 10 * DigitsValue(s[..|s| - 1]) + DigitValue(s[|s| - 1])
  }

  // ---- Python's float() on text ----

  /** The exponent after 'e' or 'E': an optional sign and at least one digit, up to the end. */
  function ParseExponent(u: string, k: nat): Option<int>
    requires k <= |u|
  {
    var neg := k < |u| && u[k] == '-';
    var k' := if k < |u| && (u[k] == '-' || u[k] == '+') then k + 1 else k;
    var d := DigitRun(u, k');
    if d == 0 || k' + d != |u| then None
    else
      var v := DigitsValue(u[k'..]) as int;
      Some(if neg then -v else v)
  }

  /** Unsigned decimal literal: digits, an optional fraction, an optional exponent, nothing else. */
  function ParseDecimal(u: string, neg: bool): (r: Option<Number>)
    ensures u == [] ==> r.None?
    ensures r.Some? ==> r.value.Finite? && r.value.negative == neg
  {
    var d1 := DigitRun(u, 0);
    var dot := d1 < |u| && u[d1] == '.';
    var d2 := if dot then DigitRun(u, d1 + 1) else 0;
    var j := if dot then d1 + 1 + d2 else d1;
    if d1 + d2 == 0 then None
    else
      var mant := DigitsValue(u[..d1]) * Pow10(d2) + (if dot then DigitsValue(u[d1 + 1..j]) else 0);
      if j == |u| then Some(Finite(neg, mant, -(d2 as int)))
      else if u[j] == 'e' || u[j] == 'E' then
        match ParseExponent(u, j + 1)
        case None => None
        case Some(e) => Some(Finite(neg, mant, e - d2))
      else None
  }

  /** The text after an optional leading sign. */
  function Unsigned(t: string): (u: string)
    ensures |u| <= |t|
  {
    if |t| > 0 && (t[0] == '-' || t[0] == '+') then t[1..] else t
  }

  /** The spelled-out values: `w` is the lower-cased text after the sign. */
  function Special(w: string, neg: bool): Option<Number> {
    if w == "inf" || w == "infinity" then Some(Inf(neg))
    else if w == "nan" then Some(NaN)
    else None
  }

  /** `float(s)`: surrounding whitespace ignored, an optional sign, then a decimal, "inf", "infinity" or "nan" in any case. */
  function ParseFloat(s: string): (v: Option<Number>)
    ensures Strip(s) == [] ==> v.None?
    ensures v.Some? && !v.value.NaN? ==> (v.value.negative <==> Strip(s)[0] == '-')
  {
    var t := Strip(s);
    var neg := |t| > 0 && t[0] == '-';
    var u := Unsigned(t);
    match Special(Lower(u), neg)
    case Some(v) => Some(v)
    case None => ParseDecimal(u, neg)
  }

  // ---- the cleaning of one value ----

  /** `.str.replace(r"[$,]", "", regex=True)`. */
  function RemoveMoneySigns(s: string): (r: string)
    ensures |r| <= |s|
    ensures forall i :: 0 <= i < |r| ==> r[i] != '$' && r[i] != ','
  {
    if s == [] then []
    else RemoveMoneySigns(s[..|s| - 1]) + (if s[|s| - 1] == '$' || s[|s| - 1] == ',' then [] else [s[|s| - 1]])
  }

  /** `astype(str)` on the cell, the sign removal, `.replace("", "0")`: the text handed to `float()`. */
  function AmountText(c: Cell): (t: string)
    ensures |t| > 0 && forall i :: 0 <= i < |t| ==> t[i] != '$' && t[i] != ','
    ensures c.None? ==> t == "nan"
    ensures c == Some("") ==> t == "0"
  {
    NoSignsUnchanged("nan");
    var t := RemoveMoneySigns(if c.Some? then c.value else "nan");
    if t == "" then "0" else t
  }

  /** The number `float()` reads from the cell: a missing value is NaN, an empty one zero. */
  function CleanAmount(c: Cell): (v: Option<Number>)
    ensures c.None? ==> v == Some(NaN)
    ensures c == Some("") ==> v == Some(Finite(false, 0, 0))
  {
    ParseFormatNaN();
    ReadsZero();
    ParseFloat(AmountText(c))
  }

  /** The cell of column `j`; a row of a well-formed frame always has one. */
  function CellAt(r: Row, j: nat): Cell {
    if j < |r| then r[j] else None
  }

  /** The cells of column `j`. */
  function ColumnCells(rows: seq<Row>, j: nat): (cells: seq<Cell>)
    ensures |cells| == |rows| && forall k :: 0 <= k < |rows| ==> cells[k] == CellAt(rows[k], j)
  {
    seq(|rows|, k requires 0 <= k < |rows| => CellAt(rows[k], j))
  }

  /** What `float()` makes of each cell. */
  function Parsed(cells: seq<Cell>): (ps: seq<Option<Number>>)
    ensures |ps| == |cells| && forall k :: 0 <= k < |cells| ==> ps[k] == CleanAmount(cells[k])
  {
    seq(|cells|, k requires 0 <= k < |cells| => CleanAmount(cells[k]))
  }

  /** The text `float()` sees for each cell. */
  function Texts(cells: seq<Cell>): (ts: seq<string>)
    ensures |ts| == |cells| && forall k :: 0 <= k < |cells| ==> ts[k] == AmountText(cells[k])
  {
    seq(|cells|, k requires 0 <= k < |cells| => AmountText(cells[k]))
  }

  /** All the parsed values, or the error naming the first text that has none. */
  function Gather(ps: seq<Option<Number>>, ts: seq<string>, name: string): (r: Result<seq<Number>, Error>)
    requires |ps| == |ts|
    ensures r.Ok? ==> |r.value| == |ps|
    ensures r.Err? ==> r.error.BadNumber? && r.error.column == name
  {
    if ps == [] then Ok([])
    else match ps[0]
      case None => Err(BadNumber(name, ts[0]))
      case Some(v) =>
        match Gather(ps[1..], ts[1..], name)
        case Err(e) => Err(e)
        case Ok(vs) => Ok([v] + vs)
  }

  /** `astype(float)` on column `j`: every value converted, or the error for the first value `float()` refuses. */
  function ConvertColumn(rows: seq<Row>, j: nat, name: string): (r: Result<seq<Number>, Error>)
    ensures r.Ok? ==> |r.value| == |rows|
    ensures r.Err? ==> r.error.BadNumber? && r.error.column == name
  {
    var cells := ColumnCells(rows, j);
    Gather(Parsed(cells), Texts(cells), name)
  }

  /** Position `k` holds the first missing value. */
  predicate FirstNone(ps: seq<Option<Number>>, k: nat) {
    k < |ps| && ps[k].None? && forall k' :: 0 <= k' < k ==> ps[k'].Some?
  }

  lemma {:induction false} GatherSpec(ps: seq<Option<Number>>, ts: seq<string>, name: string)
    requires |ps| == |ts|
    ensures Gather(ps, ts, name).Ok? ==> forall k :: 0 <= k < |ps| ==> ps[k] == Some(Gather(ps, ts, name).value[k])
    ensures Gather(ps, ts, name).Err? ==>
      exists k: nat :: FirstNone(ps, k) && Gather(ps, ts, name).error == BadNumber(name, ts[k])
  {
    if ps != [] {
      GatherSpec(ps[1..], ts[1..], name);
      if ps[0].None? {
        assert FirstNone(ps, 0);
      } else if Gather(ps[1..], ts[1..], name).Err? {
        var k: nat :| FirstNone(ps[1..], k) && Gather(ps[1..], ts[1..], name).error == BadNumber(name, ts[1..][k]);
        assert FirstNone(ps, k + 1);
      }
    }
  }

  /** A successful conversion holds, row by row, the number `float()` reads from the cell. */
  lemma ConvertColumnOk(rows: seq<Row>, j: nat, name: string)
    requires ConvertColumn(rows, j, name).Ok?
    ensures |ConvertColumn(rows, j, name).value| == |rows|
    ensures forall k :: 0 <= k < |rows| ==> CleanAmount(CellAt(rows[k], j)) == Some(ConvertColumn(rows, j, name).value[k])
  {
    var cells := ColumnCells(rows, j);
    GatherSpec(Parsed(cells), Texts(cells), name);
  }

  /** The conversion fails exactly when some value is refused. */
  lemma ConvertColumnFailsIff(rows: seq<Row>, j: nat, name: string)
    ensures ConvertColumn(rows, j, name).Err? <==> exists k :: 0 <= k < |rows| && CleanAmount(CellAt(rows[k], j)).None?
  {
    var cells := ColumnCells(rows, j);
    var ps, ts := Parsed(cells), Texts(cells);
    GatherSpec(ps, ts, name);
  }

  /** A failed conversion names the text of the first refused value. */
  lemma ConvertColumnFirstError(rows: seq<Row>, j: nat, name: string)
    requires ConvertColumn(rows, j, name).Err?
    ensures exists k: nat :: (k < |rows| && CleanAmount(CellAt(rows[k], j)).None? &&
      (forall k' :: 0 <= k' < k ==> CleanAmount(CellAt(rows[k'], j)).Some?) &&
      ConvertColumn(rows, j, name).error == BadNumber(name, AmountText(CellAt(rows[k], j))))
  {
    var cells := ColumnCells(rows, j);
    GatherSpec(Parsed(cells), Texts(cells), name);
  }

  // ---- the reverse direction: writing a number ----

  function NatDigits(n: nat): (s: string)
    ensures |s| > 0 && forall i :: 0 <= i < |s| ==> IsDigit(s[i])
    ensures DigitsValue(s) == n
  {
    var last := [(n % 10) as char + '0'];
    if n < 10 then last
    else
      var init := NatDigits(n / 10);
      assert (init + last)[..|init + last| - 1] == init;
      init + last
  }

  function IntText(e: int): string {
    if e < 0 then "-" + NatDigits(-e) else NatDigits(e)
  }

  /** A text `float()` reads back as exactly `x`: sign, mantissa digits, 'e', exponent. */
  function Format(x: Number): string {
    match x
    case NaN => "nan"
    case Inf(neg) => (if neg then "-" else "") + "inf"
    case Finite(neg, m, e) => (if neg then "-" else "") + NatDigits(m) + "e" + IntText(e)
  }

  // ---- properties ----

  lemma ExponentRoundTrip(u: string, k: nat, e: int)
    requires k <= |u| && u[k..] == IntText(e)
    ensures ParseExponent(u, k) == Some(e)
  {
    var n := if e < 0 then -e else e;
    var k' := if e < 0 then k + 1 else k;
    var ds := NatDigits(n);
    assert u[k'..] == ds;
    forall p | k' <= p < k' + |ds| ensures IsDigit(u[p]) {
      assert u[p] == ds[p - k'];
    }
    DigitRunOver(u, k', |ds|);
  }

  /** The mantissa digits, then 'e' and the exponent, read back as the finite number. */
  lemma DecimalRoundTrip(neg: bool, m: nat, e: int)
    ensures ParseDecimal(NatDigits(m) + "e" + IntText(e), neg) == Some(Finite(neg, m, e))
  {
    var ds := NatDigits(m);
    var t := "e" + IntText(e);
    var u := ds + t;
    assert u == ds + "e" + IntText(e);
    LeadingDigits(ds, t);
    assert u[|ds| + 1..] == t[1..] == IntText(e);
    ExponentRoundTrip(u, |ds| + 1, e);
    IntegerWithExponent(u, neg, |ds|);
  }

  /** Digits followed by a text that starts with a non-digit: the run is exactly the digits. */
  lemma LeadingDigits(ds: string, t: string)
    requires |ds| > 0 && (forall p :: 0 <= p < |ds| ==> IsDigit(ds[p]))
    requires |t| > 0 && !IsDigit(t[0])
    ensures DigitRun(ds + t, 0) == |ds| && (ds + t)[..|ds|] == ds && (ds + t)[|ds|..] == t
  {
    var u := ds + t;
    forall p | 0 <= p < |ds| ensures IsDigit(u[p]) {
      assert u[p] == ds[p];
    }
    assert u[|ds|] == t[0];
    DigitRunOver(u, 0, |ds|);
  }

  /** Digits without a fraction, then 'e': the mantissa is the digits' value. */
  lemma IntegerWithExponent(u: string, neg: bool, d: nat)
    requires 0 < d < |u| && DigitRun(u, 0) == d && u[d] == 'e'
    requires ParseExponent(u, d + 1).Some?
    ensures ParseDecimal(u, neg) == Some(Finite(neg, DigitsValue(u[..d]), ParseExponent(u, d + 1).value))
  {
    assert Pow10(0) == 1;
  }

  /** A text that starts with a digit, after an optional '-', and ends in no space is read as a decimal. */
  lemma ReadAsDecimal(s: string, neg: bool, u: string)
    requires s == (if neg then "-" else "") + u
    requires |u| > 0 && IsDigit(u[0]) && !IsSpace(s[|s| - 1])
    ensures ParseFloat(s) == ParseDecimal(u, neg)
  {
    assert !IsSpace(s[0]);
    NoSpecialDigit(u, neg);
    SignedPlain(s, neg, u);
  }

  /** A text with no surrounding whitespace is read after its sign. */
  lemma SignedPlain(s: string, neg: bool, u: string)
    requires s == (if neg then "-" else "") + u
    requires |u| > 0 && u[0] != '-' && u[0] != '+' && !IsSpace(s[0]) && !IsSpace(s[|s| - 1])
    requires Special(Lower(u), neg).None?
    ensures ParseFloat(s) == ParseDecimal(u, neg)
  {
    StripUnchanged(s);
    assert Unsigned(s) == u;
  }

  lemma NoSpecialDigit(u: string, neg: bool)
    requires |u| > 0 && IsDigit(u[0])
    ensures Special(Lower(u), neg) == None
  {
    NoSpecialStart(u, neg);
  }

  /** Only a text starting with 'i' or 'n', in any case, can spell a special value. */
  lemma NoSpecialStart(u: string, neg: bool)
    requires |u| > 0 && LowerChar(u[0]) != 'i' && LowerChar(u[0]) != 'n'
    ensures Special(Lower(u), neg) == None
  {
    assert Lower(u)[0] == LowerChar(u[0]);
    assert "inf"[0] == 'i' && "infinity"[0] == 'i' && "nan"[0] == 'n';
  }

  /** `float()` reads back every number from the text `Format` writes. */
  lemma ParseFormat(x: Number)
    ensures ParseFloat(Format(x)) == Some(x)
  {
    match x
    case NaN => ParseFormatNaN();
    case Inf(neg) => ParseFormatInf(neg);
    case Finite(neg, m, e) => ParseFormatFinite(neg, m, e);
  }

  lemma ParseFormatNaN()
    ensures ParseFloat("nan") == Some(NaN)
  {
    StripUnchanged("nan");
    assert Unsigned("nan") == "nan";
    assert Lower("nan") == "nan";
  }

  lemma ParseFormatInf(neg: bool)
    ensures ParseFloat(Format(Inf(neg))) == Some(Inf(neg))
  {
    var s := Format(Inf(neg));
    StripUnchanged(s);
    assert Unsigned(s) == "inf";
    assert Lower("inf") == "inf";
  }

  lemma ParseFormatFinite(neg: bool, m: nat, e: int)
    ensures ParseFloat(Format(Finite(neg, m, e))) == Some(Finite(neg, m, e))
  {
    var u := NatDigits(m) + "e" + IntText(e);
    FiniteText(neg, m, e);
    ReadAsDecimal(Format(Finite(neg, m, e)), neg, u);
    DecimalRoundTrip(neg, m, e);
  }

  /** The text of a finite number: an optional '-', then digits first and a digit last. */
  lemma FiniteText(neg: bool, m: nat, e: int)
    ensures var u := NatDigits(m) + "e" + IntText(e);
      var s := Format(Finite(neg, m, e));
      s == (if neg then "-" else "") + u && |u| > 0 && IsDigit(u[0]) && IsDigit(s[|s| - 1])
  {
    var sign: string := if neg then "-" else "";
    var d := NatDigits(m);
    var t := IntText(e);
    var u := d + "e" + t;
    var s := Format(Finite(neg, m, e));
    assert s == sign + d + "e" + t;
    assert s == sign + u;
    var last := NatDigits(if e < 0 then -e else e);
    assert t[|t| - 1] == last[|last| - 1];
    assert s[|s| - 1] == t[|t| - 1];
    assert IsDigit(last[|last| - 1]);
    assert u[0] == d[0];
  }

  /** A text without '$' or ',' is left alone. */
  lemma {:induction false} NoSignsUnchanged(s: string)
    requires forall i :: 0 <= i < |s| ==> s[i] != '$' && s[i] != ','
    ensures RemoveMoneySigns(s) == s
  {
    if s != [] {
      NoSignsUnchanged(s[..|s| - 1]);
    }
  }

  /** Removing the signs a second time changes nothing. */
  lemma RemoveMoneySignsIdempotent(s: string)
    ensures RemoveMoneySigns(RemoveMoneySigns(s)) == RemoveMoneySigns(s)
  {
    NoSignsUnchanged(RemoveMoneySigns(s));
  }

  /** The removal works character by character. */
  lemma {:induction false} RemoveMoneySignsAppend(a: string, b: string)
    ensures RemoveMoneySigns(a + b) == RemoveMoneySigns(a) + RemoveMoneySigns(b)
    decreases |b|
  {
    if b == [] {
      assert a + b == a;
    } else {
      var b' := b[..|b| - 1];
      assert (a + b)[..|a + b| - 1] == a + b';
      RemoveMoneySignsAppend(a, b');
    }
  }

  /** "0", the text of an empty cell, reads as zero. */
  lemma ReadsZero()
    ensures ParseFloat("0") == Some(Finite(false, 0, 0))
  {
    var u := "0";
    ReadAsDecimal(u, false, u);
    DigitRunOver(u, 0, 1);
    assert u[..1] == u;
  }

  lemma DollarText()
    ensures AmountText(Some("$1,234.50")) == "1234.50"
  {
    assert "$1,234.50" == "$1," + "234.50";
    RemoveMoneySignsAppend("$1,", "234.50");
    assert RemoveMoneySigns("$1,") == "1" by {
      assert "$1,"[..2] == "$1" && "$1"[..1] == "$" && "$"[..0] == "";
    }
    NoSignsUnchanged("234.50");
    assert "1" + "234.50" == "1234.50";
  }

  lemma DecimalWithCents()
    ensures ParseDecimal("1234.50", false) == Some(Finite(false, 123450, -2))
  {
    var u := "1234.50";
    DigitRunOver(u, 0, 4);
    DigitRunOver(u, 5, 2);
    assert u[..4] == "1234" && u[5..7] == "50";
    assert DigitsValue("1234") == 1234 by {
      assert "1234"[..3] == "123" && "123"[..2] == "12" && "12"[..1] == "1" && "1"[..0] == "";
    }
    assert DigitsValue("50") == 50 by {
      assert "50"[..1] == "5" && "5"[..0] == "";
    }
  }

  /** Dollar signs and thousands separators vanish: "$1,234.50" is 123450 hundredths. */
  lemma DollarAmount()
    ensures CleanAmount(Some("$1,234.50")) == Some(Finite(false, 123450, -2))
  {
    DollarText();
    ReadAsDecimal("1234.50", false, "1234.50");
    DecimalWithCents();
  }

  /**
   * A word is no number: text that starts with a letter other than 'i' or
   * 'n' (which could begin "inf" or "nan") fails the conversion.
   */
  lemma WordIsRefused(u: string)
    requires |u| > 0 && 'a' <= LowerChar(u[0]) <= 'z' && LowerChar(u[0]) != 'i' && LowerChar(u[0]) != 'n'
    requires !IsSpace(u[|u| - 1]) && forall k :: 0 <= k < |u| ==> u[k] != '$' && u[k] != ','
    ensures CleanAmount(Some(u)) == None
  {
    NoSignsUnchanged(u);
    assert AmountText(Some(u)) == u;
    NoSpecialStart(u, false);
    UnsignedPlain(u);
    assert DigitRun(u, 0) == 0;
  }

  /** Text with no surrounding whitespace, no sign and no spelled-out value is read as a decimal. */
  lemma UnsignedPlain(u: string)
    requires |u| > 0 && !IsSpace(u[0]) && !IsSpace(u[|u| - 1]) && u[0] != '-' && u[0] != '+'
    requires Special(Lower(u), false).None?
    ensures ParseFloat(u) == ParseDecimal(u, false)
  {
    StripUnchanged(u);
  }
}
