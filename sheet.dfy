/** The sheet formatter (`_aplicar_formatos_hoja`): the header row is made bold and
    centred, every later text cell is converted in place to a date or a number when it
    reads as one, every cell gets the display format of its final type, and each column's
    width follows the widest value it holds. */
module Sheet {
  import opened Wrappers
  import opened Strings
  import opened Dates
  import opened Numbers

  /** What an openpyxl cell holds: nothing, text, an integer, a float (an exact decimal
      here) or a date and time (always at midnight here). */
  datatype Value = Empty | Text(s: string) | Int(n: int) | Float(d: Decimal) | DateTime(date: Date)

  /** The number formats the formatter sets: openpyxl's default, `"DD/MM/YYYY"`,
      `'#,##0.00'` and `'#,##0'`. */
  datatype NumberFormat = General | DayMonthYear | GroupedDecimals | GroupedInteger

  datatype Align = Default | Center | Right

  datatype Cell = Cell(value: Value, format: NumberFormat, align: Align, bold: bool)

  function FormatCode(f: NumberFormat): string {
    match f
    case General => "General"
    case DayMonthYear => "DD/MM/YYYY"
    case GroupedDecimals => "#,##0.00"
    case GroupedInteger => "#,##0"
  }

  /** Widths are capped at 55 characters; a date counts as 12. */
  const MaxWidth: nat := 55
  const DateWidth: nat := 12
  const TextCap: nat := 50
  const Padding: nat := 3

  // ---------------------------------------------------------------------------------
  // One cell
  // ---------------------------------------------------------------------------------

  /** The header row: bold, centred, value kept. */
  function FormatHeader(c: Cell): Cell {
    c.(bold := true, align := Center)
  }

  /** The value of a data cell after the in-place conversion: a non-blank text becomes the
      date the date detector reads in its stripped form, else the number the number
      detector reads, else stays as it was. */
  function Converted(v: Value): Value {
    match v
    case Text(s) =>
      var t := Strip(s);
      if t == [] then v
      else if DateOf(t).Some? then DateTime(DateOf(t).value)
      else if ParseNumber(t).Some? then Float(ParseNumber(t).value)
      else v
    case _ => v
  }

  /** A data cell after conversion and formatting; empty cells are skipped. */
  function FormatData(c: Cell): Cell {
    if c.value.Empty? then c else Styled(c, Converted(c.value))
  }

  /** The cell holding the final value `v`, with the format and alignment of its type: a
      date is shown day first and centred, a number right-aligned with two decimals when it
      is a float with a fractional part and without decimals otherwise. */
  function Styled(c: Cell, v: Value): Cell {
    match v
    case DateTime(_) => c.(value := v, format := DayMonthYear, align := Center)
    case Int(_) => c.(value := v, format := GroupedInteger, align := Right)
    case Float(d) => c.(value := v, format := if IsIntegral(d) then GroupedInteger else GroupedDecimals, align := Right)
    case _ => c.(value := v)
  }

  function Formatted(c: Cell, header: bool): Cell {
    if header then FormatHeader(c) else FormatData(c)
  }

  // ---------------------------------------------------------------------------------
  // Widths
  // ---------------------------------------------------------------------------------

  /** `str(v)` for a number that is not zero: Python's repr of a float is its shortest
      form, without trailing fractional zeros but with at least one fractional digit. */
  function FloatText(d: Decimal): string {
    var neg := d.mantissa < 0;
    (if neg then "-" else "") + Positional(if neg then -d.mantissa else d.mantissa, d.scale)
  }

  /** `m / 10^scale` written out: the whole part, a point and the fraction. */
  function Positional(m: nat, scale: nat): string {
    var p := Pow10(scale);
    RemainderBelow(m, p);
    var frac := TrimZeros(PadDigits(m % p, scale));
    DigitsOf(m / p) + "." + (if frac == [] then "0" else frac)
  }

  /** The digits without their trailing zeros. */
  function TrimZeros(s: string): (r: string)
    ensures |r| <= |s| && r == s[..|r|]
    ensures r == [] || r[|r| - 1] != '0'
    ensures forall k :: |r| <= k < |s| ==> s[k] == '0'
  {
    if s != [] && s[|s| - 1] == '0' then TrimZeros(s[..|s| - 1]) else s
  }

  lemma RemainderBelow(m: nat, p: nat)
    requires p >= 1
    ensures 0 <= m % p < p && m / p >= 0
  {
  }

  /** The text depends on the number only, not on how many fractional digits it was read
      with: one more trailing zero prints the same. */
  lemma FloatTextScale(mantissa: int, scale: nat)
    ensures FloatText(Decimal(10 * mantissa, scale + 1)) == FloatText(Decimal(mantissa, scale))
  {
    var m: nat := if mantissa < 0 then -mantissa else mantissa;
    PositionalScale(m, scale);
    FloatTextSign(Decimal(mantissa, scale), m);
    FloatTextSign(Decimal(10 * mantissa, scale + 1), 10 * m);
  }

  lemma FloatTextSign(d: Decimal, m: nat)
    requires m == d.mantissa || m == -d.mantissa
    ensures FloatText(d) == (if d.mantissa < 0 then "-" else "") + Positional(m, d.scale)
  {
  }

  /** So a numeric header is as wide however many trailing zeros its number was read with. */
  lemma HeaderLengthScale(mantissa: int, scale: nat)
    ensures HeaderLength(Float(Decimal(10 * mantissa, scale + 1))) == HeaderLength(Float(Decimal(mantissa, scale)))
  {
    FloatTextScale(mantissa, scale);
  }

  lemma PositionalScale(m: nat, scale: nat)
    ensures Positional(10 * m, scale + 1) == Positional(m, scale)
  {
    var p := Pow10(scale);
    assert Pow10(scale + 1) == 10 * p;
    ScaleDivision(m, p);
    RemainderBelow(m, p);
    var digits := PadDigits(m % p, scale);
    assert PadDigits(10 * (m % p), scale + 1) == digits + "0";
    assert (digits + "0")[..|digits|] == digits;
    assert TrimZeros(digits + "0") == TrimZeros(digits);
  }

  /** Scaling both sides of a division by ten keeps the quotient and scales the remainder. */
  lemma ScaleDivision(m: nat, p: nat)
    requires p >= 1
    ensures (10 * m) / (10 * p) == m / p && (10 * m) % (10 * p) == 10 * (m % p)
  {
    var q, r := m / p, m % p;
    assert 10 * m == q * (10 * p) + 10 * r;
    DivisionUnique(10 * m, 10 * p, q, 10 * r);
  }

  lemma DivisionUnique(x: nat, d: nat, q: nat, r: nat)
    requires d >= 1 && x == q * d + r && r < d
    ensures x / d == q && x % d == r
  {
    var q', r' := x / d, x % d;
    assert x == q' * d + r' && r' < d;
    if q' < q {
      MulMono(q' + 1, q, d);
    } else if q < q' {
      MulMono(q + 1, q', d);
    }
  }

  lemma MulMono(a: nat, b: nat, d: nat)
    requires a <= b
    ensures a * d <= b * d
  {
    var k: nat := b - a;
    assert b * d == a * d + k * d;
  }

  /** `1.50` and `1.5` both print as `1.5`. */
  lemma FloatTextExample()
    ensures FloatText(Decimal(150, 2)) == FloatText(Decimal(15, 1)) == "1.5"
  {
    FloatTextScale(15, 1);
    OneAndAHalfText();
  }

  lemma OneAndAHalfText()
    ensures FloatText(Decimal(15, 1)) == "1.5"
  {
    FloatTextSign(Decimal(15, 1), 15);
    OneAndAHalf();
  }

  lemma OneAndAHalf()
    ensures Positional(15, 1) == "1.5"
  {
    var p := Pow10(1);
    assert p == 10 && 15 % p == 5 && 15 / p == 1;
    var digits := PadDigits(5, 1);
    assert digits == "5";
    assert TrimZeros(digits) == digits;
    assert DigitsOf(1) == "1";
  }

  /** An integral float keeps one fractional zero. */
  lemma IntegralFloatText()
    ensures FloatText(Decimal(-3, 0)) == "-3.0"
  {
    assert DigitsOf(3) == "3";
  }

  /** `len(str(v or ""))` for the header cell: falsy values (nothing, empty text, zero)
      count as the empty text. */
  function HeaderLength(v: Value): nat {
    match v
    case Empty => 0
    case Text(s) => |s|
    case Int(n) => if n == 0 then 0 else |IntToString(n)|
    case Float(d) => if d.mantissa == 0 then 0 else |FloatText(d)|
    case DateTime(_) => 19
  }

  /** What a data cell's final value adds to the running maximum: 12 for a date, the length
      of `f"{v:,.2f}"` for a number, the text's length up to 50 for anything else. */
  function Contribution(v: Value): nat {
    match v
    case Empty => 0
    case DateTime(_) => DateWidth
    case Int(n) => |Display2(Decimal(n, 0))|
    case Float(d) => |Display2(d)|
    case Text(s) => if |s| < TextCap then |s| else TextCap
  }

  function Max(a: nat, b: nat): nat {
    if a < b then b else a
  }

  /** A sheet's values, row by row; every row has the same length. */
  predicate Rectangular(g: seq<seq<Cell>>) {
    forall i :: 0 <= i < |g| ==> |g[i]| == |g[0]|
  }

  /** The running maximum over a sequence of final cells, starting from `start`. */
  function RunningMax(start: nat, cs: seq<Cell>): (m: nat)
    ensures m >= start
  {
    if cs == [] then start else Max(RunningMax(start, cs[..|cs| - 1]), Contribution(cs[|cs| - 1].value))
  }

  /** The data cells of column `j` as the row loop leaves them. */
  function DataColumn(g: seq<seq<Cell>>, j: nat): (r: seq<Cell>)
    requires Rectangular(g) && 1 <= |g| && j < |g[0]|
    ensures |r| == |g| - 1
  {
    seq(|g| - 1, r requires 0 <= r < |g| - 1 => FormatData(g[r + 1][j]))
  }

  /** `max_ancho` of column `j`: the header's length, then the maximum with every data
      cell's contribution. */
  function Widest(g: seq<seq<Cell>>, j: nat): nat
    requires Rectangular(g) && 1 <= |g| && j < |g[0]|
  {
    RunningMax(HeaderLength(g[0][j].value), DataColumn(g, j))
  }

  /** `min(max_ancho + 3, 55)`. */
  function Width(g: seq<seq<Cell>>, j: nat): nat
    requires Rectangular(g) && 1 <= |g| && j < |g[0]|
  {
    var w := Widest(g, j) + Padding;
    if w < MaxWidth then w else MaxWidth
  }

  /** The cells the row loop produced give the width the column's specification names. */
  lemma WidthOfDone(g: seq<seq<Cell>>, j: nat, done: seq<Cell>, widest: nat)
    requires Rectangular(g) && 1 <= |g| && j < |g[0]| && |done| == |g| - 1
    requires forall r :: 0 <= r < |done| ==> done[r] == FormatData(g[r + 1][j])
    requires widest == RunningMax(HeaderLength(g[0][j].value), done)
    ensures Width(g, j) == if widest + Padding < MaxWidth then widest + Padding else MaxWidth
  {
    DoneIsColumn(g, j, done);
  }

  lemma DoneIsColumn(g: seq<seq<Cell>>, j: nat, done: seq<Cell>)
    requires Rectangular(g) && 1 <= |g| && j < |g[0]| && |done| == |g| - 1
    requires forall r :: 0 <= r < |done| ==> done[r] == FormatData(g[r + 1][j])
    ensures done == DataColumn(g, j)
  {
    var col := DataColumn(g, j);
    forall r | 0 <= r < |done| ensures done[r] == col[r] { }
  }

  function FormatGrid(g: seq<seq<Cell>>): (r: seq<seq<Cell>>)
    ensures |r| == |g|
    ensures forall i :: 0 <= i < |g| ==> |r[i]| == |g[i]|
  {
    seq(|g|, i requires 0 <= i < |g| => seq(|g[i]|, j requires 0 <= j < |g[i]| => Formatted(g[i][j], i == 0)))
  }

  // ---------------------------------------------------------------------------------
  // The worksheet
  // ---------------------------------------------------------------------------------

  class Worksheet {
    /** Cell `(i, j)` is openpyxl's `ws.cell(i + 1, j + 1)`. */
    var cells: array2<Cell>
    /** The width set for each column, when one has been set. */
    var widths: array<Option<nat>>

    /** openpyxl reports at least one row and one column even for an empty sheet. */
    predicate Valid()
      reads this
    {
      cells.Length0 >= 1 && cells.Length1 >= 1 && widths.Length == cells.Length1
    }

    function Grid(): (g: seq<seq<Cell>>)
      reads this, cells
      ensures |g| == cells.Length0
      ensures forall i :: 0 <= i < |g| ==> |g[i]| == cells.Length1
      ensures forall i, j :: 0 <= i < |g| && 0 <= j < cells.Length1 ==> g[i][j] == cells[i, j]
    {
      seq(cells.Length0, i requires 0 <= i < cells.Length0 reads this, cells =>
        seq(cells.Length1, j requires 0 <= i < cells.Length0 && 0 <= j < cells.Length1 reads this, cells => cells[i, j]))
    }

    constructor (g: seq<seq<Cell>>)
      requires Rectangular(g) && |g| >= 1 && |g[0]| >= 1
      ensures Valid() && fresh(cells) && fresh(widths)
      ensures Grid() == g
      ensures forall j :: 0 <= j < widths.Length ==> widths[j].None?
    {
      cells := new Cell[|g|, |g[0]|]((i, j) requires 0 <= i < |g| && 0 <= j < |g[0]| => g[i][j]);
      widths := new Option<nat>[|g[0]|](_ => None);
      new;
      assert forall i :: 0 <= i < |g| ==> Grid()[i] == g[i];
    }

    /** `_aplicar_formatos_hoja(ws)`: the header row first, then column by column. */
    method ApplyFormats()
      requires Valid()
      modifies cells, widths
      ensures Valid()
      ensures forall i, j :: 0 <= i < cells.Length0 && 0 <= j < cells.Length1 ==>
        cells[i, j] == Formatted(old(cells[i, j]), i == 0)
      ensures forall j :: 0 <= j < widths.Length ==> widths[j] == Some(Width(old(Grid()), j))
    {
      ghost var g := Grid();
      FormatHeaderRow();
      for j := 0 to cells.Length1
        invariant forall i, k :: 0 <= i < cells.Length0 && 0 <= k < cells.Length1 ==>
          cells[i, k] == (if i == 0 || k < j then Formatted(g[i][k], i == 0) else g[i][k])
        invariant forall k :: 0 <= k < j ==> widths[k] == Some(Width(g, k))
      {
        FormatColumn(j, g);
      }
    }

    /** Every header cell becomes bold and centred. */
    method FormatHeaderRow()
      requires Valid()
      modifies cells
      ensures forall i, k :: 0 <= i < cells.Length0 && 0 <= k < cells.Length1 ==>
        cells[i, k] == (if i == 0 then FormatHeader(old(cells[i, k])) else old(cells[i, k]))
    {
      for j := 0 to cells.Length1
        invariant forall i, k :: 0 <= i < cells.Length0 && 0 <= k < cells.Length1 ==>
          cells[i, k] == (if i == 0 && k < j then FormatHeader(old(cells[i, k])) else old(cells[i, k]))
      {
        cells[0, j] := FormatHeader(cells[0, j]);
      }
    }

    /** Column `j`: convert and format its data cells, keeping the running maximum that
        starts at the header's length, then set the capped width. */
    method FormatColumn(j: nat, ghost g: seq<seq<Cell>>)
      requires Valid() && j < cells.Length1
      requires |g| == cells.Length0 && Rectangular(g) && |g[0]| == cells.Length1
      requires cells[0, j].value == g[0][j].value
      requires forall i :: 1 <= i < cells.Length0 ==> cells[i, j] == g[i][j]
      modifies cells, widths
      ensures forall i :: 1 <= i < cells.Length0 ==> cells[i, j] == FormatData(g[i][j])
      ensures cells[0, j] == old(cells[0, j])
      ensures forall i, k :: 0 <= i < cells.Length0 && 0 <= k < cells.Length1 && k != j ==> cells[i, k] == old(cells[i, k])
      ensures widths[j] == Some(Width(g, j))
      ensures forall k :: 0 <= k < widths.Length && k != j ==> widths[k] == old(widths[k])
    {
      var widest := HeaderLength(cells[0, j].value);
      ghost var done: seq<Cell> := [];
      for i := 1 to cells.Length0
        modifies cells
        invariant |done| == i - 1
        invariant forall r :: 0 <= r < |done| ==> done[r] == FormatData(g[r + 1][j])
        invariant forall r :: 1 <= r < i ==> cells[r, j] == done[r - 1]
        invariant forall r, k :: 0 <= r < cells.Length0 && 0 <= k < cells.Length1 && k != j ==> cells[r, k] == old(cells[r, k])
        invariant forall r :: i <= r < cells.Length0 ==> cells[r, j] == old(cells[r, j])
        invariant cells[0, j] == old(cells[0, j])
        invariant widest == RunningMax(HeaderLength(g[0][j].value), done)
      {
        var updated := FormatAt(i, j);
        widest := Max(widest, Contribution(updated.value));
        done := done + [updated];
        assert done[..|done| - 1] == done[..i - 1];
      }
      WidthOfDone(g, j, done, widest);
      widths[j] := Some(if widest + Padding < MaxWidth then widest + Padding else MaxWidth);
    }

    /** One data cell of the row loop, converted and formatted where it is. */
    method FormatAt(i: nat, j: nat) returns (updated: Cell)
      requires i < cells.Length0 && j < cells.Length1
      modifies cells
      ensures updated == FormatData(old(cells[i, j])) && cells[i, j] == updated
      ensures forall r, k :: 0 <= r < cells.Length0 && 0 <= k < cells.Length1 && (r != i || k != j) ==> cells[r, k] == old(cells[r, k])
    {
      updated := FormatCell(cells[i, j]);
      cells[i, j] := updated;
    }
  }

  /** The body of the row loop for one data cell: skip an empty cell, convert a non-blank
      text, then set the format and alignment of the final type. The statement-by-statement
      form of `FormatData`, proved equal to it. */
  method FormatCell(cell: Cell) returns (r: Cell)
    ensures r == FormatData(cell)
  {
    if cell.value.Empty? {
      return cell;
    }
    var val := ConvertValue(cell.value);
    r := Style(cell, val);
  }

  /** A non-blank text is tried as a date first, then as a number: the in-place steps of
      the function `Converted`, proved equal to it. */
  method ConvertValue(val: Value) returns (v: Value)
    ensures v == Converted(val)
  {
    v := val;
    if val.Text? {
      var s := Strip(val.s);
      if s != [] {
        var fecha := ParseDate(s);
        if fecha.Some? {
          v := DateTime(fecha.value);
        } else {
          var num := ParseNumber(s);
          if num.Some? {
            v := Float(num.value);
          }
        }
      }
    }
  }

  /** The `isinstance` chain setting format and alignment: the function `Styled` as
      statements, proved equal to it. */
  method Style(cell: Cell, val: Value) returns (r: Cell)
    ensures r == Styled(cell, val)
  {
    r := cell.(value := val);
    match val {
      case DateTime(_) =>
        r := r.(format := DayMonthYear, align := Center);
      case Int(_) =>
        r := r.(format := GroupedInteger, align := Right);
      case Float(d) =>
        if !IsIntegral(d) {
          r := r.(format := GroupedDecimals);
        } else {
          r := r.(format := GroupedInteger);
        }
        r := r.(align := Right);
      case _ =>
    }
  }

  // ---------------------------------------------------------------------------------
  // Properties
  // ---------------------------------------------------------------------------------

  /** Every contribution is below the running maximum. */
  lemma {:induction false} RunningMaxUpper(start: nat, cs: seq<Cell>, k: nat)
    requires k < |cs|
    ensures Contribution(cs[k].value) <= RunningMax(start, cs)
  {
    var p := cs[..|cs| - 1];
    if k < |cs| - 1 {
      RunningMaxUpper(start, p, k);
      assert p[k] == cs[k];
    }
  }

  /** The running maximum is the start or one of the contributions. */
  lemma {:induction false} RunningMaxAttained(start: nat, cs: seq<Cell>)
    ensures RunningMax(start, cs) == start || exists k :: 0 <= k < |cs| && RunningMax(start, cs) == Contribution(cs[k].value)
  {
    if cs != [] {
      var p := cs[..|cs| - 1];
      RunningMaxAttained(start, p);
      if RunningMax(start, cs) != start && RunningMax(start, cs) != Contribution(cs[|cs| - 1].value) {
        var k :| 0 <= k < |p| && RunningMax(start, p) == Contribution(p[k].value);
        assert p[k] == cs[k];
      }
    }
  }

  /** `max_ancho` is the largest of the header's length and the contributions of the
      column's final data cells: no cell is wider, and one of them (or the header) is as
      wide. */
  lemma WidestIsMax(g: seq<seq<Cell>>, j: nat)
    requires Rectangular(g) && 1 <= |g| && j < |g[0]|
    ensures HeaderLength(g[0][j].value) <= Widest(g, j)
    ensures forall r :: 0 <= r < |g| - 1 ==> Contribution(DataColumn(g, j)[r].value) <= Widest(g, j)
    ensures Widest(g, j) == HeaderLength(g[0][j].value) ||
      exists r :: 0 <= r < |g| - 1 && Widest(g, j) == Contribution(DataColumn(g, j)[r].value)
  {
    var col := DataColumn(g, j);
    forall r | 0 <= r < |g| - 1 ensures Contribution(col[r].value) <= Widest(g, j) {
      RunningMaxUpper(HeaderLength(g[0][j].value), col, r);
    }
    RunningMaxAttained(HeaderLength(g[0][j].value), col);
  }

  /** Every width lies between 3 and 55, and is at least the header's length plus the
      padding unless the cap applies. */
  lemma WidthBounds(g: seq<seq<Cell>>, j: nat)
    requires Rectangular(g) && 1 <= |g| && j < |g[0]|
    ensures Padding <= Width(g, j) <= MaxWidth
    ensures Width(g, j) >= Min(HeaderLength(g[0][j].value) + Padding, MaxWidth)
  {
    WidestIsMax(g, j);
  }

  function Min(a: nat, b: nat): nat {
    if a < b then a else b
  }

  /** A column holding a date after conversion is at least 15 wide. */
  lemma DateColumnWidth(g: seq<seq<Cell>>, j: nat, r: nat)
    requires Rectangular(g) && 1 <= r < |g| && j < |g[0]|
    requires DataColumn(g, j)[r - 1].value.DateTime?
    ensures Width(g, j) >= DateWidth + Padding
  {
    WidestIsMax(g, j);
  }

  /** A column of texts that stay texts is at most 53 wide when its header is short:
      texts count at most 50. */
  lemma TextColumnWidth(g: seq<seq<Cell>>, j: nat)
    requires Rectangular(g) && 1 <= |g| && j < |g[0]|
    requires HeaderLength(g[0][j].value) <= TextCap
    requires forall r :: 0 <= r < |g| - 1 ==> DataColumn(g, j)[r].value.Text? || DataColumn(g, j)[r].value.Empty?
    ensures Width(g, j) <= TextCap + Padding
  {
    WidestIsMax(g, j);
  }

  /** The detectors strip their input themselves, so reading the stripped text is reading
      the text. */
  lemma ReadsStripped(s: string)
    ensures DateOf(Strip(s)) == DateOf(s) && ParseNumber(Strip(s)) == ParseNumber(s)
  {
    StripIdempotent(s);
  }

  /** Neither detector reads a blank text. */
  lemma BlankReadsNothing(s: string)
    requires Strip(s) == []
    ensures DateOf(s).None? && ParseNumber(s).None?
  {
    GateRejects(s);
    StripEmptyIff(s);
    BlankRejected(s);
  }

  /** The conversion of a text, without the blank test: the date detector first, then the
      number detector. */
  lemma ConvertedText(s: string)
    ensures Converted(Text(s)) ==
      if DateOf(s).Some? then DateTime(DateOf(s).value)
      else if ParseNumber(s).Some? then Float(ParseNumber(s).value)
      else Text(s)
  {
    ReadsStripped(s);
    if Strip(s) == [] {
      BlankReadsNothing(s);
    }
  }

  /** A text data cell becomes exactly what the detectors read in it (a data cell's final
      value is `Converted` of its value): a date when the date detector reads one, else a
      number when the number detector does, else it stays the same text (a blank text in
      particular stays). */
  lemma TextConverted(s: string)
    ensures var r := Converted(Text(s));
      && (r.DateTime? <==> DateOf(s).Some?)
      && (DateOf(s).Some? ==> r == DateTime(DateOf(s).value))
      && (r.Float? <==> DateOf(s).None? && ParseNumber(s).Some?)
      && (r.Float? ==> r == Float(ParseNumber(s).value))
      && (r.Text? <==> DateOf(s).None? && ParseNumber(s).None?)
      && (r.Text? ==> r == Text(s))
  {
    ConvertedText(s);
    ReadingCases(s, DateOf(s), ParseNumber(s), Converted(Text(s)));
  }

  lemma ReadingCases(s: string, date: Option<Date>, number: Option<Decimal>, r: Value)
    requires r == if date.Some? then DateTime(date.value) else if number.Some? then Float(number.value) else Text(s)
    ensures && (r.DateTime? <==> date.Some?)
      && (date.Some? ==> r == DateTime(date.value))
      && (r.Float? <==> date.None? && number.Some?)
      && (r.Float? ==> r == Float(number.value))
      && (r.Text? <==> date.None? && number.None?)
      && (r.Text? ==> r == Text(s))
  {
  }

  /** The final format and alignment say what a freshly written data cell holds: the date
      format exactly for dates, two decimals exactly for floats with a fractional part,
      right alignment exactly for numbers, centring exactly for dates. */
  lemma DataCellFormat(c: Cell)
    requires c.format == General && c.align == Default
    ensures var r := FormatData(c);
      && (r.format == DayMonthYear <==> r.value.DateTime?)
      && (r.format == GroupedDecimals <==> r.value.Float? && !IsIntegral(r.value.d))
      && (r.format == GroupedInteger <==> r.value.Int? || (r.value.Float? && IsIntegral(r.value.d)))
      && (r.align == Right <==> r.value.Int? || r.value.Float?)
      && (r.align == Center <==> r.value.DateTime?)
      && r.bold == c.bold
      && (r.value == c.value || c.value.Text?)
  {
  }

  /** Formatting a data cell a second time changes nothing. */
  lemma FormatDataIdempotent(c: Cell)
    ensures FormatData(FormatData(c)) == FormatData(c)
  {
    if !c.value.Empty? {
      var w := Converted(c.value);
      ConvertedIdempotent(c.value);
      StyledTwice(c, w);
      assert FormatData(c) == Styled(c, w) && Styled(c, w).value == w;
    }
  }

  /** A converted value converts to itself. */
  lemma ConvertedIdempotent(v: Value)
    ensures Converted(Converted(v)) == Converted(v)
  {
    var w := Converted(v);
    if w.Text? {
      assert w == v;
    }
  }

  lemma StyledTwice(c: Cell, v: Value)
    ensures Styled(Styled(c, v), v) == Styled(c, v)
  {
  }

  /** The number width of a cell is the length of a text that the number detector reads
      back as the cell's value rounded to hundredths. */
  lemma NumberWidthReadsBack(v: Value)
    requires v.Int? || v.Float?
    ensures var d := if v.Int? then Decimal(v.n, 0) else v.d;
      exists t :: |t| == Contribution(v) && ParseNumber(t) == Some(Decimal(Cents(d), 2))
  {
    var d := if v.Int? then Decimal(v.n, 0) else v.d;
    DisplayRoundTrip(d);
    assert |Display2(d)| == Contribution(v);
  }

  lemma FormattedIdempotent(c: Cell, header: bool)
    ensures Formatted(Formatted(c, header), header) == Formatted(c, header)
  {
    if !header {
      FormatDataIdempotent(c);
    }
  }

  /** Running the formatter over a sheet it has already formatted changes no cell and sets
      the same widths. */
  lemma ReformatNoop(g: seq<seq<Cell>>)
    requires Rectangular(g) && 1 <= |g| && 1 <= |g[0]|
    ensures Rectangular(FormatGrid(g))
    ensures FormatGrid(FormatGrid(g)) == FormatGrid(g)
    ensures forall j :: 0 <= j < |g[0]| ==> Width(FormatGrid(g), j) == Width(g, j)
  {
    var f := FormatGrid(g);
    forall i | 0 <= i < |g| ensures FormatGrid(f)[i] == f[i] {
      forall k | 0 <= k < |g[i]| ensures FormatGrid(f)[i][k] == f[i][k] {
        FormattedIdempotent(g[i][k], i == 0);
      }
    }
    forall j | 0 <= j < |g[0]| ensures Width(f, j) == Width(g, j) {
      SameColumn(g, f, j);
    }
  }

  lemma SameColumn(g: seq<seq<Cell>>, f: seq<seq<Cell>>, j: nat)
    requires Rectangular(g) && 1 <= |g| && j < |g[0]| && f == FormatGrid(g)
    ensures Rectangular(f) && DataColumn(f, j) == DataColumn(g, j)
    ensures HeaderLength(f[0][j].value) == HeaderLength(g[0][j].value)
  {
    SameDataColumn(g, f, j);
    assert f[0][j].value == g[0][j].value;
  }

  lemma SameDataColumn(g: seq<seq<Cell>>, f: seq<seq<Cell>>, j: nat)
    requires Rectangular(g) && 1 <= |g| && j < |g[0]| && f == FormatGrid(g)
    ensures Rectangular(f) && DataColumn(f, j) == DataColumn(g, j)
  {
    forall r | 0 <= r < |g| - 1 ensures DataColumn(f, j)[r] == DataColumn(g, j)[r] {
      var c := g[r + 1][j];
      assert f[r + 1][j] == FormatData(c);
      FormatDataIdempotent(c);
    }
  }
}
