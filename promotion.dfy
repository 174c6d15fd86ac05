/** Column promotion (`auto_convertir_tipos`): a text column whose non-blank values are
    mostly dates becomes a date column, otherwise one whose values are mostly numbers
    becomes a number column; every other column is kept as it is. */
module Promotion {
  import opened Wrappers
  import opened Strings
  import opened Dates
  import opened Numbers

  /** The values of one column, by the dtype pandas gives it: text cells (dtype `object`,
      missing values as `None`), converted dates (`datetime64`, missing as `NaT`),
      converted or extracted numbers (`float64`, missing as `NaN`) and integer columns such
      as the page and line numbers of the text rows (`int64`). */
  datatype Data =
    | Texts(texts: seq<Option<string>>)
    | Dates(dates: seq<Option<Date>>)
    | Numbers(numbers: seq<Option<Decimal>>)
    | Integers(integers: seq<int>)

  datatype Column = Column(name: string, data: Data)

  /** A table is its columns in order; every column has the same number of rows. */
  type Table = seq<Column>

  function Rows(d: Data): nat {
    match d
    case Texts(xs) => |xs|
    case Dates(xs) => |xs|
    case Numbers(xs) => |xs|
    case Integers(xs) => |xs|
  }

  // ---------------------------------------------------------------------------------
  // The sample and the two counts
  // ---------------------------------------------------------------------------------

  /** `df[col].dropna()` without the values that are blank once stripped. */
  function Sample(cells: seq<Option<string>>): (r: seq<string>)
    ensures |r| <= |cells|
    ensures forall i :: 0 <= i < |r| ==> Strip(r[i]) != []
  {
    if cells == [] then []
    else
      var rest := Sample(cells[1..]);
      match cells[0]
      case Some(s) => if Strip(s) != [] then [s] + rest else rest
      case None => rest
  }

  /** How many sampled values `_parsear_fecha` accepts (`fechas.notna().sum()`). */
  function DateCount(xs: seq<string>): (k: nat)
    ensures k <= |xs|
  {
    if xs == [] then 0 else (if DateOf(xs[0]).Some? then 1 else 0) + DateCount(xs[1..])
  }

  /** How many sampled values `_parsear_numero` accepts (`nums.notna().sum()`). */
  function NumberCount(xs: seq<string>): (k: nat)
    ensures k <= |xs|
  {
    if xs == [] then 0 else (if ParseNumber(xs[0]).Some? then 1 else 0) + NumberCount(xs[1..])
  }

  /** `k / n >= 0.6 and k >= 1` on a non-empty sample of `n` values, in integers. */
  predicate Majority(k: nat, n: nat) {
    5 * k >= 3 * n && k >= 1
  }

  // ---------------------------------------------------------------------------------
  // Converting a column
  // ---------------------------------------------------------------------------------

  /** The midnights pandas' nanosecond `datetime64` can hold: from 1677-09-22 to
      2262-04-11 (the limits are 1677-09-21 00:12:43 and 2262-04-11 23:47:16). */
  predicate InNsRange(d: Date) {
    && (d.year > 1677 || (d.year == 1677 && (d.month > 9 || (d.month == 9 && d.day >= 22))))
    && (d.year < 2262 || (d.year == 2262 && (d.month < 4 || (d.month == 4 && d.day <= 11))))
  }

  /** `pd.to_datetime(..., errors="coerce")`: a date it cannot hold becomes `NaT`. */
  function Coerce(r: Option<Date>): Option<Date> {
    if r.Some? && InNsRange(r.value) then r else None
  }

  /** The conversion applied to each cell of a promoted date column: missing and blank
      values become missing, the others what the detector reads (missing when it fails),
      then coerced to the nanosecond range. */
  function DateCell(x: Option<string>): Option<Date> {
    match x
    case None => None
    case Some(s) => if Strip(s) == [] then None else Coerce(DateOf(s))
  }

  function NumberCell(x: Option<string>): Option<Decimal> {
    match x
    case None => None
    case Some(s) => if Strip(s) == [] then None else ParseNumber(s)
  }

  function DateCells(cells: seq<Option<string>>): (r: seq<Option<Date>>)
    ensures |r| == |cells|
  {
    seq(|cells|, i requires 0 <= i < |cells| => DateCell(cells[i]))
  }

  function NumberCells(cells: seq<Option<string>>): (r: seq<Option<Decimal>>)
    ensures |r| == |cells|
  {
    seq(|cells|, i requires 0 <= i < |cells| => NumberCell(cells[i]))
  }

  /** What the promotion loop does with one column. */
  function Promote(c: Column): Column {
    match c.data
    case Texts(cells) =>
      var sample := Sample(cells);
      var n := |sample|;
      if n == 0 then c
      else if Majority(DateCount(sample), n) then Column(c.name, Dates(DateCells(cells)))
      else if Majority(NumberCount(sample), n) then Column(c.name, Numbers(NumberCells(cells)))
      else c
    case _ => c
  }

  /** pandas selects a single column by name only when no other column has that name. */
  predicate Repeated(table: Table, i: nat)
    requires i < |table|
  {
    exists j :: 0 <= j < |table| && j != i && table[j].name == table[i].name
  }

  predicate DistinctNames(table: Table) {
    forall i, j :: 0 <= i < j < |table| ==> table[i].name != table[j].name
  }

  /** What `df[col].dtype` raises when `df[col]` is a frame of several columns. */
  const DtypeError := "'DataFrame' object has no attribute 'dtype'"

  /** The result of `auto_convertir_tipos`: every column promoted by itself, or the error a
      repeated column name raises. */
  function Converted(table: Table): Result<Table, string> {
    if DistinctNames(table) then Ok(PromoteAll(table)) else Err(DtypeError)
  }

  /** `auto_convertir_tipos`: works on a copy of the table, visiting the columns in order
      and replacing each text column that the thresholds promote; the first column whose
      name is shared raises. The loop form of `Converted`; its body for one column is
      `Promote`. */
  method AutoConvertTypes(table: Table) returns (r: Result<Table, string>)
    ensures r == Converted(table)
    ensures r.Ok? <==> DistinctNames(table)
    ensures r.Ok? ==> |r.value| == |table| && forall i :: 0 <= i < |table| ==> r.value[i] == Promote(table[i])
    ensures r.Err? ==> r.error == DtypeError
  {
    var t := table;
    for i := 0 to |table|
      invariant |t| == |table|
      invariant forall j :: 0 <= j < i ==> !Repeated(table, j) && t[j] == Promote(table[j])
      invariant forall j :: i <= j < |table| ==> t[j] == table[j]
    {
      if Repeated(table, i) {
        RepeatedIff(table);
        return Err(DtypeError);
      }
      var c := table[i];
      var p := c;
      if c.data.Texts? {
        var cells := c.data.texts;
        var sample := Sample(cells);
        if |sample| > 0 {
          var dates := DateCount(sample);
          if Majority(dates, |sample|) {
            p := Column(c.name, Dates(DateCells(cells)));
          } else {
            var numbers := NumberCount(sample);
            if Majority(numbers, |sample|) {
              p := Column(c.name, Numbers(NumberCells(cells)));
            }
          }
        }
      }
      assert p == Promote(c);
      t := t[i := p];
    }
    RepeatedIff(table);
    assert t == PromoteAll(table);
    return Ok(t);
  }

  /** The names are distinct exactly when no column's name is repeated. */
  lemma RepeatedIff(table: Table)
    ensures DistinctNames(table) <==> forall i :: 0 <= i < |table| ==> !Repeated(table, i)
  {
    if !DistinctNames(table) {
      var i, j :| 0 <= i < j < |table| && table[i].name == table[j].name;
      assert Repeated(table, i);
    }
  }

  // ---------------------------------------------------------------------------------
  // Properties
  // ---------------------------------------------------------------------------------

  /** On a non-empty sample the integer test is the ratio test `k / n >= 0.6`, and the extra
      `k >= 1` never changes the outcome. */
  lemma MajorityIsRatio(k: nat, n: nat)
    requires n >= 1
    ensures Majority(k, n) <==> (k as real) / (n as real) >= 0.6
    ensures Majority(k, n) <==> 5 * k >= 3 * n
  {
    var q := (k as real) / (n as real);
    assert q * (n as real) == k as real;
    if 5 * k >= 3 * n {
      assert (k as real) >= 0.6 * (n as real);
    } else {
      assert (k as real) < 0.6 * (n as real);
    }
  }

  /** A text column with a non-empty sample is promoted to dates exactly when the date
      count reaches the threshold, to numbers exactly when the date count does not and the
      number count does, and is kept otherwise. */
  lemma PromotionDecision(name: string, cells: seq<Option<string>>)
    requires |Sample(cells)| >= 1
    ensures var s := Sample(cells); var r := Promote(Column(name, Texts(cells)));
      && (r.data.Dates? <==> Majority(DateCount(s), |s|))
      && (r.data.Numbers? <==> !Majority(DateCount(s), |s|) && Majority(NumberCount(s), |s|))
      && (r == Column(name, Texts(cells)) <==> !Majority(DateCount(s), |s|) && !Majority(NumberCount(s), |s|))
  {
  }

  /** No value is both a date and a number: what the date gate admits has a `/` or `-`
      after its first digit run, and no number shape has either there. */
  lemma NotBoth(val: string)
    ensures !(DateOf(val).Some? && ParseNumber(val).Some?)
  {
    var t := Strip(val);
    if DateOf(val).Some? {
      assert DateShape(t);
      ShapeNotNumber(t);
      RemoveAbsent(t, ' ');
    }
  }

  lemma ShapeNotNumber(t: string)
    requires DateShape(t)
    ensures t != [] && ' ' !in t && Read(t).None?
  {
    var p := PartsOf(t);
    assert ' ' !in p.first && ' ' !in p.mid && ' ' !in p.last;
    var i := |p.first|;
    assert t[i] == p.sep1;
    if p.sep1 == '/' {
      ForeignInRead(t, i);
    } else {
      InnerMinusRejected(t, i);
    }
  }

  /** So the two counts never add up to more than the sample. */
  lemma {:induction false} CountsDisjoint(xs: seq<string>)
    ensures DateCount(xs) + NumberCount(xs) <= |xs|
  {
    if xs != [] {
      NotBoth(xs[0]);
      CountsDisjoint(xs[1..]);
    }
  }

  /** No sample reaches both thresholds. */
  lemma NoDoubleMajority(s: seq<string>)
    requires |s| >= 1
    ensures !(Majority(DateCount(s), |s|) && Majority(NumberCount(s), |s|))
  {
    CountsDisjoint(s);
  }

  /** The promotion with the number test tried before the date test. */
  function PromoteNumbersFirst(c: Column): Column {
    match c.data
    case Texts(cells) =>
      var sample := Sample(cells);
      var n := |sample|;
      if n == 0 then c
      else if Majority(NumberCount(sample), n) then Column(c.name, Numbers(NumberCells(cells)))
      else if Majority(DateCount(sample), n) then Column(c.name, Dates(DateCells(cells)))
      else c
    case _ => c
  }

  /** The order in which the two detectors are tried never changes a column. */
  lemma OrderIrrelevant(c: Column)
    ensures Promote(c) == PromoteNumbersFirst(c)
  {
    if c.data.Texts? && |Sample(c.data.texts)| >= 1 {
      NoDoubleMajority(Sample(c.data.texts));
    }
  }

  /** A promoted column had at least one value that parsed. */
  lemma PromotionNeedsAParse(c: Column)
    requires Promote(c) != c
    ensures c.data.Texts?
    ensures Promote(c).data.Dates? ==> DateCount(Sample(c.data.texts)) >= 1
    ensures Promote(c).data.Numbers? ==> NumberCount(Sample(c.data.texts)) >= 1
  {
  }

  /** Columns that are not text, and text columns whose values are all missing or blank,
      are left as they are. */
  lemma NonTextKept(c: Column)
    requires !c.data.Texts? || |Sample(c.data.texts)| == 0
    ensures Promote(c) == c
  {
  }

  /** The sample is empty exactly when every value is missing or blank. */
  lemma {:induction false} SampleEmpty(cells: seq<Option<string>>)
    ensures |Sample(cells)| == 0 <==> forall i :: 0 <= i < |cells| ==> cells[i].None? || AllSpace(cells[i].value)
  {
    if cells != [] {
      SampleEmpty(cells[1..]);
      if cells[0].Some? {
        StripEmptyIff(cells[0].value);
      }
      forall i | 1 <= i < |cells| ensures cells[i] == cells[1..][i - 1] { }
    }
  }

  /** Promotion keeps the name and the number of rows. */
  lemma PromoteKeepsShape(c: Column)
    ensures Promote(c).name == c.name
    ensures Rows(Promote(c).data) == Rows(c.data)
  {
  }

  /** Promoting twice is promoting once: a promoted column is no longer text. */
  lemma PromoteIdempotent(c: Column)
    ensures Promote(Promote(c)) == Promote(c)
  {
  }

  /** A cell of a promoted date column holds a date exactly when the original value was
      present, the detector reads it and the date lies in the nanosecond range; the blank
      test in front of the detector changes nothing, since blank values are not dates. */
  lemma DateCellMeaning(x: Option<string>)
    ensures DateCell(x) == (if x.Some? then Coerce(DateOf(x.value)) else None)
    ensures DateCell(x).Some? <==> x.Some? && DateOf(x.value).Some? && InNsRange(DateOf(x.value).value)
    ensures DateCell(x).Some? ==> DateCell(x) == DateOf(x.value)
  {
    if x.Some? && Strip(x.value) == [] {
      GateRejects(x.value);
    }
  }

  lemma NumberCellMeaning(x: Option<string>)
    ensures NumberCell(x) == (if x.Some? then ParseNumber(x.value) else None)
  {
    if x.Some? && Strip(x.value) == [] {
      StripEmptyIff(x.value);
      BlankRejected(x.value);
    }
  }

  /** In a promoted column, exactly the values that fail to parse (and the missing ones,
      and, for dates, those outside the nanosecond range) become missing, and every other
      value is what the detector read. */
  lemma PromotedCells(name: string, cells: seq<Option<string>>, i: nat)
    requires i < |cells|
    ensures var r := Promote(Column(name, Texts(cells)));
      && (r.data.Dates? ==> r.data.dates[i] == (if cells[i].Some? then Coerce(DateOf(cells[i].value)) else None))
      && (r.data.Numbers? ==> r.data.numbers[i] == (if cells[i].Some? then ParseNumber(cells[i].value) else None))
  {
    DateCellMeaning(cells[i]);
    NumberCellMeaning(cells[i]);
  }

  /** A date the detector reads but pandas cannot hold, such as `01/01/1500` or
      `31/12/9999`, still counts towards promoting the column, and then becomes missing. */
  lemma OutOfRangeDropped(d: Date, sep: char)
    requires ValidDate(d) && IsDateSep(sep) && !InNsRange(d)
    ensures var s := Pad2(d.day) + [sep] + Pad2(d.month) + [sep] + Pad4(d.year);
      DateOf(s) == Some(d) && DateCell(Some(s)) == None
  {
    var s := Pad2(d.day) + [sep] + Pad2(d.month) + [sep] + Pad4(d.year);
    DayFirstRoundTrip(d, sep);
    StripUnchanged(s);
  }

  /** `astype(str)` turns a missing value into the text `"None"` (or `"nan"`) before the
      detectors see it; neither detector reads those texts, so a missing value converts to a
      missing value. */
  lemma MissingTextsRejected()
    ensures DateOf("None").None? && ParseNumber("None").None?
    ensures DateOf("nan").None? && ParseNumber("nan").None?
  {
    ForeignCharRejected("None", 0);
    ForeignCharRejected("nan", 0);
    NoneNotDate();
    NanNotDate();
  }

  lemma NoneNotDate()
    ensures DateOf("None").None?
  {
    StripUnchanged("None");
    assert DigitRun("None") == 0;
  }

  lemma NanNotDate()
    ensures DateOf("nan").None?
  {
    StripUnchanged("nan");
    assert DigitRun("nan") == 0;
  }

  /** The table after `auto_convertir_tipos`: every column promoted by itself, in the same
      order and with the same names. */
  function PromoteAll(table: Table): (r: Table)
    ensures |r| == |table|
  {
    seq(|table|, i requires 0 <= i < |table| => Promote(table[i]))
  }

  /** A table converts exactly when its names are distinct; the converted table keeps its
      columns, their names and their lengths, and converting it again changes nothing. */
  lemma ConvertedTable(table: Table)
    ensures Converted(table).Ok? <==> DistinctNames(table)
    ensures Converted(table).Ok? ==> var r := Converted(table).value;
      && |r| == |table|
      && (forall i :: 0 <= i < |table| ==> r[i].name == table[i].name && Rows(r[i].data) == Rows(table[i].data))
      && Converted(r) == Ok(r)
  {
    var r := PromoteAll(table);
    forall i | 0 <= i < |table| ensures r[i].name == table[i].name && Rows(r[i].data) == Rows(table[i].data) {
      PromoteKeepsShape(table[i]);
    }
    forall i | 0 <= i < |r| ensures PromoteAll(r)[i] == r[i] {
      PromoteIdempotent(table[i]);
    }
    assert PromoteAll(r) == r;
    if DistinctNames(table) {
      assert DistinctNames(r);
      assert Converted(r) == Ok(PromoteAll(r));
    }
  }
}
