/** The date detector (`_parsear_fecha`): a stripped cell value must first pass the shape
    gate `^\d{1,2}[/-]\d{1,2}[/-]\d{2,4}$`; then ten `strptime` templates are tried in list
    order and the first one that accepts gives the date. */
module Dates {
  import opened Wrappers
  import opened Strings

  /** A calendar date (the time part of the `datetime` is always midnight). */
  datatype Date = Date(year: int, month: int, day: int)

  /** Gregorian leap years, as the `datetime` module counts them. */
  predicate IsLeap(y: int) {
    y % 4 == 0 && (y % 100 != 0 || y % 400 == 0)
  }

  function DaysInMonth(y: int, m: int): (n: int)
    requires 1 <= m <= 12
    ensures 28 <= n <= 31
    ensures n == 29 <==> m == 2 && IsLeap(y)
  {
    if m == 2 then (if IsLeap(y) then 29 else 28)
    else if m == 4 || m == 6 || m == 9 || m == 11 then 30
    else 31
  }

  /** What the `datetime` constructor accepts; anything else makes `strptime` raise. */
  predicate ValidDate(d: Date) {
    && 1 <= d.year <= 9999
    && 1 <= d.month <= 12
    && 1 <= d.day <= DaysInMonth(d.year, d.month)
  }

  // ---------------------------------------------------------------------------------
  // The shape gate
  // ---------------------------------------------------------------------------------

  predicate IsDateSep(c: char) {
    c == '/' || c == '-'
  }

  /** The length of the run of digits `s` starts with. */
  function DigitRun(s: string): (n: nat)
    ensures n <= |s| && AllDigits(s[..n])
    ensures n == |s| || !IsDigit(s[n])
  {
    if s != [] && IsDigit(s[0]) then
      var n := 1 + DigitRun(s[1..]);
      assert s[..n] == [s[0]] + s[1..][..n - 1];
      n
    else 0
  }

  /** A string cut into three fields and two separators. */
  datatype Parts = Parts(first: string, sep1: char, mid: string, sep2: char, last: string)

  function Glue(p: Parts): string {
    p.first + [p.sep1] + p.mid + [p.sep2] + p.last
  }

  /** The shapes the gate admits, field by field. */
  predicate Admissible(p: Parts) {
    && AllDigits(p.first) && 1 <= |p.first| <= 2
    && AllDigits(p.mid) && 1 <= |p.mid| <= 2
    && AllDigits(p.last) && 2 <= |p.last| <= 4
    && IsDateSep(p.sep1) && IsDateSep(p.sep2)
  }

  /** `_PATRON_FECHA.match(v)`: cut at the end of the first two digit runs, `v` is one or
      two digits, a separator, one or two digits, a separator and two to four digits. */
  predicate DateShape(v: string) {
    var a := DigitRun(v);
    a < |v| &&
    var w := v[a + 1..];
    var b := DigitRun(w);
    b < |w| && Admissible(Parts(v[..a], v[a], w[..b], w[b], w[b + 1..]))
  }

  lemma {:induction false} DigitRunStops(a: string, c: char, rest: string)
    requires AllDigits(a) && !IsDigit(c)
    ensures DigitRun(a + [c] + rest) == |a|
  {
    if a != [] {
      assert (a + [c] + rest)[1..] == a[1..] + [c] + rest;
      DigitRunStops(a[1..], c, rest);
    }
  }

  /** For digit fields split by non-digits, the gate holds exactly for the admissible shapes. */
  lemma GateIff(p: Parts)
    requires AllDigits(p.first) && AllDigits(p.mid) && AllDigits(p.last)
    requires !IsDigit(p.sep1) && !IsDigit(p.sep2)
    ensures DateShape(Glue(p)) <==> Admissible(p)
  {
    var v := Glue(p);
    DigitRunStops(p.first, p.sep1, p.mid + [p.sep2] + p.last);
    assert v == p.first + [p.sep1] + (p.mid + [p.sep2] + p.last);
    assert v[|p.first|] == p.sep1;
    assert v[..|p.first|] == p.first;
    var w := v[|p.first| + 1..];
    assert w == p.mid + [p.sep2] + p.last;
    DigitRunStops(p.mid, p.sep2, p.last);
    assert w[..|p.mid|] == p.mid;
    assert w[|p.mid|] == p.sep2;
    assert w[|p.mid| + 1..] == p.last;
  }

  /** The fields of a string the gate admits. */
  function PartsOf(v: string): (p: Parts)
    requires DateShape(v)
    ensures Admissible(p) && Glue(p) == v
  {
    var a := DigitRun(v);
    var w := v[a + 1..];
    var b := DigitRun(w);
    var p := Parts(v[..a], v[a], w[..b], w[b], w[b + 1..]);
    assert w == p.mid + [p.sep2] + p.last;
    assert v == p.first + [p.sep1] + w;
    GlueAssoc(p);
    p
  }

  lemma GlueAssoc(p: Parts)
    ensures Glue(p) == p.first + [p.sep1] + (p.mid + [p.sep2] + p.last)
  {
  }

  // ---------------------------------------------------------------------------------
  // strptime
  // ---------------------------------------------------------------------------------

  /** Which field comes first in a template. */
  datatype Order = DayFirst | MonthFirst | YearFirst

  /** A template such as `"%d/%m/%Y"`: separator, field order, and `%Y` (four digits) or
      `%y` (two digits). */
  datatype Template = Template(sep: char, order: Order, longYear: bool)

  /** `_FORMATOS_FECHA`, in its order: `%d/%m/%Y`, `%m/%d/%Y`, `%d-%m-%Y`, `%m-%d-%Y`,
      `%d/%m/%y`, `%m/%d/%y`, `%d-%m-%y`, `%m-%d-%y`, `%Y-%m-%d`, `%Y/%m/%d`. */
  const Templates: seq<Template> := [
    Template('/', DayFirst, true), Template('/', MonthFirst, true),
    Template('-', DayFirst, true), Template('-', MonthFirst, true),
    Template('/', DayFirst, false), Template('/', MonthFirst, false),
    Template('-', DayFirst, false), Template('-', MonthFirst, false),
    Template('-', YearFirst, true), Template('/', YearFirst, true)
  ]

  /** `%d`: one or two digits between 1 and 31 (`"05"` and `"5"` alike). */
  function DayField(s: string): (r: Option<int>)
    ensures r.Some? <==> 1 <= |s| <= 2 && AllDigits(s) && 1 <= Value(s) <= 31
    ensures r.Some? ==> r.value == Value(s)
  {
    if 1 <= |s| <= 2 && AllDigits(s) && 1 <= Value(s) <= 31 then Some(Value(s)) else None
  }

  /** `%m`: one or two digits between 1 and 12. */
  function MonthField(s: string): (r: Option<int>)
    ensures r.Some? <==> 1 <= |s| <= 2 && AllDigits(s) && 1 <= Value(s) <= 12
    ensures r.Some? ==> r.value == Value(s)
  {
    if 1 <= |s| <= 2 && AllDigits(s) && 1 <= Value(s) <= 12 then Some(Value(s)) else None
  }

  /** The library's two-digit-year rule: 00-68 are 2000-2068, 69-99 are 1969-1999. */
  function Pivot(yy: nat): (y: int)
    requires yy < 100
    ensures 1969 <= y <= 2068 && y % 100 == yy
  {
    if yy <= 68 then 2000 + yy else 1900 + yy
  }

  /** `%Y` takes exactly four digits, `%y` exactly two. */
  function YearField(s: string, long: bool): (r: Option<int>)
    ensures r.Some? ==> AllDigits(s) && |s| == (if long then 4 else 2)
  {
    if long then
      if |s| == 4 && AllDigits(s) then Some(Value(s)) else None
    else if |s| == 2 && AllDigits(s) then
      assert Value(s) == Value(s[..1]) * 10 + DigitValue(s[1]);
      Some(Pivot(Value(s)))
    else None
  }

  /** The date three fields name, when there is one. */
  function Assemble(y: Option<int>, m: Option<int>, d: Option<int>): (r: Option<Date>)
    ensures r.Some? ==> ValidDate(r.value)
    ensures r.Some? <==> y.Some? && m.Some? && d.Some? && ValidDate(Date(y.value, m.value, d.value))
  {
    if y.Some? && m.Some? && d.Some? && ValidDate(Date(y.value, m.value, d.value)) then
      Some(Date(y.value, m.value, d.value))
    else None
  }

  /** Reads three fields in the order a template names. */
  function ReadFields(t: Template, f1: string, f2: string, f3: string): Option<Date> {
    match t.order
    case DayFirst => Assemble(YearField(f3, t.longYear), MonthField(f2), DayField(f1))
    case MonthFirst => Assemble(YearField(f3, t.longYear), MonthField(f1), DayField(f2))
    case YearFirst => Assemble(YearField(f1, t.longYear), MonthField(f2), DayField(f3))
  }

  /** `datetime.strptime(v, t)` on a string the gate admits: the separators must be the
      template's, each field must fill its whole digit block, and the date must exist. */
  function Strptime(v: string, t: Template): (r: Option<Date>)
    ensures r.Some? ==> ValidDate(r.value)
  {
    var ps := Split(v, t.sep);
    if |ps| == 3 then ReadFields(t, ps[0], ps[1], ps[2]) else None
  }

  /** The first template from position `k` on that accepts `v`, trying them in order. */
  function FirstAccept(v: string, k: nat): (r: Option<Date>)
    requires k <= |Templates|
    ensures r.Some? ==> ValidDate(r.value)
    decreases |Templates| - k
  {
    if k == |Templates| then None
    else
      var d := Strptime(v, Templates[k]);
      if d.Some? then d else FirstAccept(v, k + 1)
  }

  /** The detector on an already stripped value. */
  function Detect(v: string): Option<Date> {
    if DateShape(v) then FirstAccept(v, 0) else None
  }

  /** `_parsear_fecha(val)` as a value. */
  function DateOf(val: string): Option<Date> {
    Detect(Strip(val))
  }

  /** `_parsear_fecha`: strips, applies the gate, then tries the templates in order and
      returns at the first one that does not raise. */
  method ParseDate(val: string) returns (r: Option<Date>)
    ensures r == DateOf(val)
    ensures r.Some? ==> ValidDate(r.value) && DateShape(Strip(val))
  {
    var v := Strip(val);
    if !DateShape(v) {
      return None;
    }
    r := TryTemplates(v);
  }

  /** The template loop: the first template that accepts `v`, or nothing; the loop form of
      `FirstAccept`, proved equal to it. */
  method TryTemplates(v: string) returns (r: Option<Date>)
    ensures r == FirstAccept(v, 0)
  {
    var i := 0;
    while i < |Templates|
      invariant 0 <= i <= |Templates|
      invariant FirstAccept(v, i) == FirstAccept(v, 0)
    {
      var d := Strptime(v, Templates[i]);
      if d.Some? {
        return d;
      }
      i := i + 1;
    }
    return None;
  }

  // ---------------------------------------------------------------------------------
  // Properties
  // ---------------------------------------------------------------------------------

  /** The position of the first template from `k` on that accepts `v`, or `|Templates|`
      when none does. */
  function AcceptIndex(v: string, ts: seq<Template>, k: nat): (i: nat)
    requires k <= |ts|
    ensures k <= i <= |ts|
    ensures forall j :: k <= j < i ==> Strptime(v, ts[j]).None?
    ensures i < |ts| ==> Strptime(v, ts[i]).Some?
    decreases |ts| - k
  {
    if k == |ts| then k
    else if Strptime(v, ts[k]).Some? then k
    else AcceptIndex(v, ts, k + 1)
  }

  /** The first accepting template wins: the detector's answer is what the template at
      `AcceptIndex(v, Templates, 0)` reads, and nothing when every template rejects. */
  lemma {:induction false} FirstAcceptWins(v: string, k: nat)
    requires k <= |Templates|
    ensures FirstAccept(v, k) ==
      var i := AcceptIndex(v, Templates, k);
      if i < |Templates| then Strptime(v, Templates[i]) else None
    decreases |Templates| - k
  {
    if k < |Templates| && Strptime(v, Templates[k]).None? {
      FirstAcceptWins(v, k + 1);
    }
  }

  /** Splitting a glued date string at a separator character that is not a digit gives
      back the three fields exactly when both separators are that character. */
  lemma SplitGlued(p: Parts, c: char)
    requires AllDigits(p.first) && AllDigits(p.mid) && AllDigits(p.last)
    requires !IsDigit(c) && !IsDigit(p.sep1) && !IsDigit(p.sep2)
    ensures |Split(Glue(p), c)| == 3 <==> p.sep1 == c && p.sep2 == c
    ensures p.sep1 == c && p.sep2 == c ==> Split(Glue(p), c) == [p.first, p.mid, p.last]
  {
    DigitsExclude(p.first, c);
    DigitsExclude(p.mid, c);
    DigitsExclude(p.last, c);
    SplitNoSeparator(p.first, c);
    SplitNoSeparator(p.mid, c);
    SplitNoSeparator(p.last, c);
    var v := Glue(p);
    var tail := p.mid + [p.sep2] + p.last;
    assert v == p.first + [p.sep1] + tail;
    var head := p.first + [p.sep1] + p.mid;
    assert v == head + [p.sep2] + p.last;
    if p.sep1 == c {
      SplitAppend(p.first, c, tail);
      if p.sep2 == c {
        SplitAppend(p.mid, c, p.last);
      } else {
        NoSeparatorInGlue(p.mid, p.sep2, p.last, c);
        SplitNoSeparator(tail, c);
      }
    } else if p.sep2 == c {
      NoSeparatorInGlue(p.first, p.sep1, p.mid, c);
      SplitNoSeparator(head, c);
      SplitAppend(head, c, p.last);
    } else {
      NoSeparatorInGlue(p.first, p.sep1, tail, c);
      assert c !in tail by { NoSeparatorInGlue(p.mid, p.sep2, p.last, c); }
      SplitNoSeparator(v, c);
    }
  }

  lemma NoSeparatorInGlue(a: string, s: char, b: string, c: char)
    requires c !in a && c !in b && s != c
    ensures c !in a + [s] + b
  {
  }

  /** Day-first and month-first readings of an admitted shape, with the year width the
      last field has. */
  function DayFirstReading(p: Parts): Option<Date> {
    Assemble(YearField(p.last, |p.last| == 4), MonthField(p.mid), DayField(p.first))
  }

  function MonthFirstReading(p: Parts): Option<Date> {
    Assemble(YearField(p.last, |p.last| == 4), MonthField(p.first), DayField(p.mid))
  }

  /** What a template can make of an admitted shape with separators `s1`, `s2`, a last field
      of four digits or not (`long`), and day-first and month-first readings `d` and `m`:
      nothing unless both separators are its own, its year width is that of the last field
      and it is not year-first. */
  function Choose(t: Template, s1: char, s2: char, long: bool, d: Option<Date>, m: Option<Date>): Option<Date> {
    if s1 == t.sep && s2 == t.sep && t.order != YearFirst && t.longYear == long then
      if t.order == DayFirst then d else m
    else None
  }

  function TemplateReading(p: Parts, t: Template): Option<Date> {
    Choose(t, p.sep1, p.sep2, |p.last| == 4, DayFirstReading(p), MonthFirstReading(p))
  }

  /** What one template makes of a glued date string. */
  lemma StrptimeGlued(p: Parts, t: Template)
    requires Admissible(p) && t in Templates
    ensures Strptime(Glue(p), t) == TemplateReading(p, t)
  {
    SplitGlued(p, t.sep);
    assert |p.last| != 4 ==> YearField(p.last, true).None?;
    assert |p.last| != 2 ==> YearField(p.last, false).None?;
    assert YearField(p.first, true).None?;
  }

  /** The reading the ten templates amount to on an admitted shape: mixed separators never
      parse; otherwise the year width is fixed by the last field, and day-first is tried
      before month-first. */
  function Reading(p: Parts): Option<Date> {
    if p.sep1 != p.sep2 then None
    else if DayFirstReading(p).Some? then DayFirstReading(p)
    else MonthFirstReading(p)
  }

  /** The first template from position `k` on whose choice gives a date. */
  function FirstChoice(k: nat, s1: char, s2: char, long: bool, d: Option<Date>, m: Option<Date>): Option<Date>
    requires k <= |Templates|
    decreases |Templates| - k
  {
    if k == |Templates| then None
    else if Choose(Templates[k], s1, s2, long, d, m).Some? then Choose(Templates[k], s1, s2, long, d, m)
    else FirstChoice(k + 1, s1, s2, long, d, m)
  }

  lemma {:induction false} FirstAcceptGlued(p: Parts, k: nat)
    requires Admissible(p) && k <= |Templates|
    ensures FirstAccept(Glue(p), k) ==
      FirstChoice(k, p.sep1, p.sep2, |p.last| == 4, DayFirstReading(p), MonthFirstReading(p))
    decreases |Templates| - k
  {
    if k < |Templates| {
      StrptimeGlued(p, Templates[k]);
      FirstAcceptGlued(p, k + 1);
    }
  }

  /** Over the ten templates in their order, for separators from `/` and `-`: nothing for
      mixed separators, otherwise day-first before month-first. */
  lemma FirstChoiceTemplates(s1: char, s2: char, long: bool, d: Option<Date>, m: Option<Date>)
    requires IsDateSep(s1) && IsDateSep(s2)
    ensures FirstChoice(0, s1, s2, long, d, m) ==
      if s1 != s2 then None else if d.Some? then d else m
  {
    var r := if s1 != s2 then None else if d.Some? then d else m;
    assert FirstChoice(8, s1, s2, long, d, m).None?;
    assert FirstChoice(4, s1, s2, long, d, m) == if long then None else r;
  }

  /** On every string the gate admits, the detector is `Reading`. */
  lemma DetectGlued(p: Parts)
    requires Admissible(p)
    ensures Detect(Glue(p)) == Reading(p)
  {
    GateIff(p);
    FirstAcceptGlued(p, 0);
    FirstChoiceTemplates(p.sep1, p.sep2, |p.last| == 4, DayFirstReading(p), MonthFirstReading(p));
  }


  /** Whatever passes the gate, the ISO templates `%Y-%m-%d` and `%Y/%m/%d` never accept
      it: the gate allows at most two digits before the first separator. */
  lemma IsoTemplatesNeverFire(v: string)
    requires DateShape(v)
    ensures Strptime(v, Templates[8]).None? && Strptime(v, Templates[9]).None?
  {
    var p := PartsOf(v);
    StrptimeGlued(p, Templates[8]);
    StrptimeGlued(p, Templates[9]);
  }

  /** Values whose stripped form fails the gate are never dates. */
  lemma GateRejects(val: string)
    requires !DateShape(Strip(val))
    ensures DateOf(val).None?
  {
  }

  /** Mixed separators (`"1/2-2024"`) never parse. */
  lemma MixedSeparatorsRejected(p: Parts)
    requires Admissible(p) && p.sep1 != p.sep2
    ensures Detect(Glue(p)).None?
  {
    DetectGlued(p);
  }

  /** A three-digit year passes the gate but fits neither `%Y` nor `%y`. */
  lemma ThreeDigitYearRejected(p: Parts)
    requires Admissible(p) && |p.last| == 3
    ensures Detect(Glue(p)).None?
  {
    DetectGlued(p);
  }

  function Pad2(n: nat): string
    requires n < 100
  {
    PadDigits(n, 2)
  }

  function Pad4(n: nat): string
    requires n < 10000
  {
    PadDigits(n, 4)
  }

  /** A date written `DD/MM/YYYY` (or with hyphens), the display format the sheet applies,
      is read back as itself: day-first wins over month-first. */
  lemma DayFirstRoundTrip(d: Date, sep: char)
    requires ValidDate(d) && IsDateSep(sep)
    ensures Detect(Pad2(d.day) + [sep] + Pad2(d.month) + [sep] + Pad4(d.year)) == Some(d)
  {
    var p := Parts(Pad2(d.day), sep, Pad2(d.month), sep, Pad4(d.year));
    DetectGlued(p);
  }

  /** When the day cannot be a month (`"05/13/2024"`), the month-first template reads it. */
  lemma MonthFirstFallback(d: Date, sep: char)
    requires ValidDate(d) && IsDateSep(sep) && d.day > 12
    ensures Detect(Pad2(d.month) + [sep] + Pad2(d.day) + [sep] + Pad4(d.year)) == Some(d)
  {
    var p := Parts(Pad2(d.month), sep, Pad2(d.day), sep, Pad4(d.year));
    DetectGlued(p);
  }

  /** A two-digit year is read through the pivot. */
  lemma TwoDigitYear(day: nat, month: nat, yy: nat, sep: char)
    requires yy < 100 && 1 <= month <= 12 && IsDateSep(sep)
    requires 1 <= day <= DaysInMonth(Pivot(yy), month)
    ensures Detect(Pad2(day) + [sep] + Pad2(month) + [sep] + Pad2(yy)) == Some(Date(Pivot(yy), month, day))
  {
    var p := Parts(Pad2(day), sep, Pad2(month), sep, Pad2(yy));
    assert YearField(p.last, false) == Some(Pivot(yy));
    assert MonthField(p.mid) == Some(month);
    assert DayField(p.first) == Some(day);
    assert DayFirstReading(p) == Some(Date(Pivot(yy), month, day));
    DetectGlued(p);
  }

  /** `"03/04/2024"` is the 3rd of April: day-first wins. */
  lemma AmbiguousIsDayFirst()
    ensures Detect("03/04/2024") == Some(Date(2024, 4, 3))
  {
    var p := Parts("03", '/', "04", '/', "2024");
    assert Glue(p) == "03/04/2024";
    assert Value("03") == 3 by { assert "03"[..1] == "0"; }
    assert Value("04") == 4 by { assert "04"[..1] == "0"; }
    YearOfLiteral();
    assert DayFirstReading(p) == Some(Date(2024, 4, 3));
    DetectGlued(p);
  }

  /** `"05/13/2024"` is the 13th of May: month 13 does not exist, month-first reads it. */
  lemma ThirteenIsMonthFirst()
    ensures Detect("05/13/2024") == Some(Date(2024, 5, 13))
  {
    var p := Parts("05", '/', "13", '/', "2024");
    assert Glue(p) == "05/13/2024";
    assert Value("05") == 5 by { assert "05"[..1] == "0"; }
    assert Value("13") == 13 by { assert "13"[..1] == "1"; }
    YearOfLiteral();
    assert DayFirstReading(p).None?;
    assert MonthFirstReading(p) == Some(Date(2024, 5, 13));
    DetectGlued(p);
  }

  /** `"31/02/2024"` passes the gate but names no date under either reading. */
  lemma ImpossibleDayRejected()
    ensures Detect("31/02/2024").None?
  {
    var p := Parts("31", '/', "02", '/', "2024");
    assert Glue(p) == "31/02/2024";
    assert Value("31") == 31 by { assert "31"[..1] == "3"; }
    assert Value("02") == 2 by { assert "02"[..1] == "0"; }
    YearOfLiteral();
    assert DayFirstReading(p).None?;
    assert MonthFirstReading(p).None?;
    DetectGlued(p);
  }

  lemma YearOfLiteral()
    ensures YearField("2024", true) == Some(2024)
  {
    assert "20"[..1] == "2" && Value("20") == 20;
    assert "202"[..2] == "20" && Value("202") == 202;
    assert "2024"[..3] == "202" && Value("2024") == 2024;
  }

  /** `"1/2-2024"` mixes separators and `"1/2/202"` has a three-digit year: neither parses. */
  lemma MalformedDatesRejected()
    ensures Detect("1/2-2024").None?
    ensures Detect("1/2/202").None?
  {
    MixedSeparatorsRejected(Parts("1", '/', "2", '-', "2024"));
    assert Glue(Parts("1", '/', "2", '-', "2024")) == "1/2-2024";
    ThreeDigitYearRejected(Parts("1", '/', "2", '/', "202"));
    assert Glue(Parts("1", '/', "2", '/', "202")) == "1/2/202";
  }
}
