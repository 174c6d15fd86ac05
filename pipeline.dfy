/** One PDF through the tool (`procesar_pdf`): tables from tabula, else from pdfplumber,
    else (in the automatic mode) the page text; what the backends return is an input. */
module Pipeline {
  import opened Wrappers
  import opened Strings
  import opened Promotion
  import opened TextRows

  /** `--modo auto`, `tablas` or `texto`. */
  datatype Mode = Auto | TablesOnly | TextOnly

  /** The extractors, in the order the tool may try them. */
  datatype Backend = Tabula | Plumber | PageText

  /** A sheet of the workbook: its name and the tables written to it, in order (one table
      per sheet, or every table in the single `Datos` sheet). */
  datatype Sheet = Sheet(name: string, tables: seq<Table>)

  /** How the run ends: a workbook of tables, the "no tables" notice of `--modo tablas`,
      a workbook with the `Texto` sheet, the "no text" notice, or an exception. */
  datatype Outcome =
    | TablesSaved(sheets: seq<Sheet>)
    | NoTables
    | TextSaved(sheet: Sheet)
    | NoText
    | Raised(error: string)

  /** The backends tried, in order, and how the run ended. */
  datatype Run = Run(tried: seq<Backend>, outcome: Outcome)

  /** pandas' `df.empty`: no columns or no rows. */
  predicate IsEmpty(t: Table) {
    |t| == 0 || Rows(t[0].data) == 0
  }

  /** `extraer_tablas_tabula`: the non-empty tables tabula read, or none when it raised. */
  function TabulaTables(read: Result<seq<Table>, string>): (r: seq<Table>)
    ensures forall k :: 0 <= k < |r| ==> !IsEmpty(r[k])
  {
    if read.Err? then [] else NonEmpty(read.value)
  }

  function NonEmpty(ts: seq<Table>): (r: seq<Table>)
    ensures |r| <= |ts|
    ensures forall k :: 0 <= k < |r| ==> !IsEmpty(r[k])
  {
    if ts == [] then []
    else if IsEmpty(ts[0]) then NonEmpty(ts[1..])
    else [ts[0]] + NonEmpty(ts[1..])
  }

  /** `f"Tabla_{i}"[:31]`. */
  function SheetName(i: nat): (name: string)
    ensures |name| <= 31
  {
    var full := "Tabla_" + IntToString(i);
    if |full| <= 31 then full else full[..31]
  }

  /** `guardar_tablas_excel`: every table promoted (the first one with a repeated column
      name raises), then one sheet per table named from 1, or all of them in the sheet
      `Datos`. */
  function SaveTables(tables: seq<Table>, separate: bool): Result<seq<Sheet>, string> {
    if exists k :: 0 <= k < |tables| && !DistinctNames(tables[k]) then Err(DtypeError)
    else
      var promoted := seq(|tables|, k requires 0 <= k < |tables| => PromoteAll(tables[k]));
      if separate then Ok(seq(|promoted|, k requires 0 <= k < |promoted| => Sheet(SheetName(k + 1), [promoted[k]])))
      else Ok([Sheet("Datos", promoted)])
  }

  /** The text fallback: extraction raises, finds nothing, or is promoted and saved. */
  function TextStep(tried: seq<Backend>, text: Result<Table, string>): Run {
    Run(tried + [PageText],
      if text.Err? then Raised(text.error)
      else if IsEmpty(text.value) then NoText
      else match Converted(text.value)
        case Err(e) => Raised(e)
        case Ok(t) => TextSaved(Sheet("Texto", [t])))
  }

  /** `procesar_pdf`. */
  function Process(mode: Mode, separate: bool, tabula: Result<seq<Table>, string>, plumber: seq<Table>, text: Result<Table, string>): Run {
    if mode == TextOnly then TextStep([], text)
    else
      var first := TabulaTables(tabula);
      var tried := if first != [] then [Tabula] else [Tabula, Plumber];
      var tables := if first != [] then first else plumber;
      if tables != [] then
        Run(tried, match SaveTables(tables, separate)
          case Err(e) => Raised(e)
          case Ok(sheets) => TablesSaved(sheets))
      else if mode == TablesOnly then Run(tried, NoTables)
      else TextStep(tried, text)
  }

  // ---------------------------------------------------------------------------------
  // Properties
  // ---------------------------------------------------------------------------------

  /** pdfplumber's tables are looked at exactly when tables are wanted and tabula gave none. */
  lemma PlumberOnlyAfterTabula(mode: Mode, separate: bool, tabula: Result<seq<Table>, string>, plumber: seq<Table>, text: Result<Table, string>)
    ensures Plumber in Process(mode, separate, tabula, plumber, text).tried <==> mode != TextOnly && TabulaTables(tabula) == []
  {
  }

  /** `--modo tablas` never extracts text, `--modo texto` extracts nothing else, and
      `--modo auto` extracts text exactly when neither table backend found a table. */
  lemma TextOnlyAsLastResort(mode: Mode, separate: bool, tabula: Result<seq<Table>, string>, plumber: seq<Table>, text: Result<Table, string>)
    ensures var run := Process(mode, separate, tabula, plumber, text);
      && (mode == TablesOnly ==> PageText !in run.tried)
      && (mode == TextOnly ==> run.tried == [PageText])
      && (mode == Auto ==> (PageText in run.tried <==> TabulaTables(tabula) == [] && plumber == []))
  {
  }

  /** The backends are tried in their fixed order, each at most once. */
  lemma TriedInOrder(mode: Mode, separate: bool, tabula: Result<seq<Table>, string>, plumber: seq<Table>, text: Result<Table, string>)
    ensures Process(mode, separate, tabula, plumber, text).tried in
      {[Tabula], [Tabula, Plumber], [Tabula, Plumber, PageText], [PageText]}
  {
    var run := Process(mode, separate, tabula, plumber, text);
    if mode == TextOnly {
      assert run.tried == [] + [PageText] == [PageText];
    } else if TabulaTables(tabula) != [] {
      assert run.tried == [Tabula];
    } else if plumber != [] || mode == TablesOnly {
      assert run.tried == [Tabula, Plumber];
    } else {
      assert run.tried == [Tabula, Plumber] + [PageText] == [Tabula, Plumber, PageText];
    }
  }

  /** Tables are saved exactly when a table backend found some and none of them repeats a
      column name, and they are those of the first backend that did, each promoted by
      itself. */
  lemma TablesFromFirstBackend(mode: Mode, separate: bool, tabula: Result<seq<Table>, string>, plumber: seq<Table>, text: Result<Table, string>)
    ensures var run := Process(mode, separate, tabula, plumber, text);
      var found := if TabulaTables(tabula) != [] then TabulaTables(tabula) else plumber;
      && (run.outcome.TablesSaved? <==> mode != TextOnly && found != [] && forall k :: 0 <= k < |found| ==> DistinctNames(found[k]))
      && (run.outcome.TablesSaved? ==> Ok(run.outcome.sheets) == SaveTables(found, separate))
  {
  }

  /** The outcomes that write no workbook, and when each happens: an exception comes from
      the text extraction or from a repeated column name in the tables or in the frame. */
  lemma NothingSaved(mode: Mode, separate: bool, tabula: Result<seq<Table>, string>, plumber: seq<Table>, text: Result<Table, string>)
    ensures var run := Process(mode, separate, tabula, plumber, text);
      var found := if TabulaTables(tabula) != [] then TabulaTables(tabula) else plumber;
      var textPath := mode == TextOnly || (mode == Auto && found == []);
      && (run.outcome == NoTables <==> mode == TablesOnly && found == [])
      && (run.outcome == NoText <==> textPath && text.Ok? && IsEmpty(text.value))
      && (run.outcome.Raised? <==>
          (textPath && (text.Err? || (!IsEmpty(text.value) && !DistinctNames(text.value))))
          || (mode != TextOnly && exists k :: 0 <= k < |found| && !DistinctNames(found[k])))
  {
  }

  /** A text sheet is the `Texto` sheet holding the promoted frame. */
  lemma TextSheet(mode: Mode, separate: bool, tabula: Result<seq<Table>, string>, plumber: seq<Table>, text: Result<Table, string>)
    requires Process(mode, separate, tabula, plumber, text).outcome.TextSaved?
    ensures text.Ok? && !IsEmpty(text.value) && DistinctNames(text.value)
    ensures Process(mode, separate, tabula, plumber, text).outcome.sheet == Sheet("Texto", [PromoteAll(text.value)])
  {
  }

  /** The sheets of a workbook of tables: one per table, named `Tabla_1`, `Tabla_2`, ... in
      order, each holding its promoted table; or the single `Datos` sheet with all of them.
      Saving fails exactly when some table repeats a column name. */
  lemma SheetsOfTables(tables: seq<Table>, separate: bool)
    ensures SaveTables(tables, separate).Ok? <==> forall k :: 0 <= k < |tables| ==> DistinctNames(tables[k])
    ensures SaveTables(tables, separate).Err? ==> SaveTables(tables, separate).error == DtypeError
    ensures SaveTables(tables, separate).Ok? ==> var sheets := SaveTables(tables, separate).value;
      && (separate ==> |sheets| == |tables|)
      && (separate ==> forall k :: 0 <= k < |tables| ==> sheets[k] == Sheet(SheetName(k + 1), [PromoteAll(tables[k])]))
      && (!separate ==> |sheets| == 1 && sheets[0].name == "Datos" && |sheets[0].tables| == |tables|)
      && (!separate ==> forall k :: 0 <= k < |tables| ==> sheets[0].tables[k] == PromoteAll(tables[k]))
  {
  }

  /** Sheet names start with `Tabla_`, never exceed Excel's 31 characters, and name
      different tables differently up to 25-digit positions. */
  lemma SheetNamesDistinct(i: nat, j: nat)
    requires 1 <= i < Pow10(25) && 1 <= j < Pow10(25) && i != j
    ensures SheetName(i) != SheetName(j)
    ensures SheetName(i)[..6] == "Tabla_"
  {
    DigitsFit(i, 25);
    DigitsFit(j, 25);
    var di, dj := DigitsOf(i), DigitsOf(j);
    assert SheetName(i) == "Tabla_" + di && SheetName(i)[6..] == di;
    assert SheetName(j) == "Tabla_" + dj && SheetName(j)[6..] == dj;
    assert di != dj by { assert Value(di) != Value(dj); }
  }

  /** A number below `10^k` has at most `k` digits. */
  lemma {:induction false} DigitsFit(n: nat, k: nat)
    requires 1 <= k && n < Pow10(k)
    ensures |DigitsOf(n)| <= k
  {
    if n >= 10 {
      DigitsFit(n / 10, k - 1);
    }
  }
}
