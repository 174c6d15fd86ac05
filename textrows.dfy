/** The text fallback (`extraer_texto`): the text of each selected page becomes one row
    per page or one row per line, and an optional separator splits each row's text into
    numbered columns. The page texts are inputs; reading them from the PDF is not modelled. */
module TextRows {
  import opened Wrappers
  import opened Strings
  import opened Promotion
  import opened Pages

  /** `--modo-texto pagina` or `linea`. */
  datatype TextMode = PerPage | PerLine

  /** The options the row builder reads: the mode, `--sin-vacias` and `--separador` (the
      empty text when the option is absent, which Python treats as false too). */
  datatype TextOptions = TextOptions(mode: TextMode, skipBlank: bool, separator: string)

  /** One entry of `filas`: `Pagina`, `Linea` (line mode only) and `Texto`. */
  datatype Row = Row(page: nat, line: Option<nat>, text: string)

  /** `extract_text() or ""`: a page without text counts as the empty text. */
  function PageText(t: Option<string>): string {
    if t.Some? then t.value else ""
  }

  predicate Blank(line: string) {
    Strip(line) == []
  }

  // ---------------------------------------------------------------------------------
  // Building the rows
  // ---------------------------------------------------------------------------------

  /** The rows for the lines of one page: line `n` (from 1) is the `n`-th piece of the page
      text split at `"\n"`; with `skipBlank`, blank lines give no row but keep their number. */
  function LineRows(page: nat, lines: seq<string>, skipBlank: bool): (r: seq<Row>)
    ensures |r| <= |lines|
  {
    if lines == [] then []
    else
      var n := |lines|;
      var last := lines[n - 1];
      LineRows(page, lines[..n - 1], skipBlank) + (if skipBlank && Blank(last) then [] else [Row(page, Some(n), last)])
  }

  /** The rows for the page with 0-based index `idx`. */
  function PageRows(idx: nat, text: string, opts: TextOptions): seq<Row> {
    match opts.mode
    case PerPage => [Row(idx + 1, None, text)]
    case PerLine => LineRows(idx + 1, Split(text, '\n'), opts.skipBlank)
  }

  predicate InRange(pages: seq<nat>, total: nat) {
    forall k :: 0 <= k < |pages| ==> pages[k] < total
  }

  /** The rows for the selected pages, page after page. */
  function RowsOf(pages: seq<nat>, texts: seq<Option<string>>, opts: TextOptions): seq<Row>
    requires InRange(pages, |texts|)
  {
    if pages == [] then []
    else
      var n := |pages|;
      RowsOf(pages[..n - 1], texts, opts) + PageRows(pages[n - 1], PageText(texts[pages[n - 1]]), opts)
  }

  /** The loop of `extraer_texto` that appends to `filas`. */
  method BuildRows(pages: seq<nat>, texts: seq<Option<string>>, opts: TextOptions) returns (rows: seq<Row>)
    requires InRange(pages, |texts|)
    ensures rows == RowsOf(pages, texts, opts)
  {
    rows := [];
    for k := 0 to |pages|
      invariant rows == RowsOf(pages[..k], texts, opts)
    {
      var idx := pages[k];
      var pageRows := PageRowsOf(idx, PageText(texts[idx]), opts);
      rows := rows + pageRows;
      RowsOfStep(pages, k, texts, opts);
    }
    assert pages[..|pages|] == pages;
  }

  /** The rows one page adds to `filas`. */
  method PageRowsOf(idx: nat, text: string, opts: TextOptions) returns (rows: seq<Row>)
    ensures rows == PageRows(idx, text, opts)
  {
    if opts.mode == PerPage {
      rows := [Row(idx + 1, None, text)];
    } else {
      rows := NumberLines(idx + 1, Split(text, '\n'), opts.skipBlank);
    }
  }

  /** The inner loop over `enumerate(texto.split("\n"), 1)`. */
  method NumberLines(page: nat, lines: seq<string>, skipBlank: bool) returns (rows: seq<Row>)
    ensures rows == LineRows(page, lines, skipBlank)
  {
    rows := [];
    for n := 0 to |lines|
      invariant rows == LineRows(page, lines[..n], skipBlank)
    {
      var line := lines[n];
      LineRowsStep(page, lines, n, skipBlank);
      if !(skipBlank && Strip(line) == []) {
        rows := rows + [Row(page, Some(n + 1), line)];
      }
    }
    assert lines[..|lines|] == lines;
  }

  lemma LineRowsStep(page: nat, lines: seq<string>, n: nat, skipBlank: bool)
    requires n < |lines|
    ensures LineRows(page, lines[..n + 1], skipBlank) ==
      LineRows(page, lines[..n], skipBlank) + (if skipBlank && Blank(lines[n]) then [] else [Row(page, Some(n + 1), lines[n])])
  {
    assert lines[..n + 1][..n] == lines[..n];
  }

  lemma RowsOfStep(pages: seq<nat>, k: nat, texts: seq<Option<string>>, opts: TextOptions)
    requires InRange(pages, |texts|) && k < |pages|
    ensures InRange(pages[..k], |texts|) && InRange(pages[..k + 1], |texts|)
    ensures RowsOf(pages[..k + 1], texts, opts) == RowsOf(pages[..k], texts, opts) + PageRows(pages[k], PageText(texts[pages[k]]), opts)
  {
    assert pages[..k + 1][..k] == pages[..k];
  }

  // ---------------------------------------------------------------------------------
  // The data frame
  // ---------------------------------------------------------------------------------

  /** `s.replace(pat, rep)`: every occurrence, left to right, without overlaps. */
  function ReplaceAll(s: string, pat: string, rep: string): string
    requires pat != []
    decreases |s|
  {
    if |pat| <= |s| && s[..|pat|] == pat then rep + ReplaceAll(s[|pat|..], pat, rep)
    else if s == [] then []
    else [s[0]] + ReplaceAll(s[1..], pat, rep)
  }

  /** The separator option with the two characters `\t` turned into a tab. */
  function SeparatorOf(arg: string): string {
    ReplaceAll(arg, "\\t", "\t")
  }

  /** The name of the `m`-th split column, counting from 0. */
  function ColName(m: nat): string {
    "Col_" + IntToString(m + 1)
  }

  /** The largest number of pieces. */
  function MostPieces(parts: seq<seq<string>>): (k: nat)
    ensures forall i :: 0 <= i < |parts| ==> |parts[i]| <= k
  {
    if parts == [] then 0
    else
      var rest := MostPieces(parts[1..]);
      assert forall i :: 1 <= i < |parts| ==> parts[i] == parts[1..][i - 1];
      if |parts[0]| < rest then rest else |parts[0]|
  }

  function Pieces(rows: seq<Row>, sep: string): (parts: seq<seq<string>>)
    requires sep != []
    ensures |parts| == |rows|
  {
    seq(|rows|, i requires 0 <= i < |rows| => SplitOn(rows[i].text, sep))
  }

  /** `str.split(sep, expand=True)`: column `m` holds the `m`-th piece of each text, or a
      missing value when that text has fewer pieces. */
  function SplitColumns(rows: seq<Row>, sep: string): (cols: Table)
    requires sep != []
  {
    var parts := Pieces(rows, sep);
    seq(MostPieces(parts), m requires 0 <= m =>
      Column(ColName(m), Texts(seq(|rows|, i requires 0 <= i < |rows| =>
        if m < |parts[i]| then Some(parts[i][m]) else None))))
  }

  function LineNumber(r: Row): int {
    if r.line.Some? then r.line.value else 0
  }

  /** `pd.DataFrame(filas)` followed by the optional split: no rows give the empty frame;
      otherwise `Pagina`, `Linea` in line mode, then `Texto` or the split columns. */
  function Frame(rows: seq<Row>, opts: TextOptions): Table {
    if rows == [] then []
    else
      var pageCol := Column("Pagina", Integers(seq(|rows|, i requires 0 <= i < |rows| => rows[i].page as int)));
      var lineCol := Column("Linea", Integers(seq(|rows|, i requires 0 <= i < |rows| => LineNumber(rows[i]))));
      var lead := if opts.mode == PerLine then [pageCol, lineCol] else [pageCol];
      if opts.separator == [] then
        lead + [Column("Texto", Texts(seq(|rows|, i requires 0 <= i < |rows| => Some(rows[i].text))))]
      else
        SeparatorNonEmpty(opts.separator);
        lead + SplitColumns(rows, SeparatorOf(opts.separator))
  }

  /** The frame `extraer_texto` returns once the page indices are known. */
  function TextFrame(pages: seq<nat>, texts: seq<Option<string>>, opts: TextOptions): Table
    requires InRange(pages, |texts|)
  {
    Frame(RowsOf(pages, texts, opts), opts)
  }

  /** `pages` is what the page resolver returns for `sel`. */
  ghost predicate Selected(pages: seq<nat>, sel: string, total: nat) {
    && Selection(sel, total).Ok? && StrictlyIncreasing(pages)
    && forall i :: i in pages <==> i in Selection(sel, total).value
  }

  /** `extraer_texto`: resolves the page selector against the number of pages (raising when
      it does), then builds the rows and the frame. */
  method ExtractText(sel: string, texts: seq<Option<string>>, opts: TextOptions) returns (r: Result<Table, string>)
    ensures Selection(sel, |texts|).Err? ==> r == Err(Selection(sel, |texts|).error)
    ensures Selection(sel, |texts|).Ok? ==>
      r.Ok? && exists pages :: Selected(pages, sel, |texts|) && InRange(pages, |texts|) && r.value == TextFrame(pages, texts, opts)
  {
    var selected := ParsePageRange(sel, |texts|);
    if selected.Err? {
      return Err(selected.error);
    }
    var pages := selected.value;
    assert InRange(pages, |texts|) by {
      forall k | 0 <= k < |pages| ensures pages[k] < |texts| {
        assert pages[k] in Selection(sel, |texts|).value;
      }
    }
    var rows := BuildRows(pages, texts, opts);
    r := Ok(Frame(rows, opts));
    assert Selected(pages, sel, |texts|);
  }

  // ---------------------------------------------------------------------------------
  // Properties
  // ---------------------------------------------------------------------------------

  lemma ReplaceKeepsNonEmpty(s: string, pat: string, rep: string)
    requires pat != [] && rep != [] && s != []
    ensures ReplaceAll(s, pat, rep) != []
  {
  }

  lemma SeparatorNonEmpty(arg: string)
    requires arg != []
    ensures SeparatorOf(arg) != []
  {
    ReplaceKeepsNonEmpty(arg, "\\t", "\t");
  }

  /** `"\\t"` stands for a tab, and a separator without a backslash is used as given. */
  lemma TabSeparator()
    ensures SeparatorOf("\\t") == "\t"
    ensures SeparatorOf(";\\t") == ";\t"
  {
    assert "\\t"[2..] == [];
    assert ";\\t"[1..] == "\\t";
  }

  lemma {:induction false} NoBackslashKept(arg: string)
    requires '\\' !in arg
    ensures SeparatorOf(arg) == arg
  {
    if arg != [] {
      if |arg| >= 2 {
        assert arg[..2][0] == arg[0];
        assert arg[..2] != "\\t";
      }
      NoBackslashKept(arg[1..]);
      assert [arg[0]] + arg[1..] == arg;
    }
  }

  /** Row `r` is line `n` of `lines` on page `page`, kept under `skipBlank`. */
  predicate LineRow(r: Row, page: nat, lines: seq<string>, skipBlank: bool) {
    && r.page == page && r.line.Some?
    && 1 <= r.line.value <= |lines|
    && r.text == lines[r.line.value - 1]
    && !(skipBlank && Blank(r.text))
  }

  /** Line rows: every row belongs to the page, its number is a 1-based line position and
      its text is that line, and a blank line has a row only when blank lines are kept. */
  lemma {:induction false} LineRowsNumbered(page: nat, lines: seq<string>, skipBlank: bool)
    ensures forall i :: 0 <= i < |LineRows(page, lines, skipBlank)| ==> LineRow(LineRows(page, lines, skipBlank)[i], page, lines, skipBlank)
  {
    if lines != [] {
      var front := lines[..|lines| - 1];
      LineRowsNumbered(page, front, skipBlank);
      var r0 := LineRows(page, front, skipBlank);
      var r := LineRows(page, lines, skipBlank);
      forall i | 0 <= i < |r| ensures LineRow(r[i], page, lines, skipBlank) {
        if i < |r0| {
          assert r[i] == r0[i];
          LineRowExtends(r0[i], page, front, lines, skipBlank);
        }
      }
    }
  }

  lemma LineRowExtends(r: Row, page: nat, front: seq<string>, lines: seq<string>, skipBlank: bool)
    requires LineRow(r, page, front, skipBlank) && |front| <= |lines| && front == lines[..|front|]
    ensures LineRow(r, page, lines, skipBlank)
  {
    assert lines[r.line.value - 1] == front[r.line.value - 1];
  }

  predicate Ascending(rs: seq<Row>) {
    forall i, j :: 0 <= i < j < |rs| ==> LineNumber(rs[i]) < LineNumber(rs[j])
  }

  /** The line numbers of a page's rows strictly increase. */
  lemma {:induction false} LineRowsAscending(page: nat, lines: seq<string>, skipBlank: bool)
    ensures Ascending(LineRows(page, lines, skipBlank))
  {
    if lines != [] {
      var front := lines[..|lines| - 1];
      LineRowsAscending(page, front, skipBlank);
      LineRowsNumbered(page, front, skipBlank);
      var r0 := LineRows(page, front, skipBlank);
      var r := LineRows(page, lines, skipBlank);
      assert r[..|r0|] == r0;
      forall i | 0 <= i < |r0| ensures r[i] == r0[i] && LineNumber(r[i]) < |lines| {
        assert r[i] == r[..|r0|][i];
        assert LineRow(r0[i], page, front, skipBlank);
      }
      forall i, j | 0 <= i < j < |r| ensures LineNumber(r[i]) < LineNumber(r[j]) {
        if j >= |r0| {
          assert r[j] == Row(page, Some(|lines|), lines[|lines| - 1]);
        } else {
          assert r[i] == r0[i] && r[j] == r0[j];
        }
      }
    }
  }

  /** Every line that is kept has its row. */
  lemma {:induction false} LineRowsComplete(page: nat, lines: seq<string>, skipBlank: bool, n: nat)
    requires 1 <= n <= |lines| && !(skipBlank && Blank(lines[n - 1]))
    ensures Row(page, Some(n), lines[n - 1]) in LineRows(page, lines, skipBlank)
  {
    var front := lines[..|lines| - 1];
    if n < |lines| {
      LineRowsComplete(page, front, skipBlank, n);
      assert front[n - 1] == lines[n - 1];
    }
  }

  /** Without skipping, line `n + 1` is row `n`, one row per line. */
  lemma {:induction false} AllLinesKept(page: nat, lines: seq<string>)
    ensures var r := LineRows(page, lines, false);
      |r| == |lines| && forall n :: 0 <= n < |lines| ==> r[n] == Row(page, Some(n + 1), lines[n])
  {
    if lines != [] {
      AllLinesKept(page, lines[..|lines| - 1]);
    }
  }

  /** The rows that are not blank. */
  function NonBlank(rs: seq<Row>): seq<Row> {
    if rs == [] then [] else NonBlank(rs[..|rs| - 1]) + (if Blank(rs[|rs| - 1].text) then [] else [rs[|rs| - 1]])
  }

  /** `--sin-vacias` only drops the blank lines' rows: the others keep their numbers. */
  lemma {:induction false} SkipDoesNotRenumber(page: nat, lines: seq<string>)
    ensures LineRows(page, lines, true) == NonBlank(LineRows(page, lines, false))
  {
    if lines != [] {
      var front := lines[..|lines| - 1];
      SkipDoesNotRenumber(page, front);
      var all := LineRows(page, lines, false);
      assert all[..|all| - 1] == LineRows(page, front, false);
    }
  }

  /** Page mode: one row per selected page, in order, numbered from 1. */
  lemma {:induction false} PageModeRows(pages: seq<nat>, texts: seq<Option<string>>, opts: TextOptions)
    requires InRange(pages, |texts|) && opts.mode == PerPage
    ensures var r := RowsOf(pages, texts, opts);
      |r| == |pages| && forall k :: 0 <= k < |pages| ==> r[k] == Row(pages[k] + 1, None, PageText(texts[pages[k]]))
  {
    if pages != [] {
      var front := pages[..|pages| - 1];
      PageModeRows(front, texts, opts);
    }
  }

  /** Unless blank lines are skipped, there are rows exactly when a page is selected: every
      page text has at least one line. */
  lemma {:induction false} RowsEmptyIff(pages: seq<nat>, texts: seq<Option<string>>, opts: TextOptions)
    requires InRange(pages, |texts|) && !(opts.mode == PerLine && opts.skipBlank)
    ensures RowsOf(pages, texts, opts) == [] <==> pages == []
  {
    if pages != [] {
      var idx := pages[|pages| - 1];
      if opts.mode == PerLine {
        AllLinesKept(idx + 1, Split(PageText(texts[idx]), '\n'));
      }
    }
  }

  /** Every column of the frame has one value per row, and the frame is empty exactly when
      there are no rows. */
  lemma FrameShape(rows: seq<Row>, opts: TextOptions)
    ensures Frame(rows, opts) == [] <==> rows == []
    ensures forall c :: c in Frame(rows, opts) ==> Rows(c.data) == |rows|
  {
    if rows != [] && opts.separator != [] {
      SeparatorNonEmpty(opts.separator);
      SplitShape(rows, SeparatorOf(opts.separator));
    }
  }

  /** Different split columns have different names, all starting with `Col_`. */
  lemma ColNamesDistinct(m: nat, n: nat)
    requires m != n
    ensures ColName(m) != ColName(n) && ColName(m)[..4] == "Col_"
  {
    var dm, dn := DigitsOf(m + 1), DigitsOf(n + 1);
    assert ColName(m) == "Col_" + dm && ColName(m)[4..] == dm;
    assert ColName(n) == "Col_" + dn && ColName(n)[4..] == dn;
    assert dm != dn by { assert Value(dm) != Value(dn); }
  }

  /** The frame's column names are distinct, so promoting it never raises. */
  lemma FrameConverts(rows: seq<Row>, opts: TextOptions)
    ensures DistinctNames(Frame(rows, opts))
    ensures Converted(Frame(rows, opts)).Ok?
  {
    if rows != [] {
      var f := Frame(rows, opts);
      var pageCol, lineCol := f[0], if opts.mode == PerLine then f[1] else f[0];
      var lead := if opts.mode == PerLine then [pageCol, lineCol] else [pageCol];
      if opts.separator == [] {
        assert f == lead + [f[|f| - 1]];
        LeadDistinct(lead, f[|f| - 1..]);
      } else {
        SeparatorNonEmpty(opts.separator);
        var cols := SplitColumns(rows, SeparatorOf(opts.separator));
        assert f == lead + cols;
        LeadDistinct(lead, cols);
      }
    }
  }

  /** The leading `Pagina` (and `Linea`) columns, then columns named `Texto` or `Col_<k>`. */
  lemma LeadDistinct(lead: Table, cols: Table)
    requires |lead| == 1 || (|lead| == 2 && lead[1].name == "Linea")
    requires lead[0].name == "Pagina"
    requires (|cols| == 1 && cols[0].name == "Texto") || forall k :: 0 <= k < |cols| ==> cols[k].name == ColName(k)
    ensures DistinctNames(lead + cols)
  {
    var f := lead + cols;
    var n := |lead|;
    forall i, j | 0 <= i < j < |f| ensures f[i].name != f[j].name {
      if i >= n {
        assert f[i] == cols[i - n] && f[j] == cols[j - n];
        ColNamesDistinct(i - n, j - n);
      } else if j >= n {
        assert f[j] == cols[j - n];
        if cols[j - n].name != "Texto" {
          ColNamesDistinct(j - n, j - n + 1);
          assert f[j].name[0] == 'C';
        }
      }
    }
  }

  /** At least one split column, each with one value per row. */
  lemma SplitShape(rows: seq<Row>, sep: string)
    requires sep != [] && rows != []
    ensures |SplitColumns(rows, sep)| >= 1
    ensures forall c :: c in SplitColumns(rows, sep) ==> Rows(c.data) == |rows|
  {
    var parts := Pieces(rows, sep);
    assert |parts[0]| >= 1;
  }

  /** With a separator, row `i` of the split columns holds the pieces of its text in order,
      then missing values; joining the pieces with the separator gives the text back, and
      there are as many split columns as the most pieces of any row. */
  lemma SplitRoundTrip(rows: seq<Row>, sep: string, i: nat)
    requires sep != [] && i < |rows|
    ensures var cols := SplitColumns(rows, sep); var parts := SplitOn(rows[i].text, sep);
      && |parts| <= |cols|
      && (forall m :: 0 <= m < |cols| ==>
            (cols[m].name == ColName(m) && cols[m].data.Texts? &&
             cols[m].data.texts[i] == (if m < |parts| then Some(parts[m]) else None)))
      && JoinOn(parts, sep) == rows[i].text
      && exists r :: 0 <= r < |rows| && |SplitOn(rows[r].text, sep)| == |cols|
  {
    var parts := Pieces(rows, sep);
    assert parts[i] == SplitOn(rows[i].text, sep);
    MostAttained(parts);
    var r :| 0 <= r < |parts| && |parts[r]| == MostPieces(parts);
    assert parts[r] == SplitOn(rows[r].text, sep);
  }

  lemma {:induction false} MostAttained(parts: seq<seq<string>>)
    requires parts != []
    ensures exists r :: 0 <= r < |parts| && |parts[r]| == MostPieces(parts)
  {
    if |parts| == 1 {
      assert MostPieces(parts[1..]) == 0;
    } else {
      MostAttained(parts[1..]);
      var r :| 0 <= r < |parts[1..]| && |parts[1..][r]| == MostPieces(parts[1..]);
      assert parts[1..][r] == parts[r + 1];
      if MostPieces(parts) != |parts[0]| {
        assert |parts[r + 1]| == MostPieces(parts);
      }
    }
  }

  /** Without a separator the frame's last column is `Texto`, holding every row's text. */
  lemma TextColumn(rows: seq<Row>, opts: TextOptions)
    requires rows != [] && opts.separator == []
    ensures var f := Frame(rows, opts);
      && |f| == (if opts.mode == PerLine then 3 else 2)
      && f[0].name == "Pagina" && f[|f| - 1].name == "Texto"
      && f[|f| - 1].data == Texts(seq(|rows|, i requires 0 <= i < |rows| => Some(rows[i].text)))
      && (opts.mode == PerLine ==> f[1].name == "Linea")
  {
  }
}
