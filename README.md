# pdf-a-excel in Dafny

A model of the decision logic of `pdf_a_excel.py`, a command-line tool that turns the tables
(or, failing that, the text) of a PDF into an Excel workbook. What the PDF and Excel libraries
do (tabula, pdfplumber, pandas, openpyxl) is outside the model; what the tool itself decides
is inside it:

- which pages a selector such as `"1,3-5"` or `"all"` names (`parse_rango_paginas`);
- when a cell text is a date (`_parsear_fecha`: a shape gate, then ten `strptime` templates
  in order) and when it is a number (`_parsear_numero`: four regex shapes in order, each with
  its own normalisation);
- when a text column of a table is promoted to a date or a number column
  (`auto_convertir_tipos`, the 60 % rule);
- how a worksheet is formatted in place (`_aplicar_formatos_hoja`: bold, centred header; each
  data cell converted, given the number format and alignment of its type; column widths from
  a running maximum, capped at 55);
- how the text of the selected pages becomes rows and columns (`extraer_texto`);
- which backend's result is saved, and under which sheet names (`procesar_pdf`,
  `guardar_tablas_excel`, `guardar_texto_excel`).

Modules, one file each, in dependency order: `Wrappers` (Option, Result), `Strings`
(Python's `str.strip`, `str.split`, `str(n)`, `int(s)`), `Pages`, `Dates`, `Numbers`,
`Promotion`, `Sheet`, `TextRows`, `Pipeline`.

Where the code loops or mutates, the model does too, and each method is proved against a
specification function: `Pages.ParsePageRange` fills a set piece by piece and sorts it;
`Dates.ParseDate` tries the templates with an early return; `Promotion.AutoConvertTypes`
replaces columns of a copy one by one; `Sheet.Worksheet.ApplyFormats` updates a
`array2<Cell>` and a width array in nested loops; `TextRows.BuildRows` appends rows page by
page and line by line. `_parsear_numero` and `procesar_pdf` are straight-line branching and
are modelled as functions.

Parsed numbers are exact decimals (`Decimal(mantissa, scale)` stands for
`mantissa / 10^scale`), so `"1.234,56"` reads as `Decimal(123456, 2)`. The display
`f"{v:,.2f}"` that drives number widths is modelled on those decimals, with ties rounded to
even.

The code and its stated intent disagree in one place, and the model follows the code. The
European shape `^-?[\d.]+,\d+$` is tested before the comma-grouped integer, so `"140,000"`
reads as 140.000, that is 140 (`Numbers.ThousandsCommaIsDecimal`). The comment at
`pdf_a_excel.py:355` gives it as the integer 140000. Only a text with two or more commas,
or with a single comma first or last, reaches the comma-integer branch
(`Numbers.TwoCommasInteger`, `Numbers.LeadingCommaInteger`, `Numbers.TrailingCommaInteger`).

No value is both a date and a number (`Promotion.NotBoth`), so the order in which the
promotion tries the two detectors never matters (`Promotion.OrderIrrelevant`). A table in
which two columns share a name (pdfplumber takes the header from the first row, so two blank
header cells can do this) makes `df[col]` a frame, and `df[col].dtype` raises; the model returns
that error from `Promotion.AutoConvertTypes` and ends the run with it.

## Model

| member | source | states |
|---|---|---|
| Pages.ParsePageRange | pdf_a_excel.py:186-201 | the result is an error exactly when the selection is, naming the first piece `int()` rejects; otherwise it is strictly ascending, holds exactly the selected indices, and is `0..total-1` for `"all"` |
| Pages.Selection | pdf_a_excel.py:186-201 | every selected index lies below the page count |
| Pages.PiecesSelection | pdf_a_excel.py:190-200 | the indices of the comma pieces all lie below the page count |
| Pages.CollectPieces | pdf_a_excel.py:190-200 | the loop over the pieces computes the union of their indices, stopping at the first piece that does not read |
| Pages.AddPiece | pdf_a_excel.py:191-200 | adding a piece adds exactly its in-range indices (a range page by page) |
| Pages.Sorted | pdf_a_excel.py:201 | `sorted(indices)` is strictly ascending and has the same elements as the set |
| Pages.SortedUnique | pdf_a_excel.py:201 | two strictly ascending lists with the same elements are equal, so the resolver's result is determined |
| Pages.AllPagesInOrder | pdf_a_excel.py:187-188 | `list(range(total))` is strictly ascending and holds exactly the indices below `total` |
| Pages.CommaIsNotAll | pdf_a_excel.py:187 | a selector holding a comma is never `"all"` |
| Pages.ForeignCharIsNotAll | pdf_a_excel.py:187 | a selector holding a non-space character outside `a`, `l` is never `"all"` |
| Pages.SelectionUnion | pdf_a_excel.py:190 | `a,b` selects the union of what `a` and `b` select, the first failure winning |
| Pages.PiecesSelectionAppend | pdf_a_excel.py:190-200 | the selection of concatenated piece lists is the union of their selections |
| Pages.OnePiece | pdf_a_excel.py:191-200 | a selector without a comma selects what its one piece names, or fails with it |
| Pages.ReadRange | pdf_a_excel.py:192-194 | `"a-b"` is read as the range from `a` to `b` |
| Pages.RangeSelects | pdf_a_excel.py:192-196 | `"a-b"` selects `p-1` exactly for `a <= p <= b` with `1 <= p <= total` |
| Pages.ReversedRangeSelectsNothing | pdf_a_excel.py:194 | a range with `a > b` selects nothing |
| Pages.SingleSelects | pdf_a_excel.py:197-200 | a lone number `n` selects `n-1` when `1 <= n <= total`, else nothing |
| Pages.MalformedSelectorsRaise | pdf_a_excel.py:190-198 | `"…,"`, `"n-"` and `"x"` make `int()` raise |
| Pages.NotANumberRaises | pdf_a_excel.py:198 | a piece that is not a number raises |
| Pages.TrailingCommaRaises | pdf_a_excel.py:190-198 | a trailing comma leaves an empty piece, which raises |
| Pages.UpperBoundMissingRaises | pdf_a_excel.py:193-194 | a range without an upper bound raises |
| Strings.Strip | pdf_a_excel.py:187 | `str.strip()` leaves no whitespace at either end and never lengthens |
| Strings.StripEmptyIff | pdf_a_excel.py:291 | a text strips to nothing exactly when it is all whitespace |
| Strings.StripIdempotent | pdf_a_excel.py:324 | stripping twice is stripping once |
| Strings.Split | pdf_a_excel.py:190 | `str.split(c)` gives at least one piece, none holding `c`, and joining them with `c` gives the text back |
| Strings.SplitJoin | pdf_a_excel.py:290 | splitting undoes joining pieces that do not contain the separator |
| Strings.SplitOn | pdf_a_excel.py:302 | `str.split(sep)` for any non-empty separator: joining the pieces with `sep` gives the text back |
| Strings.SplitOnChar | pdf_a_excel.py:302 | with a one-character separator both splits agree |
| Strings.ParseInt | pdf_a_excel.py:194 | what `int()` accepts is a stripped, non-empty signed digit string |
| Strings.ParseIntRoundTrip | pdf_a_excel.py:198 | `int(str(n)) == n` |
| Strings.DigitsOf | pdf_a_excel.py:471 | `str(n)` is a digit string without leading zero that denotes `n` |
| Dates.ParseDate | pdf_a_excel.py:322-332 | the method returns what the detector reads: a valid date on a string that passes the gate, or nothing |
| Dates.TryTemplates | pdf_a_excel.py:327-332 | the template loop returns the first template's reading that does not raise |
| Dates.DaysInMonth | pdf_a_excel.py:329 | 28 to 31 days, and 29 exactly for February of a Gregorian leap year |
| Dates.DigitRun | pdf_a_excel.py:313 | the run of leading digits, stopping at the first non-digit |
| Dates.GateIff | pdf_a_excel.py:312-314 | the gate admits three digit fields exactly when they have 1-2, 1-2 and 2-4 digits and the separators are `/` or `-` |
| Dates.PartsOf | pdf_a_excel.py:312-314 | a string the gate admits splits into admissible fields that glue back to it |
| Dates.DayField | pdf_a_excel.py:316 | `%d` accepts exactly one or two digits from 1 to 31 |
| Dates.MonthField | pdf_a_excel.py:316 | `%m` accepts exactly one or two digits from 1 to 12 |
| Dates.Pivot | pdf_a_excel.py:317 | the two-digit year pivot keeps the last two digits and lands in 1969-2068 |
| Dates.YearField | pdf_a_excel.py:316-317 | `%Y` takes four digits, `%y` two |
| Dates.Assemble | pdf_a_excel.py:329 | the fields give a date exactly when all are present and name an existing day |
| Dates.Strptime | pdf_a_excel.py:329 | whatever `strptime` accepts is a valid date |
| Dates.FirstAccept | pdf_a_excel.py:327-331 | whatever the template loop returns is a valid date |
| Dates.AcceptIndex | pdf_a_excel.py:327-331 | every template before the returned position rejects, the one at it accepts |
| Dates.FirstAcceptWins | pdf_a_excel.py:327-331 | the detector's answer is the reading of the first accepting template, nothing when all reject |
| Dates.SplitGlued | pdf_a_excel.py:316-318 | splitting at a template's separator gives the three fields exactly when both separators are it |
| Dates.StrptimeGlued | pdf_a_excel.py:315-319 | what each of the ten templates reads from an admitted string: only matching separators and year width, never year-first |
| Dates.FirstAcceptGlued | pdf_a_excel.py:327-331 | on an admitted string the loop is the first template choice that gives a date |
| Dates.FirstChoiceTemplates | pdf_a_excel.py:315-319 | over the ten templates in order: mixed separators give nothing, otherwise day-first before month-first |
| Dates.DetectGlued | pdf_a_excel.py:322-331 | on every admitted string the detector is the day-first reading, else the month-first one, for equal separators |
| Dates.IsoTemplatesNeverFire | pdf_a_excel.py:313-318 | the `%Y-%m-%d` and `%Y/%m/%d` templates never accept what the gate lets through |
| Dates.GateRejects | pdf_a_excel.py:324-326 | a value whose stripped form fails the gate is never a date |
| Dates.MixedSeparatorsRejected | pdf_a_excel.py:315-319 | `"1/2-2024"`-style mixed separators never parse |
| Dates.ThreeDigitYearRejected | pdf_a_excel.py:313-317 | a three-digit year passes the gate but never parses |
| Dates.DayFirstRoundTrip | pdf_a_excel.py:316 | a date written `DD/MM/YYYY` (or with hyphens) reads back as itself |
| Dates.MonthFirstFallback | pdf_a_excel.py:316 | when the second field exceeds 12, the month-first template reads it |
| Dates.TwoDigitYear | pdf_a_excel.py:317 | a two-digit year is read through the pivot |
| Dates.AmbiguousIsDayFirst | pdf_a_excel.py:316 | `"03/04/2024"` is 3 April 2024 |
| Dates.ThirteenIsMonthFirst | pdf_a_excel.py:316 | `"05/13/2024"` is 13 May 2024 |
| Dates.ImpossibleDayRejected | pdf_a_excel.py:329 | `"31/02/2024"` is not a date |
| Dates.MalformedDatesRejected | pdf_a_excel.py:313-319 | `"1/2-2024"` and `"1/2/202"` are not dates |
| Numbers.Remove | pdf_a_excel.py:341 | `replace(c, "")` leaves no `c` and never lengthens |
| Numbers.RemoveLeavesDigits | pdf_a_excel.py:346 | removing the one extra character of `[\d,]` or `[\d.]` leaves digits |
| Numbers.MagValue | pdf_a_excel.py:346 | the mantissa of an integer and a fraction part is the integer scaled by `10^|fraction|` plus the fraction |
| Numbers.AmericanUnsigned | pdf_a_excel.py:344-348 | comma-grouped digits, a point and digits read as the digits without commas over `10^|fraction|` |
| Numbers.EuropeanUnsigned | pdf_a_excel.py:350-354 | point-grouped digits, a comma and digits read likewise once the American shape fails |
| Numbers.CommaIntegerUnsigned | pdf_a_excel.py:356-360 | digits and commas that neither decimal shape reads are the integer of their digits, nothing for commas alone |
| Numbers.IntegerUnsigned | pdf_a_excel.py:362-366 | plain digits are an integer |
| Numbers.ShapeChars | pdf_a_excel.py:344-362 | every accepted shape is made of digits, commas and points only |
| Numbers.BlankRejected | pdf_a_excel.py:337-339 | blank input is not a number |
| Numbers.InnerSpaceIgnored | pdf_a_excel.py:341 | a space inside a value is ignored |
| Numbers.ForeignCharRejected | pdf_a_excel.py:367 | a letter or any character besides space, digits, `,`, `.`, `-` makes a value not a number |
| Numbers.ForeignInRead | pdf_a_excel.py:344-367 | a foreign character in the normalised text makes every shape fail |
| Numbers.InnerMinusRejected | pdf_a_excel.py:344-362 | a minus sign anywhere but in front makes every shape fail |
| Numbers.SeparatorOut | pdf_a_excel.py:346 | removing the grouping separator between two digit runs joins them |
| Numbers.TwoPointsRejected | pdf_a_excel.py:362-367 | digits with two points and no comma (`"1.2.3"`) are not a number |
| Numbers.DecimalCommaWins | pdf_a_excel.py:350-360 | one comma between digit runs is a decimal comma, because the European shape comes first |
| Numbers.AmericanReads | pdf_a_excel.py:344-348 | `a,b.f` reads as `ab.f` |
| Numbers.EuropeanReads | pdf_a_excel.py:350-354 | `a.b,f` reads as `ab.f` |
| Numbers.NegativeIntegerReads | pdf_a_excel.py:362-366 | a minus sign before digits negates them |
| Numbers.TwoCommasInteger | pdf_a_excel.py:356-360 | `a,b,c` is the integer `abc` |
| Numbers.TrailingCommaInteger | pdf_a_excel.py:350-360 | a single trailing comma defeats the European shape, so `"140,"` is the integer 140 |
| Numbers.LeadingCommaInteger | pdf_a_excel.py:356-360 | `,f` is the integer `f` |
| Numbers.OnlyCommasRejected | pdf_a_excel.py:356-360 | `",,"` is not a number |
| Numbers.ThousandsCommaIsDecimal | pdf_a_excel.py:350-356 | `"140,000"` reads as 140.000, the number 140 |
| Numbers.AmericanExample | pdf_a_excel.py:344-348 | `"1,234.56"` is 1234.56 |
| Numbers.EuropeanExample | pdf_a_excel.py:350-354 | `"1.234,56"` is 1234.56 |
| Numbers.NegativeExample | pdf_a_excel.py:362-366 | `"-5"` is -5 |
| Numbers.CommaIntegerExample | pdf_a_excel.py:356-360 | `"1,234,567"` is 1234567 |
| Numbers.LeadingCommaExample | pdf_a_excel.py:356-360 | `",5"` is 5 |
| Numbers.TwoPointsExample | pdf_a_excel.py:362-367 | `"1.2.3"` is not a number |
| Numbers.Group | pdf_a_excel.py:452 | the `,` grouping of a non-empty digit string is non-empty |
| Numbers.GroupRemove | pdf_a_excel.py:452 | removing the grouping commas gives the digits back |
| Numbers.CentsSign | pdf_a_excel.py:452 | rounding to hundredths keeps the sign |
| Numbers.DisplayRoundTrip | pdf_a_excel.py:452 | `f"{v:,.2f}"` reads back through the number detector as `v` rounded to hundredths |
| Numbers.CentsDisplayReads | pdf_a_excel.py:452 | a count of hundredths displayed with an agreeing sign reads back as itself |
| Promotion.AutoConvertTypes | pdf_a_excel.py:370-402 | the loop over a copy raises the `dtype` error exactly when two columns share a name, and otherwise leaves as many columns, each the promotion of the input's column |
| Promotion.RepeatedIff | pdf_a_excel.py:373-374 | a table's names are distinct exactly when no column's name is shared, so `df[col]` always selects one column |
| Promotion.Sample | pdf_a_excel.py:378-379 | the sample keeps only present, non-blank values |
| Promotion.SampleEmpty | pdf_a_excel.py:378-381 | the sample is empty exactly when every value is missing or blank |
| Promotion.MajorityIsRatio | pdf_a_excel.py:385-386 | on a non-empty sample `5k >= 3n` is exactly `k/n >= 0.6`, and `k >= 1` changes nothing |
| Promotion.PromotionDecision | pdf_a_excel.py:383-400 | a text column becomes dates iff the date count meets the threshold, numbers iff it does not and the number count does, and stays otherwise |
| Promotion.NotBoth | pdf_a_excel.py:312-367 | no value is both a date and a number: the gate demands a `/` or `-` after the first digits, which no number shape allows |
| Promotion.ShapeNotNumber | pdf_a_excel.py:312-367 | a string the date gate admits holds no space and does not read as a number |
| Promotion.CountsDisjoint | pdf_a_excel.py:384-395 | the date count and the number count of a sample add up to at most its size |
| Promotion.NoDoubleMajority | pdf_a_excel.py:384-396 | no sample reaches both the date and the number threshold |
| Promotion.OrderIrrelevant | pdf_a_excel.py:383-400 | trying numbers before dates would promote every column the same way |
| Promotion.PromotionNeedsAParse | pdf_a_excel.py:386-396 | a changed column was text and at least one of its values parsed |
| Promotion.NonTextKept | pdf_a_excel.py:374-381 | non-text columns and all-blank text columns are left as they are |
| Promotion.PromoteKeepsShape | pdf_a_excel.py:387-399 | promotion keeps the name and the number of rows |
| Promotion.PromoteIdempotent | pdf_a_excel.py:374-375 | promoting twice is promoting once |
| Promotion.DateCellMeaning | pdf_a_excel.py:387-390 | a promoted date cell holds a date exactly when the value is present, the detector reads it and the date lies in pandas' nanosecond range, and then it is that date |
| Promotion.OutOfRangeDropped | pdf_a_excel.py:384-390 | a date the detector reads outside the nanosecond range (`01/01/1500`) counts for the threshold but becomes missing in the column |
| Promotion.NumberCellMeaning | pdf_a_excel.py:397-399 | a promoted number cell is what the detector reads, missing for missing values |
| Promotion.PromotedCells | pdf_a_excel.py:387-399 | in a promoted column exactly the unreadable and missing values, and the dates outside the nanosecond range, become missing |
| Promotion.MissingTextsRejected | pdf_a_excel.py:384-398 | `"None"` and `"nan"`, what `astype(str)` makes of missing values, are neither dates nor numbers |
| Promotion.PromoteAll | pdf_a_excel.py:466 | the converted table has as many columns |
| Promotion.ConvertedTable | pdf_a_excel.py:372-402 | a table converts exactly when its names are distinct; names and row counts are kept, and converting again changes nothing |
| Sheet.Worksheet.ApplyFormats | pdf_a_excel.py:408-458 | every header cell is bold and centred, every data cell is converted and styled, and every column width is the capped running maximum of the original sheet |
| Sheet.Worksheet.FormatHeaderRow | pdf_a_excel.py:412-414 | row 1 becomes bold and centred, nothing else changes |
| Sheet.Worksheet.FormatColumn | pdf_a_excel.py:417-458 | one column's data cells are converted and styled, its header is untouched, other columns are untouched, and its width is set |
| Sheet.Worksheet.FormatAt | pdf_a_excel.py:420-454 | one cell is converted and styled where it is, nothing else changes |
| Sheet.Worksheet.constructor | pdf_a_excel.py:408 | a worksheet holding a rectangular grid of at least one row and column, with no widths set |
| Sheet.Worksheet.Grid | pdf_a_excel.py:408 | the grid lists the cells row by row |
| Sheet.FormatCell | pdf_a_excel.py:420-454 | the row-loop body gives the formatted data cell |
| Sheet.ConvertValue | pdf_a_excel.py:425-439 | a non-blank text is tried as a date, then as a number |
| Sheet.Style | pdf_a_excel.py:441-451 | the format and alignment follow the final type |
| Sheet.FormatGrid | pdf_a_excel.py:408-454 | formatting keeps the sheet's shape |
| Sheet.DataColumn | pdf_a_excel.py:419-440 | a column's final data cells, one per data row |
| Sheet.RunningMax | pdf_a_excel.py:418-454 | the running maximum never falls below its start |
| Sheet.RunningMaxUpper | pdf_a_excel.py:445-454 | every cell's contribution is at most the running maximum |
| Sheet.RunningMaxAttained | pdf_a_excel.py:418-454 | the running maximum is the header's length or some cell's contribution |
| Sheet.WidestIsMax | pdf_a_excel.py:418-454 | `max_ancho` is the largest of the header length and the data contributions |
| Sheet.WidthOfDone | pdf_a_excel.py:456-457 | the width is `min(max_ancho + 3, 55)` of the cells the loop produced |
| Sheet.WidthBounds | pdf_a_excel.py:457 | every width is between 3 and 55, and at least the header length plus 3 below the cap |
| Sheet.DateColumnWidth | pdf_a_excel.py:442-445 | a column holding a date is at least 15 wide |
| Sheet.TextColumnWidth | pdf_a_excel.py:453-457 | a column of texts with a short header is at most 53 wide |
| Sheet.ReadsStripped | pdf_a_excel.py:427-436 | reading the stripped text is reading the text |
| Sheet.BlankReadsNothing | pdf_a_excel.py:427-428 | a blank text is neither a date nor a number |
| Sheet.ConvertedText | pdf_a_excel.py:426-439 | a text converts to its date, else its number, else stays |
| Sheet.TextConverted | pdf_a_excel.py:426-439 | a text becomes a date exactly when it reads as one, a number exactly when it reads as a number and not a date, text otherwise |
| Sheet.DataCellFormat | pdf_a_excel.py:441-451 | a data cell gets the date format and centring exactly for dates, two decimals exactly for non-integral floats, right alignment exactly for numbers |
| Sheet.FormatDataIdempotent | pdf_a_excel.py:420-454 | formatting a data cell twice changes nothing more |
| Sheet.ConvertedIdempotent | pdf_a_excel.py:425-439 | a converted value converts to itself |
| Sheet.StyledTwice | pdf_a_excel.py:441-451 | styling twice with the same value changes nothing more |
| Sheet.FormattedIdempotent | pdf_a_excel.py:412-454 | formatting any cell twice changes nothing more |
| Sheet.NumberWidthReadsBack | pdf_a_excel.py:452 | a number's width is the length of a text that reads back as the number rounded to hundredths |
| Sheet.ReformatNoop | pdf_a_excel.py:408-458 | formatting a formatted sheet again changes no cell and sets the same widths |
| Sheet.SameColumn | pdf_a_excel.py:418-454 | a formatted sheet has the same data columns and header lengths as the original |
| Sheet.SameDataColumn | pdf_a_excel.py:419-454 | a formatted sheet has the same final data cells in each column as the original |
| Sheet.TrimZeros | pdf_a_excel.py:418 | the fraction without trailing zeros is a prefix of the digits, followed in them only by zeros, and ends in a non-zero digit |
| Sheet.FloatTextScale | pdf_a_excel.py:418 | `str()` of a float depends on its value only: one more trailing fractional zero prints the same |
| Sheet.HeaderLengthScale | pdf_a_excel.py:418 | so a numeric header's length does not depend on how many trailing zeros its number was read with |
| Sheet.FloatTextExample | pdf_a_excel.py:418 | `1.50` and `1.5` both print as `1.5` |
| Sheet.IntegralFloatText | pdf_a_excel.py:418 | an integral float prints with one fractional zero, `-3.0` |
| TextRows.ExtractText | pdf_a_excel.py:276-306 | a failing page selector raises; otherwise the frame is built from the rows of exactly the selected pages, in order |
| TextRows.BuildRows | pdf_a_excel.py:284-293 | the loop appends the rows of each selected page in turn |
| TextRows.PageRowsOf | pdf_a_excel.py:286-293 | one page gives one page row, or its line rows |
| TextRows.NumberLines | pdf_a_excel.py:290-293 | the line loop gives the line rows of the page |
| TextRows.LineRows | pdf_a_excel.py:290-293 | a page has at most one row per line |
| TextRows.LineRowsNumbered | pdf_a_excel.py:290-293 | every line row is on its page, numbered by its 1-based line position, holds that line, and is not blank under `--sin-vacias` |
| TextRows.LineRowsAscending | pdf_a_excel.py:290 | line numbers strictly increase within a page |
| TextRows.LineRowsComplete | pdf_a_excel.py:290-293 | every line that is kept has its row |
| TextRows.AllLinesKept | pdf_a_excel.py:290-293 | without skipping, row `n` is line `n + 1` |
| TextRows.SkipDoesNotRenumber | pdf_a_excel.py:291-292 | skipping blank lines only drops their rows; the others keep their numbers |
| TextRows.PageModeRows | pdf_a_excel.py:287-288 | page mode gives one row per selected page, numbered `idx + 1` |
| TextRows.RowsEmptyIff | pdf_a_excel.py:285-296 | unless blank lines are skipped, there are rows exactly when a page is selected |
| TextRows.FrameShape | pdf_a_excel.py:295-304 | the frame is empty exactly when there are no rows, and every column has one value per row |
| TextRows.FrameConverts | pdf_a_excel.py:288-304 | the frame's column names are distinct, so promoting it never raises |
| TextRows.LeadDistinct | pdf_a_excel.py:288-304 | `Pagina` (and `Linea`) followed by `Texto` or `Col_1`, `Col_2`, ... are distinct names |
| TextRows.ColNamesDistinct | pdf_a_excel.py:303 | different split columns get different names, each starting with `Col_` |
| TextRows.TextColumn | pdf_a_excel.py:298 | without a separator the columns are `Pagina`, `Linea` in line mode, and `Texto` with every text |
| TextRows.SplitShape | pdf_a_excel.py:302-303 | splitting gives at least one column, each with one value per row |
| TextRows.SplitRoundTrip | pdf_a_excel.py:300-304 | split column `Col_m+1` holds the `m`-th piece or a missing value, the pieces join back to the text, and there are as many columns as the most pieces |
| TextRows.MostPieces | pdf_a_excel.py:302-303 | no row has more pieces than there are split columns |
| TextRows.MostAttained | pdf_a_excel.py:302-303 | some row has as many pieces as there are split columns |
| TextRows.Pieces | pdf_a_excel.py:302 | one piece list per row |
| TextRows.TabSeparator | pdf_a_excel.py:301 | `\t` written as two characters becomes a tab |
| TextRows.NoBackslashKept | pdf_a_excel.py:301 | a separator without a backslash is used as given |
| TextRows.SeparatorNonEmpty | pdf_a_excel.py:300-301 | a given separator stays non-empty |
| TextRows.ReplaceKeepsNonEmpty | pdf_a_excel.py:301 | replacing a pattern by a non-empty text keeps a text non-empty |
| Pipeline.TabulaTables | pdf_a_excel.py:222-232 | tabula's result keeps only non-empty tables, and none when it raised |
| Pipeline.NonEmpty | pdf_a_excel.py:225 | the filter keeps only non-empty tables |
| Pipeline.SheetName | pdf_a_excel.py:471 | a sheet name is at most 31 characters |
| Pipeline.SheetNamesDistinct | pdf_a_excel.py:470-471 | sheet names start with `Tabla_` and differ for different positions |
| Pipeline.SheetsOfTables | pdf_a_excel.py:464-474 | saving raises the `dtype` error exactly when some table repeats a column name; otherwise one promoted table per sheet `Tabla_1…` in order, or all promoted tables in the one `Datos` sheet |
| Pipeline.PlumberOnlyAfterTabula | pdf_a_excel.py:498-506 | pdfplumber is tried exactly when tables are wanted and tabula found none |
| Pipeline.TextOnlyAsLastResort | pdf_a_excel.py:497-523 | `tablas` never extracts text, `texto` extracts only text, `auto` extracts text exactly when both table backends found none |
| Pipeline.TriedInOrder | pdf_a_excel.py:497-523 | the backends are tried in their fixed order, each at most once |
| Pipeline.TablesFromFirstBackend | pdf_a_excel.py:500-512 | tables are saved exactly when a table backend found some and none repeats a column name, and they are those of the first that did |
| Pipeline.NothingSaved | pdf_a_excel.py:497-528 | when the run stops with "no tables", "no text" or an exception, the last from text extraction or from a repeated column name |
| Pipeline.TextSheet | pdf_a_excel.py:523-528 | a text workbook is the `Texto` sheet holding the non-empty promoted frame, whose names are distinct |

## Left out

- Reading the PDF (tabula, pdfplumber's `extract_text` and `extract_tables`) is not modelled: tabula's result, pdfplumber's tables and the page texts are inputs. pdfplumber's own table building and `dropna` are inside that input.
- Writing the workbook (pandas `to_excel`, `ExcelWriter`, fonts, files) is not modelled; the formatter works on a grid of cells, and how pandas writes a table into that grid is not part of this model.
- `pd.concat` of several tables into the `Datos` sheet is modelled as the list of tables in order; how pandas aligns their columns is not modelled.
- Argument parsing, the dependency checks at import time, the batch loop over a folder and the console messages are not modelled; they are command-line plumbing.
- tabula's own reading of the `--paginas` selector is not modelled; only the resolver the tool uses for pdfplumber is.
- Strings.ParseInt: Python's `int()` also accepts underscores between digits and non-ASCII digits; the model accepts only an optional sign and ASCII digits.
- Dates.Pivot: the two-digit year rule is the library's (00-68 to 2000-2068), stated rather than derived.
- Dates.Strptime: only strings the gate admits reach `strptime`, so only those are modelled; `%d` with a leading space is never reachable.
- Numbers.ParseNumber: values are exact decimals, not binary floats; a very long digit string that a float would round is read exactly, and `"-0"` is zero without the negative zero of a float. A value beyond the float range (about 1.8·10^308, so from 309 digits on) is `inf` in Python, and `val != int(val)` at `pdf_a_excel.py:447` then raises `OverflowError`, which ends the run; the model formats it as an ordinary number. The regexes' `\d` and `float()` also accept non-ASCII decimal digits (`"١٢٣"` is 123.0); the model reads only ASCII digits and rejects those values.
- Numbers.ForeignCharRejected: a non-ASCII decimal digit counts as a foreign character here, so the lemma says such a value is not a number, while Python reads it as one.
- Dates.DateShape: the gate's `\d` (`pdf_a_excel.py:313`) matches any Unicode decimal digit; the model's gate admits only ASCII digits.
- Dates.ParseDate: `%d`, `%m`, `%Y` and `%y` also accept non-ASCII decimal digits, so Python reads `"1/2/٢٠٢٤"` as a date; the model reads only ASCII digits and returns nothing for it.
- Dates.GateIff: stated for ASCII digit fields; fields of other Unicode decimal digits, which the source's gate admits, are not covered.
- Promotion.AutoConvertTypes: column names are texts; pandas labels that are `None` (a blank header cell of pdfplumber), `NaN` or numbers are not distinguished from texts, and how pandas matches such labels is not modelled.
- Numbers.Display2: `f"{v:,.2f}"` rounds the exact decimal half to even, while Python rounds the nearest binary float; the two can differ on a tie.
- Sheet.HeaderLength: `str()` of a numeric header is modelled as plain positional digits without trailing fractional zeros; Python's exponent form for very large or small floats (from `1e16` on, and below `1e-4`) is not, and neither is the shortest round-trip digit string of a binary float that is not exactly the decimal read.
- Promotion.DateCell: the coercion of `pd.to_datetime(..., errors="coerce")` at `pdf_a_excel.py:390` is modelled with pandas 2's nanosecond `datetime64`, which turns dates before 1677-09-22 or after 2262-04-11 into `NaT`; pandas 3 infers a microsecond resolution for `datetime` objects and would keep every year 1..9999.
- Promotion.Majority: the ratio `k/n >= 0.6` is the integer test `5k >= 3n`; `Promotion.MajorityIsRatio` proves them equal on exact numbers, not on binary floats.
- Promotion.Promote: `astype(str)` turns a missing value into the text `"None"` before the detectors see it; the model keeps it missing, which `Promotion.MissingTextsRejected` justifies.
- TextRows.SeparatorOf: pandas treats a separator longer than one character as a regular expression; the model splits on it literally.
- Boolean cells are not modelled.
