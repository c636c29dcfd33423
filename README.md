# Deadline monitor: the `calcular_tempo` engine in Dafny

This project models the time engine of a small spreadsheet-backed deadline
monitor. The function `calcular_tempo` loads a sheet of jobs (`Item`,
`Operador`, `Termino`). It then fills in two derived columns per row:
`Tempo restante` (time left) and `Tempo excedente` (time over).

The model covers five parts of that function:

- **The duration formatter `formatar_tempo`** (`Duration`, over `Numerals`). It truncates a span to whole
  seconds and writes it as `HH:MM:SS`. Every field is zero-padded to two
  digits, and the hour field grows without bound.
- **The deadline parser** (`DeadlineParser`, over `Calendar`). It reads a `Termino` text with
  `%d/%m/%Y %H:%M:%S` first. When that fails it reads `%H:%M:%S` and places
  the time on the current date. Each directive accepts what Python's
  `_strptime` pattern for it accepts. One space in the format matches any run
  of whitespace. The whole text must be consumed, and the date must exist.
  This includes leap days. `DeadlineSpelling` describes, apart from the
  parser, every spelling each format accepts and the value it denotes, and
  proves that the parser accepts exactly those texts.
- **The row classifier** (`RowStatus`). A deadline strictly after now is
  within time: `Tempo restante` gets the formatted difference and
  `Tempo excedente` gets `Dentro do tempo`. Otherwise, and that includes a tie, the row has expired:
  `Tempo restante` gets `Expirado` and `Tempo excedente` gets the formatted
  difference.
- **The table annotator** (`TableAnnotator`). A missing store becomes an
  empty frame with the five fixed columns. Each missing derived column is
  appended, filled with `''`. Then the rows are visited in order: each row's
  two derived cells are rewritten, or the row is reported as
  (`index + 2`, text) and skipped. The frame is a class
  `TableAnnotator.Frame` whose methods update it in place.
- **The highlight range** `D2:D{n+1}`.

Instants are wall-clock times in one civil zone. A parsed deadline is a
whole number of seconds and the current instant is in microseconds, so
`int(total_seconds())` truncation is explicit. `Scenarios` works through
a few concrete rows.

## Model

| member | source | states |
|---|---|---|
| `Numerals.Decimal` | main.py:17 | `str(n)`: a canonical numeral, no leading zero, one digit exactly below 10 |
| `Numerals.ValueOfDecimal` | main.py:17 | reading back the numeral `str(n)` writes gives `n` |
| `Numerals.DecimalOfValue` | main.py:17 | every canonical numeral is `str` of its own value |
| `Numerals.Pad2` | main.py:17 | `f"{n:02d}"` is all digits, at least two of them, and exactly two below 100 |
| `Numerals.Pad2Value` | main.py:17 | `f"{n:02d}"` has at least two digits, no extra leading zero, and reads back as `n` |
| `Numerals.Pad2OfValue` | main.py:17 | every such padded numeral is the rendering of its own value |
| `Numerals.Pad2Small` | main.py:17 | below 100, `f"{n:02d}"` is exactly the tens digit then the units digit |
| `Duration.FormatSeconds` | main.py:15-17 | the formatter's text always has the clock shape: padded hours, colon, minutes and seconds with first digit at most 5 |
| `Duration.FormatSpan` | main.py:13-14 | a span in microseconds renders as a clock text |
| `Duration.FormatFields` | main.py:15-17 | the hour field holds `s / 3600`, the minute field `s % 3600 / 60` (below 60), the second field `s % 60`; minutes and seconds have two digits; hours have exactly two iff `s < 360000` |
| `Duration.ClockParts` | main.py:15-16 | the two `divmod`s lose nothing: hours, minutes and seconds recombine to the total |
| `Duration.ClockArithmetic` | main.py:15-16 | `divmod` gives back the hours, minutes and seconds a total was built from |
| `Duration.FormatOfFields` | main.py:15-17 | a total made of hours, minutes below 60 and seconds below 60 is written as those three, padded and joined by colons |
| `Duration.ParseFormat` | main.py:13-17 | reading the formatter's text back gives the whole-second count |
| `Duration.FormatParse` | main.py:13-17 | every clock-shaped text is the formatter's output for what it reads as |
| `Duration.FormatSecondsInjective` | main.py:13-17 | two whole-second counts print alike iff they are equal |
| `Duration.FormatSpanTruncates` | main.py:14 | two spans print alike iff they agree in whole seconds: sub-second precision is dropped |
| `Calendar.DaysInMonth` | main.py:35 | month lengths lie between 28 and 31 |
| `Calendar.YearStep` | main.py:48 | the closed-form day count before a year grows by that year's length (366 in leap years) |
| `Calendar.DaysBeforeYearMonotone` | main.py:48 | each later year starts at least 365 days per year later |
| `Calendar.DaysBeforeMonthMonotone` | main.py:48 | each later month starts after the earlier month has ended |
| `Calendar.MonthsWithinYear` | main.py:48 | every month ends no later than its year |
| `Calendar.DayNumber` | main.py:48 | a date's day number lies within its year's span of day numbers |
| `Calendar.SecondsOf` | main.py:48 | an instant's second count lies within its day's span of seconds |
| `Calendar.DayNumberBounds` | main.py:48 | a date's day number lies within its month's and its year's span of day numbers |
| `Calendar.DayNumberBefore` | main.py:48 | an earlier date has a smaller day number |
| `Calendar.DayNumberOrder` | main.py:48 | day numbers order dates exactly as `datetime` compares them, and are equal only for equal dates |
| `Calendar.SecondsOrder` | main.py:48 | instants in seconds compare exactly as same-zone `datetime`s do, field by field, both directions |
| `DeadlineParser.NumericField` | main.py:35 | a one- or two-digit directive yields a value at least its lower bound, and within its upper bound when it has two digits |
| `DeadlineParser.DayField` | main.py:35 | `%d` yields a day in 1..31 |
| `DeadlineParser.MonthField` | main.py:35 | `%m` yields a month in 1..12 |
| `DeadlineParser.HourField` | main.py:35 | `%H` yields an hour in 0..23 |
| `DeadlineParser.MinuteField` | main.py:35 | `%M` yields a minute in 0..59 |
| `DeadlineParser.SecondField` | main.py:35 | `%S` yields at most 61, as the pattern admits leap seconds |
| `DeadlineParser.SplitAt` | main.py:35 | a split at the first separator puts the text back together with no separator in front; no split means no separator |
| `DeadlineParser.SkipSpaces` | main.py:35 | whitespace matching drops exactly the leading run of whitespace |
| `DeadlineParser.ParseFull` | main.py:35 | a text the full format accepts gives a date and time `datetime` accepts (exactly which texts: `DeadlineSpelling.FullSpelled`) |
| `DeadlineParser.ParseFullFields` | main.py:35 | the day, month and year/time parts give a valid date and time, or nothing |
| `DeadlineParser.ParseTimeOnly` | main.py:38 | `%H:%M:%S` gives a time with hour below 24 and minute and second below 60; second 60 and 61 are refused (exactly which texts: `DeadlineSpelling.TimeOnlySpelled`) |
| `DeadlineParser.ParseDeadline` | main.py:34-43 | the full format wins whenever it parses; otherwise the time of day the second format reads is placed on the current date; there is no deadline exactly when both formats refuse the text; every result is valid |
| `DeadlineParser.SplitAtConcat` | main.py:35 | splitting a text built around a separator recovers its two parts |
| `DeadlineParser.Pad4Value` | main.py:35 | the four-digit year reads back as the year |
| `DeadlineParser.NoSlashMeansToday` | main.py:34-43 | a text with no slash is a deadline iff the time-of-day format accepts it, and then it lies on the current date |
| `RowStatus.DeadlineMicrosOrder` | main.py:45-48 | deadlines in microseconds compare exactly as the wall-clock date-times do, are equal only for equal date-times, and fall on whole seconds |
| `RowStatus.Classify` | main.py:48-55 | within time iff the deadline is strictly after now; the span is the positive difference in either branch, so it is never negative |
| `RowStatus.DerivedCells` | main.py:50-55 | a pending status writes a clock text and `Dentro do tempo`; an expired one writes `Expirado` and a clock text |
| `RowStatus.SentinelsAreNotClocks` | main.py:51-54 | neither sentinel, nor the blank cell, has the shape of a formatted duration |
| `RowStatus.ExactlyOnePattern` | main.py:48-55 | the written cells are in the within-time pattern iff the row is pending, and in the expired pattern iff it has expired |
| `RowStatus.ReadDerivedCells` | main.py:48-55 | the written cells read back as the status with its span truncated to whole seconds |
| `RowStatus.ReadCellsSound` | main.py:48-55 | any pair of cells that reads back as a status is exactly what is written for that status |
| `RowStatus.TieIsExpired` | main.py:48-55 | a deadline equal to now is expired by zero: the cells are `Expirado` and `00:00:00` |
| `TableAnnotator.AddColumn` | main.py:27 | `df[name] = ''` appends the column last and sets it to `''` in every row, changing nothing else |
| `TableAnnotator.EnsureColumn` | main.py:26-29 | a missing column is appended with `''` in every row; an existing one changes nothing |
| `TableAnnotator.WithDerivedColumns` | main.py:26-29 | after repair both derived columns exist; the old columns come first, then the missing ones in source order; rows and their old cells are kept; added cells are `''` |
| `TableAnnotator.RepairIdempotent` | main.py:26-29 | schema repair changes nothing on its own output |
| `TableAnnotator.CreatedStoreSchema` | main.py:22 | the created store has the five fixed columns and repair leaves it as it is |
| `TableAnnotator.HighlightColumnIsRestante` | main.py:67 | column D holds `Tempo restante` when the sheet starts `Item, Operador, Termino` and has no other column before the derived ones |
| `TableAnnotator.TerminoText` | main.py:32-33 | a row has a `Termino` text exactly when the column is present and the cell is not NaN, and the text is that cell's |
| `TableAnnotator.RowDeadline` | main.py:32-40 | the row's `Termino` text read as a deadline: there is one only when the row has a text; it is a valid date and time, either what the full format reads from the text or a time on the current date |
| `TableAnnotator.DecideRow` | main.py:32-58 | a blank `Termino` blanks both cells; the row is reported exactly when it has a text that is no deadline, and the report carries that text; a deadline writes the within-time pattern iff it is strictly after now, and the expired pattern iff it is not |
| `TableAnnotator.ApplyAction` | main.py:43-58 | a reported row is unchanged; a write sets exactly the two derived cells, adding them if absent; every other cell is kept |
| `TableAnnotator.AnnotateRow` | main.py:32-58 | one pass of the loop body keeps the row's `Termino` text |
| `TableAnnotator.AnnotateRowCases` | main.py:31-58 | one pass changes only the two derived cells; an absent `Termino` blanks both; a refused row is unchanged; a parsed row lands in exactly the pattern its comparison calls for and reads back as its status |
| `TableAnnotator.DecideAfterAnnotate` | main.py:31-58 | annotating a row keeps its `Termino`, so the row is decided the same way again |
| `TableAnnotator.AnnotateIdempotent` | main.py:31-58 | a second pass with the same clock readings changes no cell and reports the same rows |
| `TableAnnotator.AnnotatedTable` | main.py:31-58 | after the loop, every parsed row holds exactly one sentinel pattern, and every refused row is as it was |
| `TableAnnotator.PartlyAnnotated` | main.py:31-58 | partway through the loop, the rows not yet reached are as they were and the row count is kept |
| `TableAnnotator.PartlyAnnotatedStep` | main.py:31-58 | one pass of the loop body annotates the next row and touches no other |
| `TableAnnotator.PartlyAnnotatedDone` | main.py:31-58 | once every row is reached, the rows are the annotated rows |
| `TableAnnotator.RowActions` | main.py:31 | one decision per row |
| `TableAnnotator.AnnotatedRows` | main.py:31 | the loop keeps the row count |
| `TableAnnotator.Reports` | main.py:42-43 | at most one report per row, each on a data line of the sheet, lines strictly increasing |
| `TableAnnotator.ReportsStep` | main.py:42-43 | one more row appends its report, if it has one, after the earlier ones |
| `TableAnnotator.ReportsSound` | main.py:42-43 | every report names a refused row, on line `index + 2`, with its text |
| `TableAnnotator.ReportsComplete` | main.py:42-43 | every refused row is reported, on line `index + 2`, with its text |
| `TableAnnotator.ReportNamesRow` | main.py:41-43 | the report at any position names line `index + 2` of a row whose `Termino` text is no deadline, and carries that text |
| `TableAnnotator.ReportsNameRefusedRows` | main.py:41-43 | every report names such a row, with its text |
| `TableAnnotator.RefusedRowsReported` | main.py:41-43 | every row whose `Termino` text is no deadline has its report, on line `index + 2`, with that text |
| `TableAnnotator.RejectedRows` | main.py:32-43 | the loop's decision for a row is a report exactly when the row has a `Termino` text that is no deadline, and the report carries that text |
| `TableAnnotator.ParseErrors` | main.py:42 | each error names line `index + 2` of a row whose `Termino` text is no deadline, with that text; every such row has its error; errors come in row order |
| `TableAnnotator.HighlightRef` | main.py:67 | the range is `D2:D` followed by `n + 1` in decimal, which is the sheet line of the last data row |
| `TableAnnotator.Frame.Read` | main.py:20 | the frame read from a stored sheet is that sheet |
| `TableAnnotator.Frame.Empty` | main.py:22 | a new frame has the given columns and no rows |
| `TableAnnotator.Frame.AddBlankColumn` | main.py:27 | `df[name] = ''` updates the frame in place as `AddColumn` says |
| `TableAnnotator.Frame.SetCell` | main.py:50 | `df.at[i, col] = text` changes that one cell |
| `TableAnnotator.Frame.WriteDerived` | main.py:50-58 | the two `df.at` writes of a row change only its two derived cells |
| `TableAnnotator.Frame.EnsureDerivedColumns` | main.py:26-29 | the frame is repaired in place as `WithDerivedColumns` says |
| `TableAnnotator.Frame.AnnotateRows` | main.py:31-58 | the in-order loop leaves the columns alone, turns each row into its annotated row, and returns the reports of the refused rows in order |
| `TableAnnotator.CalcularTempo` | main.py:10-70 | creates the store when it is missing, repairs, annotates and reports; it returns the highlight range and the sheets written, in order |
| `DeadlineSpelling.SpelledFieldDigits` | main.py:35 | a spelled one- or two-digit field holds only digits, so neither separator |
| `DeadlineSpelling.NumericFieldSpelled` | main.py:35 | a one- or two-digit directive reads `v` iff the text is `v` in one digit or two (zero-padded) and `v` is within the directive's bounds |
| `DeadlineSpelling.DayFieldSpelled` | main.py:35 | `%d` reads `d` iff `d` is in 1..31 and the text is `d` in one or two digits, or a space then a single non-zero digit |
| `DeadlineSpelling.ValueOfAppendTwo` | main.py:35 | two more digits after a numeral multiply its value by 100 and add theirs |
| `DeadlineSpelling.Pad4OfValue` | main.py:35 | every four-digit text is the four-digit rendering of its value |
| `DeadlineSpelling.YearFieldSpelled` | main.py:35 | `%Y` reads `y` iff the text is `y` written with exactly four digits |
| `DeadlineSpelling.SkipSpacesRun` | main.py:35 | a whitespace run before a non-space is skipped, and only it |
| `DeadlineSpelling.SkipSpacesDrops` | main.py:35 | skipping drops at least a leading whitespace character |
| `DeadlineSpelling.GapBefore` | main.py:35 | a text that starts with whitespace is a non-empty whitespace run followed by what skipping leaves |
| `DeadlineSpelling.RestSplits` | main.py:35 | after the second slash, four characters, a whitespace run and a text starting with a non-space are found where the format looks for year, gap and time |
| `DeadlineSpelling.TimeSpellingParses` | main.py:35 | every spelling of an hour, minute and second within the patterns' bounds is read as them |
| `DeadlineSpelling.TimeFieldsSpelled` | main.py:38 | `%H:%M:%S` reads (h, m, s) iff the text spells them and h <= 23, m <= 59, s <= 61 |
| `DeadlineSpelling.TimeOnlySpelled` | main.py:38 | the time-of-day format succeeds with (h, m, s) iff the text spells them and they make a time of day; seconds 60 and 61 are refused |
| `DeadlineSpelling.TimeOfDayHasNoSlash` | main.py:38 | a text the time-of-day format accepts has no slash |
| `DeadlineSpelling.ClockSpellingOf` | main.py:38 | a text the time fields are read from is a spelling of what they read |
| `DeadlineSpelling.FullSplit` | main.py:35 | the full format on a text with two slashes reads day, month and the rest between and after them |
| `DeadlineSpelling.FullFieldsOf` | main.py:35 | fields that each read back make the valid date and time they spell |
| `DeadlineSpelling.FullFieldsRead` | main.py:35 | an accepted text's fields each read as the corresponding part of the result |
| `DeadlineSpelling.RestParses` | main.py:35 | a spelled year, whitespace run and time of day after the second slash each read back |
| `DeadlineSpelling.RestIsSpelled` | main.py:35 | what follows the second slash in an accepted text is the year, a whitespace run and a spelled time of day |
| `DeadlineSpelling.DateSpellingParses` | main.py:35 | every spelling of a valid date and time is read as that date and time |
| `DeadlineSpelling.FieldsAreSpelled` | main.py:35 | fields the full format reads spell the date and time it returns |
| `DeadlineSpelling.ParsedDateIsSpelled` | main.py:35 | whatever the full format accepts spells the date and time it returns |
| `DeadlineSpelling.FullSpelled` | main.py:35 | the full format returns `t` iff the text spells the valid date and time `t`: either digit count for day, month, hour, minute and second, a space before a one-digit day, four year digits, any non-empty whitespace run |
| `DeadlineSpelling.DeadlineSpelled` | main.py:34-43 | a text denotes deadline `t` iff it spells `t` in the full format, or spells a time of day and `t` is that time on the current date |
| `DeadlineSpelling.RefusedSpellsNothing` | main.py:41-43 | a text that is no deadline spells no date and time and no time of day |
| `DeadlineSpelling.FullRoundTrip` | main.py:34-36 | every valid date and time written `%d/%m/%Y %H:%M:%S` parses back to itself, and is the deadline whatever the current date is |
| `DeadlineSpelling.TimeOnlyOnToday` | main.py:37-40 | a written time of day fails the full format and becomes that time on the current date |
| `DeadlineSpelling.SlashMeansFullFormat` | main.py:34-43 | a text with a slash is a deadline exactly when the full format reads it, and then it is that date and time |
| `Scenarios.FourteenThirtyToday` | main.py:38-40 | `14:30:00` is 14:30 on the current date |
| `Scenarios.TimeOfDayAheadOfNow` | main.py:48-51 | a deadline a minute ahead writes `00:01:00` and `Dentro do tempo` |
| `Scenarios.FourYearsLate` | main.py:52-55 | four years after the deadline, the row is expired by `35064:00:00` |
| `Scenarios.FullDateLongExpired` | main.py:35-55 | `01/01/2020 00:00:00` read on 2024-01-01 at midnight writes `Expirado` and `35064:00:00` |
| `Scenarios.NotADateUnparsed` | main.py:34-43 | `not-a-date` is no deadline under either format |
| `Scenarios.NotADateIsReported` | main.py:41-43 | a row with `not-a-date` is refused and left as it was |
| `Scenarios.FourYearsOfMicros` | main.py:48 | the two new-year midnights four years apart are 1461 days of microseconds apart |
| `Scenarios.AprilFields` | main.py:35 | every field of `31/04/2024 10:00:00` matches its directive |
| `Scenarios.AprilFieldsRefused` | main.py:35 | those fields make 31 April, which does not exist, so the full format fails |
| `Scenarios.ThirtyFirstOfAprilUnparsed` | main.py:34-41 | `31/04/2024 10:00:00` is no deadline under either format |
| `Scenarios.ThirtyFirstOfAprilDecided` | main.py:41-43 | its row is reported with its text and left as it was |
| `Scenarios.ThirtyFirstOfAprilReported` | main.py:42 | in a one-row sheet, the only error names line 2 and the text |

## Left out

- `main()` and the rest of the Streamlit interface are not modelled: session state, buttons, refresh timing, upload, download, and the rendering of messages. The warning of main.py:24 is the `created` result of `CalcularTempo`, and the errors of main.py:42 are returned as (line, text) pairs.
- `pd.read_excel` and `to_excel` (main.py:20, 23, 60) are not modelled. The stored sheet is a parameter, and the writes are returned as the sequence of sheets written. pandas' conversion of cells is outside the model. A `Termino` cell holds the text `str()` gives for it; Excel date and time cells would arrive as `Timestamp` or `time` objects whose text is not modelled.
- The data frame's index is taken to be the default `0..n-1`, as `read_excel` produces. So `index + 2` is the row's position plus two.
- openpyxl (main.py:63-68) is not modelled: loading, `PatternFill`, `CellIsRule` and saving. Only the range string of main.py:67 is computed. The rule itself is a numeric `lessThan 0` test on a column of text. Nothing here claims it highlights expired rows.
- `ZoneInfo("America/Sao_Paulo")` and daylight-saving behaviour are not modelled. Both instants are wall-clock times in one civil zone. Python compares and subtracts two aware datetimes with the same `tzinfo` on their wall-clock fields, which is what the model does.
- The clocks `datetime.now` and `date.today` are parameters. `clock(i)` is the reading taken when the loop reaches row `i`. The source reads `date.today()` (main.py:39) in the machine's local zone and `now` in São Paulo; the model takes both from the reading and does not relate them.
- `total_seconds()` is floating point. The model truncates an exact microsecond count instead, so rounding error in very long spans is not modelled.
- `Duration.FormatSpan` takes a non-negative span. The negative spans that `formatar_tempo` would mishandle cannot reach it, because the branch at main.py:48 always passes the positive difference.
- Python's `\d` matches every Unicode decimal digit, but the model accepts ASCII digits only.
- `DeadlineParser.YearField` (a four-digit `%Y`) carries no contract of its own. `DeadlineSpelling.YearFieldSpelled` states exactly what it reads, and year 0 is refused by `ValidDate`.
- `DeadlineParser.ParseTimeFields` carries no contract of its own. `DeadlineSpelling.TimeFieldsSpelled` states exactly what it reads.
- `RowStatus.DeadlineMicros` carries no contract of its own. `RowStatus.DeadlineMicrosOrder` states how deadlines compare.
- `DeadlineSpelling.FormatFull` and `DeadlineSpelling.FormatTimeOfDay` render dates and times only for the round-trip lemmas. The source never writes a date.
