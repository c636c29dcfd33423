/**
 * The table annotator `calcular_tempo` (main.py:10-70). The sheet is a
 * pandas frame: named columns and rows of cells. A missing store becomes
 * an empty frame with the five fixed columns; missing derived columns
 * are added filled with ''; then every row, in order, has its two
 * derived cells rewritten from its `Termino` cell, or is reported and
 * skipped when that text is no deadline. The store, the clock and the
 * spreadsheet library are outside the model: the stored sheet and the
 * clock readings come in as parameters.
 */
module TableAnnotator {
  import opened Wrappers
  import opened Numerals
  import opened Calendar
  import opened DeadlineParser
  import opened RowStatus

  const ItemColumn: string := "Item"
  const OperadorColumn: string := "Operador"
  const TerminoColumn: string := "Termino"
  const RestanteColumn: string := "Tempo restante"
  const ExcedenteColumn: string := "Tempo excedente"

  /** The columns of a freshly created store (main.py:22). */
  const DefaultColumns: seq<string> :=
    [ItemColumn, OperadorColumn, TerminoColumn, RestanteColumn, ExcedenteColumn]

  /** A cell as pandas hands it over: missing (NaN), or a value given by its `str()`. */
  datatype Cell = Missing | Value(text: string)

  type Row = map<string, Cell>

  /** The content of the store: column names in order, and rows keyed by column name. */
  datatype Sheet = Sheet(columns: seq<string>, rows: seq<Row>)

  type CivilDate = d: Date | ValidDate(d) witness Date(1, 1, 1)

  /**
   * What the clock says when the loop reaches a row: `date.today()`
   * (main.py:39) and `datetime.now(...)` in microseconds on the civil
   * clock (main.py:45).
   */
  datatype Reading = Reading(today: CivilDate, now: nat)

  /** A row the parser refused, reported with its spreadsheet line (main.py:42). */
  datatype ParseError = ParseError(line: nat, text: string)

  predicate Distinct(cols: seq<string>) {
    forall i, j :: 0 <= i < j < |cols| ==> cols[i] != cols[j]
  }

  function ColumnSet(cols: seq<string>): set<string> {
    set c | c in cols
  }

  /** Column names are distinct and every row has a cell in each column and nowhere else. */
  predicate WellFormed(sh: Sheet) {
    Distinct(sh.columns) &&
    forall i :: 0 <= i < |sh.rows| ==> sh.rows[i].Keys == ColumnSet(sh.columns)
  }

  predicate HasDerivedColumns(sh: Sheet) {
    RestanteColumn in sh.columns && ExcedenteColumn in sh.columns
  }

  /** `df[name] = ''` for a column the frame lacks: appended last, '' in every row. */
  function AddColumn(sh: Sheet, name: string): (r: Sheet)
    requires WellFormed(sh) && name !in sh.columns
    ensures WellFormed(r)
    ensures r.columns == sh.columns + [name] && |r.rows| == |sh.rows|
    ensures forall i :: 0 <= i < |sh.rows| ==> r.rows[i] == sh.rows[i][name := Value("")]
  {
    var rows := seq(|sh.rows|, i requires 0 <= i < |sh.rows| => sh.rows[i][name := Value("")]);
    assert forall i :: 0 <= i < |rows| ==> rows[i].Keys == ColumnSet(sh.columns + [name]);
    Sheet(sh.columns + [name], rows)
  }

  /** `df[name] = ''` when the frame lacks the column `name` (main.py:26-29). */
  function EnsureColumn(sh: Sheet, name: string): (r: Sheet)
    requires WellFormed(sh)
    ensures WellFormed(r)
    ensures r.columns == sh.columns + (if name in sh.columns then [] else [name])
    ensures |r.rows| == |sh.rows|
    ensures forall i, c :: 0 <= i < |sh.rows| && c in sh.rows[i] ==> c in r.rows[i] && r.rows[i][c] == sh.rows[i][c]
    ensures forall i, c :: 0 <= i < |sh.rows| && c in r.rows[i] && c !in sh.rows[i] ==> r.rows[i][c] == Value("")
  {
    if name in sh.columns then sh else AddColumn(sh, name)
  }

  /** The derived columns a frame lacks, in the order the repair appends them. */
  function MissingDerived(cols: seq<string>): seq<string> {
    (if RestanteColumn in cols then [] else [RestanteColumn]) +
    (if ExcedenteColumn in cols then [] else [ExcedenteColumn])
  }

  /**
   * Schema repair (main.py:26-29): each derived column that is missing
   * is appended, in the order `Tempo restante`, `Tempo excedente`, filled
   * with ''; existing columns and their cells are left as they are.
   */
  function WithDerivedColumns(sh: Sheet): (r: Sheet)
    requires WellFormed(sh)
    ensures WellFormed(r) && HasDerivedColumns(r)
    ensures r.columns == sh.columns + MissingDerived(sh.columns)
    ensures |r.rows| == |sh.rows|
    ensures forall i, c :: 0 <= i < |sh.rows| && c in sh.rows[i] ==> c in r.rows[i] && r.rows[i][c] == sh.rows[i][c]
    ensures forall i, c :: 0 <= i < |sh.rows| && c in r.rows[i] && c !in sh.rows[i] ==> r.rows[i][c] == Value("")
  {
    var s1 := EnsureColumn(sh, RestanteColumn);
    assert ExcedenteColumn in s1.columns <==> ExcedenteColumn in sh.columns;
    EnsureColumn(s1, ExcedenteColumn)
  }

  /** `row.get('Termino')` when `pd.notna` holds of it (main.py:32-33). */
  function TerminoText(row: Row): (r: Option<string>)
    ensures r.Some? <==> TerminoColumn in row && row[TerminoColumn] != Missing
    ensures r.Some? ==> row[TerminoColumn] == Value(r.value)
  {
    if TerminoColumn in row && row[TerminoColumn].Value? then Some(row[TerminoColumn].text) else None
  }

  /**
   * The deadline of a row, if its `Termino` cell holds one: a valid date
   * and time read from the cell's text, either the date the full format
   * spells or a time of day on the current date.
   */
  function RowDeadline(row: Row, today: CivilDate): (r: Option<DateTime>)
    ensures r.Some? ==> TerminoText(row).Some? && ValidDateTime(r.value)
    ensures r.Some? ==> ParseFull(TerminoText(row).value) == r || r.value.date == today
  {
    match TerminoText(row)
    case None => None
    case Some(text) => ParseDeadline(text, today)
  }

  /** What the loop does with one row: write the two derived cells, or report the text. */
  datatype RowAction = Write(restante: string, excedente: string) | Reject(text: string)

  /**
   * The decision of the loop body for one row (main.py:32-58): a blank
   * `Termino` blanks both cells; a text that is no deadline is reported;
   * a deadline writes the pattern of its status, within time exactly
   * when it lies strictly after now.
   */
  function DecideRow(row: Row, reading: Reading): (r: RowAction)
    ensures TerminoText(row).None? ==> r == Write("", "")
    ensures r.Reject? <==> TerminoText(row).Some? && RowDeadline(row, reading.today).None?
    ensures r.Reject? ==> TerminoText(row) == Some(r.text)
    ensures RowDeadline(row, reading.today).Some? ==>
      var t := RowDeadline(row, reading.today).value;
      r.Write? &&
      (WithinTimePattern(r.restante, r.excedente) <==> DeadlineMicros(t) > reading.now) &&
      (ExpiredPattern(r.restante, r.excedente) <==> DeadlineMicros(t) <= reading.now)
  {
    match TerminoText(row)
    case None => Write("", "")
    case Some(text) =>
      match ParseDeadline(text, reading.today)
      case None => Reject(text)
      case Some(t) =>
        var st := Classify(DeadlineMicros(t), reading.now);
        ExactlyOnePattern(st);
        var cells := DerivedCells(st);
        Write(cells.0, cells.1)
  }

  /** The `df.at` writes of an action (main.py:50-51, 54-55, 57-58); a refused row is left alone (main.py:43). */
  function ApplyAction(row: Row, action: RowAction): (r: Row)
    ensures action.Reject? ==> r == row
    ensures action.Write? ==> r.Keys == row.Keys + {RestanteColumn, ExcedenteColumn}
    ensures action.Write? ==> r[RestanteColumn] == Value(action.restante) && r[ExcedenteColumn] == Value(action.excedente)
    ensures forall c :: c in row && c != RestanteColumn && c != ExcedenteColumn ==> c in r && r[c] == row[c]
  {
    match action
    case Write(restante, excedente) => row[RestanteColumn := Value(restante)][ExcedenteColumn := Value(excedente)]
    case Reject(_) => row
  }

  /** One pass of the loop body; it never touches the `Termino` cell. */
  function AnnotateRow(row: Row, reading: Reading): (r: Row)
    ensures TerminoText(r) == TerminoText(row)
  {
    ApplyAction(row, DecideRow(row, reading))
  }

  /**
   * What one pass of the loop body does to a row: only the two derived
   * cells change; a refused row keeps them as they were; a blank or
   * absent `Termino` blanks them; a deadline puts them in exactly one of
   * the two sentinel patterns, the one its status calls for, and the
   * status reads back from them to the second.
   */
  lemma AnnotateRowCases(row: Row, reading: Reading)
    ensures var r := AnnotateRow(row, reading);
      (forall c :: c in row && c != RestanteColumn && c != ExcedenteColumn ==> c in r && r[c] == row[c]) &&
      r.Keys <= row.Keys + {RestanteColumn, ExcedenteColumn} &&
      (TerminoText(row).None? ==>
        RestanteColumn in r && ExcedenteColumn in r && r[RestanteColumn] == Value("") && r[ExcedenteColumn] == Value("")) &&
      (TerminoText(row).Some? && RowDeadline(row, reading.today).None? ==> r == row)
    ensures RowDeadline(row, reading.today).Some? ==>
      var r := AnnotateRow(row, reading);
      var t := RowDeadline(row, reading.today).value;
      var st := Classify(DeadlineMicros(t), reading.now);
      RestanteColumn in r && ExcedenteColumn in r &&
      r[RestanteColumn].Value? && r[ExcedenteColumn].Value? &&
      (WithinTimePattern(r[RestanteColumn].text, r[ExcedenteColumn].text) <==> DeadlineMicros(t) > reading.now) &&
      (ExpiredPattern(r[RestanteColumn].text, r[ExcedenteColumn].text) <==> DeadlineMicros(t) <= reading.now) &&
      ReadCells(r[RestanteColumn].text, r[ExcedenteColumn].text) == Some(WholeSeconds(st))
  {
    if RowDeadline(row, reading.today).Some? {
      var st := Classify(DeadlineMicros(RowDeadline(row, reading.today).value), reading.now);
      ExactlyOnePattern(st);
      ReadDerivedCells(st);
    }
  }

  /** The decisions of the loop, row by row, each with the reading taken at that row. */
  function RowActions(rows: seq<Row>, clock: nat -> Reading): (actions: seq<RowAction>)
    ensures |actions| == |rows|
  {
    seq(|rows|, i requires 0 <= i < |rows| => DecideRow(rows[i], clock(i)))
  }

  /** The rows after the loop. */
  function AnnotatedRows(rows: seq<Row>, clock: nat -> Reading): (r: seq<Row>)
    ensures |r| == |rows|
  {
    seq(|rows|, i requires 0 <= i < |rows| => AnnotateRow(rows[i], clock(i)))
  }

  /**
   * After the loop, row by row: a row with a deadline holds exactly one
   * of the two sentinel patterns, and a refused row is left as it was.
   */
  lemma AnnotatedTable(rows: seq<Row>, clock: nat -> Reading)
    ensures forall i :: 0 <= i < |rows| && RowDeadline(rows[i], clock(i).today).Some? ==>
      var r := AnnotatedRows(rows, clock)[i];
      RestanteColumn in r && ExcedenteColumn in r && r[RestanteColumn].Value? && r[ExcedenteColumn].Value? &&
      (WithinTimePattern(r[RestanteColumn].text, r[ExcedenteColumn].text) <==>
        !ExpiredPattern(r[RestanteColumn].text, r[ExcedenteColumn].text))
    ensures forall i :: 0 <= i < |rows| && TerminoText(rows[i]).Some? && RowDeadline(rows[i], clock(i).today).None? ==>
      AnnotatedRows(rows, clock)[i] == rows[i]
  {
    forall i | 0 <= i < |rows| {
      AnnotateRowCases(rows[i], clock(i));
    }
  }

  /** The rows once the loop has been through the first `n` of them. */
  function PartlyAnnotated(rows: seq<Row>, actions: seq<RowAction>, n: nat): (r: seq<Row>)
    requires |actions| == |rows| && n <= |rows|
    ensures |r| == |rows|
    ensures forall k :: n <= k < |rows| ==> r[k] == rows[k]
  {
    seq(|rows|, k requires 0 <= k < |rows| => if k < n then ApplyAction(rows[k], actions[k]) else rows[k])
  }

  /** One more pass of the loop body annotates one more row. */
  lemma PartlyAnnotatedStep(rows: seq<Row>, actions: seq<RowAction>, n: nat)
    requires |actions| == |rows| && n < |rows|
    ensures PartlyAnnotated(rows, actions, n)[n := ApplyAction(rows[n], actions[n])] ==
      PartlyAnnotated(rows, actions, n + 1)
  {
  }

  /** Through all the rows, the loop has annotated every one of them. */
  lemma PartlyAnnotatedDone(rows: seq<Row>, clock: nat -> Reading)
    ensures PartlyAnnotated(rows, RowActions(rows, clock), |rows|) == AnnotatedRows(rows, clock)
  {
    var done, annotated := PartlyAnnotated(rows, RowActions(rows, clock), |rows|), AnnotatedRows(rows, clock);
    forall k | 0 <= k < |rows|
      ensures done[k] == annotated[k]
    {
      assert RowActions(rows, clock)[k] == DecideRow(rows[k], clock(k));
    }
  }

  /** The spreadsheet line of data row `i`: line 1 holds the header (main.py:42). */
  function SheetLine(i: nat): nat {
    i + 2
  }

  /**
   * The reports for a run of decisions, in row order: at most one per
   * row, each on a data line of the sheet, lines increasing.
   */
  function Reports(actions: seq<RowAction>): (errs: seq<ParseError>)
    ensures |errs| <= |actions|
    ensures forall k :: 0 <= k < |errs| ==> SheetLine(0) <= errs[k].line <= SheetLine(|actions| - 1)
    ensures forall k, l :: 0 <= k < l < |errs| ==> errs[k].line < errs[l].line
    decreases |actions|
  {
    if actions == [] then []
    else
      var n := |actions| - 1;
      Reports(actions[..n]) +
      match actions[n]
      case Reject(text) => [ParseError(SheetLine(n), text)]
      case Write(_, _) => []
  }

  /** Every report names a refused row and its text. */
  lemma {:induction false} ReportsSound(actions: seq<RowAction>)
    ensures forall k :: 0 <= k < |Reports(actions)| ==>
      Reports(actions)[k].line - 2 < |actions| &&
      actions[Reports(actions)[k].line - 2] == Reject(Reports(actions)[k].text)
    decreases |actions|
  {
    if actions != [] {
      var n := |actions| - 1;
      var prefix := actions[..n];
      var errs, before := Reports(actions), Reports(prefix);
      ReportsSound(prefix);
      forall k | 0 <= k < |errs|
        ensures errs[k].line - 2 < |actions| && actions[errs[k].line - 2] == Reject(errs[k].text)
      {
        if k < |before| {
          assert errs[k] == before[k];
          assert prefix[before[k].line - 2] == actions[before[k].line - 2];
        }
      }
    }
  }

  /** Every refused row is reported, on its own line, with its text. */
  lemma {:induction false} ReportsComplete(actions: seq<RowAction>)
    ensures forall i :: 0 <= i < |actions| && actions[i].Reject? ==>
      ParseError(SheetLine(i), actions[i].text) in Reports(actions)
    decreases |actions|
  {
    if actions != [] {
      var n := |actions| - 1;
      var prefix := actions[..n];
      var errs, before := Reports(actions), Reports(prefix);
      ReportsComplete(prefix);
      var extra := if actions[n].Reject? then [ParseError(SheetLine(n), actions[n].text)] else [];
      assert errs == before + extra;
      forall i | 0 <= i < |actions| && actions[i].Reject?
        ensures ParseError(SheetLine(i), actions[i].text) in errs
      {
        if i < n {
          assert prefix[i] == actions[i];
        }
      }
    }
  }

  /** One more row adds its report, if it has one, after the earlier ones. */
  lemma ReportsStep(actions: seq<RowAction>, i: nat)
    requires i < |actions|
    ensures Reports(actions[..i + 1]) ==
      Reports(actions[..i]) + (if actions[i].Reject? then [ParseError(SheetLine(i), actions[i].text)] else [])
  {
    assert actions[..i + 1][..i] == actions[..i];
  }

  /** The loop reports exactly the rows whose `Termino` text is no deadline, each with that text. */
  lemma RejectedRows(rows: seq<Row>, clock: nat -> Reading)
    ensures forall i :: 0 <= i < |rows| ==>
      (RowActions(rows, clock)[i].Reject? <==> TerminoText(rows[i]).Some? && RowDeadline(rows[i], clock(i).today).None?) &&
      (RowActions(rows, clock)[i].Reject? ==> TerminoText(rows[i]) == Some(RowActions(rows, clock)[i].text))
  {
    forall i | 0 <= i < |rows|
      ensures RowActions(rows, clock)[i] == DecideRow(rows[i], clock(i))
    {
    }
  }

  /**
   * The error messages of the loop (main.py:42): one for each row whose
   * `Termino` text is no deadline, with its line and text, in row order.
   */
  /** Report `k` of the loop names a row whose `Termino` text is no deadline, and carries that text. */
  lemma ReportNamesRow(rows: seq<Row>, clock: nat -> Reading, errs: seq<ParseError>, k: nat)
    requires errs == Reports(RowActions(rows, clock)) && k < |errs|
    ensures var i := errs[k].line - 2;
      0 <= i < |rows| && TerminoText(rows[i]) == Some(errs[k].text) && RowDeadline(rows[i], clock(i).today).None?
  {
    var actions := RowActions(rows, clock);
    ReportsSound(actions);
    var i := errs[k].line - 2;
    assert actions[i] == Reject(errs[k].text);
    assert actions[i] == DecideRow(rows[i], clock(i));
  }

  /** Each report of the loop names a row whose `Termino` text is no deadline, and carries that text. */
  lemma ReportsNameRefusedRows(rows: seq<Row>, clock: nat -> Reading, errs: seq<ParseError>)
    requires errs == Reports(RowActions(rows, clock))
    ensures forall e :: e in errs ==>
      var i := e.line - 2;
      0 <= i < |rows| && TerminoText(rows[i]) == Some(e.text) && RowDeadline(rows[i], clock(i).today).None?
  {
    forall k | 0 <= k < |errs| {
      ReportNamesRow(rows, clock, errs, k);
    }
  }

  /** Every row whose `Termino` text is no deadline is reported, on its own sheet line, with that text. */
  lemma RefusedRowsReported(rows: seq<Row>, clock: nat -> Reading, errs: seq<ParseError>)
    requires errs == Reports(RowActions(rows, clock))
    ensures forall i {:trigger SheetLine(i)} ::
      0 <= i < |rows| && TerminoText(rows[i]).Some? && RowDeadline(rows[i], clock(i).today).None? ==>
      ParseError(SheetLine(i), TerminoText(rows[i]).value) in errs
  {
    var actions := RowActions(rows, clock);
    ReportsComplete(actions);
    forall i | 0 <= i < |rows| && TerminoText(rows[i]).Some? && RowDeadline(rows[i], clock(i).today).None?
      ensures ParseError(SheetLine(i), TerminoText(rows[i]).value) in errs
    {
      assert actions[i] == DecideRow(rows[i], clock(i));
    }
  }

  function ParseErrors(rows: seq<Row>, clock: nat -> Reading): (errs: seq<ParseError>)
    ensures forall e :: e in errs ==>
      var i := e.line - 2;
      0 <= i < |rows| && TerminoText(rows[i]) == Some(e.text) && RowDeadline(rows[i], clock(i).today).None?
    ensures forall i {:trigger SheetLine(i)} ::
      0 <= i < |rows| && TerminoText(rows[i]).Some? && RowDeadline(rows[i], clock(i).today).None? ==>
      ParseError(SheetLine(i), TerminoText(rows[i]).value) in errs
    ensures forall k, l :: 0 <= k < l < |errs| ==> errs[k].line < errs[l].line
  {
    var errs := Reports(RowActions(rows, clock));
    ReportsNameRefusedRows(rows, clock, errs);
    RefusedRowsReported(rows, clock, errs);
    errs
  }


  /** The range `f"D2:D{len(df) + 1}"` the highlight rule is bound to (main.py:67). */
  function HighlightRef(rowCount: nat): (ref: string)
    ensures |ref| > 4 && ref[..4] == "D2:D"
    ensures Canonical(ref[4..]) && ValueOf(ref[4..]) == rowCount + 1
    ensures rowCount > 0 ==> ValueOf(ref[4..]) == SheetLine(rowCount - 1)
  {
    var ref := "D2:D" + Decimal(rowCount + 1);
    assert ref[4..] == Decimal(rowCount + 1);
    ValueOfDecimal(rowCount + 1);
    ref
  }

  // ----- Lemmas -----

  /** Schema repair is idempotent: on its own output it changes nothing. */
  lemma RepairIdempotent(sh: Sheet)
    requires WellFormed(sh)
    ensures WithDerivedColumns(WithDerivedColumns(sh)) == WithDerivedColumns(sh)
  {
  }

  /** A created store already has both derived columns: repair leaves it as created. */
  lemma CreatedStoreSchema()
    ensures WellFormed(Sheet(DefaultColumns, []))
    ensures WithDerivedColumns(Sheet(DefaultColumns, [])) == Sheet(DefaultColumns, [])
  {
  }

  /**
   * Column D, where the highlight rule sits, is `Tempo restante` when the
   * sheet starts `Item, Operador, Termino` and has no other column before
   * the derived ones; for any other layout it is whatever column is
   * fourth.
   */
  lemma HighlightColumnIsRestante(sh: Sheet)
    requires WellFormed(sh) && |sh.columns| >= 3
    requires sh.columns[..3] == [ItemColumn, OperadorColumn, TerminoColumn]
    requires |sh.columns| == 3 || sh.columns[3] == RestanteColumn
    ensures WithDerivedColumns(sh).columns[3] == RestanteColumn
  {
    var cols := sh.columns;
    if |cols| == 3 {
      assert RestanteColumn !in cols by {
        assert cols == cols[..3];
      }
      assert (cols + MissingDerived(cols))[3] == MissingDerived(cols)[0];
    } else {
      assert (cols + MissingDerived(cols))[3] == cols[3];
    }
  }

  /** Annotating leaves every `Termino` cell alone, so it decides each row the same way again. */
  lemma DecideAfterAnnotate(row: Row, reading: Reading)
    ensures DecideRow(AnnotateRow(row, reading), reading) == DecideRow(row, reading)
  {
    assert TerminoText(AnnotateRow(row, reading)) == TerminoText(row);
  }

  /**
   * A second pass with the same clock readings changes no cell and
   * reports the same rows: the annotation is idempotent.
   */
  lemma AnnotateIdempotent(rows: seq<Row>, clock: nat -> Reading)
    ensures AnnotatedRows(AnnotatedRows(rows, clock), clock) == AnnotatedRows(rows, clock)
    ensures ParseErrors(AnnotatedRows(rows, clock), clock) == ParseErrors(rows, clock)
  {
    var once := AnnotatedRows(rows, clock);
    forall i | 0 <= i < |rows|
      ensures DecideRow(once[i], clock(i)) == DecideRow(rows[i], clock(i))
      ensures AnnotateRow(once[i], clock(i)) == once[i]
    {
      DecideAfterAnnotate(rows[i], clock(i));
    }
    assert RowActions(once, clock) == RowActions(rows, clock);
  }

  /** The pandas frame `calcular_tempo` works on, updated in place. */
  class Frame {
    var columns: seq<string>
    var rows: seq<Row>

    ghost predicate Valid()
      reads this
    {
      WellFormed(Sheet(columns, rows))
    }

    function View(): Sheet
      reads this
    {
      Sheet(columns, rows)
    }

    /** The frame `pd.read_excel` returns for a stored sheet (main.py:20). */
    constructor Read(sh: Sheet)
      requires WellFormed(sh)
      ensures Valid() && View() == sh
    {
      columns := sh.columns;
      rows := sh.rows;
    }

    /** `pd.DataFrame(columns=cols)`: the given columns and no rows (main.py:22). */
    constructor Empty(cols: seq<string>)
      requires Distinct(cols)
      ensures Valid() && View() == Sheet(cols, [])
    {
      columns := cols;
      rows := [];
    }

    /** `df[name] = ''` (main.py:27, 29). */
    method AddBlankColumn(name: string)
      requires Valid() && name !in columns
      modifies this
      ensures Valid() && View() == AddColumn(old(View()), name)
    {
      var sh := AddColumn(View(), name);
      columns, rows := sh.columns, sh.rows;
    }

    /** `df.at[i, col] = text`. */
    method SetCell(i: nat, col: string, text: string)
      requires Valid() && i < |rows| && col in columns
      modifies this
      ensures Valid() && columns == old(columns)
      ensures rows == old(rows)[i := old(rows)[i][col := Value(text)]]
    {
      rows := rows[i := rows[i][col := Value(text)]];
    }

    /** The two `df.at` writes of one annotated row (main.py:50-51, 54-55, 57-58). */
    method WriteDerived(i: nat, restante: string, excedente: string)
      requires Valid() && HasDerivedColumns(View()) && i < |rows|
      modifies this
      ensures Valid() && columns == old(columns)
      ensures rows == old(rows)[i := ApplyAction(old(rows)[i], Write(restante, excedente))]
    {
      SetCell(i, RestanteColumn, restante);
      SetCell(i, ExcedenteColumn, excedente);
    }

    /** Schema repair (main.py:26-29). */
    method EnsureDerivedColumns()
      requires Valid()
      modifies this
      ensures Valid() && View() == WithDerivedColumns(old(View()))
    {
      if RestanteColumn !in columns {
        AddBlankColumn(RestanteColumn);
      }
      if ExcedenteColumn !in columns {
        AddBlankColumn(ExcedenteColumn);
      }
    }

    /**
     * The row loop (main.py:31-58): rows in order, each row's derived
     * cells rewritten as `AnnotateRow` says, refused rows reported.
     */
    method AnnotateRows(clock: nat -> Reading) returns (errors: seq<ParseError>)
      requires Valid() && HasDerivedColumns(View())
      modifies this
      ensures Valid() && columns == old(columns)
      ensures rows == AnnotatedRows(old(rows), clock)
      ensures errors == ParseErrors(old(rows), clock)
    {
      ghost var actions := RowActions(rows, clock);
      errors := [];
      var i := 0;
      while i < |rows|
        invariant Valid() && columns == old(columns) && |rows| == |old(rows)|
        invariant 0 <= i <= |rows|
        invariant rows == PartlyAnnotated(old(rows), actions, i)
        invariant errors == Reports(actions[..i])
        decreases |rows| - i
      {
        ReportsStep(actions, i);
        PartlyAnnotatedStep(old(rows), actions, i);
        var action := DecideRow(rows[i], clock(i));
        assert action == actions[i];
        match action {
          case Reject(text) =>
            errors := errors + [ParseError(SheetLine(i), text)];
          case Write(restante, excedente) =>
            WriteDerived(i, restante, excedente);
        }
        i := i + 1;
      }
      assert actions[..i] == actions;
      PartlyAnnotatedDone(old(rows), clock);
    }
  }

  /**
   * `calcular_tempo` (main.py:10-70). `stored` is the store's content,
   * `None` when the file does not exist; `clock(i)` is the reading taken
   * at row `i`. Returns the annotated frame, whether the store was
   * created (the warning of main.py:24), the refused rows (main.py:42),
   * the highlight range (main.py:67), and the sheets written to the
   * store, in order (main.py:23, 60).
   */
  method CalcularTempo(stored: Option<Sheet>, clock: nat -> Reading)
    returns (df: Frame, created: bool, errors: seq<ParseError>, highlight: string, writes: seq<Sheet>)
    requires stored.Some? ==> WellFormed(stored.value)
    ensures fresh(df) && df.Valid()
    ensures created <==> stored.None?
    ensures var loaded := if stored.Some? then stored.value else Sheet(DefaultColumns, []);
      var repaired := WithDerivedColumns(loaded);
      df.View() == Sheet(repaired.columns, AnnotatedRows(repaired.rows, clock)) &&
      errors == ParseErrors(repaired.rows, clock) &&
      highlight == HighlightRef(|repaired.rows|)
    ensures stored.None? ==> df.View() == Sheet(DefaultColumns, []) && errors == []
    ensures writes == (if created then [Sheet(DefaultColumns, [])] else []) + [df.View()]
  {
    writes := [];
    if stored.Some? {
      df := new Frame.Read(stored.value);
      created := false;
    } else {
      df := new Frame.Empty(DefaultColumns);
      created := true;
      writes := writes + [df.View()];
    }
    CreatedStoreSchema();
    df.EnsureDerivedColumns();
    errors := df.AnnotateRows(clock);
    writes := writes + [df.View()];
    highlight := HighlightRef(|df.rows|);
  }
}
