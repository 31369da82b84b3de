/** `exceptions`: per location, the holidays-sheet text for each exception
    date, keyed by the date's formatted text (libhours.js:53-68). */
module ExceptionTable {
  import opened Wrappers
  import opened Dates
  import opened Sheets

  /** Location -> formatted date -> exception text. */
  type ExceptionMap = map<string, map<string, string>>

  /** Reading `exceptions[library][date]` the way the library tests it. */
  function Lookup(t: ExceptionMap, loc: string, key: string): Option<string>
  {
    if loc in t && key in t[loc] && t[loc][key] != "" then Some(t[loc][key]) else None
  }

  /** The text of column `name` in the last row of location `loc` that has a
      non-empty cell there. */
  function LastCell(rows: seq<Row>, loc: string, name: string): (v: Option<string>)
    ensures v.Some? ==> v.value != ""
    ensures v.None? <==>
      forall k :: 0 <= k < |rows| && rows[k].location == loc ==> Cell(rows[k], name).None?
  {
    if rows == [] then None
    else
      var last := rows[|rows| - 1];
      if last.location == loc && Cell(last, name).Some? then Cell(last, name)
      else LastCell(rows[..|rows| - 1], loc, name)
  }

  /** A later row with an empty cell does not hide an earlier row's entry; a
      later row with an entry replaces it. */
  lemma {:induction false} LastCellIsLast(rows: seq<Row>, loc: string, name: string, k: int)
    requires 0 <= k < |rows| && rows[k].location == loc && Cell(rows[k], name).Some?
    requires forall j :: k < j < |rows| && rows[j].location == loc ==> Cell(rows[j], name).None?
    ensures LastCell(rows, loc, name) == Cell(rows[k], name)
  {
    if k < |rows| - 1 {
      LastCellIsLast(rows[..|rows| - 1], loc, name, k);
    }
  }

  /** The exception text for (location, date key): the entry of the last
      column, in header order, whose header date formats to `key` and which
      holds an entry for the location. Columns are scanned in the outer loop
      and rows in the inner one, so a later column always wins. */
  function ExceptionValue(cols: seq<Column>, rows: seq<Row>, fmt: Date -> string, loc: string, key: string)
    : (v: Option<string>)
    ensures v.Some? ==> v.value != ""
    ensures v.None? <==>
      forall j :: 0 <= j < |cols| && fmt(cols[j].date) == key ==> LastCell(rows, loc, cols[j].name).None?
  {
    if cols == [] then None
    else
      var last := cols[|cols| - 1];
      if fmt(last.date) == key && LastCell(rows, loc, last.name).Some? then LastCell(rows, loc, last.name)
      else ExceptionValue(cols[..|cols| - 1], rows, fmt, loc, key)
  }

  /** When two columns share a date, the later one's entry is the one kept. */
  lemma {:induction false} LastColumnWins(
    cols: seq<Column>, rows: seq<Row>, fmt: Date -> string, loc: string, key: string, j: int)
    requires 0 <= j < |cols| && fmt(cols[j].date) == key && LastCell(rows, loc, cols[j].name).Some?
    requires forall i :: j < i < |cols| && fmt(cols[i].date) == key ==> LastCell(rows, loc, cols[i].name).None?
    ensures ExceptionValue(cols, rows, fmt, loc, key) == LastCell(rows, loc, cols[j].name)
  {
    if j < |cols| - 1 {
      LastColumnWins(cols[..|cols| - 1], rows, fmt, loc, key, j);
    }
  }

  /** One pass of the inner loop: make sure the row's location has a map, and
      record the row's entry for the column under the column's date. */
  function AddCell(t: ExceptionMap, fmt: Date -> string, col: Column, row: Row): ExceptionMap
  {
    var inner := if row.location in t then t[row.location] else map[];
    match Cell(row, col.name)
    case Some(v) => t[row.location := inner[fmt(col.date) := v]]
    case None => t[row.location := inner]
  }

  /** The inner loop over the location rows, for one column. */
  function AddColumn(t: ExceptionMap, fmt: Date -> string, col: Column, rows: seq<Row>): ExceptionMap
  {
    if rows == [] then t
    else AddCell(AddColumn(t, fmt, col, rows[..|rows| - 1]), fmt, col, rows[|rows| - 1])
  }

  /** The table after the outer loop over the exception columns. */
  function Exceptions(cols: seq<Column>, rows: seq<Row>, fmt: Date -> string): ExceptionMap
  {
    if cols == [] then map[]
    else AddColumn(Exceptions(cols[..|cols| - 1], rows, fmt), fmt, cols[|cols| - 1], rows)
  }

  /** After one column, a lookup finds that column's entry when the column's
      date matches, and what was there before otherwise. */
  lemma {:induction false} AddColumnLookup(
    t: ExceptionMap, fmt: Date -> string, col: Column, rows: seq<Row>, loc: string, key: string)
    ensures Lookup(AddColumn(t, fmt, col, rows), loc, key) ==
      if fmt(col.date) == key && LastCell(rows, loc, col.name).Some? then LastCell(rows, loc, col.name)
      else Lookup(t, loc, key)
  {
    if rows != [] {
      AddColumnLookup(t, fmt, col, rows[..|rows| - 1], loc, key);
    }
  }

  /** The table built by the two loops answers every lookup with
      `ExceptionValue`. */
  lemma {:induction false} ExceptionsLookup(
    cols: seq<Column>, rows: seq<Row>, fmt: Date -> string, loc: string, key: string)
    ensures Lookup(Exceptions(cols, rows, fmt), loc, key) == ExceptionValue(cols, rows, fmt, loc, key)
  {
    if cols != [] {
      ExceptionsLookup(cols[..|cols| - 1], rows, fmt, loc, key);
      AddColumnLookup(Exceptions(cols[..|cols| - 1], rows, fmt), fmt, cols[|cols| - 1], rows, loc, key);
    }
  }

  /** With an injective date format, a day has an exception for a location
      exactly when some column dated that day holds an entry for it. */
  lemma ExceptionForDay(cols: seq<Column>, rows: seq<Row>, fmt: Date -> string, loc: string, day: Date)
    requires forall a, b :: fmt(a) == fmt(b) ==> a == b
    ensures ExceptionValue(cols, rows, fmt, loc, fmt(day)).None? <==>
      forall j, k :: 0 <= j < |cols| && cols[j].date == day && 0 <= k < |rows| && rows[k].location == loc
        ==> Cell(rows[k], cols[j].name).None?
  {
  }

  /** The inner loop over the rows for one column. */
  method AddColumnCells(t0: ExceptionMap, fmt: Date -> string, col: Column, rows: seq<Row>)
    returns (t: ExceptionMap)
    ensures t == AddColumn(t0, fmt, col, rows)
  {
    t := t0;
    for k := 0 to |rows|
      invariant t == AddColumn(t0, fmt, col, rows[..k])
    {
      assert rows[..k + 1][..k] == rows[..k];
      var library := rows[k];
      var inner := if library.location in t then t[library.location] else map[];
      t := t[library.location := inner];
      if Cell(library, col.name).Some? {
        t := t[library.location := inner[fmt(col.date) := library.cells[col.name]]];
      }
    }
    assert rows[..|rows|] == rows;
  }

  /** The nested loops that fill `exceptions`: exception columns outside,
      location rows inside. */
  method BuildExceptions(sheet: HolidaySheet, fmt: Date -> string) returns (t: ExceptionMap)
    ensures t == Exceptions(sheet.columns, sheet.rows, fmt)
  {
    var cols := sheet.columns;
    t := map[];
    for c := 0 to |cols|
      invariant t == Exceptions(cols[..c], sheet.rows, fmt)
    {
      assert cols[..c + 1][..c] == cols[..c];
      t := AddColumnCells(t, fmt, cols[c], sheet.rows);
    }
    assert cols[..|cols|] == cols;
  }
}
