/** The shape of the spreadsheet data the library reads. Loading the sheets
    is not part of this model; these datatypes are what it is handed. */
module Sheets {
  import opened Wrappers
  import opened Dates

  /** One data row of a sheet: its `location` cell and its other cells by
      column name. */
  datatype Row = Row(location: string, cells: map<string, string>)

  /** A cell read the way the library tests it for truth: a missing cell and
      the empty string are both "no entry". */
  function Cell(row: Row, name: string): (c: Option<string>)
    ensures c.Some? ==> c.value != "" && name in row.cells && c.value == row.cells[name]
    ensures c.None? ==> name !in row.cells || row.cells[name] == ""
  {
    if name in row.cells && row.cells[name] != "" then Some(row.cells[name]) else None
  }

  /** An exception column of the holidays sheet (every column after the first,
      `location`, one) together with the date its header row gives it. */
  datatype Column = Column(name: string, date: Date)

  /** The "Holidays and Special Hours" sheet: its exception columns in header
      order and its location rows (the rows after the header row). */
  datatype HolidaySheet = HolidaySheet(columns: seq<Column>, rows: seq<Row>)

  /** A row of the "Semester Breakdown" sheet. */
  datatype Semester = Semester(name: string, start: Date, end: Date)

  /** Everything the library reads: the holidays sheet, the semester list and,
      per semester name, the rows of that semester's schedule sheet (one row per
      location, one cell per lower-case day name). */
  datatype Data = Data(
    holidays: HolidaySheet,
    semesters: seq<Semester>,
    schedules: map<string, seq<Row>>)

  /** The failures the library can raise. `NoSemester`: a day of the week is
      covered by no semester, so reading its `semestername` throws.
      `UnknownLocation`: a single-day query names a location the week has no
      entry for. */
  datatype Error = NoSemester | UnknownLocation

  /** The location names of some rows. */
  function Locations(rows: seq<Row>): set<string>
  {
    set r | r in rows :: r.location
  }

  /** One more row adds its location. */
  lemma LocationsStep(rows: seq<Row>, k: int)
    requires 0 <= k < |rows|
    ensures Locations(rows[..k + 1]) == Locations(rows[..k]) + {rows[k].location}
  {
    assert rows[..k + 1] == rows[..k] + [rows[k]];
  }
}
