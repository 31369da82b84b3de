/** `hours_data`: the regular hours of every semester, indexed by semester
    name, then location, then day name (libhours.js:71-79 and 165-174). */
module ScheduleTable {
  import opened Wrappers
  import opened Sheets

  /** A sheet's rows indexed by location, built by assigning each row in turn:
      a later row with the same location replaces an earlier one. */
  function RowsByLocation(rows: seq<Row>): (t: map<string, Row>)
    ensures t.Keys == Locations(rows)
    ensures forall l :: l in t ==> t[l] in rows && t[l].location == l
  {
    if rows == [] then map[]
    else
      var last := rows[|rows| - 1];
      assert rows == rows[..|rows| - 1] + [last];
      RowsByLocation(rows[..|rows| - 1])[last.location := last]
  }

  /** The row a location ends up with is its last row in the sheet. */
  lemma {:induction false} LastRowWins(rows: seq<Row>, k: int)
    requires 0 <= k < |rows|
    requires forall j :: k < j < |rows| ==> rows[j].location != rows[k].location
    ensures rows[k].location in RowsByLocation(rows)
    ensures RowsByLocation(rows)[rows[k].location] == rows[k]
  {
    if k < |rows| - 1 {
      LastRowWins(rows[..|rows| - 1], k);
    }
  }

  /** The locations of some rows, in row order, repeats kept. */
  function LocationList(rows: seq<Row>): (ls: seq<string>)
    ensures |ls| == |rows|
    ensures forall i :: 0 <= i < |rows| ==> ls[i] == rows[i].location
  {
    if rows == [] then [] else LocationList(rows[..|rows| - 1]) + [rows[|rows| - 1].location]
  }

  /** `hours_data[name]`: the rows of the schedule sheet named `name` by
      location, or nothing when the data has no such sheet. */
  function SemesterTable(schedules: map<string, seq<Row>>, name: string): map<string, Row>
  {
    if name in schedules then RowsByLocation(schedules[name]) else map[]
  }

  /** `hours_data` after the loop over the semester list: one entry per
      semester name, holding that semester's table. A name listed twice is
      simply rebuilt from the same sheet. */
  function HoursData(sems: seq<Semester>, schedules: map<string, seq<Row>>)
    : (hd: map<string, map<string, Row>>)
    ensures forall s :: s in sems ==> s.name in hd && hd[s.name] == SemesterTable(schedules, s.name)
  {
    if sems == [] then map[]
    else
      var last := sems[|sems| - 1];
      assert sems == sems[..|sems| - 1] + [last];
      HoursData(sems[..|sems| - 1], schedules)[last.name := SemesterTable(schedules, last.name)]
  }

  /** `libraries` of `buildNormalHoursObject`: the location of every row of
      every listed semester's schedule sheet, in order, repeats kept. */
  function Libraries(sems: seq<Semester>, schedules: map<string, seq<Row>>): seq<string>
  {
    if sems == [] then []
    else
      var last := sems[|sems| - 1];
      Libraries(sems[..|sems| - 1], schedules)
        + (if last.name in schedules then LocationList(schedules[last.name]) else [])
  }

  /** A location is among the libraries exactly when some listed semester's
      schedule sheet has a row for it. */
  lemma {:induction false} LibrariesAreScheduled(sems: seq<Semester>, schedules: map<string, seq<Row>>, l: string)
    ensures l in Libraries(sems, schedules) <==>
      exists s :: s in sems && s.name in schedules && l in Locations(schedules[s.name])
  {
    if sems != [] {
      var init, last := sems[..|sems| - 1], sems[|sems| - 1];
      assert sems == init + [last];
      LibrariesAreScheduled(init, schedules, l);
      if last.name in schedules {
        var ls := LocationList(schedules[last.name]);
        assert l in ls <==> l in Locations(schedules[last.name]) by {
          if l in ls {
            var i :| 0 <= i < |ls| && ls[i] == l;
            assert schedules[last.name][i] in schedules[last.name];
          }
          if l in Locations(schedules[last.name]) {
            var r :| r in schedules[last.name] && r.location == l;
            var i :| 0 <= i < |schedules[last.name]| && schedules[last.name][i] == r;
            assert ls[i] == l;
          }
        }
      }
    }
  }

  /** The regular hours text for (semester name, location, day name), read
      the way the library tests `hours_data[semester][library][day_name]`:
      missing at any level, or empty, is no entry. */
  function ScheduleValue(schedules: map<string, seq<Row>>, name: string, loc: string, dayName: string)
    : (v: Option<string>)
    ensures v.Some? ==> v.value != ""
  {
    var table := SemesterTable(schedules, name);
    if loc in table then Cell(table[loc], dayName) else None
  }

  /** The regular hours come from the location's last row in the semester's
      sheet, and there are none when the sheet is missing or has no row for
      the location. */
  lemma ScheduleFromLastRow(schedules: map<string, seq<Row>>, name: string, loc: string, dayName: string)
    ensures name !in schedules ==> ScheduleValue(schedules, name, loc, dayName).None?
    ensures name in schedules && loc !in Locations(schedules[name]) ==>
      ScheduleValue(schedules, name, loc, dayName).None?
    ensures forall k ::
      (name in schedules && 0 <= k < |schedules[name]| && schedules[name][k].location == loc
       && (forall j :: k < j < |schedules[name]| ==> schedules[name][j].location != loc)) ==>
      ScheduleValue(schedules, name, loc, dayName) == Cell(schedules[name][k], dayName)
  {
    forall k | name in schedules && 0 <= k < |schedules[name]| && schedules[name][k].location == loc
      && (forall j :: k < j < |schedules[name]| ==> schedules[name][j].location != loc)
      ensures ScheduleValue(schedules, name, loc, dayName) == Cell(schedules[name][k], dayName)
    {
      LastRowWins(schedules[name], k);
    }
  }

  /** One more row extends the location index by that row. */
  lemma RowsByLocationStep(rows: seq<Row>, k: int)
    requires 0 <= k < |rows|
    ensures RowsByLocation(rows[..k + 1]) == RowsByLocation(rows[..k])[rows[k].location := rows[k]]
  {
    assert rows[..k + 1][..k] == rows[..k];
  }

  /** One more semester sets that semester's entry and appends its rows'
      locations. */
  lemma HoursDataStep(sems: seq<Semester>, schedules: map<string, seq<Row>>, s: int)
    requires 0 <= s < |sems|
    ensures HoursData(sems[..s + 1], schedules)
      == HoursData(sems[..s], schedules)[sems[s].name := SemesterTable(schedules, sems[s].name)]
    ensures Libraries(sems[..s + 1], schedules)
      == Libraries(sems[..s], schedules)
         + (if sems[s].name in schedules then LocationList(schedules[sems[s].name]) else [])
  {
    assert sems[..s + 1][..s] == sems[..s];
  }

  /** The inner loop over one schedule sheet: each row is assigned under its
      location and its location is appended to the list of libraries. */
  method IndexRows(rows: seq<Row>) returns (table: map<string, Row>, locations: seq<string>)
    ensures table == RowsByLocation(rows)
    ensures locations == LocationList(rows)
  {
    table, locations := map[], [];
    for k := 0 to |rows|
      invariant table == RowsByLocation(rows[..k])
      invariant locations == LocationList(rows[..k])
    {
      RowsByLocationStep(rows, k);
      assert rows[..k + 1][..k] == rows[..k];
      table := table[rows[k].location := rows[k]];
      locations := locations + [rows[k].location];
    }
    assert rows[..|rows|] == rows;
  }

  /** The loop that fills `hours_data` (and, in `buildNormalHoursObject`,
      `libraries`): for each listed semester, reset its entry, then, when its
      sheet exists, assign each of its rows under the row's location. */
  method BuildHoursData(sems: seq<Semester>, schedules: map<string, seq<Row>>)
    returns (hd: map<string, map<string, Row>>, libraries: seq<string>)
    ensures hd == HoursData(sems, schedules)
    ensures libraries == Libraries(sems, schedules)
  {
    hd, libraries := map[], [];
    for s := 0 to |sems|
      invariant hd == HoursData(sems[..s], schedules)
      invariant libraries == Libraries(sems[..s], schedules)
    {
      var name := sems[s].name;
      var table: map<string, Row> := map[];
      var locations: seq<string> := [];
      if name in schedules {
        table, locations := IndexRows(schedules[name]);
      }
      HoursDataStep(sems, schedules, s);
      hd := hd[name := table];
      libraries := libraries + locations;
    }
    assert sems[..|sems|] == sems;
  }
}
