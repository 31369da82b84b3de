/** The hours of every location for each day of one week, by precedence
    exception > regular schedule > "TBA" (libhours.js `buildCompleteHoursObject`
    and `getSingleHoursObject`). */
module WeekResolver {
  import opened Wrappers
  import opened Dates
  import opened Sheets
  import opened SemesterIndex
  import opened ScheduleTable
  import opened ExceptionTable

  /** Location -> the hours texts of Monday .. Sunday. */
  type WeekHours = map<string, seq<string>>

  /** The hours text of one location on one day, whose semester is known:
      the exception entry for the day's formatted date if there is one, else
      the semester's regular hours for the day name if there are any, else
      "TBA". Whatever tier answers, the text is never empty. */
  function Resolve(data: Data, fmt: Date -> string, loc: string, day: Date, dayName: string, semester: Semester)
    : (v: string)
    ensures v != ""
  {
    match ExceptionValue(data.holidays.columns, data.holidays.rows, fmt, loc, fmt(day))
    case Some(e) => e
    case None =>
      match ScheduleValue(data.schedules, semester.name, loc, dayName)
      case Some(h) => h
      case None => "TBA"
  }

  /** The seven resolved days of the week of `date` for one location. */
  function WeekOf(data: Data, fmt: Date -> string, loc: string, date: Date): (w: seq<string>)
    requires WeekCovered(data.semesters, date)
    ensures |w| == 7
  {
    seq(7, i requires 0 <= i < 7 =>
      Resolve(data, fmt, loc, WeekDate(date, i), DayNames[i],
        FindSemester(data.semesters, WeekDate(date, i)).value))
  }

  /** What `buildCompleteHoursObject(data, date)` returns: one entry of seven
      texts per location row of the holidays sheet, or the failure of reading
      the semester of a day no semester covers. That read happens inside the
      loop over the location rows, so without location rows nothing fails. */
  function ResolveWeek(data: Data, fmt: Date -> string, date: Date): (r: Result<WeekHours, Error>)
    ensures r.Failure? <==> |data.holidays.rows| > 0 && !WeekCovered(data.semesters, date)
    ensures r.Success? ==> r.value.Keys == Locations(data.holidays.rows)
    ensures r.Success? ==> forall l :: l in r.value ==> |r.value[l]| == 7
  {
    var rows := data.holidays.rows;
    if |rows| > 0 && !WeekCovered(data.semesters, date) then Failure(NoSemester)
    else
      assert forall l :: l in Locations(rows) ==> |rows| > 0;
      Success(map l | l in Locations(rows) :: WeekOf(data, fmt, l, date))
  }

  /** `getSingleHoursObject`: the entry of `lib` for the weekday of `date`;
      reading it for a location the week does not hold throws. */
  function GetSingleHours(week: WeekHours, date: Date, lib: string): (r: Result<string, Error>)
    requires forall l :: l in week ==> |week[l]| == 7
    ensures r.Failure? <==> lib !in week
  {
    if lib in week then Success(week[lib][Weekday(date) - 1]) else Failure(UnknownLocation)
  }

  /** Every date of one Monday-to-Sunday week gives the same result. */
  lemma ResolveWeekAnchored(data: Data, fmt: Date -> string, d1: Date, d2: Date)
    requires WeekStart(d1) <= d2 < WeekStart(d1) + 7
    ensures ResolveWeek(data, fmt, d1) == ResolveWeek(data, fmt, d2)
  {
    SameWeek(d1, d2);
    assert forall i :: WeekDate(d1, i) == WeekDate(d2, i);
    assert WeekCovered(data.semesters, d1) == WeekCovered(data.semesters, d2);
    var rows := data.holidays.rows;
    if |rows| == 0 || WeekCovered(data.semesters, d1) {
      var m1 := map l | l in Locations(rows) :: WeekOf(data, fmt, l, d1);
      var m2 := map l | l in Locations(rows) :: WeekOf(data, fmt, l, d2);
      forall l | l in Locations(rows)
        ensures m1[l] == m2[l]
      {
        assert forall i :: 0 <= i < 7 ==> m1[l][i] == m2[l][i];
      }
      assert m1 == m2;
    }
  }

  /** Querying a single day of the week computed for `date` with that same
      `date` gives the entry resolved for `date` itself, under its own day
      name and semester. */
  lemma SingleDayIsQueryDay(data: Data, fmt: Date -> string, date: Date, loc: string)
    requires ResolveWeek(data, fmt, date).Success?
    requires loc in Locations(data.holidays.rows)
    ensures FindSemester(data.semesters, date).Some?
    ensures GetSingleHours(ResolveWeek(data, fmt, date).value, date, loc)
      == Success(Resolve(data, fmt, loc, date, DayNames[Weekday(date) - 1],
                         FindSemester(data.semesters, date).value))
  {
    DayOfWeek(date, 0);
    var idx := Weekday(date) - 1;
    assert WeekDate(date, idx) == date;
    assert FindSemester(data.semesters, WeekDate(date, idx)).Some?;
    var week := ResolveWeek(data, fmt, date).value;
    assert week[loc] == WeekOf(data, fmt, loc, date);
  }

  /** Tier one: when some column dated day `i` has an entry for the location,
      day `i` holds the entry of the last such column (of the location's last
      row with an entry there), whatever the regular schedule says. */
  lemma ExceptionPrecedence(data: Data, fmt: Date -> string, date: Date, loc: string, i: int, j: int)
    requires forall a, b :: fmt(a) == fmt(b) ==> a == b
    requires ResolveWeek(data, fmt, date).Success? && loc in Locations(data.holidays.rows) && 0 <= i < 7
    requires var cols := data.holidays.columns;
      0 <= j < |cols| && cols[j].date == WeekDate(date, i)
      && LastCell(data.holidays.rows, loc, cols[j].name).Some?
      && forall m :: j < m < |cols| && cols[m].date == WeekDate(date, i)
           ==> LastCell(data.holidays.rows, loc, cols[m].name).None?
    ensures ResolveWeek(data, fmt, date).value[loc][i]
      == LastCell(data.holidays.rows, loc, data.holidays.columns[j].name).value
  {
    var cols, rows := data.holidays.columns, data.holidays.rows;
    LastColumnWins(cols, rows, fmt, loc, fmt(WeekDate(date, i)), j);
  }

  /** Tiers two and three: when no column dated day `i` has an entry for the
      location, day `i` holds the day's cell of the location's last row in the
      schedule sheet of the day's semester, or "TBA" when that cell is empty
      or there is no such row or sheet. */
  lemma SchedulePrecedence(data: Data, fmt: Date -> string, date: Date, loc: string, i: int)
    requires forall a, b :: fmt(a) == fmt(b) ==> a == b
    requires ResolveWeek(data, fmt, date).Success? && loc in Locations(data.holidays.rows) && 0 <= i < 7
    requires forall j, k ::
      (0 <= j < |data.holidays.columns| && data.holidays.columns[j].date == WeekDate(date, i)
       && 0 <= k < |data.holidays.rows| && data.holidays.rows[k].location == loc)
      ==> Cell(data.holidays.rows[k], data.holidays.columns[j].name).None?
    ensures FindSemester(data.semesters, WeekDate(date, i)).Some?
    ensures var name := FindSemester(data.semesters, WeekDate(date, i)).value.name;
      var entry := ResolveWeek(data, fmt, date).value[loc][i];
      (name !in data.schedules || loc !in Locations(data.schedules[name]) ==> entry == "TBA")
      && forall k ::
           (name in data.schedules && 0 <= k < |data.schedules[name]|
            && data.schedules[name][k].location == loc
            && (forall m :: k < m < |data.schedules[name]| ==> data.schedules[name][m].location != loc))
           ==> entry == Cell(data.schedules[name][k], DayNames[i]).GetOr("TBA")
  {
    var cols, rows := data.holidays.columns, data.holidays.rows;
    ExceptionForDay(cols, rows, fmt, loc, WeekDate(date, i));
    var name := FindSemester(data.semesters, WeekDate(date, i)).value.name;
    ScheduleFromLastRow(data.schedules, name, loc, DayNames[i]);
  }

  /** The tests of one day in the loop over the location rows: the exception
      table first, then the schedule table, then "TBA". */
  method ResolveEntry(
    data: Data, fmt: Date -> string, exceptions: ExceptionMap, hoursData: map<string, map<string, Row>>,
    library: string, day: Date, dayName: string, semester: Semester)
    returns (value: string)
    requires exceptions == Exceptions(data.holidays.columns, data.holidays.rows, fmt)
    requires hoursData == HoursData(data.semesters, data.schedules)
    requires semester in data.semesters
    ensures value == Resolve(data, fmt, library, day, dayName, semester)
  {
    var key := fmt(day);
    var name := semester.name;
    ExceptionsLookup(data.holidays.columns, data.holidays.rows, fmt, library, key);
    if library in exceptions && key in exceptions[library] && exceptions[library][key] != "" {
      value := exceptions[library][key];
    } else if name in hoursData && library in hoursData[name] && Cell(hoursData[name][library], dayName).Some? {
      value := hoursData[name][library].cells[dayName];
    } else {
      value := "TBA";
    }
  }

  /** The loop over the seven days for one location row. `week0` is what the
      location already holds (nothing, or the same week from an earlier row of
      the same location); each day's entry is set in turn. The result is None
      when a day of the week has no semester, which is where the library
      throws. */
  method ResolveLibraryWeek(
    data: Data, fmt: Date -> string, date: Date,
    exceptions: ExceptionMap, hoursData: map<string, map<string, Row>>,
    days: seq<Date>, semesterPerDay: seq<Option<Semester>>,
    library: string, week0: seq<string>)
    returns (week: Option<seq<string>>)
    requires exceptions == Exceptions(data.holidays.columns, data.holidays.rows, fmt)
    requires hoursData == HoursData(data.semesters, data.schedules)
    requires |days| == 7 && |semesterPerDay| == 7
    requires forall i :: 0 <= i < 7 ==> days[i] == WeekDate(date, i)
    requires forall i :: 0 <= i < 7 ==> semesterPerDay[i] == FindSemester(data.semesters, days[i])
    requires week0 == [] || (WeekCovered(data.semesters, date) && week0 == WeekOf(data, fmt, library, date))
    ensures week.None? <==> !WeekCovered(data.semesters, date)
    ensures week.Some? ==> WeekCovered(data.semesters, date) && week.value == WeekOf(data, fmt, library, date)
  {
    WeekEntries(data, fmt, library, date, week0);
    var w := week0;
    for i := 0 to 7
      invariant forall j :: 0 <= j < i ==> semesterPerDay[j].Some?
      invariant i <= |w| <= 7
      invariant forall j :: 0 <= j < |w| ==> WeekEntry(data, fmt, library, date, j, w[j])
    {
      if semesterPerDay[i].None? {
        return None;
      }
      var value := ResolveEntry(data, fmt, exceptions, hoursData, library, days[i], DayNames[i], semesterPerDay[i].value);
      assert WeekEntry(data, fmt, library, date, i, value);
      SetEntry(data, fmt, library, date, w, i, value);
      w := if i < |w| then w[i := value] else w + [value];
    }
    EntriesWeek(data, fmt, library, date, w);
    return Some(w);
  }

  /** `buildCompleteHoursObject`: build the exception and schedule tables,
      find the semester of each day of the week, then resolve every day of
      every location row. */
  method BuildCompleteHours(data: Data, fmt: Date -> string, date: Date) returns (r: Result<WeekHours, Error>)
    ensures r == ResolveWeek(data, fmt, date)
  {
    var exceptions := BuildExceptions(data.holidays, fmt);
    var hoursData, _ := BuildHoursData(data.semesters, data.schedules);
    var days, semesterPerDay := WeekSemesters(data.semesters, date);
    var rows := data.holidays.rows;
    var hours: WeekHours := map[];
    for k := 0 to |rows|
      invariant k > 0 ==> WeekCovered(data.semesters, date)
      invariant ResolvedSoFar(data, fmt, date, Locations(rows[..k]), hours)
    {
      var library := rows[k].location;
      var week := ResolveLibraryWeek(data, fmt, date, exceptions, hoursData, days, semesterPerDay,
                                     library, if library in hours then hours[library] else []);
      if week.None? {
        return Failure(NoSemester);
      }
      LocationsStep(rows, k);
      ResolvedStep(data, fmt, date, Locations(rows[..k]), hours, library, week.value);
      hours := hours[library := week.value];
    }
    assert rows[..|rows|] == rows;
    ResolveWeekOfEntries(data, fmt, date, hours);
    r := Success(hours);
  }

  /** The map holds the resolved week of exactly the locations `keys`. */
  ghost predicate ResolvedSoFar(data: Data, fmt: Date -> string, date: Date, keys: set<string>, hours: WeekHours)
  {
    && hours.Keys == keys
    && forall l :: l in hours ==> WeekCovered(data.semesters, date) && hours[l] == WeekOf(data, fmt, l, date)
  }

  /** Recording one more location's resolved week. */
  lemma ResolvedStep(
    data: Data, fmt: Date -> string, date: Date, keys: set<string>, hours: WeekHours, l: string, w: seq<string>)
    requires ResolvedSoFar(data, fmt, date, keys, hours)
    requires WeekCovered(data.semesters, date) && w == WeekOf(data, fmt, l, date)
    ensures ResolvedSoFar(data, fmt, date, keys + {l}, hours[l := w])
  {
  }

  /** A map holding the resolved week of exactly the locations of the
      holidays sheet is the result of `ResolveWeek`. */
  lemma ResolveWeekOfEntries(data: Data, fmt: Date -> string, date: Date, hours: WeekHours)
    requires ResolvedSoFar(data, fmt, date, Locations(data.holidays.rows), hours)
    ensures ResolveWeek(data, fmt, date) == Success(hours)
  {
    var rows := data.holidays.rows;
    if |rows| > 0 {
      assert rows[0].location in hours;
      assert hours == map l | l in Locations(rows) :: WeekOf(data, fmt, l, date);
    }
  }

  /** A resolved week is made of resolved entries. */
  lemma WeekEntries(data: Data, fmt: Date -> string, loc: string, date: Date, w: seq<string>)
    requires w == [] || (WeekCovered(data.semesters, date) && w == WeekOf(data, fmt, loc, date))
    ensures |w| <= 7 && forall j :: 0 <= j < |w| ==> WeekEntry(data, fmt, loc, date, j, w[j])
  {
  }

  /** Seven resolved entries make the resolved week. */
  lemma EntriesWeek(data: Data, fmt: Date -> string, loc: string, date: Date, w: seq<string>)
    requires |w| == 7 && forall j :: 0 <= j < 7 ==> WeekEntry(data, fmt, loc, date, j, w[j])
    ensures WeekCovered(data.semesters, date) && w == WeekOf(data, fmt, loc, date)
  {
    forall i | 0 <= i < 7
      ensures FindSemester(data.semesters, WeekDate(date, i)).Some?
    {
      assert WeekEntry(data, fmt, loc, date, i, w[i]);
    }
  }

  /** Setting entry `i` to its resolved text keeps every entry resolved. */
  lemma SetEntry(data: Data, fmt: Date -> string, loc: string, date: Date, w: seq<string>, i: int, v: string)
    requires 0 <= i < 7 && i <= |w| <= 7
    requires forall j :: 0 <= j < |w| ==> WeekEntry(data, fmt, loc, date, j, w[j])
    requires WeekEntry(data, fmt, loc, date, i, v)
    ensures var w' := if i < |w| then w[i := v] else w + [v];
      && i + 1 <= |w'| <= 7
      && forall j :: 0 <= j < |w'| ==> WeekEntry(data, fmt, loc, date, j, w'[j])
  {
  }

  /** Entry `j` of a location's week as the loop has it: day `j` has a
      semester and the entry is that day's resolved text. */
  ghost predicate WeekEntry(data: Data, fmt: Date -> string, loc: string, date: Date, j: int, v: string)
  {
    var sem := FindSemester(data.semesters, WeekDate(date, j));
    sem.Some? && 0 <= j < 7
    && v == Resolve(data, fmt, loc, WeekDate(date, j), DayNames[j], sem.value)
  }
}
