/** The compact view of a week's regular hours: consecutive days with the
    same split hours are grouped under their one-letter codes
    (libhours.js `buildNormalHoursObject`). Exceptions play no part here. */
module WeekCompactor {
  import opened Wrappers
  import opened Dates
  import opened Sheets
  import opened HoursText
  import opened SemesterIndex
  import opened ScheduleTable

  /** The hours of one day in the compact view. */
  datatype DayHours = TBA | Open(hours: Hours)

  /** `{hours, days}`: a run of days, by their letters, sharing hours. */
  datatype Group = Group(hours: DayHours, days: string)

  /** The merge test: the group's `start` and `end` equal the day's. On a
      "TBA" group both read as undefined while a split always yields a string
      start, so a "TBA" group never matches. */
  predicate Extends(g: Group, h: Hours)
    ensures Extends(g, h) <==> g.hours == Open(h)
  {
    match g.hours
    case TBA => false
    case Open(p) => p.start == h.start && p.end == h.end
  }

  /** One more day: an open day joins the last group when that group's hours
      match; any other day opens a group of its own. */
  function Step(gs: seq<Group>, d: DayHours, letter: char): seq<Group>
  {
    match d
    case TBA => gs + [Group(TBA, [letter])]
    case Open(h) =>
      if |gs| > 0 && Extends(gs[|gs| - 1], h) then
        gs[..|gs| - 1] + [gs[|gs| - 1].(days := gs[|gs| - 1].days + [letter])]
      else
        gs + [Group(Open(h), [letter])]
  }

  /** The groups of the first `|w|` days of a week, Monday first. */
  function Compact(w: seq<DayHours>): seq<Group>
    requires |w| <= 7
  {
    if w == [] then [] else Step(Compact(w[..|w| - 1]), w[|w| - 1], DayLetters[|w| - 1])
  }

  /** The day letters of some groups, in order. */
  function Letters(gs: seq<Group>): string
  {
    if gs == [] then [] else Letters(gs[..|gs| - 1]) + gs[|gs| - 1].days
  }

  /** `n` copies of `d`. */
  function Repeat(d: DayHours, n: nat): (s: seq<DayHours>)
    ensures |s| == n && forall i :: 0 <= i < n ==> s[i] == d
  {
    if n == 0 then [] else Repeat(d, n - 1) + [d]
  }

  /** The day-by-day hours some groups stand for. */
  function Expand(gs: seq<Group>): seq<DayHours>
  {
    if gs == [] then [] else Expand(gs[..|gs| - 1]) + Repeat(gs[|gs| - 1].hours, |gs[|gs| - 1].days|)
  }

  /** The shape every compact week has: no empty group, a "TBA" group holds
      one day, and no group could have taken in the group after it. */
  predicate WellGrouped(gs: seq<Group>)
  {
    && (forall k :: 0 <= k < |gs| ==> |gs[k].days| >= 1)
    && (forall k :: 0 <= k < |gs| && gs[k].hours.TBA? ==> |gs[k].days| == 1)
    && (forall k :: 0 <= k < |gs| - 1 && gs[k + 1].hours.Open? ==> !Extends(gs[k], gs[k + 1].hours.hours))
  }

  /** A day's step appends exactly its letter. */
  lemma StepLetters(gs: seq<Group>, d: DayHours, letter: char)
    ensures Letters(Step(gs, d, letter)) == Letters(gs) + [letter]
  {
    if d.Open? && |gs| > 0 && Extends(gs[|gs| - 1], d.hours) {
      var front, last := gs[..|gs| - 1], gs[|gs| - 1];
      assert gs == front + [last];
      LettersSnoc(front, last);
      LettersSnoc(front, last.(days := last.days + [letter]));
    } else {
      LettersSnoc(gs, Group(d, [letter]));
    }
  }

  /** After a day's step the last group carries that day's hours, and there
      is one group more or as many as before. */
  lemma StepLast(gs: seq<Group>, d: DayHours, letter: char)
    ensures var r := Step(gs, d, letter);
      |r| > 0 && r[|r| - 1].hours == d && |gs| <= |r| <= |gs| + 1
  {
    if d.Open? && |gs| > 0 && Extends(gs[|gs| - 1], d.hours) {
      match gs[|gs| - 1].hours
      case Open(p) => assert p == d.hours;
    }
  }

  /** A day's step keeps the groups well grouped. */
  lemma StepWellGrouped(gs: seq<Group>, d: DayHours, letter: char)
    requires WellGrouped(gs)
    ensures WellGrouped(Step(gs, d, letter))
  {
    var r := Step(gs, d, letter);
    if d.Open? && |gs| > 0 && Extends(gs[|gs| - 1], d.hours) {
      assert forall k :: 0 <= k < |gs| - 1 ==> r[k] == gs[k];
      assert r[|gs| - 1].hours == gs[|gs| - 1].hours;
    } else {
      assert forall k :: 0 <= k < |gs| ==> r[k] == gs[k];
    }
  }

  /** The letters of the groups spell the week's day codes in order, so every
      day is in exactly one group. */
  lemma {:induction false} CompactLetters(w: seq<DayHours>)
    requires |w| <= 7
    ensures Letters(Compact(w)) == DayLetters[..|w|]
  {
    if w != [] {
      var init := w[..|w| - 1];
      CompactLetters(init);
      assert Compact(w) == Step(Compact(init), w[|w| - 1], DayLetters[|w| - 1]);
      StepLetters(Compact(init), w[|w| - 1], DayLetters[|w| - 1]);
      PrefixSnoc(DayLetters, |w| - 1);
    }
  }

  /** A prefix one longer ends with the next element. */
  lemma PrefixSnoc<T>(s: seq<T>, n: nat)
    requires n < |s|
    ensures s[..n + 1] == s[..n] + [s[n]]
  {
  }

  /** A non-empty sequence is its front and its last element. */
  lemma SnocLast<T>(s: seq<T>)
    requires s != []
    ensures s[..|s| - 1] + [s[|s| - 1]] == s
  {
  }

  /** A sequence of one element is that element alone. */
  lemma Singleton<T>(s: seq<T>)
    requires |s| == 1
    ensures s == [s[0]] && s[..0] == []
  {
  }

  /** Expanding one more group appends its days. */
  lemma {:induction false} ExpandSnoc(gs: seq<Group>, g: Group)
    ensures Expand(gs + [g]) == Expand(gs) + Repeat(g.hours, |g.days|)
  {
    assert (gs + [g])[..|gs|] == gs;
  }

  /** Growing the last group by one letter adds one more copy of its hours. */
  lemma {:induction false} ExpandMerge(front: seq<Group>, last: Group, letter: char)
    ensures Expand(front + [last.(days := last.days + [letter])]) == Expand(front + [last]) + [last.hours]
  {
    ExpandSnoc(front, last);
    ExpandSnoc(front, last.(days := last.days + [letter]));
    assert Repeat(last.hours, |last.days| + 1) == Repeat(last.hours, |last.days|) + [last.hours];
  }

  /** One step adds exactly the new day to the expansion: a group that takes
      the day in carries the day's hours. */
  lemma {:induction false} StepExpand(gs: seq<Group>, d: DayHours, letter: char)
    ensures Expand(Step(gs, d, letter)) == Expand(gs) + [d]
  {
    if d.Open? && |gs| > 0 && Extends(gs[|gs| - 1], d.hours) {
      var front, last := gs[..|gs| - 1], gs[|gs| - 1];
      assert last.hours == d by {
        match last.hours
        case Open(p) => assert p == d.hours;
      }
      assert gs == front + [last];
      ExpandMerge(front, last, letter);
    } else {
      ExpandSnoc(gs, Group(d, [letter]));
      assert Repeat(d, 1) == [d];
    }
  }

  /** The groups stand for exactly the week they were built from. */
  lemma {:induction false} CompactExpand(w: seq<DayHours>)
    requires |w| <= 7
    ensures Expand(Compact(w)) == w
  {
    if w != [] {
      var init, d := w[..|w| - 1], w[|w| - 1];
      CompactExpand(init);
      assert Compact(w) == Step(Compact(init), d, DayLetters[|w| - 1]);
      StepExpand(Compact(init), d, DayLetters[|w| - 1]);
      SnocLast(w);
    }
  }

  /** Every compact week is well grouped, with between one group and one group
      per day. */
  lemma {:induction false} CompactWellGrouped(w: seq<DayHours>)
    requires |w| <= 7
    ensures WellGrouped(Compact(w))
    ensures |Compact(w)| <= |w|
    ensures w != [] ==> 1 <= |Compact(w)|
  {
    if w != [] {
      var init := w[..|w| - 1];
      CompactWellGrouped(init);
      StepWellGrouped(Compact(init), w[|w| - 1], DayLetters[|w| - 1]);
      StepLast(Compact(init), w[|w| - 1], DayLetters[|w| - 1]);
    }
  }

  /** A run of `n` days with the same open hours is one group holding the
      first `n` letters. */
  lemma {:induction false} UniformRun(h: Hours, n: nat)
    requires 1 <= n <= 7
    ensures Compact(Repeat(Open(h), n)) == [Group(Open(h), DayLetters[..n])]
  {
    CompactSnoc(Repeat(Open(h), n - 1), Open(h));
    if n > 1 {
      UniformRun(h, n - 1);
      var g := Group(Open(h), DayLetters[..n - 1]);
      assert Extends(g, h);
      PrefixSnoc(DayLetters, n - 1);
      assert Step([g], Open(h), DayLetters[n - 1]) == [g.(days := g.days + [DayLetters[n - 1]])];
    } else {
      assert DayLetters[..1] == [DayLetters[0]];
    }
  }

  /** Every "TBA" day is a group of its own. */
  lemma {:induction false} TBARun(w: seq<DayHours>)
    requires |w| <= 7 && forall i :: 0 <= i < |w| ==> w[i] == TBA
    ensures |Compact(w)| == |w|
    ensures forall i :: 0 <= i < |w| ==> Compact(w)[i] == Group(TBA, [DayLetters[i]])
  {
    if w != [] {
      var init := w[..|w| - 1];
      TBARun(init);
      assert Compact(w) == Compact(init) + [Group(TBA, [DayLetters[|w| - 1]])];
    }
  }

  /** The hours of one location on a day of the given semester, read from
      the semester's sheet: the split text when there is one, else "TBA". */
  function ScheduleDay(schedules: map<string, seq<Row>>, semester: string, loc: string, dayName: string)
    : (d: DayHours)
    ensures d.TBA? <==> ScheduleValue(schedules, semester, loc, dayName).None?
    ensures d.Open? ==> '-' !in d.hours.start
  {
    match ScheduleValue(schedules, semester, loc, dayName)
    case Some(text) => Open(SplitHours(text))
    case None => TBA
  }

  /** A cell of the form "start-end" or "start" splits into hours that join
      back to the cell. */
  lemma ScheduleDayText(schedules: map<string, seq<Row>>, semester: string, loc: string, dayName: string)
    requires ScheduleValue(schedules, semester, loc, dayName).Some?
    requires AtMostOneDash(ScheduleValue(schedules, semester, loc, dayName).value)
    ensures ScheduleDay(schedules, semester, loc, dayName).Open?
    ensures JoinHours(ScheduleDay(schedules, semester, loc, dayName).hours)
      == ScheduleValue(schedules, semester, loc, dayName).value
  {
    JoinSplit(ScheduleValue(schedules, semester, loc, dayName).value);
  }

  /** The regular hours of one location for each day of the week of `date`,
      each day under its own semester. */
  function ScheduleWeek(data: Data, loc: string, date: Date): (w: seq<DayHours>)
    requires WeekCovered(data.semesters, date)
    ensures |w| == 7
  {
    seq(7, i requires 0 <= i < 7 =>
      ScheduleDay(data.schedules, FindSemester(data.semesters, WeekDate(date, i)).value.name, loc, DayNames[i]))
  }

  /** Location -> its groups, Monday first. */
  type NormalHours = map<string, seq<Group>>

  /** What `buildNormalHoursObject(data, date)` returns: the compact week of
      every location that has a row in some semester's sheet, or the failure
      of reading the semester of a day no semester covers. That read happens
      inside the loop over the locations, so without locations nothing fails. */
  function NormalWeek(data: Data, date: Date): (r: Result<NormalHours, Error>)
    ensures r.Failure? <==> |Libraries(data.semesters, data.schedules)| > 0 && !WeekCovered(data.semesters, date)
    ensures r.Success? ==> forall l :: l in r.value <==> l in Libraries(data.semesters, data.schedules)
  {
    var libs := Libraries(data.semesters, data.schedules);
    if |libs| > 0 && !WeekCovered(data.semesters, date) then Failure(NoSemester)
    else
      assert forall l :: l in libs ==> |libs| > 0;
      Success(map l | l in libs :: Compact(ScheduleWeek(data, l, date)))
  }

  /** Appending a day to a partial week is one more step. */
  lemma CompactSnoc(w: seq<DayHours>, d: DayHours)
    requires |w| < 7
    ensures Compact(w + [d]) == Step(Compact(w), d, DayLetters[|w|])
  {
    assert (w + [d])[..|w|] == w;
  }

  /** The hours of the week's first `|w|` days as the loop reads them, each
      day under the semester found for it. */
  ghost predicate DaysSoFar(data: Data, semesterPerDay: seq<Option<Semester>>, library: string, w: seq<DayHours>)
  {
    && |w| <= 7 && |w| <= |semesterPerDay|
    && forall j :: 0 <= j < |w| ==>
         semesterPerDay[j].Some?
         && w[j] == ScheduleDay(data.schedules, semesterPerDay[j].value.name, library, DayNames[j])
  }

  /** The test `hours_data[semester][library][day_name]` and the split of
      what it finds. */
  method ReadDay(
    data: Data, hoursData: map<string, map<string, Row>>, semester: Semester, library: string, dayName: string)
    returns (day: DayHours)
    requires hoursData == HoursData(data.semesters, data.schedules)
    requires semester in data.semesters
    ensures day == ScheduleDay(data.schedules, semester.name, library, dayName)
  {
    var name := semester.name;
    if name in hoursData && library in hoursData[name] && Cell(hoursData[name][library], dayName).Some? {
      day := Open(SplitHours(hoursData[name][library].cells[dayName]));
    } else {
      day := TBA;
    }
  }

  /** An open day: pop the top group; push it back longer when its start and
      end are the day's, else push it back and then a group of the day's own. */
  method PushOpenDay(groups: seq<Group>, dayHours: Hours, letter: char) returns (r: seq<Group>)
    ensures r == Step(groups, Open(dayHours), letter)
  {
    r := groups;
    if |r| > 0 {
      var popped := r[|r| - 1];
      r := r[..|r| - 1];
      if popped.hours.Open? && popped.hours.hours.start == dayHours.start && popped.hours.hours.end == dayHours.end {
        r := r + [popped.(days := popped.days + [letter])];
      } else {
        r := r + [popped] + [Group(Open(dayHours), [letter])];
      }
    } else {
      r := r + [Group(Open(dayHours), [letter])];
    }
  }

  /** The loop over the seven days for one location: each day either joins
      the group on top of the list or pushes a group of its own. The result
      is None when a day of the week has no semester, which is where the
      library throws. */
  method CompactLibraryWeek(
    data: Data, date: Date, hoursData: map<string, map<string, Row>>,
    semesterPerDay: seq<Option<Semester>>, library: string)
    returns (singleHours: Option<seq<Group>>)
    requires hoursData == HoursData(data.semesters, data.schedules)
    requires |semesterPerDay| == 7
    requires forall i :: 0 <= i < 7 ==> semesterPerDay[i] == FindSemester(data.semesters, WeekDate(date, i))
    ensures singleHours.None? <==> !WeekCovered(data.semesters, date)
    ensures singleHours.Some? ==>
      (WeekCovered(data.semesters, date) && singleHours.value == Compact(ScheduleWeek(data, library, date)))
  {
    var groups: seq<Group> := [];
    ghost var week: seq<DayHours> := [];
    for i := 0 to 7
      invariant |week| == i && DaysSoFar(data, semesterPerDay, library, week)
      invariant groups == Compact(week)
    {
      if semesterPerDay[i].None? {
        return None;
      }
      var day := ReadDay(data, hoursData, semesterPerDay[i].value, library, DayNames[i]);
      CompactSnoc(week, day);
      if day.Open? {
        groups := PushOpenDay(groups, day.hours, DayLetters[i]);
      } else {
        groups := groups + [Group(TBA, [DayLetters[i]])];
      }
      DaysSoFarStep(data, semesterPerDay, library, week, day);
      week := week + [day];
    }
    DaysSoFarWeek(data, date, semesterPerDay, library, week);
    return Some(groups);
  }

  /** One more day read under its own semester. */
  lemma DaysSoFarStep(
    data: Data, semesterPerDay: seq<Option<Semester>>, library: string, w: seq<DayHours>, day: DayHours)
    requires DaysSoFar(data, semesterPerDay, library, w) && |w| < 7 && |w| < |semesterPerDay|
    requires semesterPerDay[|w|].Some?
    requires day == ScheduleDay(data.schedules, semesterPerDay[|w|].value.name, library, DayNames[|w|])
    ensures DaysSoFar(data, semesterPerDay, library, w + [day])
  {
  }

  /** Seven days read under the semesters found for the week of `date` make
      the location's regular week. */
  lemma DaysSoFarWeek(
    data: Data, date: Date, semesterPerDay: seq<Option<Semester>>, library: string, w: seq<DayHours>)
    requires |semesterPerDay| == 7
    requires forall i :: 0 <= i < 7 ==> semesterPerDay[i] == FindSemester(data.semesters, WeekDate(date, i))
    requires |w| == 7 && DaysSoFar(data, semesterPerDay, library, w)
    ensures WeekCovered(data.semesters, date) && w == ScheduleWeek(data, library, date)
  {
    assert forall i :: 0 <= i < 7 ==> semesterPerDay[i].Some?;
  }

  /** `buildNormalHoursObject`: build the schedule tables and the list of
      locations, find the semester of each day of the week, then compact the
      week of every location in the list (a location listed twice is simply
      computed again). */
  method BuildNormalHours(data: Data, date: Date) returns (r: Result<NormalHours, Error>)
    ensures r == NormalWeek(data, date)
  {
    var hoursData, libraries := BuildHoursData(data.semesters, data.schedules);
    var _, semesterPerDay := WeekSemesters(data.semesters, date);
    var hours: NormalHours := map[];
    for b := 0 to |libraries|
      invariant b > 0 ==> WeekCovered(data.semesters, date)
      invariant CompactedSoFar(data, date, libraries[..b], hours)
    {
      var library := libraries[b];
      var singleHours := CompactLibraryWeek(data, date, hoursData, semesterPerDay, library);
      if singleHours.None? {
        return Failure(NoSemester);
      }
      CompactedStep(data, date, libraries, b, hours, singleHours.value);
      hours := hours[library := singleHours.value];
    }
    assert libraries[..|libraries|] == libraries;
    NormalWeekOfEntries(data, date, hours);
    r := Success(hours);
  }

  /** The map holds the compact week of exactly the listed locations. */
  ghost predicate CompactedSoFar(data: Data, date: Date, libraries: seq<string>, hours: NormalHours)
  {
    && (forall l :: l in hours <==> l in libraries)
    && forall l :: l in hours ==>
      (WeekCovered(data.semesters, date) && hours[l] == Compact(ScheduleWeek(data, l, date)))
  }

  /** Recording the compact week of the location at `b`. */
  lemma CompactedStep(data: Data, date: Date, libraries: seq<string>, b: int, hours: NormalHours, gs: seq<Group>)
    requires 0 <= b < |libraries| && CompactedSoFar(data, date, libraries[..b], hours)
    requires WeekCovered(data.semesters, date) && gs == Compact(ScheduleWeek(data, libraries[b], date))
    ensures CompactedSoFar(data, date, libraries[..b + 1], hours[libraries[b] := gs])
  {
    assert libraries[..b + 1] == libraries[..b] + [libraries[b]];
  }

  /** A map holding the compact week of exactly the listed locations is the
      result of `NormalWeek`. */
  lemma NormalWeekOfEntries(data: Data, date: Date, hours: NormalHours)
    requires CompactedSoFar(data, date, Libraries(data.semesters, data.schedules), hours)
    ensures NormalWeek(data, date) == Success(hours)
  {
    var libs := Libraries(data.semesters, data.schedules);
    if |libs| > 0 {
      assert libs[0] in hours;
      assert hours == map l | l in libs :: Compact(ScheduleWeek(data, l, date));
    }
  }

  /** Every date of one Monday-to-Sunday week gives the same result. */
  lemma NormalWeekAnchored(data: Data, d1: Date, d2: Date)
    requires WeekStart(d1) <= d2 < WeekStart(d1) + 7
    ensures NormalWeek(data, d1) == NormalWeek(data, d2)
  {
    SameWeek(d1, d2);
    assert forall i :: WeekDate(d1, i) == WeekDate(d2, i);
    assert WeekCovered(data.semesters, d1) == WeekCovered(data.semesters, d2);
    var libs := Libraries(data.semesters, data.schedules);
    if |libs| == 0 || WeekCovered(data.semesters, d1) {
      var m1 := map l | l in libs :: Compact(ScheduleWeek(data, l, d1));
      var m2 := map l | l in libs :: Compact(ScheduleWeek(data, l, d2));
      forall l | l in libs
        ensures m1[l] == m2[l]
      {
        assert ScheduleWeek(data, l, d1) == ScheduleWeek(data, l, d2);
      }
      assert m1 == m2;
    }
  }

  /** The exceptions sheet plays no part in the regular hours. */
  lemma NormalWeekIgnoresExceptions(data: Data, holidays: HolidaySheet, date: Date)
    ensures NormalWeek(data.(holidays := holidays), date) == NormalWeek(data, date)
  {
    var other := data.(holidays := holidays);
    if NormalWeek(data, date).Success? {
      var libs := Libraries(data.semesters, data.schedules);
      forall l | l in libs
        ensures ScheduleWeek(other, l, date) == ScheduleWeek(data, l, date)
      {
        assert libs[0] in libs;
      }
      assert NormalWeek(other, date).value == NormalWeek(data, date).value;
    }
  }

  /** Each location's groups are a well-grouped partition of the seven day
      letters, Monday first, that stands for exactly the location's regular
      week. */
  lemma NormalWeekShape(data: Data, date: Date, loc: string)
    requires NormalWeek(data, date).Success? && loc in NormalWeek(data, date).value
    ensures WeekCovered(data.semesters, date)
    ensures var gs := NormalWeek(data, date).value[loc];
      && Letters(gs) == DayLetters
      && Expand(gs) == ScheduleWeek(data, loc, date)
      && WellGrouped(gs)
      && 1 <= |gs| <= 7
  {
    var w := ScheduleWeek(data, loc, date);
    CompactLetters(w);
    CompactExpand(w);
    CompactWellGrouped(w);
    assert DayLetters[..7] == DayLetters;
  }

  /** Expanding one more group appends its letters. */
  lemma {:induction false} LettersSnoc(gs: seq<Group>, g: Group)
    ensures Letters(gs + [g]) == Letters(gs) + g.days
  {
    assert (gs + [g])[..|gs|] == gs;
  }

  /** Taking the last day off a week takes the last letter off its last
      group. */
  lemma PeelLastDay(front: seq<Group>, last: Group, w: seq<DayHours>)
    requires |w| <= 7 && |last.days| >= 1
    requires Letters(front) + last.days == DayLetters[..|w|]
    requires Expand(front) + Repeat(last.hours, |last.days|) == w
    ensures |w| >= 1 && w[|w| - 1] == last.hours
    ensures last.days[|last.days| - 1] == DayLetters[|w| - 1]
    ensures Letters(front) + last.days[..|last.days| - 1] == DayLetters[..|w| - 1]
    ensures Expand(front) + Repeat(last.hours, |last.days| - 1) == w[..|w| - 1]
  {
    var n := |last.days|;
    var a := Letters(front);
    assert |a| + n == |w|;
    assert (a + last.days)[|w| - 1] == last.days[n - 1];
    assert a + last.days[..n - 1] == (a + last.days)[..|w| - 1];
    assert DayLetters[..|w|][..|w| - 1] == DayLetters[..|w| - 1];
    var r := Repeat(last.hours, n);
    assert r == Repeat(last.hours, n - 1) + [last.hours];
    assert Expand(front) + Repeat(last.hours, n - 1) == (Expand(front) + r)[..|w| - 1];
  }

  /** A group of one day that its predecessor could not take in is the
      step that adds that day. */
  lemma NewGroupStep(gs: seq<Group>, g: Group, letter: char)
    requires g.days == [letter]
    requires (g.hours.Open? && |gs| > 0) ==> !Extends(gs[|gs| - 1], g.hours.hours)
    ensures Step(gs, g.hours, letter) == gs + [g]
  {
    match g.hours
    case TBA =>
    case Open(h) =>
  }

  /** Growing the last group by the next letter is the step that compacts a
      day with that group's open hours. */
  lemma GrownGroupStep(init: seq<DayHours>, front: seq<Group>, shorter: Group)
    requires |init| < 7 && front + [shorter] == Compact(init) && shorter.hours.Open?
    ensures front + [shorter.(days := shorter.days + [DayLetters[|init|]])] == Compact(init + [shorter.hours])
  {
    CompactSnoc(init, shorter.hours);
    var gs := front + [shorter];
    assert Extends(shorter, shorter.hours.hours);
    assert gs[..|gs| - 1] == front;
  }

  /** Taking the last letter off a last group of several days keeps the
      groups well grouped. */
  lemma ShrinkLast(gs: seq<Group>)
    requires WellGrouped(gs) && gs != [] && |gs[|gs| - 1].days| > 1
    ensures var last := gs[|gs| - 1];
      WellGrouped(gs[..|gs| - 1] + [last.(days := last.days[..|last.days| - 1])])
  {
    var last := gs[|gs| - 1];
    var gs' := gs[..|gs| - 1] + [last.(days := last.days[..|last.days| - 1])];
    assert forall k :: 0 <= k < |gs'| - 1 ==> gs'[k] == gs[k];
    assert gs'[|gs'| - 1].hours == last.hours;
  }

  /** The groups before the last are well grouped, and the one before the
      last could not take in an open last group. */
  lemma WellGroupedFront(gs: seq<Group>)
    requires WellGrouped(gs) && gs != []
    ensures WellGrouped(gs[..|gs| - 1])
    ensures var last := gs[|gs| - 1];
      (last.hours.Open? && |gs| > 1) ==> !Extends(gs[|gs| - 2], last.hours.hours)
  {
    var front := gs[..|gs| - 1];
    assert forall k :: 0 <= k < |front| ==> front[k] == gs[k];
  }

  /** Compacting is the only way to group a week well: any well-grouped
      partition of the day letters that stands for `w` is `Compact(w)`. */
  lemma {:induction false} CompactUnique(w: seq<DayHours>, gs: seq<Group>)
    requires |w| <= 7
    requires WellGrouped(gs) && Letters(gs) == DayLetters[..|w|] && Expand(gs) == w
    ensures gs == Compact(w)
    decreases |w|, 1
  {
    if gs == [] {
      assert |DayLetters[..|w|]| == 0;
    } else if |gs[|gs| - 1].days| == 1 {
      UniqueLastSingle(w, gs);
    } else {
      UniqueLastLonger(w, gs);
    }
  }

  /** `CompactUnique` when the last group holds one day. */
  lemma {:induction false} UniqueLastSingle(w: seq<DayHours>, gs: seq<Group>)
    requires |w| <= 7 && gs != [] && |gs[|gs| - 1].days| == 1
    requires WellGrouped(gs) && Letters(gs) == DayLetters[..|w|] && Expand(gs) == w
    ensures gs == Compact(w)
    decreases |w|, 0
  {
    var front, last := gs[..|gs| - 1], gs[|gs| - 1];
    SnocLast(gs);
    PeelSingleGroup(front, last, w);
    WellGroupedFront(gs);
    CompactUnique(w[..|w| - 1], front);
    SingleGroupStep(w, front, last);
  }

  /** The groups before a last group of one day stand for the week without
      its last day. */
  lemma PeelSingleGroup(front: seq<Group>, last: Group, w: seq<DayHours>)
    requires |w| <= 7 && |last.days| == 1
    requires Letters(front + [last]) == DayLetters[..|w|] && Expand(front + [last]) == w
    ensures |w| >= 1 && w[|w| - 1] == last.hours && last.days == [DayLetters[|w| - 1]]
    ensures Letters(front) == DayLetters[..|w| - 1] && Expand(front) == w[..|w| - 1]
  {
    LettersSnoc(front, last);
    ExpandSnoc(front, last);
    PeelLastDay(front, last, w);
    Singleton(last.days);
  }

  /** A last group of one day that the group before could not take in is the
      last step of compacting the week. */
  lemma SingleGroupStep(w: seq<DayHours>, front: seq<Group>, last: Group)
    requires 1 <= |w| <= 7 && front == Compact(w[..|w| - 1])
    requires w[|w| - 1] == last.hours && last.days == [DayLetters[|w| - 1]]
    requires (last.hours.Open? && |front| > 0) ==> !Extends(front[|front| - 1], last.hours.hours)
    ensures front + [last] == Compact(w)
  {
    assert Compact(w) == Step(front, last.hours, DayLetters[|w| - 1]);
    NewGroupStep(front, last, DayLetters[|w| - 1]);
  }

  /** `CompactUnique` when the last group holds several days. */
  lemma {:induction false} UniqueLastLonger(w: seq<DayHours>, gs: seq<Group>)
    requires |w| <= 7 && gs != [] && |gs[|gs| - 1].days| > 1
    requires WellGrouped(gs) && Letters(gs) == DayLetters[..|w|] && Expand(gs) == w
    ensures gs == Compact(w)
    decreases |w|, 0
  {
    var front, last := gs[..|gs| - 1], gs[|gs| - 1];
    var shorter := last.(days := last.days[..|last.days| - 1]);
    SnocLast(gs);
    PeelLongerGroup(front, last, w);
    ShrinkLast(gs);
    var init := w[..|w| - 1];
    CompactUnique(init, front + [shorter]);
    assert last == shorter.(days := shorter.days + [DayLetters[|init|]]);
    GrownGroupStep(init, front, shorter);
    SnocLast(w);
  }

  /** The groups without the last letter stand for the week without its
      last day. */
  lemma PeelLongerGroup(front: seq<Group>, last: Group, w: seq<DayHours>)
    requires |w| <= 7 && |last.days| > 1
    requires Letters(front + [last]) == DayLetters[..|w|] && Expand(front + [last]) == w
    ensures var shorter := last.(days := last.days[..|last.days| - 1]);
      && |w| >= 1 && w[|w| - 1] == last.hours
      && last.days == shorter.days + [DayLetters[|w| - 1]]
      && Letters(front + [shorter]) == DayLetters[..|w| - 1]
      && Expand(front + [shorter]) == w[..|w| - 1]
  {
    var shorter := last.(days := last.days[..|last.days| - 1]);
    LettersSnoc(front, last);
    ExpandSnoc(front, last);
    PeelLastDay(front, last, w);
    LettersSnoc(front, shorter);
    ExpandSnoc(front, shorter);
  }
}
