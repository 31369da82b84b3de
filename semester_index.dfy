/** Choosing the semester whose date range holds a day, and the semester of
    each day of a week (libhours.js, the `_.find` over "Semester Breakdown"). */
module SemesterIndex {
  import opened Wrappers
  import opened Dates
  import opened Sheets

  /** Whether the `_.find` test accepts semester `s` for day `d`: the day is
      the same day as the start, or as the end, or strictly between them. The
      test returns the semester's name, so a semester named "" is never
      accepted. For a well-ordered semester this is the inclusive range. */
  predicate Covers(s: Semester, d: Date)
    ensures s.start <= s.end ==> (Covers(s, d) <==> s.name != "" && s.start <= d <= s.end)
  {
    (d == s.start || d == s.end || (s.start < d && d < s.end)) && s.name != ""
  }

  /** `_.find`: the first semester, in list order, that covers `d`. */
  function FindSemester(sems: seq<Semester>, d: Date): (r: Option<Semester>)
    ensures r.Some? ==> r.value in sems && Covers(r.value, d)
    ensures r.None? <==> forall s :: s in sems ==> !Covers(s, d)
  {
    if sems == [] then None
    else if Covers(sems[0], d) then Some(sems[0])
    else FindSemester(sems[1..], d)
  }

  /** The semester found is the first covering one: when semester `k` covers
      `d` and none before it does, semester `k` is the one chosen, even when a
      later one covers `d` too. */
  lemma {:induction false} FindSemesterIsFirst(sems: seq<Semester>, d: Date, k: int)
    requires 0 <= k < |sems| && Covers(sems[k], d)
    requires forall j :: 0 <= j < k ==> !Covers(sems[j], d)
    ensures FindSemester(sems, d) == Some(sems[k])
  {
    if k > 0 {
      FindSemesterIsFirst(sems[1..], d, k - 1);
    }
  }

  /** Every day of the week of `date` lies in some semester. */
  predicate WeekCovered(sems: seq<Semester>, date: Date)
  {
    forall i :: 0 <= i < 7 ==> FindSemester(sems, WeekDate(date, i)).Some?
  }

  /** `dates_per_day` and `semester_per_day`: the seven dates of the week of
      `date`, Monday first, and the semester found for each. */
  method WeekSemesters(sems: seq<Semester>, date: Date)
    returns (days: seq<Date>, perDay: seq<Option<Semester>>)
    ensures |days| == 7 && |perDay| == 7
    ensures forall i :: 0 <= i < 7 ==> days[i] == WeekDate(date, i)
    ensures forall i :: 0 <= i < 7 ==> perDay[i] == FindSemester(sems, days[i])
    ensures WeekCovered(sems, date) <==> forall i :: 0 <= i < 7 ==> perDay[i].Some?
  {
    var start := date - (Weekday(date) - 1);
    days, perDay := [], [];
    for i := 0 to 7
      invariant |days| == i && |perDay| == i
      invariant forall j :: 0 <= j < i ==> days[j] == WeekDate(date, j)
      invariant forall j :: 0 <= j < i ==> perDay[j] == FindSemester(sems, days[j])
    {
      var day := start + i;
      days := days + [day];
      perDay := perDay + [FindSemester(sems, day)];
    }
  }
}
