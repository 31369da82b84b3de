/** Calendar days as integer ordinals. Day 1 is Monday, 1 January of year 1
    in the proleptic Gregorian calendar (the Rata Die numbering), so every
    date the sheets mention is an ordinal and "the next day" is `d + 1`. */
module Dates {

  type Date = int

  /** The ISO 8601 weekday of `d` (section 4.1.4 of ISO 8601:2004):
      Monday = 1 ... Sunday = 7. */
  function Weekday(d: Date): (w: int)
    ensures 1 <= w <= 7
  {
    (d - 1) % 7 + 1
  }

  /** The Monday of the Monday-to-Sunday week that holds `d`: the date moved
      back by `isoWeekday() - 1` days. */
  function WeekStart(d: Date): (m: Date)
    ensures m <= d < m + 7
  {
    d - (Weekday(d) - 1)
  }

  /** Day `i` (0 = Monday) of the week that holds `d`. */
  function WeekDate(d: Date, i: int): Date
  {
    WeekStart(d) + i
  }

  /** The days of a week that starts on a Monday are numbered 1 to 7 in order. */
  lemma WeekdayInWeek(m: Date, i: int)
    requires Weekday(m) == 1 && 0 <= i < 7
    ensures Weekday(m + i) == i + 1
  {
    var q := (m - 1) / 7;
    assert m - 1 == 7 * q;
    assert m + i - 1 == 7 * q + i;
  }

  /** `WeekStart` lands on a Monday. */
  lemma WeekStartIsMonday(d: Date)
    ensures Weekday(WeekStart(d)) == 1
  {
    var q := (d - 1) / 7;
    assert d - 1 == 7 * q + (d - 1) % 7;
    assert WeekStart(d) - 1 == 7 * q;
  }

  /** Day `i` of the week of `d` has weekday `i + 1`, and `d` itself is day
      `Weekday(d) - 1` of its week. */
  lemma DayOfWeek(d: Date, i: int)
    requires 0 <= i < 7
    ensures Weekday(WeekDate(d, i)) == i + 1
    ensures WeekDate(d, Weekday(d) - 1) == d
  {
    WeekStartIsMonday(d);
    WeekdayInWeek(WeekStart(d), i);
  }

  /** Any two dates of one Monday-to-Sunday week have the same week start. */
  lemma SameWeek(d1: Date, d2: Date)
    requires WeekStart(d1) <= d2 < WeekStart(d1) + 7
    ensures WeekStart(d2) == WeekStart(d1)
  {
    WeekStartIsMonday(d1);
    WeekdayInWeek(WeekStart(d1), d2 - WeekStart(d1));
  }

  /** The day names the schedule sheets use as column names, Monday first. */
  const DayNames: seq<string> :=
    ["monday", "tuesday", "wednesday", "thursday", "friday", "saturday", "sunday"]

  /** The one-letter day codes of the compact week, Monday first. */
  const DayLetters: string := "MTWRFSU"
}
