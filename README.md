# libhours in Dafny

A model of the core of libhours (`js/libhours.js`), the library that turns the
MIT Libraries hours spreadsheet into the hours shown on the web pages. The
spreadsheet has three kinds of sheet:

- "Holidays and Special Hours": a header row giving each exception column a
  date, then one row per location whose cells hold "closed", special hours
  such as "10am-2pm", or nothing;
- "Semester Breakdown": the semesters, each with a name, a first day and a
  last day;
- one schedule sheet per semester, one row per location and one cell per day
  name ("monday" .. "sunday").

The model covers the four things the library computes from them:

- `buildCompleteHoursObject` (module `WeekResolver`): for the Monday-to-Sunday
  week holding a date, each location's seven hours texts. Each day takes the
  exception entry for its date if there is one, else the regular hours of
  the day's semester, else "TBA".
- `getSingleHoursObject` (`WeekResolver.GetSingleHours`): one day of that week
  for one location.
- `buildNormalHoursObject` (module `WeekCompactor`): each scheduled location's
  regular week, compacted into groups of consecutive days with equal split
  hours under the day letters "MTWRFSU".
- `getSemester`, `buildClosingObject` and `buildExceptionObject` (module
  `CalendarCoalescer`): each location's closings and special-hours days,
  coalesced into ranges of consecutive days.

The supporting modules follow the parts these functions share:

- `Dates`: calendar days as integer ordinals, with the ISO weekday;
- `Sheets`: the sheet data;
- `HoursText`: `split("-")` of an hours cell;
- `SemesterIndex`: the `_.find` over the semesters;
- `ScheduleTable`: `hours_data`;
- `ExceptionTable`: `exceptions`.

The library's loops are methods with loop invariants. Each is proved equal
to a function that states the result, and lemmas about those functions give
the properties.

The formatting of a date as "M/D/YYYY" is the parameter `fmt`. Lemmas that
need distinct dates to have distinct texts say so in their `requires`.

A day with no regular hours shows "TBA", but a day that lies in no semester
never gets that far: the read of `semestername` at js/libhours.js:112 (and
211) is a read of `undefined`, which throws. The model returns
`Failure(NoSemester)` there. The throw happens inside the loop over
locations, so a sheet with no location rows (or, for the normal hours, no
scheduled location) succeeds.

## Model

| member | source | states |
|---|---|---|
| Dates.Weekday | js/libhours.js:18 | The ISO weekday of a day lies between 1 (Monday) and 7 (Sunday). |
| Dates.WeekStart | js/libhours.js:18 | Moving a day back by its weekday minus one gives a day at most six days earlier, and never later. |
| Dates.WeekDate | js/libhours.js:86 | Defines day `i` (0 = Monday) of the week of a date: the week's Monday moved on by `i` days. |
| Dates.WeekStartIsMonday | js/libhours.js:18 | That start of the week is a Monday. |
| Dates.WeekdayInWeek | js/libhours.js:85-88 | The days following a Monday have weekdays 1 to 7, in order. |
| Dates.DayOfWeek | js/libhours.js:85-88 | Day `i` of the week of `d` has weekday `i + 1`, and `d` is day `isoWeekday() - 1` of its own week. |
| Dates.SameWeek | js/libhours.js:8-10 | Two days of one Monday-to-Sunday week have the same week start. |
| Sheets.Cell | js/libhours.js:62 | A cell counts as an entry exactly when it is present and not the empty string, and the entry is its text. |
| HoursText.UpToDash | js/libhours.js:218-219 | Piece 0 of the split is a dash-free prefix of the text, followed by a dash unless it is the whole text. |
| HoursText.SplitHours | js/libhours.js:218-220 | Neither piece holds a dash. `end` is absent exactly when the text has no dash, and then `start` is the whole text. Otherwise "start-end" is a prefix of the text, followed by a dash unless it is the whole text. |
| HoursText.JoinSplit | js/libhours.js:218-220 | A text with at most one dash is rebuilt exactly from its split. |
| HoursText.SplitJoin | js/libhours.js:218-220 | Dash-free hours written as "start-end" split back to themselves. |
| HoursText.JoinHours | js/libhours.js:218-220 | Defines the text a split is written back as, "start-end" or just "start"; `JoinSplit` and `SplitJoin` relate it to `SplitHours`. |
| SemesterIndex.Covers | js/libhours.js:90-97 | For a semester whose start is not after its end, the test accepts a day exactly when the semester has a non-empty name and the day is in the inclusive range. |
| SemesterIndex.FindSemester | js/libhours.js:90-97 | A semester found is listed and covers the day. Nothing is found exactly when no listed semester covers the day. |
| SemesterIndex.FindSemesterIsFirst | js/libhours.js:90-97 | The first covering semester in list order is chosen, even when a later one covers the day too. |
| SemesterIndex.WeekSemesters | js/libhours.js:85-98 | Day `i` is day `i` of the query week. Its semester is the one found for it. Every day has one exactly when the week is covered. |
| ScheduleTable.RowsByLocation | js/libhours.js:75-77 | The index has exactly the sheet's locations as keys, and each maps to one of its own rows. |
| ScheduleTable.LastRowWins | js/libhours.js:75-77 | A location's entry is its last row in the sheet. |
| ScheduleTable.LocationList | js/libhours.js:169-172 | The pushed list holds the rows' locations in row order, repeats kept. |
| ScheduleTable.SemesterTable | js/libhours.js:72-78 | Defines `hours_data[name]`: the named schedule sheet's rows by location, or an empty index when there is no such sheet. |
| ScheduleTable.Libraries | js/libhours.js:163-174 | Defines `libraries`: the locations of every listed semester's sheet rows, semester by semester and row by row, repeats kept. |
| ScheduleTable.HoursData | js/libhours.js:71-79 | Every listed semester's name maps to that semester's sheet indexed by location. A semester without a sheet maps to an empty index. |
| ScheduleTable.LibrariesAreScheduled | js/libhours.js:163-174 | A location is in `libraries` exactly when some listed semester's sheet has a row for it. |
| ScheduleTable.ScheduleValue | js/libhours.js:119 | A regular hours entry found is never empty. |
| ScheduleTable.ScheduleFromLastRow | js/libhours.js:119 | There are no regular hours without the semester's sheet, or without a row for the location. Otherwise they are the day cell of the location's last row. |
| ScheduleTable.IndexRows | js/libhours.js:168-173 | The inner loop builds the location index and the list of pushed locations. |
| ScheduleTable.BuildHoursData | js/libhours.js:165-174 | The semester loop builds `hours_data` as `HoursData` and `libraries` as `Libraries`. |
| ExceptionTable.LastCell | js/libhours.js:58-66 | A value found is never empty. Nothing is found exactly when every row of the location has no entry in the column. |
| ExceptionTable.LastCellIsLast | js/libhours.js:58-66 | The last row of the location with an entry in the column supplies the value, and later empty cells do not erase it. |
| ExceptionTable.ExceptionValue | js/libhours.js:53-68 | An exception found is never empty. None is found exactly when no column of that date has an entry for the location. |
| ExceptionTable.LastColumnWins | js/libhours.js:53-68 | Of several columns with one date, the last in header order that has an entry wins. |
| ExceptionTable.AddColumnLookup | js/libhours.js:58-67 | After one column, a lookup sees that column's entry when the dates match, and the earlier value otherwise. |
| ExceptionTable.ExceptionsLookup | js/libhours.js:53-68 | The table built by the nested loops answers every lookup of location and date with `ExceptionValue`. |
| ExceptionTable.ExceptionForDay | js/libhours.js:116 | With distinct texts for distinct dates, a day has no exception exactly when no column dated that day has an entry for the location. |
| ExceptionTable.AddColumnCells | js/libhours.js:58-67 | The loop over rows for one column gives `AddColumn`. |
| ExceptionTable.BuildExceptions | js/libhours.js:53-68 | The nested loops give `Exceptions`. |
| ExceptionTable.Lookup | js/libhours.js:116 | Defines the test `exceptions[library] && exceptions[library][date]`: an entry only when both keys exist and the text is not empty. |
| ExceptionTable.AddCell | js/libhours.js:59-66 | Defines one pass of the inner loop: the row's location gets a map, and a non-empty cell is written under its column's date. |
| ExceptionTable.AddColumn | js/libhours.js:58-67 | Defines the inner loop over the location rows for one column, rows in order. |
| ExceptionTable.Exceptions | js/libhours.js:53-68 | Defines the table after the outer loop over the exception columns, columns in header order. |
| WeekResolver.Resolve | js/libhours.js:116-124 | A resolved day's text is never empty. |
| WeekResolver.WeekOf | js/libhours.js:107-126 | A location's week has exactly seven entries. |
| WeekResolver.ResolveWeek | js/libhours.js:11-129 | The build fails exactly when there are location rows and some day of the week has no semester. Otherwise its keys are exactly the sheet's locations, each with seven entries. |
| WeekResolver.GetSingleHours | js/libhours.js:250-253 | The lookup fails exactly when the location has no entry. |
| WeekResolver.ResolveWeekAnchored | js/libhours.js:8-18 | Any two dates of one Monday-to-Sunday week give the same result. |
| WeekResolver.SingleDayIsQueryDay | js/libhours.js:250-253 | Querying one day of the week computed for a date, with that same date, gives that date's own resolved entry under its day name and semester. |
| WeekResolver.ExceptionPrecedence | js/libhours.js:116-118 | When a column dated the day has an entry for the location, the day shows the last such column's entry, whatever the schedule says. |
| WeekResolver.SchedulePrecedence | js/libhours.js:119-124 | Without an exception, the day shows the cell of the location's last row in the semester's sheet, or "TBA" when that cell is empty or the row or sheet is missing. |
| WeekResolver.ResolveEntry | js/libhours.js:116-124 | The three tests of one day give `Resolve`. |
| WeekResolver.ResolveLibraryWeek | js/libhours.js:108-125 | The day loop of one location fails exactly when the week is not covered, and otherwise gives `WeekOf`. |
| WeekResolver.BuildCompleteHours | js/libhours.js:11-129 | `buildCompleteHoursObject` returns `ResolveWeek`. |
| WeekCompactor.Extends | js/libhours.js:225 | The merge test holds exactly when the last group is open with the day's hours; a "TBA" group never matches. |
| WeekCompactor.Step | js/libhours.js:213-243 | Defines one day of the loop: an open day the last group extends grows it by the day's letter; any other day is pushed as a group of its own. |
| WeekCompactor.Compact | js/libhours.js:207-244 | Defines `singleHours` after the first days of a week: the steps of those days, Monday first. |
| WeekCompactor.StepLetters | js/libhours.js:222-243 | Each day's step appends exactly that day's letter to the groups' letters. |
| WeekCompactor.StepLast | js/libhours.js:222-243 | After a day's step, the last group has that day's hours, and the number of groups grows by at most one. |
| WeekCompactor.StepWellGrouped | js/libhours.js:222-243 | A day's step keeps the groups well grouped. |
| WeekCompactor.StepExpand | js/libhours.js:222-243 | A day's step adds exactly that day to the days the groups stand for. |
| WeekCompactor.CompactLetters | js/libhours.js:200-244 | The groups' letters, read in order, spell "MTWRFSU" up to the week's length, so each day is in exactly one group. |
| WeekCompactor.CompactExpand | js/libhours.js:200-244 | Expanding the groups gives back the week they were built from. |
| WeekCompactor.CompactWellGrouped | js/libhours.js:200-244 | Groups are non-empty, and a "TBA" group holds one day. No group could have absorbed an open group after it. There are between one and `n` groups for `n` days. |
| WeekCompactor.CompactUnique | js/libhours.js:222-243 | Any well-grouped partition of the day letters that stands for the week is the compact one. |
| WeekCompactor.NewGroupStep | js/libhours.js:228-241 | A day the last group cannot absorb opens a one-letter group. |
| WeekCompactor.GrownGroupStep | js/libhours.js:225-227 | A day with the last open group's hours grows that group by its letter. |
| WeekCompactor.UniformRun | js/libhours.js:225-227 | `n` days with equal open hours form one group with the first `n` letters. |
| WeekCompactor.TBARun | js/libhours.js:239-243 | Every "TBA" day is a group of its own, with its own letter. |
| WeekCompactor.ScheduleDay | js/libhours.js:215-220 | A day is "TBA" exactly when it has no regular hours entry, and an open day's start has no dash. |
| WeekCompactor.ScheduleDayText | js/libhours.js:218-220 | A day whose entry has at most one dash is open, with hours that rebuild the entry. |
| WeekCompactor.ScheduleWeek | js/libhours.js:208-211 | The regular week has seven days. |
| WeekCompactor.NormalWeek | js/libhours.js:131-248 | The build fails exactly when there are scheduled locations and the week is not covered. Otherwise its keys are exactly the scheduled locations. |
| WeekCompactor.ReadDay | js/libhours.js:215-220 | The test and split of one day give `ScheduleDay`. |
| WeekCompactor.PushOpenDay | js/libhours.js:222-238 | The pop-compare-push of an open day gives `Step`. |
| WeekCompactor.CompactLibraryWeek | js/libhours.js:207-245 | One location's day loop fails exactly when the week is not covered, and otherwise gives the compacted regular week. |
| WeekCompactor.BuildNormalHours | js/libhours.js:131-248 | `buildNormalHoursObject` returns `NormalWeek`. |
| WeekCompactor.NormalWeekAnchored | js/libhours.js:138 | Any two dates of one week give the same normal hours. |
| WeekCompactor.NormalWeekIgnoresExceptions | js/libhours.js:131-248 | The holidays sheet plays no part in the normal hours. |
| WeekCompactor.NormalWeekShape | js/libhours.js:200-245 | Each location's groups spell "MTWRFSU" exactly once and stand for its regular week. They are well grouped, one to seven of them. |
| CalendarCoalescer.BuildClosing | js/libhours.js:365-375 | A new closing spans exactly its one day, under the column's name. |
| CalendarCoalescer.BuildException | js/libhours.js:377-396 | A new special-hours block spans exactly its one day, under the column's name. Its start has no dash, and a text with at most one dash is rebuilt from its hours. |
| CalendarCoalescer.Continues | js/libhours.js:276-325 | Defines the merge test of both kinds: the entry is dated the day after the previous entry of its kind, which is where the last block ends, and has that block's hours (closings have none). |
| CalendarCoalescer.Absorb | js/libhours.js:276-345 | Defines one entry of the scan: pop the last block and push it back with its end moved when the entry continues it, else push a new one-day block. |
| CalendarCoalescer.Coalesce | js/libhours.js:268-353 | Defines the list of one kind after scanning its entries in header order. |
| CalendarCoalescer.ClosedRuns | js/libhours.js:270-274 | Defines the entries that reach the closing branch: the "closed" cells, in header order. |
| CalendarCoalescer.TimedRuns | js/libhours.js:301-313 | Defines the entries that reach the special-hours branch: the other non-empty cells, in header order, with their split hours. |
| CalendarCoalescer.LibraryCalendar | js/libhours.js:259-357 | Defines what one location row records: its coalesced closings and its coalesced special-hours blocks. |
| CalendarCoalescer.AbsorbUnrolls | js/libhours.js:276-297 | One step adds exactly the new entry's day and hours, and keeps every block in date order. |
| CalendarCoalescer.AbsorbMaximal | js/libhours.js:276-297 | One step keeps the blocks maximal. |
| CalendarCoalescer.AbsorbOpeners | js/libhours.js:303-345 | One step keeps each block's start and reason those of the entry that opened it. |
| CalendarCoalescer.CoalesceUnrolls | js/libhours.js:268-353 | The blocks stand for exactly the entries, in order, each on its own day with its own hours, so each entry is in exactly one block. No block ends before it starts. |
| CalendarCoalescer.CoalesceMaximal | js/libhours.js:268-353 | No block could have absorbed the next one: it starts on another day than the day after, or has other hours. |
| CalendarCoalescer.CoalesceOpeners | js/libhours.js:268-353 | Each block starts on the date of, and keeps the reason of, the first entry after those of the blocks before it. |
| CalendarCoalescer.TimedCell | js/libhours.js:270-274 | A cell is a special-hours entry exactly when it is an entry other than "closed". |
| CalendarCoalescer.RunsPartitionCells | js/libhours.js:270-274 | Every non-empty cell is exactly one closed entry or one special-hours entry. |
| CalendarCoalescer.LibraryCalendarBlocks | js/libhours.js:259-358 | A location's closings stand for exactly its "closed" days, and its special-hours blocks for exactly its other entries with their hours. Both lists are ordered and maximal, and keep the reasons of their opening columns. |
| CalendarCoalescer.ExceptionsIgnoreClosings | js/libhours.js:303-347 | The special-hours blocks depend only on the special-hours cells, because each kind has its own cursor. |
| CalendarCoalescer.ClosingsIgnoreExceptions | js/libhours.js:274-299 | The closings depend only on the "closed" cells. |
| CalendarCoalescer.PushClosing | js/libhours.js:276-299 | Handling a "closed" cell is one coalescing step, and leaves the cursor on the new last closing's end, that cell's date. |
| CalendarCoalescer.PushException | js/libhours.js:303-347 | Handling a special-hours cell is one coalescing step, and leaves the cursor on the new last block's end, that cell's date. |
| CalendarCoalescer.LibraryCalendarOf | js/libhours.js:261-356 | The column loop of one location gives `LibraryCalendar`. |
| CalendarCoalescer.Calendar | js/libhours.js:255-363 | The result has exactly the holidays sheet's locations as keys. |
| CalendarCoalescer.CalendarOfLastRow | js/libhours.js:357 | A location's entry is the calendar of its last row. |
| CalendarCoalescer.BuildCalendar | js/libhours.js:255-363 | `getSemester` returns `Calendar`. |
| CalendarCoalescer.ClosedPair | js/libhours.js:276-285 | Closings on two consecutive days form one block under the first column's name. |
| CalendarCoalescer.ClosedPairScenario | js/libhours.js:268-353 | Closed on Christmas Eve and Christmas, with a special-hours column between them in the header, the row gives one two-day closing and a separate special-hours block. |
| CalendarCoalescer.ConsecutiveHoursScenario | js/libhours.js:303-333 | Special hours on two consecutive days merge exactly when their hours are equal, keeping the first reason. |

## Left out

- Loading the sheets (Tabletop or JSON), the page templates and the
  `moment` and underscore helpers are not part of this model. The sheets are
  given as values.
- Parsing a header cell into a date, and formatting a date as "M/D/YYYY",
  are not modelled. A column carries its header date as an ordinal, and
  formatting is the parameter `fmt`. The exception table keys each entry by
  `fmt` of its column's date, where the code keys it by the header cell's own
  text. A header written in any other form (a leading zero, say) never
  matches in the code but matches in the model.
- A header row with no date for a column is not modelled.
- In `getSemester`, a block's dates are ordinals, where the code keeps the
  header texts.
- The comparison `isSame(... .add(1, 'day'))` is taken to be "the next
  ordinal". Times of day and daylight-saving shifts are not modelled.
- JavaScript object-key quirks are not modelled: keys such as
  "hasOwnProperty", two sheets whose names collide, and cells whose values
  are not strings.
- `buildCompleteHoursObject` stores each location's week in an object with
  keys 0..6. The model stores a sequence of seven texts.
- `GetSingleHours` returns `Failure(UnknownLocation)` for a location the
  week does not hold, where the code throws a TypeError.
