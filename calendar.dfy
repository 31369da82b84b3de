/** The whole-calendar view of the holidays sheet: for every location, its
    "closed" cells and its special-hours cells coalesced into date ranges
    (libhours.js `getSemester`, `buildClosingObject`, `buildExceptionObject`). */
module CalendarCoalescer {
  import opened Wrappers
  import opened Dates
  import opened Sheets
  import opened HoursText
  import opened ScheduleTable

  /** `dates`: the first and the last day of a block. */
  datatype DateRange = DateRange(start: Date, end: Date)

  /** One non-empty cell of a location row as the scan meets it: the date of
      its column, the name of its column and what the block compares, its
      split hours (nothing, for a closing). */
  datatype Run<H> = Run(date: Date, reason: string, hours: H)

  /** A block of days: its range, the column name that opened it and its
      hours. */
  datatype Block<H> = Block(dates: DateRange, reason: string, hours: H)

  /** `{dates, reason}`: closings carry no hours. */
  type Closing = Block<()>

  /** `{dates, reason, hours}`. */
  type TimedException = Block<Hours>

  /** `{closings, exceptions}` of one location. */
  datatype LibraryDates = LibraryDates(closings: seq<Closing>, exceptions: seq<TimedException>)

  /** The days of a range, in order. */
  function Span(r: DateRange): (days: seq<Date>)
    ensures r.start <= r.end ==> |days| == r.end - r.start + 1 && days[0] == r.start && days[|days| - 1] == r.end
    ensures r.end < r.start ==> days == []
    ensures forall k :: 0 <= k < |days| ==> days[k] == r.start + k
  {
    if r.end < r.start then [] else seq(r.end - r.start + 1, k requires 0 <= k <= r.end - r.start => r.start + k)
  }

  /** `buildClosingObject`: a closing of the one day `date`. */
  function BuildClosing(date: Date, name: string): (c: Closing)
    ensures Span(c.dates) == [date] && c.reason == name
  {
    Block(DateRange(date, date), name, ())
  }

  /** `buildExceptionObject`: special hours on the one day `date`, the cell
      split at its dashes. */
  function BuildException(date: Date, name: string, text: string): (e: TimedException)
    ensures Span(e.dates) == [date] && e.reason == name
    ensures '-' !in e.hours.start
    ensures AtMostOneDash(text) ==> JoinHours(e.hours) == text
  {
    JoinSplitWhenSimple(text);
    Block(DateRange(date, date), name, SplitHours(text))
  }

  /** A cell with at most one dash joins back from its split. */
  lemma JoinSplitWhenSimple(text: string)
    ensures AtMostOneDash(text) ==> JoinHours(SplitHours(text)) == text
  {
    if AtMostOneDash(text) {
      JoinSplit(text);
    }
  }

  /** A block of the one day of `r`. */
  function Fresh<H>(r: Run<H>): Block<H>
  {
    Block(DateRange(r.date, r.date), r.reason, r.hours)
  }

  /** The merge test: the run falls on the day after the block ends and has
      the block's hours. */
  predicate Continues<H(==)>(b: Block<H>, r: Run<H>)
  {
    r.date == b.dates.end + 1 && r.hours == b.hours
  }

  /** One run more: a run that continues the last block moves that block's
      end to its date; any other run opens a block of its own. */
  function Absorb<H(==)>(bs: seq<Block<H>>, r: Run<H>): seq<Block<H>>
  {
    if |bs| > 0 && Continues(bs[|bs| - 1], r) then
      bs[..|bs| - 1] + [bs[|bs| - 1].(dates := bs[|bs| - 1].dates.(end := r.date))]
    else
      bs + [Fresh(r)]
  }

  /** The blocks of some runs of one kind, scanned in order. */
  function Coalesce<H(==)>(rs: seq<Run<H>>): seq<Block<H>>
  {
    if rs == [] then [] else Absorb(Coalesce(rs[..|rs| - 1]), rs[|rs| - 1])
  }

  /** The (day, hours) pairs a block stands for. */
  function Spread<H>(b: Block<H>): seq<(Date, H)>
  {
    var days := Span(b.dates);
    seq(|days|, k requires 0 <= k < |days| => (days[k], b.hours))
  }

  /** The (day, hours) pairs some blocks stand for, in order. */
  function Unroll<H>(bs: seq<Block<H>>): seq<(Date, H)>
  {
    if bs == [] then [] else Unroll(bs[..|bs| - 1]) + Spread(bs[|bs| - 1])
  }

  /** The (day, hours) pairs of some runs. */
  function Pairs<H>(rs: seq<Run<H>>): (ps: seq<(Date, H)>)
    ensures |ps| == |rs| && forall i :: 0 <= i < |rs| ==> ps[i] == (rs[i].date, rs[i].hours)
  {
    seq(|rs|, i requires 0 <= i < |rs| => (rs[i].date, rs[i].hours))
  }

  /** Every block ends on or after the day it starts. */
  predicate Ordered<H>(bs: seq<Block<H>>)
  {
    forall k :: 0 <= k < |bs| ==> bs[k].dates.start <= bs[k].dates.end
  }

  /** One more block unrolls to its own days after the others. */
  lemma {:induction false} UnrollSnoc<H>(bs: seq<Block<H>>, b: Block<H>)
    ensures Unroll(bs + [b]) == Unroll(bs) + Spread(b)
  {
    assert (bs + [b])[..|bs|] == bs;
  }

  /** Moving the end of a block one day on adds that day. */
  lemma SpreadExtend<H>(b: Block<H>, d: Date)
    requires b.dates.start <= b.dates.end && d == b.dates.end + 1
    ensures Spread(b.(dates := b.dates.(end := d))) == Spread(b) + [(d, b.hours)]
  {
  }

  /** The last run adds the last pair. */
  lemma PairsLast<H>(rs: seq<Run<H>>)
    requires rs != []
    ensures Pairs(rs) == Pairs(rs[..|rs| - 1]) + [(rs[|rs| - 1].date, rs[|rs| - 1].hours)]
  {
  }

  /** No block could have taken in the block after it: the next block
      either does not start the day after, or has other hours. */
  predicate Maximal<H(==)>(bs: seq<Block<H>>)
  {
    forall k :: 0 <= k < |bs| - 1 ==>
      !Continues(bs[k], Run(bs[k + 1].dates.start, bs[k + 1].reason, bs[k + 1].hours))
  }

  /** Block `k` starts on the day, and carries the reason, of run
      `|Unroll(bs[..k])|`: the first run after those of the blocks before it. */
  predicate Openers<H>(bs: seq<Block<H>>, rs: seq<Run<H>>)
  {
    forall k :: 0 <= k < |bs| ==>
      && |Unroll(bs[..k])| < |rs|
      && bs[k].dates.start == rs[|Unroll(bs[..k])|].date
      && bs[k].reason == rs[|Unroll(bs[..k])|].reason
  }

  /** A run that continues the last block moves its end one day on, which
      adds exactly the run's pair. */
  lemma GrowUnrolls<H>(front: seq<Block<H>>, last: Block<H>, r: Run<H>)
    requires last.dates.start <= last.dates.end && Continues(last, r)
    ensures Unroll(front + [last.(dates := last.dates.(end := r.date))]) == Unroll(front + [last]) + [(r.date, r.hours)]
  {
    UnrollSnoc(front, last);
    UnrollSnoc(front, last.(dates := last.dates.(end := r.date)));
    SpreadExtend(last, r.date);
  }

  /** A run that opens a block adds exactly its pair. */
  lemma FreshUnrolls<H>(bs: seq<Block<H>>, r: Run<H>)
    ensures Unroll(bs + [Fresh(r)]) == Unroll(bs) + [(r.date, r.hours)]
  {
    UnrollSnoc(bs, Fresh(r));
    assert Spread(Fresh(r)) == [(r.date, r.hours)];
  }

  /** One step keeps every block in order. */
  lemma AbsorbOrdered<H>(bs: seq<Block<H>>, r: Run<H>)
    requires Ordered(bs)
    ensures Ordered(Absorb(bs, r))
  {
    var cs := Absorb(bs, r);
    if |bs| > 0 && Continues(bs[|bs| - 1], r) {
      assert forall k :: 0 <= k < |bs| - 1 ==> cs[k] == bs[k];
    } else {
      assert forall k :: 0 <= k < |bs| ==> cs[k] == bs[k];
    }
  }

  /** One step adds exactly the run's pair and keeps every block in order. */
  lemma AbsorbUnrolls<H>(bs: seq<Block<H>>, r: Run<H>)
    requires Ordered(bs)
    ensures Unroll(Absorb(bs, r)) == Unroll(bs) + [(r.date, r.hours)]
    ensures Ordered(Absorb(bs, r))
  {
    AbsorbOrdered(bs, r);
    if |bs| > 0 && Continues(bs[|bs| - 1], r) {
      var front, last := bs[..|bs| - 1], bs[|bs| - 1];
      assert bs == front + [last];
      GrowUnrolls(front, last, r);
    } else {
      FreshUnrolls(bs, r);
    }
  }

  /** One step keeps the blocks maximal: only the last block can grow, and a
      run that does not continue it opens the next one. */
  lemma AbsorbMaximal<H>(bs: seq<Block<H>>, r: Run<H>)
    requires Maximal(bs)
    ensures Maximal(Absorb(bs, r))
  {
    var cs := Absorb(bs, r);
    if |bs| > 0 && Continues(bs[|bs| - 1], r) {
      assert forall k :: 0 <= k < |bs| - 1 ==> cs[k] == bs[k];
    } else {
      assert forall k :: 0 <= k < |bs| ==> cs[k] == bs[k];
    }
  }

  /** One step keeps every block's opening run: a grown block keeps its start
      and reason, and a new block opens at the new run. */
  lemma AbsorbOpeners<H>(bs: seq<Block<H>>, rs: seq<Run<H>>)
    requires rs != [] && Openers(bs, rs[..|rs| - 1]) && |Unroll(bs)| == |rs| - 1
    ensures Openers(Absorb(bs, rs[|rs| - 1]), rs)
  {
    var r := rs[|rs| - 1];
    if |bs| > 0 && Continues(bs[|bs| - 1], r) {
      GrownOpeners(bs, rs);
    } else {
      FreshOpeners(bs, rs);
    }
  }

  /** A grown last block keeps its start and reason. */
  lemma GrownOpeners<H>(bs: seq<Block<H>>, rs: seq<Run<H>>)
    requires rs != [] && Openers(bs, rs[..|rs| - 1])
    requires |bs| > 0 && Continues(bs[|bs| - 1], rs[|rs| - 1])
    ensures Openers(Absorb(bs, rs[|rs| - 1]), rs)
  {
    var cs := Absorb(bs, rs[|rs| - 1]);
    assert |cs| == |bs|;
    forall k | 0 <= k < |cs|
      ensures && |Unroll(cs[..k])| < |rs|
              && cs[k].dates.start == rs[|Unroll(cs[..k])|].date
              && cs[k].reason == rs[|Unroll(cs[..k])|].reason
    {
      assert cs[..k] == bs[..k];
      assert cs[k].dates.start == bs[k].dates.start && cs[k].reason == bs[k].reason;
    }
  }

  /** A fresh block opens at the new run, after all the earlier runs. */
  lemma FreshOpeners<H>(bs: seq<Block<H>>, rs: seq<Run<H>>)
    requires rs != [] && Openers(bs, rs[..|rs| - 1]) && |Unroll(bs)| == |rs| - 1
    ensures Openers(bs + [Fresh(rs[|rs| - 1])], rs)
  {
    var cs := bs + [Fresh(rs[|rs| - 1])];
    forall k | 0 <= k < |cs|
      ensures && |Unroll(cs[..k])| < |rs|
              && cs[k].dates.start == rs[|Unroll(cs[..k])|].date
              && cs[k].reason == rs[|Unroll(cs[..k])|].reason
    {
      if k < |bs| {
        assert cs[..k] == bs[..k];
      } else {
        assert cs[..k] == bs;
      }
    }
  }

  /** The blocks stand for exactly the runs, in order: every run lands in
      exactly one block, on its own day and with its own hours, and no block
      runs backwards. */
  lemma {:induction false} CoalesceUnrolls<H>(rs: seq<Run<H>>)
    ensures Unroll(Coalesce(rs)) == Pairs(rs)
    ensures Ordered(Coalesce(rs))
  {
    if rs != [] {
      var init, r := rs[..|rs| - 1], rs[|rs| - 1];
      CoalesceUnrolls(init);
      AbsorbUnrolls(Coalesce(init), r);
      PairsLast(rs);
    }
  }

  /** Only the last block ever grows, so the blocks are maximal. */
  lemma {:induction false} CoalesceMaximal<H>(rs: seq<Run<H>>)
    ensures Maximal(Coalesce(rs))
  {
    if rs != [] {
      CoalesceMaximal(rs[..|rs| - 1]);
      AbsorbMaximal(Coalesce(rs[..|rs| - 1]), rs[|rs| - 1]);
    }
  }

  /** A block keeps the start and the reason of the run that opened it. */
  lemma {:induction false} CoalesceOpeners<H>(rs: seq<Run<H>>)
    ensures Openers(Coalesce(rs), rs)
  {
    if rs != [] {
      var init, r := rs[..|rs| - 1], rs[|rs| - 1];
      CoalesceOpeners(init);
      CoalesceUnrolls(init);
      AbsorbOpeners(Coalesce(init), rs);
    }
  }

  /** The cell is the exact text "closed". */
  predicate IsClosed(row: Row, name: string)
  {
    Cell(row, name) == Some("closed")
  }

  /** The cell when it holds special hours: non-empty and not "closed". */
  function TimedCell(row: Row, name: string): (t: Option<string>)
    ensures t.Some? <==> Cell(row, name).Some? && !IsClosed(row, name)
    ensures t.Some? ==> t == Cell(row, name)
  {
    match Cell(row, name)
    case Some(text) => if text != "closed" then Some(text) else None
    case None => None
  }

  /** The "closed" cells of a location row, over the columns in header order. */
  function ClosedRuns(cols: seq<Column>, row: Row): seq<Run<()>>
  {
    if cols == [] then []
    else
      var col := cols[|cols| - 1];
      var rest := ClosedRuns(cols[..|cols| - 1], row);
      if IsClosed(row, col.name) then rest + [Run(col.date, col.name, ())] else rest
  }

  /** The special-hours cells of a location row, split into hours, over the
      columns in header order. */
  function TimedRuns(cols: seq<Column>, row: Row): seq<Run<Hours>>
  {
    if cols == [] then []
    else
      var col := cols[|cols| - 1];
      var rest := TimedRuns(cols[..|cols| - 1], row);
      match TimedCell(row, col.name)
      case Some(text) => rest + [Run(col.date, col.name, SplitHours(text))]
      case None => rest
  }

  /** The number of non-empty cells of a location row. */
  function Filled(cols: seq<Column>, row: Row): nat
  {
    if cols == [] then 0
    else Filled(cols[..|cols| - 1], row) + (if Cell(row, cols[|cols| - 1].name).Some? then 1 else 0)
  }

  /** Every non-empty cell is a run of exactly one of the two kinds. */
  lemma {:induction false} RunsPartitionCells(cols: seq<Column>, row: Row)
    ensures |ClosedRuns(cols, row)| + |TimedRuns(cols, row)| == Filled(cols, row)
  {
    if cols != [] {
      RunsPartitionCells(cols[..|cols| - 1], row);
    }
  }

  /** What `getSemester` records for one location row. */
  function LibraryCalendar(cols: seq<Column>, row: Row): LibraryDates
  {
    LibraryDates(Coalesce(ClosedRuns(cols, row)), Coalesce(TimedRuns(cols, row)))
  }

  /** A location's closings stand for exactly its "closed" days and its
      special-hours blocks for exactly its other entries, day by day and hours
      by hours; both lists are maximal and keep the reason of the column that
      opened each block. */
  lemma LibraryCalendarBlocks(cols: seq<Column>, row: Row)
    ensures var ld := LibraryCalendar(cols, row);
      && Unroll(ld.closings) == Pairs(ClosedRuns(cols, row))
      && Unroll(ld.exceptions) == Pairs(TimedRuns(cols, row))
      && Ordered(ld.closings) && Ordered(ld.exceptions)
      && Maximal(ld.closings) && Maximal(ld.exceptions)
      && Openers(ld.closings, ClosedRuns(cols, row))
      && Openers(ld.exceptions, TimedRuns(cols, row))
  {
    CoalesceUnrolls(ClosedRuns(cols, row));
    CoalesceUnrolls(TimedRuns(cols, row));
    CoalesceMaximal(ClosedRuns(cols, row));
    CoalesceMaximal(TimedRuns(cols, row));
    CoalesceOpeners(ClosedRuns(cols, row));
    CoalesceOpeners(TimedRuns(cols, row));
  }

  /** The special-hours cells alone decide the special-hours blocks: a row
      whose "closed" cells differ, but whose other cells agree, has the same
      exceptions. */
  lemma {:induction false} ExceptionsIgnoreClosings(cols: seq<Column>, row1: Row, row2: Row)
    requires forall j :: 0 <= j < |cols| ==> TimedCell(row1, cols[j].name) == TimedCell(row2, cols[j].name)
    ensures TimedRuns(cols, row1) == TimedRuns(cols, row2)
    ensures LibraryCalendar(cols, row1).exceptions == LibraryCalendar(cols, row2).exceptions
  {
    if cols != [] {
      ExceptionsIgnoreClosings(cols[..|cols| - 1], row1, row2);
    }
  }

  /** The "closed" cells alone decide the closings: a row whose special-hours
      cells differ, but whose "closed" cells agree, has the same closings. */
  lemma {:induction false} ClosingsIgnoreExceptions(cols: seq<Column>, row1: Row, row2: Row)
    requires forall j :: 0 <= j < |cols| ==> IsClosed(row1, cols[j].name) == IsClosed(row2, cols[j].name)
    ensures ClosedRuns(cols, row1) == ClosedRuns(cols, row2)
    ensures LibraryCalendar(cols, row1).closings == LibraryCalendar(cols, row2).closings
  {
    if cols != [] {
      ClosingsIgnoreExceptions(cols[..|cols| - 1], row1, row2);
    }
  }

  /** A "closed" column adds one closing run and no special-hours run. */
  lemma StepClosed(cols: seq<Column>, row: Row, j: int)
    requires 0 <= j < |cols| && IsClosed(row, cols[j].name)
    ensures Coalesce(ClosedRuns(cols[..j + 1], row))
      == Absorb(Coalesce(ClosedRuns(cols[..j], row)), Run(cols[j].date, cols[j].name, ()))
    ensures TimedRuns(cols[..j + 1], row) == TimedRuns(cols[..j], row)
  {
    assert cols[..j + 1][..j] == cols[..j];
    CoalesceSnoc(ClosedRuns(cols[..j], row), Run(cols[j].date, cols[j].name, ()));
  }

  /** A special-hours column adds one special-hours run and no closing run. */
  lemma StepTimed(cols: seq<Column>, row: Row, j: int, text: string)
    requires 0 <= j < |cols| && TimedCell(row, cols[j].name) == Some(text)
    ensures ClosedRuns(cols[..j + 1], row) == ClosedRuns(cols[..j], row)
    ensures Coalesce(TimedRuns(cols[..j + 1], row))
      == Absorb(Coalesce(TimedRuns(cols[..j], row)), Run(cols[j].date, cols[j].name, SplitHours(text)))
  {
    assert cols[..j + 1][..j] == cols[..j];
    CoalesceSnoc(TimedRuns(cols[..j], row), Run(cols[j].date, cols[j].name, SplitHours(text)));
  }

  /** An empty column adds no run. */
  lemma StepEmpty(cols: seq<Column>, row: Row, j: int)
    requires 0 <= j < |cols| && Cell(row, cols[j].name).None?
    ensures ClosedRuns(cols[..j + 1], row) == ClosedRuns(cols[..j], row)
    ensures TimedRuns(cols[..j + 1], row) == TimedRuns(cols[..j], row)
  {
    assert cols[..j + 1][..j] == cols[..j];
  }

  /** One more run is one more step. */
  lemma CoalesceSnoc<H>(rs: seq<Run<H>>, r: Run<H>)
    ensures Coalesce(rs + [r]) == Absorb(Coalesce(rs), r)
  {
    assert (rs + [r])[..|rs|] == rs;
  }

  /** The date of the last entry of a kind, which is where its last block
      ends; nothing before the first. */
  function LastEnd<H>(bs: seq<Block<H>>): Option<Date>
  {
    if bs == [] then None else Some(bs[|bs| - 1].dates.end)
  }

  /** A "closed" cell: pop the last closing and push it back with its end
      moved to `date` when `date` is the day after the previous closed date,
      else push a new closing. The closed-date cursor moves to `date`. */
  method PushClosing(closed: seq<Closing>, closedBefore: Option<Date>, date: Date, name: string)
    returns (closed': seq<Closing>, closedBefore': Option<Date>)
    requires closedBefore == LastEnd(closed)
    ensures closed' == Absorb(closed, Run(date, name, ()))
    ensures closedBefore' == LastEnd(closed') == Some(date)
  {
    if closedBefore.Some? && date == closedBefore.value + 1 {
      var single := closed[|closed| - 1];
      assert Continues(single, Run(date, name, ()));
      closed' := closed[..|closed| - 1];
      single := single.(dates := single.dates.(end := date));
      closed' := closed' + [single];
    } else {
      closed' := closed + [BuildClosing(date, name)];
    }
    closedBefore' := Some(date);
  }

  /** A special-hours cell: when `date` is the day after the previous
      special-hours date, split the cell, pop the last block and push it back
      with its end moved to `date` if its start and end are the split's, else
      push it back and then a new block; otherwise push a new block. The
      special-hours cursor moves to `date`. */
  method PushException(
    exceptions: seq<TimedException>, exceptionsBefore: Option<Date>, date: Date, name: string, text: string)
    returns (exceptions': seq<TimedException>, exceptionsBefore': Option<Date>)
    requires exceptionsBefore == LastEnd(exceptions)
    ensures exceptions' == Absorb(exceptions, Run(date, name, SplitHours(text)))
    ensures exceptionsBefore' == LastEnd(exceptions') == Some(date)
  {
    if exceptionsBefore.Some? && date == exceptionsBefore.value + 1 {
      var hours := SplitHours(text);
      var single := exceptions[|exceptions| - 1];
      exceptions' := exceptions[..|exceptions| - 1];
      if single.hours.start == hours.start && single.hours.end == hours.end {
        single := single.(dates := single.dates.(end := date));
        exceptions' := exceptions' + [single];
      } else {
        exceptions' := exceptions' + [single];
        exceptions' := exceptions' + [BuildException(date, name, text)];
      }
    } else {
      exceptions' := exceptions + [BuildException(date, name, text)];
    }
    exceptionsBefore' := Some(date);
  }

  /** The scan of one location row over the exception columns in header
      order, with one list and one previous-date cursor per kind. */
  method LibraryCalendarOf(cols: seq<Column>, row: Row) returns (ld: LibraryDates)
    ensures ld == LibraryCalendar(cols, row)
  {
    var closed: seq<Closing> := [];
    var exceptions: seq<TimedException> := [];
    var closedBefore: Option<Date> := None;
    var exceptionsBefore: Option<Date> := None;
    for j := 0 to |cols|
      invariant closed == Coalesce(ClosedRuns(cols[..j], row)) && closedBefore == LastEnd(closed)
      invariant exceptions == Coalesce(TimedRuns(cols[..j], row)) && exceptionsBefore == LastEnd(exceptions)
    {
      var name := cols[j].name;
      if name in row.cells && row.cells[name] != "" {
        var date := cols[j].date;
        if row.cells[name] == "closed" {
          StepClosed(cols, row, j);
          closed, closedBefore := PushClosing(closed, closedBefore, date, name);
        } else {
          StepTimed(cols, row, j, row.cells[name]);
          exceptions, exceptionsBefore := PushException(exceptions, exceptionsBefore, date, name, row.cells[name]);
        }
      } else {
        StepEmpty(cols, row, j);
      }
    }
    assert cols[..|cols|] == cols;
    ld := LibraryDates(closed, exceptions);
  }

  /** The calendars of some location rows, by location. */
  function CalendarOf(cols: seq<Column>, t: map<string, Row>): (c: map<string, LibraryDates>)
    ensures c.Keys == t.Keys
  {
    map l | l in t :: LibraryCalendar(cols, t[l])
  }

  /** What `getSemester(data)` returns: one entry per location of the holidays
      sheet, the calendar of the location's last row (a later row of the same
      location replaces an earlier one). */
  function Calendar(sheet: HolidaySheet): (c: map<string, LibraryDates>)
    ensures c.Keys == Locations(sheet.rows)
  {
    CalendarOf(sheet.columns, RowsByLocation(sheet.rows))
  }

  /** The entry of a location is the calendar of its last row. */
  lemma CalendarOfLastRow(sheet: HolidaySheet, k: int)
    requires 0 <= k < |sheet.rows|
    requires forall j :: k < j < |sheet.rows| ==> sheet.rows[j].location != sheet.rows[k].location
    ensures sheet.rows[k].location in Calendar(sheet)
    ensures Calendar(sheet)[sheet.rows[k].location] == LibraryCalendar(sheet.columns, sheet.rows[k])
  {
    LastRowWins(sheet.rows, k);
  }

  /** One more row records its calendar under its location. */
  lemma CalendarOfStep(cols: seq<Column>, rows: seq<Row>, k: int)
    requires 0 <= k < |rows|
    ensures CalendarOf(cols, RowsByLocation(rows[..k + 1]))
      == CalendarOf(cols, RowsByLocation(rows[..k]))[rows[k].location := LibraryCalendar(cols, rows[k])]
  {
    RowsByLocationStep(rows, k);
  }

  /** `getSemester`: scan every location row and record its calendar under
      its location. */
  method BuildCalendar(sheet: HolidaySheet) returns (librarydates: map<string, LibraryDates>)
    ensures librarydates == Calendar(sheet)
  {
    var rows := sheet.rows;
    librarydates := map[];
    for k := 0 to |rows|
      invariant librarydates == CalendarOf(sheet.columns, RowsByLocation(rows[..k]))
    {
      CalendarOfStep(sheet.columns, rows, k);
      var singlelibrarydate := LibraryCalendarOf(sheet.columns, rows[k]);
      librarydates := librarydates[rows[k].location := singlelibrarydate];
    }
    assert rows[..|rows|] == rows;
  }

  /** The header of the scenario below: Christmas Eve, New Year's Eve and
      Christmas, in that order. */
  function HolidayColumns(d: Date): seq<Column>
  {
    [Column("Christmas Eve", d), Column("New Year's Eve", d + 7), Column("Christmas", d + 1)]
  }

  /** A row closed on Christmas Eve and Christmas, with special hours on New
      Year's Eve. */
  function HolidayRow(): Row
  {
    Row("Barker Library", map["Christmas Eve" := "closed", "New Year's Eve" := "10am-2pm", "Christmas" := "closed"])
  }

  /** The cells of that row: two "closed" cells and one of special hours. */
  lemma HolidayCells()
    ensures IsClosed(HolidayRow(), "Christmas Eve") && IsClosed(HolidayRow(), "Christmas")
    ensures TimedCell(HolidayRow(), "New Year's Eve") == Some("10am-2pm")
  {
  }

  /** The runs of that row: two closings and one special-hours entry. */
  lemma HolidayRuns(d: Date)
    ensures ClosedRuns(HolidayColumns(d), HolidayRow()) == [Run(d, "Christmas Eve", ()), Run(d + 1, "Christmas", ())]
    ensures TimedRuns(HolidayColumns(d), HolidayRow()) == [Run(d + 7, "New Year's Eve", SplitHours("10am-2pm"))]
  {
    var cols, row := HolidayColumns(d), HolidayRow();
    HolidayCells();
    assert cols[..1][..0] == [];
    assert ClosedRuns(cols[..1], row) == [Run(d, "Christmas Eve", ())];
    assert TimedRuns(cols[..1], row) == [];
    assert cols[..2][..1] == cols[..1];
    assert ClosedRuns(cols[..2], row) == [Run(d, "Christmas Eve", ())];
    assert TimedRuns(cols[..2], row) == [Run(d + 7, "New Year's Eve", SplitHours("10am-2pm"))];
    assert cols[..2] == cols[..|cols| - 1];
  }

  /** A single run is a block of its own day. */
  lemma CoalesceSingle<H>(r: Run<H>)
    ensures Coalesce([r]) == [Fresh(r)]
  {
    CoalesceSnoc([], r);
    assert [] + [r] == [r];
  }

  /** Two closings on consecutive days are one block, under the first name. */
  lemma ClosedPair(d: Date, reason1: string, reason2: string)
    ensures Coalesce([Run(d, reason1, ()), Run(d + 1, reason2, ())]) == [Block(DateRange(d, d + 1), reason1, ())]
  {
    var r1, r2 := Run(d, reason1, ()), Run(d + 1, reason2, ());
    CoalesceSingle(r1);
    CoalesceSnoc([r1], r2);
    assert [r1] + [r2] == [r1, r2];
    assert Continues(Fresh(r1), r2);
  }

  /** Two consecutive "closed" days make one closing spanning both, under the
      first column's name, although a special-hours column comes between them
      in the header: each kind has its own cursor. */
  lemma ClosedPairScenario(d: Date)
    ensures LibraryCalendar(HolidayColumns(d), HolidayRow())
      == LibraryDates([Block(DateRange(d, d + 1), "Christmas Eve", ())],
                      [Block(DateRange(d + 7, d + 7), "New Year's Eve", SplitHours("10am-2pm"))])
  {
    HolidayRuns(d);
    ClosedPair(d, "Christmas Eve", "Christmas");
    CoalesceSingle(Run(d + 7, "New Year's Eve", SplitHours("10am-2pm")));
  }

  /** Special hours on two consecutive days merge into one block exactly when
      the hours are equal; the block keeps the first day's reason. */
  lemma ConsecutiveHoursScenario(d: Date, h1: Hours, h2: Hours, reason1: string, reason2: string)
    ensures var rs := [Run(d, reason1, h1), Run(d + 1, reason2, h2)];
      && (h1 == h2 ==> Coalesce(rs) == [Block(DateRange(d, d + 1), reason1, h1)])
      && (h1 != h2 ==> Coalesce(rs) == [Fresh(rs[0]), Fresh(rs[1])])
  {
    var rs := [Run(d, reason1, h1), Run(d + 1, reason2, h2)];
    CoalesceSnoc([], rs[0]);
    CoalesceSnoc([rs[0]], rs[1]);
    assert [rs[0]] + [rs[1]] == rs;
  }
}
