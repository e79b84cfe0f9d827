/**
 * The recorders the scheduled entry points call: `hourlyRecord` appends one row
 * per run, `dailyRecord` updates today's row or appends it. Both compare the
 * new count with an earlier one in the count column.
 */
module Record {
  import opened Wrappers
  import opened Sheets
  import opened CountCharacters

  /** The column constants COL_DATE, COL_TIME, COL_COUNT and COL_DIFFERENCE. */
  datatype Columns = Columns(date: int, time: int, count: int, difference: int)

  /** Column positions are positive and no two columns coincide. */
  predicate DistinctColumns(cols: Columns) {
    1 <= cols.date && 1 <= cols.time && 1 <= cols.count && 1 <= cols.difference &&
    cols.date != cols.time && cols.date != cols.count && cols.date != cols.difference &&
    cols.time != cols.count && cols.time != cols.difference && cols.count != cols.difference
  }

  /** The message both recorders throw when the count is not a number or is NaN. */
  const InvalidCountMessage := "requestCharCount() は有効な数値を返しませんでした。"

  // ---------------------------------------------------------------- hourly

  /** The table after an `hourlyRecord` run that got past the count check. */
  function HourlyRows(rows: seq<Row>, cols: Columns, count: nat, now: Day, time: string): seq<Row> {
    var newRow := |rows| + 1;
    var withDate := Put(rows, newRow, cols.date, DateV(now));
    var withTime := Put(withDate, newRow, cols.time, Str(time));
    var withCount := Put(withTime, newRow, cols.count, Num(count));
    Put(withCount, newRow, cols.difference,
        if newRow > 1 then Diff(count, At(withCount, newRow - 1, cols.count)) else NotApplicable)
  }

  /** `hourlyRecord`: `count` is what its call to `requestCharCount()` gave.
      An error thrown by that call passes through, and an invalid count throws,
      both before anything is written; otherwise writes date, time, count and difference into a new last row.
      `now` is today's day key and `formattedTime` the time as "HH:mm:ss". */
  method HourlyRecord(sheet: Sheet, cols: Columns, count: Reading, now: Day, formattedTime: string)
    returns (outcome: Result<()>)
    modifies sheet
    ensures count.Thrown? ==> outcome == Err(count.error) && sheet.rows == old(sheet.rows)
    ensures count.NotANumber? ==> outcome == Err(Error(InvalidCountMessage)) && sheet.rows == old(sheet.rows)
    ensures count.Number? ==>
      outcome == Ok(()) && sheet.rows == HourlyRows(old(sheet.rows), cols, count.value, now, formattedTime)
  {
    if count.Thrown? {
      return Err(count.error);
    }
    if count.NotANumber? {
      return Err(Error(InvalidCountMessage));
    }
    var newRow := sheet.LastRow() + 1;
    sheet.SetValue(newRow, cols.date, DateV(now));
    sheet.SetValue(newRow, cols.time, Str(formattedTime));
    sheet.SetValue(newRow, cols.count, Num(count.value));
    if newRow > 1 {
      var previousCount := sheet.GetValue(newRow - 1, cols.count);
      sheet.SetValue(newRow, cols.difference, Diff(count.value, previousCount));
    } else {
      sheet.SetValue(newRow, cols.difference, NotApplicable);
    }
    return Ok(());
  }

  /** `hourlyRecord` appends exactly one row holding date, time and count, leaves
      the earlier rows as they were, and writes the guarded difference against
      whatever the previous row's count cell holds (no numeric check), or "N/A"
      on row 1. */
  lemma HourlyRecordAppendsOneRow(rows: seq<Row>, cols: Columns, count: nat, now: Day, time: string)
    requires DistinctColumns(cols)
    ensures var after := HourlyRows(rows, cols, count, now, time);
      var n := |rows| + 1;
      |after| == n && after[..|rows|] == rows &&
      At(after, n, cols.date) == DateV(now) && At(after, n, cols.time) == Str(time) &&
      At(after, n, cols.count) == Num(count) &&
      At(after, n, cols.difference) == (if |rows| == 0 then NotApplicable else Diff(count, At(rows, |rows|, cols.count))) &&
      forall j :: j != cols.date && j != cols.time && j != cols.count && j != cols.difference ==> At(after, n, j) == Empty
  {
    var n := |rows| + 1;
    var withDate := Put(rows, n, cols.date, DateV(now));
    var withTime := Put(withDate, n, cols.time, Str(time));
    var withCount := Put(withTime, n, cols.count, Num(count));
    var after := HourlyRows(rows, cols, count, now, time);
    assert after[..|rows|] == withCount[..|rows|] == withTime[..|rows|] == withDate[..|rows|] == rows;
  }

  // ---------------------------------------------------------------- daily

  /** The cell is a Date of a day other than `day`. */
  predicate OtherDayDate(c: Cell, day: Day) {
    c.DateV? && c.day != day
  }

  /** The daily backward scan from row i down to row 1: the nearest row whose
      date cell is a Date of another day, whatever its count holds. */
  function PriorDayRow(rows: seq<Row>, colDate: int, day: Day, i: int): (k: Option<int>)
    ensures k.Some? ==>
      1 <= k.value <= i && OtherDayDate(At(rows, k.value, colDate), day) &&
      forall j :: k.value < j <= i ==> !OtherDayDate(At(rows, j, colDate), day)
    ensures k.None? ==> forall j :: 1 <= j <= i ==> !OtherDayDate(At(rows, j, colDate), day)
    decreases i
  {
    if i < 1 then None
    else if OtherDayDate(At(rows, i, colDate), day) then Some(i)
    else PriorDayRow(rows, colDate, day, i - 1)
  }

  /** The two properties of PriorDayRow determine it. */
  lemma PriorDayRowUnique(rows: seq<Row>, colDate: int, day: Day, i: int, k: Option<int>)
    requires k.Some? ==>
      1 <= k.value <= i && OtherDayDate(At(rows, k.value, colDate), day) &&
      forall j :: k.value < j <= i ==> !OtherDayDate(At(rows, j, colDate), day)
    requires k.None? ==> forall j :: 1 <= j <= i ==> !OtherDayDate(At(rows, j, colDate), day)
    ensures PriorDayRow(rows, colDate, day, i) == k
  {
  }

  lemma {:induction false} PriorDayRowFrame(a: seq<Row>, b: seq<Row>, colDate: int, day: Day, i: int)
    requires AgreeUpTo(a, b, i)
    ensures PriorDayRow(a, colDate, day, i) == PriorDayRow(b, colDate, day, i)
    decreases i
  {
    if i >= 1 {
      assert At(a, i, colDate) == At(b, i, colDate);
      PriorDayRowFrame(a, b, colDate, day, i - 1);
    }
  }

  /** The cell `dailyRecord` writes into the difference column of row t. */
  function DailyDifference(rows: seq<Row>, cols: Columns, t: int, count: nat, now: Day): Cell {
    if t <= 1 then NotApplicable
    else match PriorDayRow(rows, cols.date, now, t - 1)
      case None => NotApplicable
      case Some(k) =>
        var previousCount := At(rows, k, cols.count);
        if previousCount.Num? then Diff(count, previousCount) else NotApplicable
  }

  lemma DailyDifferenceFrame(a: seq<Row>, b: seq<Row>, cols: Columns, t: int, count: nat, now: Day)
    requires AgreeUpTo(a, b, t - 1)
    ensures DailyDifference(a, cols, t, count, now) == DailyDifference(b, cols, t, count, now)
  {
    if t > 1 {
      PriorDayRowFrame(a, b, cols.date, now, t - 1);
      var k := PriorDayRow(a, cols.date, now, t - 1);
      if k.Some? {
        assert At(a, k.value, cols.count) == At(b, k.value, cols.count);
      }
    }
  }

  /** The table after a `dailyRecord` run that got past the count check. */
  function DailyRows(rows: seq<Row>, cols: Columns, count: nat, now: Day): seq<Row> {
    var t := FirstRowOn(rows, cols.date, now);
    var withDate := if t == |rows| + 1 then Put(rows, t, cols.date, DateV(now)) else rows;
    var withCount := Put(withDate, t, cols.count, Num(count));
    Put(withCount, t, cols.difference, DailyDifference(withCount, cols, t, count, now))
  }

  /** `dailyRecord`: `count` is what its call to `requestCharCount()` gave.
      An error thrown by that call passes through, and an invalid count throws,
      both before anything is written; otherwise finds today's row or appends one (writing its date), overwrites
      its count and writes the difference against the nearest earlier row
      dated another day. */
  method DailyRecord(sheet: Sheet, cols: Columns, count: Reading, now: Day) returns (outcome: Result<()>)
    modifies sheet
    ensures count.Thrown? ==> outcome == Err(count.error) && sheet.rows == old(sheet.rows)
    ensures count.NotANumber? ==> outcome == Err(Error(InvalidCountMessage)) && sheet.rows == old(sheet.rows)
    ensures count.Number? ==> outcome == Ok(()) && sheet.rows == DailyRows(old(sheet.rows), cols, count.value, now)
  {
    if count.Thrown? {
      return Err(count.error);
    }
    if count.NotANumber? {
      return Err(Error(InvalidCountMessage));
    }
    var lastRow := sheet.LastRow();
    var rowToInsert: int := -1;
    var i := 1;
    while i <= lastRow
      invariant 1 <= i <= lastRow + 1
      invariant rowToInsert == -1
      invariant forall k :: 1 <= k < i ==> !IsDateOn(At(sheet.rows, k, cols.date), now)
    {
      var dateValue := sheet.GetValue(i, cols.date);
      if dateValue.DateV? && dateValue.day == now {
        rowToInsert := i;
        break;
      }
      i := i + 1;
    }
    if rowToInsert == -1 {
      FirstRowOnUnique(sheet.rows, cols.date, now, lastRow + 1);
      rowToInsert := lastRow + 1;
      sheet.SetValue(rowToInsert, cols.date, DateV(now));
    } else {
      FirstRowOnUnique(sheet.rows, cols.date, now, rowToInsert);
    }
    assert rowToInsert == FirstRowOn(old(sheet.rows), cols.date, now);
    sheet.SetValue(rowToInsert, cols.count, Num(count.value));
    ghost var withCount := sheet.rows;
    if rowToInsert > 1 {
      var previousCount := NotApplicable;
      var j := rowToInsert - 1;
      ghost var found := None;
      while j >= 1
        invariant 0 <= j <= rowToInsert - 1
        invariant previousCount == NotApplicable && found == None
        invariant forall k :: j < k <= rowToInsert - 1 ==> !OtherDayDate(At(sheet.rows, k, cols.date), now)
      {
        var prevDateValue := sheet.GetValue(j, cols.date);
        if prevDateValue.DateV? && prevDateValue.day != now {
          previousCount := sheet.GetValue(j, cols.count);
          found := Some(j);
          break;
        }
        j := j - 1;
      }
      PriorDayRowUnique(sheet.rows, cols.date, now, rowToInsert - 1, found);
      assert DailyDifference(withCount, cols, rowToInsert, count.value, now)
        == if previousCount.Num? then Diff(count.value, previousCount) else NotApplicable;
      if previousCount.Num? {
        sheet.SetValue(rowToInsert, cols.difference, Diff(count.value, previousCount));
      } else {
        sheet.SetValue(rowToInsert, cols.difference, NotApplicable);
      }
    } else {
      sheet.SetValue(rowToInsert, cols.difference, NotApplicable);
    }
    return Ok(());
  }

  /** Every cell of the table after `dailyRecord`, in terms of the table before. */
  lemma DailyCells(rows: seq<Row>, cols: Columns, count: nat, now: Day)
    requires DistinctColumns(cols)
    ensures var t := FirstRowOn(rows, cols.date, now);
      var after := DailyRows(rows, cols, count, now);
      |after| == (if t <= |rows| then |rows| else |rows| + 1) &&
      forall i, j :: At(after, i, j) ==
        if i != t then At(rows, i, j)
        else if j == cols.difference then DailyDifference(rows, cols, t, count, now)
        else if j == cols.count then Num(count)
        else if j == cols.date then DateV(now)
        else At(rows, t, j)
  {
    var t := FirstRowOn(rows, cols.date, now);
    var withDate := if t == |rows| + 1 then Put(rows, t, cols.date, DateV(now)) else rows;
    var withCount := Put(withDate, t, cols.count, Num(count));
    assert AgreeUpTo(withCount, rows, t - 1);
    DailyDifferenceFrame(withCount, rows, cols, t, count, now);
  }

  /** Which row `dailyRecord` writes and what it leaves alone: the first row
      whose date is a Date of today, else lastRow + 1; the date is written only
      into an appended row (a found row keeps its date); the count is always
      overwritten; no other row changes. */
  lemma DailyRecordWrites(rows: seq<Row>, cols: Columns, count: nat, now: Day)
    requires DistinctColumns(cols)
    ensures var t := FirstRowOn(rows, cols.date, now);
      var after := DailyRows(rows, cols, count, now);
      (t <= |rows| ==> |after| == |rows| && At(after, t, cols.date) == At(rows, t, cols.date)) &&
      (t == |rows| + 1 ==> |after| == |rows| + 1 && At(after, t, cols.date) == DateV(now)) &&
      At(after, t, cols.count) == Num(count) &&
      forall i, j :: i != t ==> At(after, i, j) == At(rows, i, j)
  {
    DailyCells(rows, cols, count, now);
  }

  /** The difference `dailyRecord` writes into row t, read off the table before
      the run: "N/A" on row 1; otherwise the guarded difference against the count
      of the nearest row above whose date is a Date of another day when that
      count is a number, and "N/A" when it is not or no such row exists. */
  lemma DailyRecordDifference(rows: seq<Row>, cols: Columns, count: nat, now: Day)
    requires DistinctColumns(cols)
    ensures var t := FirstRowOn(rows, cols.date, now);
      var d := At(DailyRows(rows, cols, count, now), t, cols.difference);
      (t == 1 ==> d == NotApplicable) &&
      (t > 1 ==>
        match PriorDayRow(rows, cols.date, now, t - 1)
        case None => d == NotApplicable
        case Some(k) =>
          (At(rows, k, cols.count).Num? ==> d == Diff(count, At(rows, k, cols.count))) &&
          (!At(rows, k, cols.count).Num? ==> d == NotApplicable))
  {
    DailyCells(rows, cols, count, now);
  }

  /** Running `dailyRecord` twice on one day with one count leaves the table as a
      single run does. */
  lemma DailyRecordIdempotent(rows: seq<Row>, cols: Columns, count: nat, now: Day)
    requires DistinctColumns(cols)
    ensures var once := DailyRows(rows, cols, count, now);
      DailyRows(once, cols, count, now) == once
  {
    var once := DailyRows(rows, cols, count, now);
    var t := FirstRowOn(rows, cols.date, now);
    DailyCells(rows, cols, count, now);
    assert At(once, t, cols.date) == DateV(now);
    assert forall k :: 1 <= k < t ==> At(once, k, cols.date) == At(rows, k, cols.date);
    FirstRowOnUnique(once, cols.date, now, t);
    PutUnchanged(once, t, cols.count, Num(count));
    assert AgreeUpTo(once, rows, t - 1);
    DailyDifferenceFrame(once, rows, cols, t, count, now);
    var d := DailyDifference(once, cols, t, count, now);
    assert d != Empty;
    PutUnchanged(once, t, cols.difference, d);
  }

  /** If no two rows held Dates of one day before `dailyRecord`, none do after. */
  lemma DailyRecordKeepsOneRowPerDay(rows: seq<Row>, cols: Columns, count: nat, now: Day)
    requires DistinctColumns(cols) && OneRowPerDay(rows, cols.date)
    ensures OneRowPerDay(DailyRows(rows, cols, count, now), cols.date)
  {
    var after := DailyRows(rows, cols, count, now);
    var t := FirstRowOn(rows, cols.date, now);
    DailyCells(rows, cols, count, now);
    forall i, j | 1 <= i < j <= |after| && At(after, i, cols.date).DateV?
      ensures At(after, j, cols.date) != At(after, i, cols.date)
    {
      if j == t {
        assert !IsDateOn(At(rows, i, cols.date), now);
      } else if i == t && t <= |rows| {
        assert At(rows, t, cols.date) == DateV(now);
      }
    }
  }
}
