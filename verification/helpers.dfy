/**
 * The SheetConfig-driven recorder: `writeRecord` picks the target row (append
 * for hourly sheets, the row of today's date or an appended one for daily
 * sheets), writes date, time and count, and `calculateDifference` writes the
 * difference against the previous comparable count.
 */
module Helpers {
  import opened Wrappers
  import opened Sheets
  import opened CountCharacters

  /** `SheetConfig`: the sheet's name and the positions of its columns; a daily
      sheet has no time column. */
  datatype SheetConfig = SheetConfig(
    name: string,
    colDate: int,
    colDifference: int,
    colCount: int,
    colTime: Option<int>)

  /** Column positions are positive and no two columns coincide. */
  predicate DistinctColumns(cfg: SheetConfig) {
    1 <= cfg.colDate && 1 <= cfg.colDifference && 1 <= cfg.colCount &&
    cfg.colDate != cfg.colDifference && cfg.colDate != cfg.colCount &&
    cfg.colDifference != cfg.colCount &&
    (cfg.colTime.Some? ==>
      1 <= cfg.colTime.value && cfg.colTime.value != cfg.colDate &&
      cfg.colTime.value != cfg.colDifference && cfg.colTime.value != cfg.colCount)
  }

  /** The message `writeRecord` throws when the count is NaN. */
  const NaNMessage := "文字数の取得に失敗しました。count-characters.ts内の設定を見直してください。"

  // ---------------------------------------------------------------- lookback

  /** `a instanceof Date && b instanceof Date && a.toDateString() === b.toDateString()`. */
  predicate SameDayDates(a: Cell, b: Cell) {
    a.DateV? && b.DateV? && a.day == b.day
  }

  /** Row i can supply the daily previous count: its date is not a Date of the
      same day as `today`, and the cell right of its date holds a number. */
  predicate Comparable(rows: seq<Row>, colDate: int, today: Cell, i: int) {
    !SameDayDates(At(rows, i, colDate), today) && At(rows, i, colDate + 1).Num?
  }

  /** The daily backward scan from row i down to row 1: the nearest comparable row. */
  function NearestComparable(rows: seq<Row>, colDate: int, today: Cell, i: int): (k: Option<int>)
    ensures k.Some? ==>
      1 <= k.value <= i && Comparable(rows, colDate, today, k.value) &&
      forall j :: k.value < j <= i ==> !Comparable(rows, colDate, today, j)
    ensures k.None? ==> forall j :: 1 <= j <= i ==> !Comparable(rows, colDate, today, j)
    decreases i
  {
    if i < 1 then None
    else if Comparable(rows, colDate, today, i) then Some(i)
    else NearestComparable(rows, colDate, today, i - 1)
  }

  /** `previousCount` once the lookback of `calculateDifference` is done, for a
      current row above row 1 whose date cell is `today`. The branch is chosen by
      whether the sheet has a time column. */
  function PreviousCount(rows: seq<Row>, cfg: SheetConfig, currentRow: int, today: Cell): Option<int> {
    if cfg.colTime.None? then
      match NearestComparable(rows, cfg.colDate, today, currentRow - 1)
      case Some(k) => Some(At(rows, k, cfg.colDate + 1).n)
      case None => None
    else
      var count := At(rows, currentRow - 1, cfg.colDate + 1);
      if count.Num? then Some(count.n) else None
  }

  /** The cell `calculateDifference` writes, given the current row's date cell. */
  function DifferenceFrom(rows: seq<Row>, cfg: SheetConfig, currentRow: int, currentCount: int, today: Cell): Cell {
    if currentRow <= 1 then NotApplicable
    else match PreviousCount(rows, cfg, currentRow, today)
      case Some(p) => Diff(currentCount, Num(p))
      case None => NotApplicable
  }

  /** The table after `calculateDifference(sheet, cfg, currentRow, currentCount)`. */
  function DifferenceWritten(rows: seq<Row>, cfg: SheetConfig, currentRow: int, currentCount: int): seq<Row>
    requires 1 <= currentRow <= |rows| + 1
  {
    Put(rows, currentRow, cfg.colDifference,
        DifferenceFrom(rows, cfg, currentRow, currentCount, At(rows, currentRow, cfg.colDate)))
  }

  /** The scan reads nothing at or below the current row except through `today`. */
  lemma {:induction false} NearestComparableFrame(a: seq<Row>, b: seq<Row>, colDate: int, today: Cell, i: int)
    requires AgreeUpTo(a, b, i)
    ensures NearestComparable(a, colDate, today, i) == NearestComparable(b, colDate, today, i)
    decreases i
  {
    if i >= 1 {
      assert At(a, i, colDate) == At(b, i, colDate);
      assert At(a, i, colDate + 1) == At(b, i, colDate + 1);
      NearestComparableFrame(a, b, colDate, today, i - 1);
    }
  }

  lemma DifferenceFromFrame(a: seq<Row>, b: seq<Row>, cfg: SheetConfig, currentRow: int, currentCount: int, today: Cell)
    requires AgreeUpTo(a, b, currentRow - 1)
    ensures DifferenceFrom(a, cfg, currentRow, currentCount, today) == DifferenceFrom(b, cfg, currentRow, currentCount, today)
  {
    if currentRow > 1 {
      if cfg.colTime.None? {
        NearestComparableFrame(a, b, cfg.colDate, today, currentRow - 1);
        var k := NearestComparable(a, cfg.colDate, today, currentRow - 1);
        if k.Some? {
          assert At(a, k.value, cfg.colDate + 1) == At(b, k.value, cfg.colDate + 1);
        }
      } else {
        assert At(a, currentRow - 1, cfg.colDate + 1) == At(b, currentRow - 1, cfg.colDate + 1);
      }
      assert PreviousCount(a, cfg, currentRow, today) == PreviousCount(b, cfg, currentRow, today);
    }
  }

  /** The two properties of NearestComparable determine it. */
  lemma NearestComparableUnique(rows: seq<Row>, colDate: int, today: Cell, i: int, k: Option<int>)
    requires k.Some? ==>
      1 <= k.value <= i && Comparable(rows, colDate, today, k.value) &&
      forall j :: k.value < j <= i ==> !Comparable(rows, colDate, today, j)
    requires k.None? ==> forall j :: 1 <= j <= i ==> !Comparable(rows, colDate, today, j)
    ensures NearestComparable(rows, colDate, today, i) == k
  {
  }

  /** What the hosted sheet throws when asked for a range of no rows. */
  const ZeroRowsMessage := "The number of rows in the range must be at least 1"

  /** `findRowByDate` as written against the hosted sheet: it asks for the
      `lastRow` date cells from row 1 in one range before scanning them, and a
      range of zero rows is refused, so on an empty sheet it throws instead of
      returning `lastRow + 1`. */
  function FindRowByDateAsWritten(rows: seq<Row>, cfg: SheetConfig, date: Day): (r: Result<int>)
    ensures r.Err? <==> |rows| == 0
    ensures r.Ok? ==> 1 <= r.value <= |rows| + 1 && r.value == FirstRowOn(rows, cfg.colDate, date)
  {
    if |rows| == 0 then Err(Error(ZeroRowsMessage))
    else Ok(FirstRowOn(rows, cfg.colDate, date))
  }

  /** The input that shows the discrepancy: on an empty sheet the code as
      written throws, where the documented result is row lastRow + 1 = 1. */
  lemma EmptySheetScanThrows(cfg: SheetConfig, date: Day)
    ensures FindRowByDateAsWritten([], cfg, date) == Err(Error(ZeroRowsMessage))
    ensures FirstRowOn([], cfg.colDate, date) == 1
  {
  }

  // ---------------------------------------------------------------- methods

  /** `findRowByDate`: the first row whose date cell is a Date of `date`, or
      `lastRow + 1` when there is none. */
  method FindRowByDate(sheet: Sheet, cfg: SheetConfig, date: Day) returns (row: int)
    ensures 1 <= row <= |sheet.rows| + 1
    ensures row <= |sheet.rows| ==> IsDateOn(At(sheet.rows, row, cfg.colDate), date)
    ensures forall i :: 1 <= i < row ==> !IsDateOn(At(sheet.rows, i, cfg.colDate), date)
    ensures row == FirstRowOn(sheet.rows, cfg.colDate, date)
  {
    var lastRow := sheet.LastRow();
    var i := 0;
    while i < lastRow
      invariant 0 <= i <= lastRow
      invariant forall k :: 1 <= k <= i ==> !IsDateOn(At(sheet.rows, k, cfg.colDate), date)
    {
      var rowDate := sheet.GetValue(i + 1, cfg.colDate);
      if rowDate.DateV? && rowDate.day == date {
        FirstRowOnUnique(sheet.rows, cfg.colDate, date, i + 1);
        return i + 1;
      }
      i := i + 1;
    }
    FirstRowOnUnique(sheet.rows, cfg.colDate, date, lastRow + 1);
    return lastRow + 1;
  }

  /** `calculateDifference`: writes "N/A" or the guarded difference into the
      difference column of `currentRow`, and nothing else. */
  method CalculateDifference(sheet: Sheet, cfg: SheetConfig, currentRow: int, currentCount: int)
    requires 1 <= currentRow <= |sheet.rows| + 1
    modifies sheet
    ensures sheet.rows == DifferenceWritten(old(sheet.rows), cfg, currentRow, currentCount)
  {
    if currentRow <= 1 {
      sheet.SetValue(currentRow, cfg.colDifference, NotApplicable);
      return;
    }
    ghost var today := At(sheet.rows, currentRow, cfg.colDate);
    var previousCount: Option<int> := None;
    if cfg.colTime.None? {
      // values[i] holds row i + 1, for i from currentRow - 2 down to 0
      var i := currentRow - 2;
      ghost var found := None;
      while i >= 0
        invariant -1 <= i <= currentRow - 2
        invariant previousCount == None && found == None
        invariant forall j :: i + 1 < j <= currentRow - 1 ==> !Comparable(sheet.rows, cfg.colDate, today, j)
      {
        var prebDate := sheet.GetValue(i + 1, cfg.colDate);
        var todayValue := sheet.GetValue(currentRow, cfg.colDate);
        if !SameDayDates(prebDate, todayValue) {
          var count := sheet.GetValue(i + 1, cfg.colDate + 1);
          if count.Num? {
            previousCount := Some(count.n);
            found := Some(i + 1);
            break;
          }
        }
        i := i - 1;
      }
      NearestComparableUnique(sheet.rows, cfg.colDate, today, currentRow - 1, found);
    } else {
      var count := sheet.GetValue(currentRow - 1, cfg.colDate + 1);
      if count.Num? {
        previousCount := Some(count.n);
      }
    }
    if previousCount.Some? {
      sheet.SetValue(currentRow, cfg.colDifference, Diff(currentCount, Num(previousCount.value)));
    } else {
      sheet.SetValue(currentRow, cfg.colDifference, NotApplicable);
    }
  }

  /** The row `writeRecord` writes to. */
  function TargetRow(rows: seq<Row>, cfg: SheetConfig, isHourly: bool, now: Day): (t: int)
    ensures 1 <= t <= |rows| + 1
  {
    if isHourly then |rows| + 1 else FirstRowOn(rows, cfg.colDate, now)
  }

  /** The table after a `writeRecord` call that got past the NaN check. */
  function RecordedRows(rows: seq<Row>, cfg: SheetConfig, isHourly: bool, count: nat, now: Day, time: string): seq<Row>
    requires isHourly ==> cfg.colTime.Some?
  {
    var target := TargetRow(rows, cfg, isHourly, now);
    var withTime := if isHourly then Put(rows, target, cfg.colTime.value, Str(time)) else rows;
    var withDate := Put(withTime, target, cfg.colDate, DateV(now));
    var withCount := Put(withDate, target, cfg.colCount, Num(count));
    DifferenceWritten(withCount, cfg, target, count)
  }

  /** `writeRecord`: `count` is what its call to `requestCharCount()` gave.
      An error thrown by that call passes through, and a NaN count throws, both
      before anything is written; otherwise
      writes the time (hourly only), date and count into the target row and
      then the difference. `now` is today's day key and `formattedTime` the
      current time formatted as "HH:mm:ss". */
  method WriteRecord(sheet: Sheet, cfg: SheetConfig, isHourly: bool, count: Reading, now: Day, formattedTime: string)
    returns (outcome: Result<()>)
    requires isHourly ==> cfg.colTime.Some?
    modifies sheet
    ensures count.Thrown? ==> outcome == Err(count.error) && sheet.rows == old(sheet.rows)
    ensures count.NotANumber? ==> outcome == Err(Error(NaNMessage)) && sheet.rows == old(sheet.rows)
    ensures count.Number? ==>
      outcome == Ok(()) &&
      sheet.rows == RecordedRows(old(sheet.rows), cfg, isHourly, count.value, now, formattedTime)
  {
    if count.Thrown? {
      return Err(count.error);
    }
    if count.NotANumber? {
      return Err(Error(NaNMessage));
    }
    var rowToInsert: int;
    if isHourly {
      rowToInsert := sheet.LastRow() + 1;
      sheet.SetValue(rowToInsert, cfg.colTime.value, Str(formattedTime));
    } else {
      rowToInsert := FindRowByDate(sheet, cfg, now);
    }
    sheet.SetValue(rowToInsert, cfg.colDate, DateV(now));
    sheet.SetValue(rowToInsert, cfg.colCount, Num(count.value));
    CalculateDifference(sheet, cfg, rowToInsert, count.value);
    return Ok(());
  }

  // ---------------------------------------------------------------- properties

  /** Every cell of the table after `writeRecord`, in terms of the table before:
      only the target row changes, and its difference is computed from the rows
      above it and today's date. */
  lemma RecordedCells(rows: seq<Row>, cfg: SheetConfig, isHourly: bool, count: nat, now: Day, time: string)
    requires DistinctColumns(cfg) && (isHourly ==> cfg.colTime.Some?)
    ensures var t := TargetRow(rows, cfg, isHourly, now);
      var after := RecordedRows(rows, cfg, isHourly, count, now, time);
      |after| == (if t <= |rows| then |rows| else |rows| + 1) &&
      forall i, j :: At(after, i, j) ==
        if i != t then At(rows, i, j)
        else if j == cfg.colDifference then DifferenceFrom(rows, cfg, t, count, DateV(now))
        else if j == cfg.colCount then Num(count)
        else if j == cfg.colDate then DateV(now)
        else if isHourly && j == cfg.colTime.value then Str(time)
        else At(rows, t, j)
  {
    var t := TargetRow(rows, cfg, isHourly, now);
    var withTime := if isHourly then Put(rows, t, cfg.colTime.value, Str(time)) else rows;
    var withDate := Put(withTime, t, cfg.colDate, DateV(now));
    var withCount := Put(withDate, t, cfg.colCount, Num(count));
    assert AgreeUpTo(withCount, rows, t - 1);
    DifferenceFromFrame(withCount, rows, cfg, t, count, DateV(now));
  }

  /** Which row `writeRecord` writes and what it leaves alone: the target lies in
      1..lastRow + 1, is the appended row in hourly mode and the first row of
      today's date in daily mode; it then holds today's date and the count, and
      no other row changes. Daily mode writes no time cell. */
  lemma WriteRecordTouchesOnlyTarget(rows: seq<Row>, cfg: SheetConfig, isHourly: bool, count: nat, now: Day, time: string)
    requires DistinctColumns(cfg) && (isHourly ==> cfg.colTime.Some?)
    ensures var t := TargetRow(rows, cfg, isHourly, now);
      var after := RecordedRows(rows, cfg, isHourly, count, now, time);
      1 <= t <= |rows| + 1 &&
      (isHourly ==> t == |rows| + 1 && At(after, t, cfg.colTime.value) == Str(time)) &&
      (!isHourly ==> t == FirstRowOn(rows, cfg.colDate, now)) &&
      At(after, t, cfg.colDate) == DateV(now) && At(after, t, cfg.colCount) == Num(count) &&
      (forall i, j :: i != t ==> At(after, i, j) == At(rows, i, j)) &&
      (!isHourly && cfg.colTime.Some? ==> forall i :: At(after, i, cfg.colTime.value) == At(rows, i, cfg.colTime.value))
  {
    RecordedCells(rows, cfg, isHourly, count, now, time);
  }

  /** The difference `writeRecord` leaves in the target row t: "N/A" on row 1;
      with a time column, the guarded difference against the number right of
      the date in row t - 1, or "N/A" when that is not a number; without one,
      the guarded difference against the number right of the date in the
      nearest row above whose date is not today, or "N/A" when no row qualifies. */
  lemma WriteRecordDifference(rows: seq<Row>, cfg: SheetConfig, isHourly: bool, count: nat, now: Day, time: string)
    requires DistinctColumns(cfg) && (isHourly ==> cfg.colTime.Some?)
    ensures var t := TargetRow(rows, cfg, isHourly, now);
      var d := At(RecordedRows(rows, cfg, isHourly, count, now, time), t, cfg.colDifference);
      (t == 1 ==> d == NotApplicable) &&
      (t > 1 && cfg.colTime.Some? ==>
        d == (var v := At(rows, t - 1, cfg.colDate + 1); if v.Num? then Diff(count, v) else NotApplicable)) &&
      (t > 1 && cfg.colTime.None? ==>
        d == match NearestComparable(rows, cfg.colDate, DateV(now), t - 1)
             case Some(k) => Diff(count, At(rows, k, cfg.colDate + 1))
             case None => NotApplicable)
  {
    RecordedCells(rows, cfg, isHourly, count, now, time);
  }

  /** Running the daily `writeRecord` twice on one day with one count leaves the
      table as a single run does. */
  lemma DailyWriteRecordIdempotent(rows: seq<Row>, cfg: SheetConfig, count: nat, now: Day, time: string)
    requires DistinctColumns(cfg)
    ensures var once := RecordedRows(rows, cfg, false, count, now, time);
      RecordedRows(once, cfg, false, count, now, time) == once
  {
    var once := RecordedRows(rows, cfg, false, count, now, time);
    var t := TargetRow(rows, cfg, false, now);
    RecordedCells(rows, cfg, false, count, now, time);
    assert t <= |once|;
    assert forall k :: 1 <= k < t ==> At(once, k, cfg.colDate) == At(rows, k, cfg.colDate);
    FirstRowOnUnique(once, cfg.colDate, now, t);
    PutUnchanged(once, t, cfg.colDate, DateV(now));
    PutUnchanged(once, t, cfg.colCount, Num(count));
    assert AgreeUpTo(once, rows, t - 1);
    DifferenceFromFrame(once, rows, cfg, t, count, DateV(now));
    var d := DifferenceFrom(once, cfg, t, count, At(once, t, cfg.colDate));
    assert d != Empty;
    PutUnchanged(once, t, cfg.colDifference, d);
  }

  /** With the scan returning lastRow + 1 on an empty sheet, the first daily
      run on an empty sheet records a single row: today's date, the count, and
      "N/A" as its difference. */
  lemma DailyWriteRecordOnEmptySheet(cfg: SheetConfig, count: nat, now: Day, time: string)
    requires DistinctColumns(cfg)
    ensures var after := RecordedRows([], cfg, false, count, now, time);
      |after| == 1 &&
      At(after, 1, cfg.colDate) == DateV(now) && At(after, 1, cfg.colCount) == Num(count) &&
      At(after, 1, cfg.colDifference) == NotApplicable &&
      forall j :: j != cfg.colDate && j != cfg.colCount && j != cfg.colDifference ==> At(after, 1, j) == Empty
  {
    RecordedCells([], cfg, false, count, now, time);
  }

  /** The daily `writeRecord` never creates a second row for a day. */
  lemma DailyWriteRecordKeepsOneRowPerDay(rows: seq<Row>, cfg: SheetConfig, count: nat, now: Day, time: string)
    requires DistinctColumns(cfg) && OneRowPerDay(rows, cfg.colDate)
    ensures OneRowPerDay(RecordedRows(rows, cfg, false, count, now, time), cfg.colDate)
  {
    var after := RecordedRows(rows, cfg, false, count, now, time);
    var t := TargetRow(rows, cfg, false, now);
    RecordedCells(rows, cfg, false, count, now, time);
    forall i, j | 1 <= i < j <= |after| && At(after, i, cfg.colDate).DateV?
      ensures At(after, j, cfg.colDate) != At(after, i, cfg.colDate)
    {
      if j == t {
        assert !IsDateOn(At(rows, i, cfg.colDate), now);
      } else if i == t && t <= |rows| {
        assert At(rows, t, cfg.colDate) == DateV(now);
      }
    }
  }
}
