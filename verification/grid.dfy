/**
 * The cells `buildGrid` lays out below the header, the day-column query of
 * `renderEvents`, and its scan for the first cell holding an event's start.
 */
module Grid {

  import opened Wrappers
  import opened Seqs
  import opened Numbers
  import opened Clock
  import opened Slots
  import opened Placement

  /**
   * A grid cell: the time label at the head of a row, or the cell of one
   * weekday in that row; both carry the row's boundaries.
   */
  datatype Cell =
    | TimeCell(from: string, to: string)
    | DayCell(day: int, from: string, to: string)

  /** Number of rows a boundary list yields (`TIME_SLOTS.length - 1`, never negative). */
  function RowCount(slots: seq<string>): nat {
    if |slots| == 0 then 0 else |slots| - 1
  }

  /** The weekday cells 1..n of the row `[from, to)`, in column order. */
  function DayRun(from: string, to: string, n: nat): (r: seq<Cell>)
    ensures |r| == n
  {
    seq(n, d => DayCell(d + 1, from, to))
  }

  /** One row: its time label followed by the seven weekday cells. */
  function RowCells(from: string, to: string): (r: seq<Cell>)
    ensures |r| == 1 + LastDay
    ensures r[0] == TimeCell(from, to)
    ensures forall d :: FirstDay <= d <= LastDay ==> r[d] == DayCell(d, from, to)
  {
    [TimeCell(from, to)] + DayRun(from, to, LastDay)
  }

  /** The first `n` rows of the grid, eight cells each (the label and seven days), row `i` spanning `[slots[i], slots[i + 1])`. */
  function GridRows(slots: seq<string>, n: nat): (r: seq<Cell>)
    requires n <= RowCount(slots)
    ensures |r| == 8 * n
  {
    if n == 0 then [] else GridRows(slots, n - 1) + RowCells(slots[n - 1], slots[n])
  }

  /** Row `i` of the grid occupies cells `8 i` to `8 i + 7`: its time label, then days 1 to 7. */
  lemma GridRowsLayout(slots: seq<string>, n: nat)
    requires n <= RowCount(slots)
    ensures forall i :: 0 <= i < n ==>
      GridRows(slots, n)[8 * i..8 * (i + 1)] == RowCells(slots[i], slots[i + 1])
  {
    forall i | 0 <= i < n
      ensures GridRows(slots, n)[8 * i..8 * (i + 1)] == RowCells(slots[i], slots[i + 1])
    {
      GridRowAt(slots, n, i);
    }
  }

  /** One row of the first `n` rows, by induction on `n`: earlier rows stay where they were, the last one is appended. */
  lemma {:induction false} GridRowAt(slots: seq<string>, n: nat, i: nat)
    requires i < n <= RowCount(slots)
    ensures GridRows(slots, n)[8 * i..8 * (i + 1)] == RowCells(slots[i], slots[i + 1])
  {
    var prev, row := GridRows(slots, n - 1), RowCells(slots[n - 1], slots[n]);
    assert GridRows(slots, n) == prev + row;
    if i < n - 1 {
      GridRowAt(slots, n - 1, i);
      SliceOfAppend(prev, row, 8 * i, 8 * (i + 1));
    } else {
      SliceOfAppendRight(prev, row);
    }
  }

  /** The whole grid body: eight cells for each pair of consecutive boundaries. */
  function GridCells(slots: seq<string>): (r: seq<Cell>)
    ensures |r| == 8 * RowCount(slots)
  {
    GridRows(slots, RowCount(slots))
  }

  /**
   * `buildGrid`: for each consecutive pair of boundaries, a time label and
   * then the cells of days 1 to 7, appended in that order.
   */
  method BuildGrid(slots: seq<string>) returns (cells: seq<Cell>)
    ensures |cells| == 8 * RowCount(slots)
    ensures forall i :: 0 <= i < RowCount(slots) ==>
      cells[8 * i..8 * (i + 1)] == RowCells(slots[i], slots[i + 1])
    ensures cells == GridCells(slots)
  {
    cells := [];
    var i := 0;
    while i < |slots| - 1
      invariant 0 <= i <= RowCount(slots)
      invariant cells == GridRows(slots, i)
    {
      cells := AppendRow(cells, slots[i], slots[i + 1]);
      i := i + 1;
    }
    GridRowsLayout(slots, RowCount(slots));
  }

  /** One pass of `buildGrid`'s outer loop: the time label, then days 1 to 7. */
  method AppendRow(cells: seq<Cell>, start: string, end: string) returns (cells': seq<Cell>)
    ensures cells' == cells + RowCells(start, end)
  {
    var row := [TimeCell(start, end)];
    var day := 1;
    while day <= 7
      invariant 1 <= day <= 8
      invariant row == [TimeCell(start, end)] + DayRun(start, end, day - 1)
    {
      DayRunSnoc(start, end, day);
      row := row + [DayCell(day, start, end)];
      day := day + 1;
    }
    cells' := cells + row;
  }

  lemma DayRunSnoc(from: string, to: string, n: nat)
    requires n > 0
    ensures DayRun(from, to, n) == DayRun(from, to, n - 1) + [DayCell(n, from, to)]
  {
  }

  /**
   * The page's grid: fourteen rows of eight cells, each row a time label
   * followed by the cells of days 1 to 7 (`GridRowsLayout` gives each row's
   * contents, `TimeSlotsShape` its hour).
   */
  lemma TimetableGrid()
    ensures RowCount(TimeSlots) == 14
    ensures |GridCells(TimeSlots)| == 14 * 8
    ensures GridCells(TimeSlots)[..8] == RowCells("08:00", "09:00")
    ensures GridCells(TimeSlots)[13 * 8..] == RowCells("21:00", "22:00")
  {
    GridRowsLayout(TimeSlots, 14);
    assert GridCells(TimeSlots)[8 * 0..8 * (0 + 1)] == RowCells(TimeSlots[0], TimeSlots[1]);
    assert GridCells(TimeSlots)[..8] == GridCells(TimeSlots)[8 * 0..8 * (0 + 1)];
    assert GridCells(TimeSlots)[8 * 13..8 * (13 + 1)] == RowCells(TimeSlots[13], TimeSlots[14]);
  }

  /** `querySelectorAll('.cell[data-day="d"]')`: the weekday cells of day `d`, in document order. */
  function CellsOfDay(cells: seq<Cell>, day: int): (r: seq<Cell>)
    ensures |r| <= |cells|
  {
    if cells == [] then []
    else (if cells[0].DayCell? && cells[0].day == day then [cells[0]] else []) + CellsOfDay(cells[1..], day)
  }

  /**
   * The query returns every weekday cell of `day` and nothing else, in
   * document order.
   */
  lemma {:induction false} CellsOfDayExact(cells: seq<Cell>, day: int)
    ensures forall c :: c in CellsOfDay(cells, day) <==> c in cells && c.DayCell? && c.day == day
    ensures IsSubsequence(CellsOfDay(cells, day), cells)
  {
    if cells != [] {
      var rest := CellsOfDay(cells[1..], day);
      CellsOfDayExact(cells[1..], day);
      assert cells == [cells[0]] + cells[1..];
      if cells[0].DayCell? && cells[0].day == day {
        var r := [cells[0]] + rest;
        assert CellsOfDay(cells, day) == r;
        assert r[1..] == rest;
      } else {
        assert CellsOfDay(cells, day) == rest;
        SubsequenceSkip(rest, cells);
      }
    }
  }

  lemma {:induction false} CellsOfDayAppend(a: seq<Cell>, b: seq<Cell>, day: int)
    ensures CellsOfDay(a + b, day) == CellsOfDay(a, day) + CellsOfDay(b, day)
  {
    if a == [] {
      assert a + b == b;
    } else {
      assert (a + b)[1..] == a[1..] + b;
      CellsOfDayAppend(a[1..], b, day);
    }
  }

  lemma {:induction false} CellsOfDayRun(from: string, to: string, n: nat, day: int)
    ensures CellsOfDay(DayRun(from, to, n), day) == if 1 <= day <= n then [DayCell(day, from, to)] else []
  {
    if n > 0 {
      var run := DayRun(from, to, n);
      assert run == DayRun(from, to, n - 1) + [DayCell(n, from, to)];
      CellsOfDayAppend(DayRun(from, to, n - 1), [DayCell(n, from, to)], day);
      CellsOfDayRun(from, to, n - 1, day);
    }
  }

  /** Each row holds exactly one cell of each grid day and none of any other day. */
  lemma CellsOfDayRow(from: string, to: string, day: int)
    ensures CellsOfDay(RowCells(from, to), day) == if IsGridDay(day) then [DayCell(day, from, to)] else []
  {
    CellsOfDayAppend([TimeCell(from, to)], DayRun(from, to, LastDay), day);
    CellsOfDayRun(from, to, LastDay, day);
  }

  /** The column of `day` over the first `n` rows: one cell per row, top to bottom, or none for a day without a column. */
  function Column(slots: seq<string>, n: nat, day: int): (col: seq<Cell>)
    requires n <= RowCount(slots)
    ensures |col| == if IsGridDay(day) then n else 0
  {
    if n == 0 || !IsGridDay(day) then [] else Column(slots, n - 1, day) + [DayCell(day, slots[n - 1], slots[n])]
  }

  /** Cell `k` of a grid day's column spans row `k`. */
  lemma {:induction false} ColumnAt(slots: seq<string>, n: nat, day: int, k: nat)
    requires n <= RowCount(slots) && IsGridDay(day) && k < n
    ensures Column(slots, n, day)[k] == DayCell(day, slots[k], slots[k + 1])
  {
    if k < n - 1 {
      ColumnAt(slots, n - 1, day, k);
    }
  }

  lemma ColumnSnoc(slots: seq<string>, n: nat, day: int)
    requires 0 < n <= RowCount(slots)
    ensures Column(slots, n, day)
      == Column(slots, n - 1, day) + (if IsGridDay(day) then [DayCell(day, slots[n - 1], slots[n])] else [])
  {
  }

  /** Querying the first `n` rows for a day yields that day's column. */
  lemma {:induction false} DayColumn(slots: seq<string>, n: nat, day: int)
    requires n <= RowCount(slots)
    ensures CellsOfDay(GridRows(slots, n), day) == Column(slots, n, day)
  {
    if n > 0 {
      DayColumn(slots, n - 1, day);
      CellsOfDayNextRow(GridRows(slots, n - 1), slots[n - 1], slots[n], day);
      ColumnSnoc(slots, n, day);
    }
  }

  /** Appending a row to the grid appends that row's cell of `day`, if `day` has a column. */
  lemma CellsOfDayNextRow(prev: seq<Cell>, from: string, to: string, day: int)
    ensures CellsOfDay(prev + RowCells(from, to), day)
      == CellsOfDay(prev, day) + if IsGridDay(day) then [DayCell(day, from, to)] else []
  {
    CellsOfDayAppend(prev, RowCells(from, to), day);
    CellsOfDayRow(from, to, day);
  }

  /** Cell `k` of the query for `day` on the grid spans row `k`. */
  lemma DayCellAt(slots: seq<string>, day: int, k: nat)
    requires k < |CellsOfDay(GridCells(slots), day)|
    ensures k + 1 < |slots| && CellsOfDay(GridCells(slots), day)[k] == DayCell(day, slots[k], slots[k + 1])
  {
    DayColumn(slots, RowCount(slots), day);
    ColumnAt(slots, RowCount(slots), day, k);
  }

  /**
   * `startMin >= a && startMin < b` with `a`, `b` the cell's boundaries read
   * by `timeToMinutes`: JavaScript comparisons, false whenever a side is `NaN`.
   */
  predicate Covers(c: Cell, x: Num) {
    AtMost(TimeToMinutes(c.from), x) && LessThan(x, TimeToMinutes(c.to))
  }

  /** Between finite boundaries the comparisons hold exactly for a finite value in `[a, b)`. */
  lemma CoversFinite(a: real, b: real, x: Num)
    ensures AtMost(Finite(a), x) && LessThan(x, Finite(b)) <==> x.Finite? && a <= x.value < b
  {
  }

  /** Cell `k` is the first of `cells` that holds `x`. */
  predicate IsFirstCover(cells: seq<Cell>, x: Num, k: int) {
    0 <= k < |cells| && Covers(cells[k], x) && forall j :: 0 <= j < k ==> !Covers(cells[j], x)
  }

  /**
   * The `for … of` loop of `renderEvents` with its `break`: the first cell
   * whose interval holds `x`, or nothing when none does.
   */
  method SelectCell(cells: seq<Cell>, x: Num) returns (target: Option<nat>)
    ensures target.Some? ==> IsFirstCover(cells, x, target.value)
    ensures target.None? <==> forall j :: 0 <= j < |cells| ==> !Covers(cells[j], x)
  {
    var i := 0;
    while i < |cells|
      invariant 0 <= i <= |cells|
      invariant NoCoverBefore(cells, x, i)
    {
      if Covers(cells[i], x) {
        return Some(i);
      }
      NoCoverStep(cells, x, i);
      i := i + 1;
    }
    return None;
  }

  /** None of the first `n` cells holds `x`. */
  predicate NoCoverBefore(cells: seq<Cell>, x: Num, n: int) {
    forall j :: 0 <= j < n && j < |cells| ==> !Covers(cells[j], x)
  }

  lemma NoCoverStep(cells: seq<Cell>, x: Num, i: int)
    requires 0 <= i < |cells| && NoCoverBefore(cells, x, i) && !Covers(cells[i], x)
    ensures NoCoverBefore(cells, x, i + 1)
  {
  }

  /**
   * The DOM scan agrees with `Place`: in the column of `day` the first cell
   * holding the start is cell `k` exactly when `Place` picks row `k`, that
   * cell spans `[slots[k], slots[k + 1])`, and no cell holds the start
   * exactly when `Place` drops the event.
   */
  lemma ScanAgreesWithPlace(slots: seq<string>, day: int, start: string)
    requires AllClockText(slots)
    ensures CellsOfDay(GridCells(slots), day) == Column(slots, RowCount(slots), day)
    ensures forall k :: (IsFirstCover(Column(slots, RowCount(slots), day), TimeToMinutes(start), k)
      <==> k >= 0 && Place(slots, day, start) == Some(Position(day, k)))
    ensures (forall j :: 0 <= j < |Column(slots, RowCount(slots), day)| ==> !Covers(Column(slots, RowCount(slots), day)[j], TimeToMinutes(start)))
      <==> Place(slots, day, start).None?
  {
    DayColumn(slots, RowCount(slots), day);
    var col := Column(slots, RowCount(slots), day);
    var x := TimeToMinutes(start);
    var b := Bounds(slots);
    ColumnCovers(slots, day, x);
    if x.Finite? {
      forall k
        ensures IsFirstCover(col, x, k) <==> k >= 0 && Place(slots, day, start) == Some(Position(day, k))
      {
        FindRowFirst(b, x.value, k);
      }
    }
  }

  /** In a grid day's column, cell `k` holds `x` exactly when `x` is finite and row `k` of the boundaries holds it. */
  lemma ColumnCovers(slots: seq<string>, day: int, x: Num)
    requires AllClockText(slots)
    ensures var col := Column(slots, RowCount(slots), day);
      && (IsGridDay(day) ==> |col| == |Bounds(slots)| - 1 || |slots| == 0)
      && forall k :: 0 <= k < |col| ==> (Covers(col[k], x) <==> x.Finite? && InRow(Bounds(slots), k, x.value))
  {
    var col := Column(slots, RowCount(slots), day);
    forall k | 0 <= k < |col|
      ensures Covers(col[k], x) <==> x.Finite? && InRow(Bounds(slots), k, x.value)
    {
      ColumnAt(slots, RowCount(slots), day, k);
      RowCovers(slots, k, col[k], x);
    }
  }

  /** A cell of row `k` holds `x` exactly when `x` is finite and lies in that row's boundaries. */
  lemma RowCovers(slots: seq<string>, k: int, c: Cell, x: Num)
    requires AllClockText(slots)
    requires 0 <= k < |slots| - 1 && c.from == slots[k] && c.to == slots[k + 1]
    ensures Covers(c, x) <==> x.Finite? && InRow(Bounds(slots), k, x.value)
  {
    var b := Bounds(slots);
    assert IsClockText(slots[k]) && IsClockText(slots[k + 1]);
    assert TimeToMinutes(c.from) == Finite(b[k] as real);
    assert TimeToMinutes(c.to) == Finite(b[k + 1] as real);
    CoversFinite(b[k] as real, b[k + 1] as real, x);
  }
}
