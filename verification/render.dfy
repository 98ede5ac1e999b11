/**
 * `renderEvents`: clear every placed event box, then give each event a box
 * in the cell chosen by its day and start, skipping events with no cell.
 */
module Render {

  import opened Wrappers
  import opened Numbers
  import opened Clock
  import opened Slots
  import opened Placement
  import opened Grid
  import opened Events

  /** An event box appended to a grid cell. */
  datatype Box = Box(cell: Cell, event: Event)

  /**
   * The box one event gets: in the day cell of its placed row, or none when
   * it is not placed. A start that `timeToMinutes` reads as `NaN` or an
   * infinity is held by no cell, so such an event gets no box.
   */
  function BoxFor(slots: seq<string>, ev: Event): (r: seq<Box>)
    requires AllClockText(slots)
    ensures |r| <= 1
    ensures |r| == 1 <==> Place(slots, ev.day, ev.start).Some?
  {
    BoxAt(slots, ev, Place(slots, ev.day, ev.start))
  }

  /** The box of `ev` for a placement: none, or one in the event's day cell of the placed row. */
  function BoxAt(slots: seq<string>, ev: Event, p: Option<Position>): (r: seq<Box>)
    requires p.Some? ==> p.value.row + 1 < |slots|
    ensures |r| == if p.Some? then 1 else 0
  {
    match p
    case None => []
    case Some(q) => [Box(DayCell(ev.day, slots[q.row], slots[q.row + 1]), ev)]
  }

  /** A box is for its own event and sits in a cell of that event's day whose interval holds its start. */
  lemma BoxForSound(slots: seq<string>, ev: Event)
    requires AllClockText(slots)
    ensures forall b :: b in BoxFor(slots, ev) ==> b.event == ev && SoundBox(b)
  {
    var p := Place(slots, ev.day, ev.start);
    if p.Some? {
      var i := p.value.row;
      var box := Box(DayCell(ev.day, slots[i], slots[i + 1]), ev);
      BoxForPlaced(slots, ev);
      RowCovers(slots, i, box.cell, TimeToMinutes(ev.start));
      assert SoundBox(box);
    }
  }

  /** The boxes on the grid after rendering `events`, in the order they are appended. */
  function Layout(slots: seq<string>, events: seq<Event>): (view: seq<Box>)
    requires AllClockText(slots)
    ensures |view| <= |events|
  {
    if events == [] then []
    else BoxFor(slots, events[0]) + Layout(slots, events[1..])
  }

  /** A box in the cell of its own event's day (1..7) whose interval holds the event's start. */
  predicate SoundBox(b: Box) {
    && b.cell.DayCell?
    && b.cell.day == b.event.day
    && IsGridDay(b.cell.day)
    && Covers(b.cell, TimeToMinutes(b.event.start))
  }

  /**
   * Every box belongs to one of the rendered events and sits in a cell of
   * that event's day whose interval holds the event's start.
   */
  lemma {:induction false} LayoutSound(slots: seq<string>, events: seq<Event>)
    requires AllClockText(slots)
    ensures forall b :: b in Layout(slots, events) ==> b.event in events && SoundBox(b)
  {
    if events != [] {
      var head, rest := BoxFor(slots, events[0]), Layout(slots, events[1..]);
      LayoutSound(slots, events[1..]);
      BoxForSound(slots, events[0]);
      assert Layout(slots, events) == head + rest;
      forall b: Box | b in head + rest
        ensures b.event in events && SoundBox(b)
      {
        if b !in head {
          assert b.event in events[1..];
        }
      }
    }
  }

  /** Rendering a concatenation renders each part in turn. */
  lemma {:induction false} LayoutAppend(slots: seq<string>, a: seq<Event>, b: seq<Event>)
    requires AllClockText(slots)
    ensures Layout(slots, a + b) == Layout(slots, a) + Layout(slots, b)
  {
    if a == [] {
      assert a + b == b;
    } else {
      assert (a + b)[0] == a[0];
      assert (a + b)[1..] == a[1..] + b;
      LayoutAppend(slots, a[1..], b);
    }
  }

  /** Rendering one event yields just its box, if any. */
  lemma LayoutSingle(slots: seq<string>, ev: Event)
    requires AllClockText(slots)
    ensures Layout(slots, [ev]) == BoxFor(slots, ev)
  {
  }

  /** Rendering `a`, one event, then `b` is rendering each in turn. */
  lemma LayoutAround(slots: seq<string>, a: seq<Event>, ev: Event, b: seq<Event>)
    requires AllClockText(slots)
    ensures Layout(slots, a + [ev] + b) == Layout(slots, a) + BoxFor(slots, ev) + Layout(slots, b)
  {
    LayoutAppend(slots, a + [ev], b);
    LayoutAppend(slots, a, [ev]);
    LayoutSingle(slots, ev);
  }

  /** An event no cell takes is skipped and the others are placed as if it were not there. */
  lemma LayoutSkipsUnplaced(slots: seq<string>, a: seq<Event>, ev: Event, b: seq<Event>)
    requires AllClockText(slots)
    requires Place(slots, ev.day, ev.start).None?
    ensures Layout(slots, a + [ev] + b) == Layout(slots, a + b)
  {
    LayoutAround(slots, a, ev, b);
    LayoutAppend(slots, a, b);
  }

  /** Every placed event gets exactly one box, in the cell of its day and placed row, between the others' boxes. */
  lemma LayoutPlacesOnce(slots: seq<string>, a: seq<Event>, ev: Event, b: seq<Event>)
    requires AllClockText(slots)
    requires Place(slots, ev.day, ev.start).Some?
    ensures var row := Place(slots, ev.day, ev.start).value.row;
      Layout(slots, a + [ev] + b)
        == Layout(slots, a) + [Box(DayCell(ev.day, slots[row], slots[row + 1]), ev)] + Layout(slots, b)
  {
    BoxForPlaced(slots, ev);
    LayoutAround(slots, a, ev, b);
  }

  /** Only the day and the start decide where an event goes; end, title, location and note do not. */
  lemma PlacementIgnoresDetails(slots: seq<string>, ev: Event, other: Event)
    requires AllClockText(slots)
    requires other.day == ev.day && other.start == ev.start
    ensures |BoxFor(slots, other)| == |BoxFor(slots, ev)|
    ensures forall k :: 0 <= k < |BoxFor(slots, ev)| ==> BoxFor(slots, other)[k].cell == BoxFor(slots, ev)[k].cell
  {
  }

  /**
   * `renderEvents`: drop every box of the previous view, then for each
   * event query its day's cells, take the first one holding its start, and
   * append a box there. The result depends on the events alone, so
   * rendering the same events again yields the same boxes, never duplicates.
   * Every scan searches the built grid: the text a box shows is assumed to
   * hold no markup that adds cells of its own.
   */
  method RenderEvents(slots: seq<string>, previous: seq<Box>, events: seq<Event>) returns (view: seq<Box>)
    requires AllClockText(slots)
    ensures view == Layout(slots, events)
  {
    var grid := BuildGrid(slots);
    view := [];
    var i := 0;
    while i < |events|
      invariant 0 <= i <= |events|
      invariant view == Layout(slots, events[..i])
    {
      var boxes := RenderOne(slots, grid, events[i]);
      RenderStep(slots, events, i);
      view := view + boxes;
      i := i + 1;
    }
    assert events[..i] == events;
  }

  lemma RenderStep(slots: seq<string>, events: seq<Event>, i: nat)
    requires AllClockText(slots) && i < |events|
    ensures Layout(slots, events[..i + 1]) == Layout(slots, events[..i]) + BoxFor(slots, events[i])
  {
    assert events[..i + 1] == events[..i] + [events[i]] + [];
    LayoutAround(slots, events[..i], events[i], []);
    assert Layout(slots, []) == [];
  }

  /**
   * The `forEach` callback of `renderEvents` for one event: scan its day's
   * cells for the first holding its start; no box when there is none.
   */
  method RenderOne(slots: seq<string>, grid: seq<Cell>, ev: Event) returns (boxes: seq<Box>)
    requires AllClockText(slots) && grid == GridCells(slots)
    ensures boxes == BoxFor(slots, ev)
  {
    var cells := CellsOfDay(grid, ev.day);
    var target := SelectCell(cells, TimeToMinutes(ev.start));
    if target.None? {
      ScanFindsNothing(slots, ev);
      return [];
    }
    ScanFindsCell(slots, ev, target.value);
    boxes := [Box(cells[target.value], ev)];
  }

  /** When the scan of the event's day finds cell `k` first, the event's box sits in that cell. */
  lemma ScanFindsCell(slots: seq<string>, ev: Event, k: nat)
    requires AllClockText(slots)
    requires IsFirstCover(CellsOfDay(GridCells(slots), ev.day), TimeToMinutes(ev.start), k)
    ensures BoxFor(slots, ev) == [Box(CellsOfDay(GridCells(slots), ev.day)[k], ev)]
  {
    ScanPlaces(slots, ev, k);
    DayCellAt(slots, ev.day, k);
    BoxForPlaced(slots, ev);
  }

  /** When the scan of the event's day finds cell `k` first, the event is placed in row `k`. */
  lemma ScanPlaces(slots: seq<string>, ev: Event, k: nat)
    requires AllClockText(slots)
    requires IsFirstCover(CellsOfDay(GridCells(slots), ev.day), TimeToMinutes(ev.start), k)
    ensures Place(slots, ev.day, ev.start) == Some(Position(ev.day, k))
  {
    ScanAgreesWithPlace(slots, ev.day, ev.start);
    assert IsFirstCover(Column(slots, RowCount(slots), ev.day), TimeToMinutes(ev.start), k);
  }

  /** A placed event gets one box, in its day's cell of the placed row. */
  lemma BoxForPlaced(slots: seq<string>, ev: Event)
    requires AllClockText(slots)
    requires Place(slots, ev.day, ev.start).Some?
    ensures var row := Place(slots, ev.day, ev.start).value.row;
      BoxFor(slots, ev) == [Box(DayCell(ev.day, slots[row], slots[row + 1]), ev)]
  {
    var p := Place(slots, ev.day, ev.start);
    assert BoxFor(slots, ev) == BoxAt(slots, ev, p);
  }

  /** When no cell of the event's day holds its start, the event gets no box. */
  lemma ScanFindsNothing(slots: seq<string>, ev: Event)
    requires AllClockText(slots)
    requires forall j :: 0 <= j < |CellsOfDay(GridCells(slots), ev.day)| ==>
      !Covers(CellsOfDay(GridCells(slots), ev.day)[j], TimeToMinutes(ev.start))
    ensures BoxFor(slots, ev) == []
  {
    ScanAgreesWithPlace(slots, ev.day, ev.start);
  }
}
