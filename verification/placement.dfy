/**
 * Where an event goes: the grid position chosen from the event's day and
 * start time alone.
 */
module Placement {

  import opened Wrappers
  import opened Numbers
  import opened Clock
  import opened Slots

  /** The grid has one column per weekday, numbered 1 (Monday) to 7 (Sunday). */
  const FirstDay: int := 1
  const LastDay: int := 7

  predicate IsGridDay(day: int) {
    FirstDay <= day <= LastDay
  }

  /** A cell of the grid: a weekday column and a 0-based row of the slot list. */
  datatype Position = Position(day: int, row: nat)

  /**
   * The cell an event starting at `start` on `day` is placed in: the first
   * row whose half-open interval holds `timeToMinutes(start)`, in the
   * column of `day`. Nothing when the day has no column, when the start
   * reads as `NaN` or an infinity (no comparison with a boundary then
   * succeeds on both sides), or when no row holds it.
   */
  function Place(slots: seq<string>, day: int, start: string): (r: Option<Position>)
    requires AllClockText(slots)
    ensures r.Some? ==> r.value.day == day && IsGridDay(day) && TimeToMinutes(start).Finite?
    ensures r.Some? ==> InRow(Bounds(slots), r.value.row, TimeToMinutes(start).value)
    ensures r.Some? ==> forall j :: 0 <= j < r.value.row ==> !InRow(Bounds(slots), j, TimeToMinutes(start).value)
    ensures r.None? <==>
      || !IsGridDay(day)
      || !TimeToMinutes(start).Finite?
      || forall j :: !InRow(Bounds(slots), j, TimeToMinutes(start).value)
  {
    if !IsGridDay(day) then None
    else
      match TimeToMinutes(start)
      case Finite(t) =>
        (match FindRow(Bounds(slots), t)
         case None => None
         case Some(i) => Some(Position(day, i)))
      case _ => None
  }

  /** With increasing boundaries the placement is the one row holding the start, in both directions. */
  lemma PlaceExact(slots: seq<string>, day: int, start: string, row: int)
    requires AllClockText(slots) && Increasing(Bounds(slots))
    ensures row >= 0 && Place(slots, day, start) == Some(Position(day, row))
        <==> IsGridDay(day) && TimeToMinutes(start).Finite? && InRow(Bounds(slots), row, TimeToMinutes(start).value)
  {
    if TimeToMinutes(start).Finite? {
      FindRowExact(Bounds(slots), TimeToMinutes(start).value, row);
    }
  }

  /** A start exactly on a boundary goes to the row that begins there (left-inclusive intervals). */
  lemma PlaceAtBoundary(slots: seq<string>, day: int, i: nat)
    requires AllClockText(slots) && Increasing(Bounds(slots))
    requires IsGridDay(day) && i + 1 < |slots|
    ensures Place(slots, day, slots[i]) == Some(Position(day, i))
  {
    PlaceExact(slots, day, slots[i], i);
  }

  /**
   * On the timetable's own boundaries an event is dropped exactly when its
   * day is outside 1..7, its start does not read as a finite number, or it
   * starts before 08:00 or at or after 22:00; otherwise it lands in the hour
   * row its start falls in.
   */
  lemma PlaceOnTimetable(day: int, start: string)
    ensures AllClockText(TimeSlots)
    ensures Place(TimeSlots, day, start).None? <==>
      || !IsGridDay(day)
      || !TimeToMinutes(start).Finite?
      || TimeToMinutes(start).value < GridStart as real
      || TimeToMinutes(start).value >= GridEnd as real
    ensures Place(TimeSlots, day, start).Some? ==>
      Place(TimeSlots, day, start).value == Position(day, ((TimeToMinutes(start).value - GridStart as real) / 60.0).Floor)
  {
    if TimeToMinutes(start).Finite? {
      TimeSlotRow(TimeToMinutes(start).value);
    } else {
      TimeSlotsShape();
    }
  }
}
