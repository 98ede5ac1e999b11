/**
 * The persisted collection and the page's three entry points: start-up,
 * form submission and confirmed deletion. Each reads the whole collection,
 * changes it, writes it back whole and re-renders.
 */
module Store {

  import opened Wrappers
  import opened Numbers
  import opened Clock
  import opened Slots
  import opened Placement
  import opened Events
  import opened Render

  /** The storage entry under `timetable_events_v1`: missing, not readable as events, or a saved array. */
  datatype Storage = Absent | Unreadable | Saved(events: seq<Event>)

  /** `loadEvents`: the saved events, or none when the entry is missing or unreadable. */
  function LoadEvents(s: Storage): (r: seq<Event>)
    ensures s.Saved? ==> r == s.events
    ensures !s.Saved? ==> r == []
  {
    match s
    case Saved(events) => events
    case _ => []
  }

  /** `saveEvents`: overwrite the entry with the whole collection. */
  function SaveEvents(events: seq<Event>): (s: Storage)
    ensures s.Saved?
  {
    Saved(events)
  }

  /** What is saved is what is loaded next, so a saved event comes back with its id and every field. */
  lemma LoadAfterSave(events: seq<Event>)
    ensures LoadEvents(SaveEvents(events)) == events
  {
  }

  /** The boxes on the page's own grid, whose rows are the hours of `TIME_SLOTS`. */
  function Timetable(events: seq<Event>): seq<Box>
  {
    TimeSlotBounds();
    Layout(TimeSlots, events)
  }

  /** Page start-up: build the grid and render whatever storage holds. */
  method Start(store: Storage) returns (view: seq<Box>)
    ensures view == Timetable(LoadEvents(store))
  {
    TimeSlotBounds();
    view := RenderEvents(TimeSlots, [], LoadEvents(store));
  }

  /**
   * `form.onsubmit`: an end not after the start leaves storage and the grid
   * untouched; otherwise the new event is appended, saved and everything is
   * re-rendered.
   */
  method OnSubmit(store: Storage, view: seq<Box>, f: FormData, freshId: string) returns (store': Storage, view': seq<Box>)
    requires ReadableForm(f)
    ensures Submit(LoadEvents(store), f, freshId).Failure? ==> store' == store && view' == view
    ensures Submit(LoadEvents(store), f, freshId).Success? ==>
      && LoadEvents(store') == LoadEvents(store) + [NewEvent(f, freshId)]
      && view' == Timetable(LoadEvents(store'))
  {
    TimeSlotBounds();
    var stored := LoadEvents(store);
    match Submit(stored, f, freshId)
    case Failure(_) =>
      store', view' := store, view;
    case Success(next) =>
      store' := SaveEvents(next);
      view' := RenderEvents(TimeSlots, view, next);
  }

  /** The confirmed delete of a box: filter its event's id out, save, re-render. */
  method OnDelete(store: Storage, view: seq<Box>, ev: Event) returns (store': Storage, view': seq<Box>)
    ensures LoadEvents(store') == Delete(LoadEvents(store), ev)
    ensures view' == Timetable(LoadEvents(store'))
  {
    TimeSlotBounds();
    var next := Delete(LoadEvents(store), ev);
    store' := SaveEvents(next);
    view' := RenderEvents(TimeSlots, view, next);
  }

  /**
   * The submit handler checks only that the end is after the start, so an
   * event starting before 08:00 or at 22:00 or later is stored, yet the
   * grid shows exactly what it showed without it: the event gets no box,
   * and with it no delete control.
   */
  lemma AcceptedOutsideGridNotShown(store: Storage, f: FormData, freshId: string)
    requires ReadableForm(f)
    requires LessThan(TimeToMinutes(f.start), TimeToMinutes(f.end))
    requires TimeToMinutes(f.start).Finite?
    requires TimeToMinutes(f.start).value < GridStart as real || TimeToMinutes(f.start).value >= GridEnd as real
    ensures Submit(LoadEvents(store), f, freshId).Success?
    ensures Timetable(Submit(LoadEvents(store), f, freshId).value) == Timetable(LoadEvents(store))
  {
    var stored := LoadEvents(store);
    var added := NewEvent(f, freshId);
    TimeSlotBounds();
    PlaceOnTimetable(added.day, added.start);
    LayoutSkipsUnplaced(TimeSlots, stored, added, []);
    assert stored + [added] + [] == stored + [added];
    assert stored + [] == stored;
  }
}
