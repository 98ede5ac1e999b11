# Weekly timetable widget — a Dafny model of its logic

The widget (`app.js`) shows a Monday-to-Sunday grid with one row per hour from
08:00 to 22:00. Users add events through a form and delete them by clicking
their box; the events are kept as one array in browser storage. This project
models the logic under the DOM code and proves properties of it:

- **Text** — JavaScript's `trim` with the full ECMAScript white-space and
  line-terminator set, and `split` on one character, with its inverse `Join`.
- **Numbers** — JavaScript numbers (`NaN`, the infinities, finite values),
  `Number` on any string as section 7.1.4.1.1 of ECMA-262 defines it, and the
  `*`, `+`, `<` and `<=` the widget applies to them.
- **Clock** — `timeToMinutes` on any string, and on the "HH:MM" texts of the
  slot list its inverse `FormatMinutes`.
- **Slots** — the `TIME_SLOTS` boundary list and the lookup of the half-open
  row `[b[i], b[i+1])` that holds a minute.
- **Placement** — `Place(slots, day, start)`: the `(day, row)` cell an event
  goes to, or nothing.
- **Grid** — the cells `buildGrid` appends (eight per row: a time label and
  days 1 to 7), the `data-day` query, and the first-match loop of
  `renderEvents`. This module proves the loop picks the cell `Place` names.
- **Events** — the stored `seq<Event>`, the submit handler's validation and
  append, and the delete handler's filter by id.
- **Render** — `renderEvents`: clear the old boxes, then give each placeable
  event one box.
- **Store** — the storage entry (missing, unreadable or saved) and the
  start-up, submit and delete entry points.
- **Seqs** — sub-lists that keep order, and slices of concatenations.

The model follows `app.js`:

- The slot list is a constant. There is no slot generator.
- An event occupies only the cell of its start row. There is no row span.
- Rows are numbered from 0 in the slot list. There is no header offset.
- The submit handler rejects only an end that is not after the start. An
  empty title is accepted, and so is a time that reads as `NaN`, because
  every comparison with `NaN` is false (`Events.SubmitAcceptsUnreadableTime`).
- Starts are read as `timeToMinutes` reads them, not only as "HH:MM": "8:00",
  " 8:00" and "08:00:30" all read as 480 and land in the 08:00 row
  (`Clock.UnpaddedHour`, `Clock.LeadingSpaceIgnored`, `Clock.LaterPiecesIgnored`).
- A start outside 08:00–22:00 is accepted and stored, but no box is drawn for
  it (`Store.AcceptedOutsideGridNotShown`). Because there is no box, the
  event cannot be deleted from the page either.

## Model

| member | source | states |
|---|---|---|
| Text.Trim | app.js:137 | The result neither starts nor ends with a trimmable character and is no longer than the input |
| Text.TrimFramed | app.js:137 | The trimmed title is the slice of the input that starts right after its leading trimmable characters and is followed only by trimmable ones |
| Text.TrimIdempotent | app.js:137 | Trimming an already trimmed title changes nothing |
| Text.TrimOptional | app.js:141-142 | An absent location or note stays absent; a present one is trimmed |
| Text.Split | app.js:24 | Splitting at the colon yields at least one piece |
| Text.SplitPieces | app.js:24 | No piece holds the separator, and there is more than one piece exactly when the string holds it |
| Text.JoinSplit | app.js:24 | Joining the pieces with the separator gives back the original string |
| Text.SplitJoin | app.js:24 | Pieces free of the separator, joined and split again, come back unchanged |
| Text.SplitAppend | app.js:24 | Splitting `x + ":" + y` gives the pieces of `x` followed by the pieces of `y` |
| Text.SplitPrefix | app.js:24 | Text without a colon put in front of a string becomes part of its first piece and leaves the other pieces alone |
| Numbers.Number | app.js:24 | A string that is blank once trimmed reads as 0 |
| Numbers.NumberInfinite | app.js:24 | `Number` gives an infinity exactly for `Infinity`, `+Infinity` or `-Infinity` after trimming, with the sign written |
| Numbers.NumberOfDigits | app.js:24 | A non-empty run of decimal digits reads as its base-10 value, leading zeros included |
| Numbers.NumberPadded | app.js:24 | White space in front of a numeral does not change what `Number` reads |
| Numbers.NumberOfTrimmed | app.js:24 | `Number` reads a string and its trimmed form the same |
| Numbers.NumberOfDecimalText | app.js:138 | `Number` applied to the decimal spelling of n yields n |
| Clock.ClockMinutes | app.js:23-26 | For an "HH:MM" text that is a time of day the minutes are below 24·60, divided by 60 give the hour field and modulo 60 the minute field; any two-digit:two-digit text stays at most 99·60+99 |
| Clock.TimeToMinutes | app.js:23-26 | On two digits, a colon and two digits the result is the finite value hour·60+minute |
| Clock.NoColonIsNaN | app.js:24-25 | A string with no colon, such as an empty field, has no minute piece and reads as `NaN` |
| Clock.LaterPiecesIgnored | app.js:24 | Anything after a second colon is ignored: "08:00:30" reads as "08:00" |
| Clock.LeadingSpaceIgnored | app.js:24 | White space before the hour is ignored: " 8:00" reads as "8:00" |
| Clock.UnpaddedHour | app.js:24 | A leading zero on a numeric hour changes nothing: "08:00" reads as "8:00" |
| Clock.FormatMinutes | app.js:23-26 | Every minute of the day has a zero-padded spelling that is a time of day and converts back to that minute |
| Clock.FormatOfClockMinutes | app.js:23-26 | Converting a time of day to minutes and spelling the result gives back the same string |
| Clock.ClockMinutesInjective | app.js:23-26 | Two times of day convert to the same minute exactly when they are the same string, so comparing minutes compares times |
| Slots.TimeSlotsShape | app.js:10-14 | `TIME_SLOTS` has 15 entries, each a valid time of day, entry i being 08:00 plus i hours |
| Slots.TimeSlotBounds | app.js:10-14 | In minutes the boundaries run 480, 540, …, 1320 and strictly increase |
| Slots.FindRowFrom | app.js:86-93 | The scan from row k returns the first row whose `[a, b)` interval holds the minute, and nothing exactly when no row from k on holds it |
| Slots.FindRow | app.js:86-93 | The scan from the top returns a row holding the minute with no earlier row holding it, and nothing exactly when no row holds it |
| Slots.FindRowFirst | app.js:86-93 | The scan returns row k exactly when k holds the minute and no earlier row does |
| Slots.RowUnique | app.js:86-92 | With increasing boundaries no minute lies in two rows |
| Slots.FindRowExact | app.js:86-92 | With increasing boundaries the first match found by the loop with `break` is the unique row holding the minute, in both directions |
| Slots.FindRowInRange | app.js:86-95 | With increasing boundaries some row is found exactly when first boundary ≤ t < last boundary |
| Slots.TimeSlotRow | app.js:86-95 | On the timetable no row holds t exactly when t < 08:00 or t ≥ 22:00; otherwise the row is ⌊(t − 480) / 60⌋ |
| Placement.Place | app.js:81-95 | A placement keeps the event's day, lies in 1..7, has a finite start and a row whose interval holds it with no earlier such row; there is no placement exactly when the day is outside 1..7, the start is `NaN` or infinite, or no row holds it |
| Placement.PlaceExact | app.js:86-92 | With increasing boundaries the event goes to row r exactly when its day is 1..7, its start is finite and r's interval holds it |
| Placement.PlaceAtBoundary | app.js:89 | A start equal to boundary i goes to row i, the row that begins there (left-inclusive intervals) |
| Placement.PlaceOnTimetable | app.js:81-95 | On the timetable an event is dropped exactly when its day is outside 1..7, its start is not finite, or it starts before 08:00 or at or after 22:00; otherwise its row is the hour of its start counted from 08:00 |
| Grid.RowCells | app.js:53-67 | A row has 8 cells: the time label first, then the cell of day d at position d for d = 1..7, all carrying the row's two boundaries |
| Grid.GridCells | app.js:45-69 | The grid body has eight cells for each pair of consecutive boundaries |
| Grid.GridRowsLayout | app.js:49-68 | Cells 8i to 8i+7 of the grid are row i: the label and days 1..7 of `[slots[i], slots[i+1])` |
| Grid.AppendRow | app.js:50-67 | One pass of the outer loop appends exactly one row's eight cells after what was there |
| Grid.BuildGrid | app.js:45-69 | The built grid has 8 cells per row, one row per consecutive boundary pair, and row i sits at cells 8i..8i+7 |
| Grid.TimetableGrid | app.js:49-68 | The page's grid has 14 rows of 8 cells, the first spanning 08:00–09:00 and the last 21:00–22:00 |
| Grid.CellsOfDay | app.js:83 | The query returns no more cells than it searched; its contents and order are stated by `Grid.CellsOfDayExact` |
| Grid.CellsOfDayExact | app.js:83 | A cell is in the query's result exactly when it is a weekday cell of the requested day in the searched cells, and the result keeps document order |
| Grid.CellsOfDayRow | app.js:60-67 | Each row holds exactly one cell of each day 1..7 and none of any other day |
| Grid.DayColumn | app.js:83 | Querying a day on the grid yields its column, one cell per row from top to bottom, or no cells for a day outside 1..7 |
| Grid.ColumnAt | app.js:83 | Cell k of a weekday's column spans row k, `[slots[k], slots[k+1])` |
| Grid.RowCovers | app.js:87-89 | A cell of row k holds a start exactly when the start reads as a finite number inside row k's interval |
| Grid.SelectCell | app.js:84-93 | The loop returns the first cell whose interval holds the start, and nothing exactly when no cell holds it |
| Grid.ScanAgreesWithPlace | app.js:81-95 | The DOM scan and `Place` agree: the first covering cell of the day's column is cell k exactly when `Place` picks row k, and no cell covers exactly when `Place` drops the event |
| Events.NewEvent | app.js:135-143 | The new event's day is the number `Number` reads from the day field, and its title neither starts nor ends with a trimmable character |
| Events.Submit | app.js:129-145 | Submission is refused exactly when the end reads as at most the start; otherwise the old events are kept as a prefix and one event follows, carrying the fresh id, the trimmed title, the numeric day, both times and the trimmed location and note, and ending after it starts when both times are numbers |
| Events.SubmitAcceptsUnreadableTime | app.js:129-132 | A time that reads as `NaN` is not refused, and the stored event does not end after it starts |
| Events.SubmitDayIsNumber | app.js:138 | A day field holding the spelling of d is stored as the number d |
| Events.SubmitKeepsInvariants | app.js:129-143 | An accepted submission of readable times keeps every event ending after its start, and keeps ids distinct when the new id is fresh |
| Events.Delete | app.js:111 | No surviving event carries the deleted id, and the result is shorter by exactly the number of events that carried it |
| Events.DeleteKeepsOthers | app.js:111 | Every stored event with another id survives, only stored events survive, and the survivors keep their original relative order |
| Events.DeleteKeepsInvariants | app.js:111 | Deleting keeps every event ending after its start and keeps ids distinct |
| Events.DeleteAbsent | app.js:111 | Deleting an id no event carries leaves the collection unchanged |
| Events.DeleteIdempotent | app.js:111 | Deleting the same event twice is the same as deleting it once |
| Events.DeleteUndoesSubmit | app.js:111 | Deleting a just-submitted event whose id was fresh gives back exactly the previous collection |
| Render.BoxFor | app.js:81-117 | An event gets at most one box, and gets one exactly when it has a placement |
| Render.BoxForPlaced | app.js:95-117 | A placed event's box is for that event and sits in its day's cell of the placed row |
| Render.BoxForSound | app.js:81-117 | A box is for its own event and sits in a cell of that event's day (1..7) whose interval holds the event's start |
| Render.Layout | app.js:77-119 | Rendering yields at most one box per event |
| Render.LayoutSound | app.js:80-118 | Every box shows one of the rendered events, in a cell of that event's day (1..7) whose interval holds the event's start |
| Render.LayoutAppend | app.js:80-118 | Rendering a concatenation of collections is rendering each in turn: with text fields free of markup, each event's box depends on that event alone |
| Render.LayoutAround | app.js:80-118 | Rendering the events before one event, that event, and the events after it yields their boxes in that order |
| Render.LayoutSkipsUnplaced | app.js:95 | An event that has no cell is skipped, and all other events are placed as if it were absent |
| Render.LayoutPlacesOnce | app.js:97-117 | A placed event gets exactly one box, in the cell of its day and row, between the boxes of the events before and after it |
| Render.PlacementIgnoresDetails | app.js:81-95 | Only the day and start decide the cell: two events that share them get boxes in the same cell, whatever their end, title, location or note |
| Render.ScanFindsCell | app.js:83-117 | When the scan of the event's day finds cell k first, the event's one box sits in that cell |
| Render.ScanFindsNothing | app.js:83-95 | When no cell of the event's day holds its start, the event gets no box |
| Render.RenderOne | app.js:80-117 | The scan of one event yields the box in the cell `Place` names, or no box when it names none |
| Render.RenderEvents | app.js:77-119 | The rendered view is determined by the events alone, whatever was on the grid before; so rendering the same collection twice gives the same boxes with no duplicates |
| Store.LoadEvents | app.js:32-38 | A saved entry loads as its events; a missing or unreadable entry loads as no events |
| Store.SaveEvents | app.js:40-42 | Saving always leaves a saved entry |
| Store.LoadAfterSave | app.js:32-42 | The storage abstraction returns what was saved: loading after saving gives the same events with every field, including the id |
| Store.Start | app.js:151-152 | At start-up the grid shows the rendering of the stored events, or nothing if storage is missing or unreadable |
| Store.OnSubmit | app.js:125-148 | A refused submission leaves storage and the grid untouched; an accepted one stores the old events plus the new event and shows their rendering |
| Store.OnDelete | app.js:109-114 | A confirmed delete stores the filtered collection and shows its rendering |
| Store.AcceptedOutsideGridNotShown | app.js:125-148 | An event with a valid time range that starts before 08:00 or at or after 22:00 is accepted and stored, yet the grid shows exactly what it showed before |

## Left out

- DOM work: creating and removing elements, `innerHTML`, class names, and the 8 header cells that `buildGrid` keeps. Grid cells are a `seq<Cell>` and event boxes a `seq<Box>`. The box's inner HTML (title, times, location, note) is not modelled.
- `localStorage`, `JSON.parse` and `JSON.stringify` are external. Storage is a `Storage` value: missing, unreadable or saved. A parse that yields a non-array value is not modelled.
- Store.LoadAfterSave: the JSON round trip of `Event` values through `JSON.stringify` and `JSON.parse` is assumed, not proved; the lemma states only that the storage abstraction gives back what was saved.
- `uid()` depends on `Math.random` and `Date.now`, so the fresh id is a parameter.
- `confirm`, `alert`, `dialog.showModal`/`close` and the add/cancel buttons are browser collaborators. A confirmed delete is a plain call; a refused submission returns an error value.
- `FormData`: the form arrives as a `FormData` value with its fields already read.
- Numbers.Number: finite values are exact reals. JavaScript rounds to the nearest double, so `Number("9007199254740993")` is 9007199254740992 there and `Number("1e400")` is `Infinity`; the model keeps the exact values. The sign of zero is not kept.
- Events.Submit: requires the day field to be a non-empty run of decimal digits, on the assumption that the page's form offers only such values for the day. This is a deliberate restriction: a stored day is an integer in this model, so `Number` of other day text (an empty field reads as 0, "abc" as `NaN`, "1.5" as 1.5) is not modelled.
- Events.Event: every field has its intended type. `id`, `title`, `start` and `end` are strings, `day` is an integer, and `location` and `note` are absent or strings. Stored JSON edited by hand could hold any value in any field, or leave a field out, and such entries are not modelled.
- Store.Start: a stored event whose `start` is missing or not a string makes `t.split` throw inside the `forEach` of `renderEvents`. Rendering then stops, so no later event gets a box, and at start-up the error escapes the page's initial script. The model has no such failure, so `Store.Start` and `Render.RenderEvents` promise nothing for such storage.
- Render.RenderOne: the model scans only the cells `buildGrid` made. The page's query searches the whole document, and a box's `innerHTML` puts the title, location and note in unescaped. Text that spells an element with class `cell` and a `data-day` attribute would therefore add a cell that later scans can pick. The model assumes the text fields hold no such markup.
- Render.RenderEvents: assumes, as `Render.RenderOne` does, that no box's text creates `.cell[data-day]` elements. Under that assumption every scan searches the same grid and each event is placed independently of the others.
- The clear-all action, row spans, a configurable slot generator and a header-row offset are not in `app.js`.
