/**
 * The stored events and the two operations that change them: the form's
 * submit handler, which validates and appends, and the box's delete
 * handler, which filters by id.
 */
module Events {

  import opened Wrappers
  import opened Text
  import opened Numbers
  import opened Clock
  import opened Seqs

  /** One timetable entry as it is stored. */
  datatype Event = Event(
    id: string,
    title: string,
    day: int,
    start: string,
    end: string,
    location: Option<string>,
    note: Option<string>)

  /** The submitted form's fields, read by name; the optional fields may be absent. */
  datatype FormData = FormData(
    title: string,
    day: string,
    start: string,
    end: string,
    location: Option<string>,
    note: Option<string>)

  /** Why a submission was refused. */
  datatype SubmitError = EndNotAfterStart

  /** The day field is a run of decimal digits, as the form is assumed to supply it. */
  predicate ReadableForm(f: FormData) {
    |f.day| > 0 && IsDigits(f.day)
  }

  /** The event ends after it starts, compared as `timeToMinutes` reads both. */
  predicate EndsAfterStart(e: Event) {
    LessThan(TimeToMinutes(e.start), TimeToMinutes(e.end))
  }

  predicate WellTimed(events: seq<Event>) {
    forall i :: 0 <= i < |events| ==> EndsAfterStart(events[i])
  }

  /** No two stored events share an id. */
  predicate DistinctIds(events: seq<Event>) {
    forall i, j :: 0 <= i < j < |events| ==> events[i].id != events[j].id
  }

  predicate HasId(events: seq<Event>, id: string) {
    exists i :: 0 <= i < |events| && events[i].id == id
  }

  /**
   * The event the submit handler builds from the form and a fresh id: the
   * day is the integer `Number` reads from the day field, and the title
   * is trimmed.
   */
  function NewEvent(f: FormData, freshId: string): (e: Event)
    requires ReadableForm(f)
    ensures Number(f.day) == Finite(e.day as real)
    ensures e.title == [] || (!IsTrimmable(e.title[0]) && !IsTrimmable(e.title[|e.title| - 1]))
  {
    NumberOfDigits(f.day);
    Event(freshId, Trim(f.title), DigitsValue(f.day), f.start, f.end, TrimOptional(f.location), TrimOptional(f.note))
  }

  /**
   * `form.onsubmit`: refuse when `timeToMinutes(end) <= timeToMinutes(start)`;
   * otherwise the stored events with one new event appended. A time that
   * reads as `NaN` makes the comparison false, so the form is accepted.
   */
  function Submit(stored: seq<Event>, f: FormData, freshId: string): (r: Result<seq<Event>, SubmitError>)
    requires ReadableForm(f)
    ensures r.Failure? <==> AtMost(TimeToMinutes(f.end), TimeToMinutes(f.start))
    ensures r.Success? ==> |r.value| == |stored| + 1 && r.value[..|stored|] == stored
    ensures r.Success? ==> var e := r.value[|stored|];
      && e.id == freshId
      && e.title == Trim(f.title)
      && Number(f.day) == Finite(e.day as real)
      && e.start == f.start && e.end == f.end
      && e.location == TrimOptional(f.location)
      && e.note == TrimOptional(f.note)
    ensures r.Success? && !TimeToMinutes(f.start).NaN? && !TimeToMinutes(f.end).NaN? ==> EndsAfterStart(r.value[|stored|])
  {
    if AtMost(TimeToMinutes(f.end), TimeToMinutes(f.start)) then Failure(EndNotAfterStart)
    else Success(stored + [NewEvent(f, freshId)])
  }

  /**
   * A time field that does not read as a number, such as an empty one, is
   * not refused: the event is stored although it does not end after it starts.
   */
  lemma SubmitAcceptsUnreadableTime(stored: seq<Event>, f: FormData, freshId: string)
    requires ReadableForm(f)
    requires TimeToMinutes(f.start).NaN? || TimeToMinutes(f.end).NaN?
    ensures Submit(stored, f, freshId).Success?
    ensures !EndsAfterStart(Submit(stored, f, freshId).value[|stored|])
  {
  }

  /** A day field holding "d" becomes the number d. */
  lemma SubmitDayIsNumber(stored: seq<Event>, f: FormData, freshId: string, d: nat)
    requires ReadableForm(f) && f.day == DecimalText(d)
    requires Submit(stored, f, freshId).Success?
    ensures Submit(stored, f, freshId).value[|stored|].day == d
  {
    DigitsValueOfDecimalText(d);
  }

  /** The stored events whose id differs from the deleted event's, in their original order. */
  function Delete(stored: seq<Event>, ev: Event): (r: seq<Event>)
    ensures |r| == |stored| - CountId(stored, ev.id)
    ensures forall i :: 0 <= i < |r| ==> r[i].id != ev.id
  {
    if stored == [] then []
    else if stored[0].id == ev.id then Delete(stored[1..], ev)
    else [stored[0]] + Delete(stored[1..], ev)
  }

  /**
   * The survivors of a delete are exactly the stored events with another
   * id, in their original relative order.
   */
  lemma {:induction false} DeleteKeepsOthers(stored: seq<Event>, ev: Event)
    ensures forall e :: e in stored && e.id != ev.id ==> e in Delete(stored, ev)
    ensures forall i :: 0 <= i < |Delete(stored, ev)| ==> Delete(stored, ev)[i] in stored
    ensures IsSubsequence(Delete(stored, ev), stored)
  {
    if stored != [] {
      var rest := stored[1..];
      DeleteKeepsOthers(rest, ev);
      var r, tail := Delete(stored, ev), Delete(rest, ev);
      if stored[0].id == ev.id {
        assert r == tail;
        SubsequenceSkip(r, stored);
      } else {
        assert r == [stored[0]] + tail;
        assert r[1..] == tail;
      }
      forall e | e in stored && e.id != ev.id
        ensures e in r
      {
        if e != stored[0] {
          assert e in rest;
        }
      }
      forall i | 0 <= i < |r|
        ensures r[i] in stored
      {
        if stored[0].id != ev.id && i > 0 {
          assert r[i] == tail[i - 1];
        }
      }
    }
  }

  /** How many stored events carry `id`. */
  function CountId(events: seq<Event>, id: string): (n: nat)
    ensures n <= |events|
  {
    if events == [] then 0
    else (if events[0].id == id then 1 else 0) + CountId(events[1..], id)
  }

  /** Accepting a submission keeps every stored event well timed and, given a fresh id, keeps ids distinct. */
  lemma SubmitKeepsInvariants(stored: seq<Event>, f: FormData, freshId: string)
    requires ReadableForm(f)
    requires Submit(stored, f, freshId).Success?
    ensures WellTimed(stored) && !TimeToMinutes(f.start).NaN? && !TimeToMinutes(f.end).NaN?
      ==> WellTimed(Submit(stored, f, freshId).value)
    ensures DistinctIds(stored) && !HasId(stored, freshId) ==> DistinctIds(Submit(stored, f, freshId).value)
  {
    var next := Submit(stored, f, freshId).value;
    var added := next[|stored|];
    assert next == stored + [added];
    if WellTimed(stored) && EndsAfterStart(added) {
      AppendWellTimed(stored, added);
    }
    if DistinctIds(stored) && !HasId(stored, freshId) {
      AppendDistinct(stored, added);
    }
  }

  lemma AppendWellTimed(events: seq<Event>, e: Event)
    requires WellTimed(events) && EndsAfterStart(e)
    ensures WellTimed(events + [e])
  {
    forall i | 0 <= i < |events| + 1
      ensures EndsAfterStart((events + [e])[i])
    {
      if i < |events| {
        assert (events + [e])[i] == events[i];
      }
    }
  }

  lemma AppendDistinct(events: seq<Event>, e: Event)
    requires DistinctIds(events) && !HasId(events, e.id)
    ensures DistinctIds(events + [e])
  {
  }

  /** Deleting keeps only stored events, so it keeps them well timed and their ids distinct. */
  lemma DeleteKeepsInvariants(stored: seq<Event>, ev: Event)
    ensures WellTimed(stored) ==> WellTimed(Delete(stored, ev))
    ensures DistinctIds(stored) ==> DistinctIds(Delete(stored, ev))
  {
    DeleteKeepsOthers(stored, ev);
    if DistinctIds(stored) {
      DeleteKeepsDistinct(stored, ev);
    }
  }

  lemma {:induction false} DeleteKeepsDistinct(stored: seq<Event>, ev: Event)
    requires DistinctIds(stored)
    ensures DistinctIds(Delete(stored, ev))
  {
    if stored != [] {
      var rest := stored[1..];
      assert DistinctIds(rest);
      DeleteKeepsDistinct(rest, ev);
      DeleteKeepsOthers(rest, ev);
      if stored[0].id != ev.id {
        var r := Delete(stored, ev);
        var tail := Delete(rest, ev);
        assert r == [stored[0]] + tail;
        forall i | 0 <= i < |tail|
          ensures tail[i].id != stored[0].id
        {
          assert tail[i] in rest;
        }
      }
    }
  }

  /** With no event carrying the id, deleting changes nothing. */
  lemma {:induction false} DeleteAbsent(stored: seq<Event>, ev: Event)
    requires !HasId(stored, ev.id)
    ensures Delete(stored, ev) == stored
  {
    if stored != [] {
      assert !HasId(stored[1..], ev.id) by {
        forall i | 0 <= i < |stored| - 1
          ensures stored[1..][i].id != ev.id
        {
          assert stored[1..][i] == stored[i + 1];
        }
      }
      DeleteAbsent(stored[1..], ev);
      assert stored[0].id != ev.id;
      assert stored == [stored[0]] + stored[1..];
    }
  }

  /** Deleting the same event twice is deleting it once. */
  lemma DeleteIdempotent(stored: seq<Event>, ev: Event)
    ensures Delete(Delete(stored, ev), ev) == Delete(stored, ev)
  {
  }

  lemma {:induction false} DeleteAppend(a: seq<Event>, b: seq<Event>, ev: Event)
    ensures Delete(a + b, ev) == Delete(a, ev) + Delete(b, ev)
  {
    if a == [] {
      assert a + b == b;
    } else {
      assert (a + b)[0] == a[0];
      assert (a + b)[1..] == a[1..] + b;
      DeleteAppend(a[1..], b, ev);
    }
  }

  /**
   * Deleting a just-submitted event, whose id was fresh, gives back exactly
   * the collection it was added to.
   */
  lemma DeleteUndoesSubmit(stored: seq<Event>, f: FormData, freshId: string, ev: Event)
    requires ReadableForm(f) && !HasId(stored, freshId) && ev.id == freshId
    requires Submit(stored, f, freshId).Success?
    ensures Delete(Submit(stored, f, freshId).value, ev) == stored
  {
    var added := NewEvent(f, freshId);
    assert Submit(stored, f, freshId).value == stored + [added];
    DeleteAppend(stored, [added], ev);
    DeleteAbsent(stored, ev);
    assert [added][1..] == [];
  }
}
