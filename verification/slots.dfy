/**
 * The row boundaries of the timetable and lookup of the half-open row
 * `[b[i], b[i + 1])` that contains a minute of the day.
 */
module Slots {

  import opened Wrappers
  import opened Clock

  /** `TIME_SLOTS`: hourly boundaries from 08:00 to 22:00. */
  const TimeSlots: seq<string> := [
    "08:00", "09:00", "10:00", "11:00", "12:00",
    "13:00", "14:00", "15:00", "16:00", "17:00",
    "18:00", "19:00", "20:00", "21:00", "22:00"
  ]

  /** First minute covered by the grid (08:00) and first minute past it (22:00). */
  const GridStart: nat := 8 * 60
  const GridEnd: nat := 22 * 60

  predicate AllClockText(slots: seq<string>) {
    forall i :: 0 <= i < |slots| ==> IsClockText(slots[i])
  }

  /** The boundaries in minutes since midnight. */
  function Bounds(slots: seq<string>): (b: seq<nat>)
    requires AllClockText(slots)
    ensures |b| == |slots|
    ensures forall i :: 0 <= i < |slots| ==> b[i] == ClockMinutes(slots[i])
  {
    seq(|slots|, i requires 0 <= i < |slots| => ClockMinutes(slots[i]))
  }

  /** Each boundary lies strictly before the next one. */
  predicate Increasing(b: seq<int>) {
    forall i :: 0 <= i < |b| - 1 ==> b[i] < b[i + 1]
  }

  /** Row `i` exists and its half-open interval `[b[i], b[i + 1])` holds the minute `t`, which may be fractional. */
  predicate InRow(b: seq<int>, i: int, t: real) {
    0 <= i < |b| - 1 && b[i] as real <= t < b[i + 1] as real
  }

  /** A list whose neighbours increase is increasing between any two positions. */
  lemma {:induction false} IncreasingApart(b: seq<int>, i: int, j: int)
    requires Increasing(b) && 0 <= i < j < |b|
    ensures b[i] < b[j]
    decreases j - i
  {
    if i + 1 < j {
      IncreasingApart(b, i + 1, j);
    }
  }

  /** With increasing boundaries, no minute lies in two rows. */
  lemma RowUnique(b: seq<int>, t: real, i: int, j: int)
    requires Increasing(b) && InRow(b, i, t) && InRow(b, j, t)
    ensures i == j
  {
    if i < j {
      if i + 1 < j {
        IncreasingApart(b, i + 1, j);
      }
    } else if j < i {
      if j + 1 < i {
        IncreasingApart(b, j + 1, i);
      }
    }
  }

  /**
   * The scan of `renderEvents` from row `k` on: the first row whose interval
   * holds `t`, or nothing when no later row does.
   */
  function FindRowFrom(b: seq<int>, t: real, k: nat): (r: Option<nat>)
    decreases |b| - k
    ensures r.Some? ==> k <= r.value && InRow(b, r.value, t)
    ensures r.Some? ==> forall j :: k <= j < r.value ==> !InRow(b, j, t)
    ensures r.None? <==> forall j :: k <= j ==> !InRow(b, j, t)
  {
    if k + 1 >= |b| then None
    else if b[k] as real <= t < b[k + 1] as real then assert InRow(b, k, t); Some(k)
    else FindRowFrom(b, t, k + 1)
  }

  /** The first row holding `t`, scanning from the top of the grid. */
  function FindRow(b: seq<int>, t: real): (r: Option<nat>)
    ensures r.Some? ==> InRow(b, r.value, t) && forall j :: 0 <= j < r.value ==> !InRow(b, j, t)
    ensures r.None? <==> forall j :: !InRow(b, j, t)
  {
    FindRowFrom(b, t, 0)
  }

  /** The scan returns row `k` exactly when `k` is the first row holding `t`. */
  lemma FindRowFirst(b: seq<int>, t: real, k: int)
    ensures FindRow(b, t) == Some(k) <==> k >= 0 && InRow(b, k, t) && forall j :: 0 <= j < k ==> !InRow(b, j, t)
  {
  }

  /** Between the first and the last boundary some row holds `t`, whatever the boundaries are. */
  lemma {:induction false} CoveredFrom(b: seq<int>, t: real, k: nat)
    requires k + 1 < |b| && b[k] as real <= t < b[|b| - 1] as real
    ensures exists j :: k <= j && InRow(b, j, t)
    decreases |b| - k
  {
    if t < b[k + 1] as real {
      assert InRow(b, k, t);
    } else {
      CoveredFrom(b, t, k + 1);
    }
  }

  /**
   * With increasing boundaries the first match is the only match: the scan
   * returns row `i` exactly when `i`'s interval holds `t`.
   */
  lemma FindRowExact(b: seq<int>, t: real, i: int)
    requires Increasing(b)
    ensures FindRow(b, t) == Some(i) <==> InRow(b, i, t)
  {
    var r := FindRow(b, t);
    if InRow(b, i, t) {
      assert r.Some?;
      RowUnique(b, t, r.value, i);
    }
  }

  /** A minute is placed in some row exactly when it lies in `[b[0], b[|b| - 1])`. */
  lemma FindRowInRange(b: seq<int>, t: real)
    requires Increasing(b) && |b| >= 2
    ensures FindRow(b, t).Some? <==> b[0] as real <= t < b[|b| - 1] as real
  {
    if b[0] as real <= t < b[|b| - 1] as real {
      CoveredFrom(b, t, 0);
    }
    var r := FindRow(b, t);
    if r.Some? {
      var i := r.value;
      if 0 < i {
        IncreasingApart(b, 0, i);
      }
      if i + 1 < |b| - 1 {
        IncreasingApart(b, i + 1, |b| - 1);
      }
    }
  }

  /**
   * `TIME_SLOTS` spells fifteen times of day, one hour apart from 08:00, so
   * the grid has fourteen hourly rows.
   */
  lemma TimeSlotsShape()
    ensures |TimeSlots| == 15
    ensures AllClockText(TimeSlots)
    ensures forall i :: 0 <= i < |TimeSlots| ==> IsTimeOfDay(TimeSlots[i])
    ensures forall i :: 0 <= i < |TimeSlots| ==> ClockMinutes(TimeSlots[i]) == GridStart + 60 * i
  {
    forall i | 0 <= i < |TimeSlots|
      ensures IsTimeOfDay(TimeSlots[i]) && ClockMinutes(TimeSlots[i]) == GridStart + 60 * i
    {
      var t := TimeSlots[i];
      assert t[2] == ':' && t[3] == '0' && t[4] == '0';
      assert Hours(t) == 8 + i;
    }
  }

  /** The timetable's boundaries in minutes: 480, 540, …, 1320, strictly increasing. */
  lemma TimeSlotBounds()
    ensures AllClockText(TimeSlots)
    ensures |Bounds(TimeSlots)| == 15
    ensures forall i :: 0 <= i < 15 ==> Bounds(TimeSlots)[i] == GridStart + 60 * i
    ensures Increasing(Bounds(TimeSlots))
    ensures Bounds(TimeSlots)[0] == GridStart && Bounds(TimeSlots)[14] == GridEnd
  {
    TimeSlotsShape();
  }

  /**
   * In the timetable, minute `t` lies in row `⌊(t - 08:00) / 60⌋` when it is
   * in `[08:00, 22:00)`, and in no row otherwise.
   */
  lemma TimeSlotRow(t: real)
    ensures AllClockText(TimeSlots)
    ensures FindRow(Bounds(TimeSlots), t).None? <==> t < GridStart as real || t >= GridEnd as real
    ensures FindRow(Bounds(TimeSlots), t).Some? ==> FindRow(Bounds(TimeSlots), t).value == ((t - GridStart as real) / 60.0).Floor
  {
    TimeSlotBounds();
    var b := Bounds(TimeSlots);
    FindRowInRange(b, t);
    if GridStart as real <= t < GridEnd as real {
      var i := ((t - GridStart as real) / 60.0).Floor;
      assert i as real <= (t - GridStart as real) / 60.0 < i as real + 1.0;
      assert 0 <= i < 14;
      assert b[i] == GridStart + 60 * i && b[i + 1] == GridStart + 60 * (i + 1);
      assert InRow(b, i, t);
      FindRowExact(b, t, i);
    }
  }
}
