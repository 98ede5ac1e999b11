/**
 * `timeToMinutes` on any string, and the five-character "HH:MM" clock
 * texts that spell every boundary of the slot list.
 */
module Clock {

  import opened Text
  import opened Numbers

  /** Two digits, a colon, two digits. */
  predicate IsClockText(t: string) {
    && |t| == 5
    && IsDigit(t[0]) && IsDigit(t[1])
    && t[2] == ':'
    && IsDigit(t[3]) && IsDigit(t[4])
  }

  /** The number before the colon. */
  function Hours(t: string): (h: nat)
    requires IsClockText(t)
    ensures h <= 99
  {
    DigitValue(t[0]) * 10 + DigitValue(t[1])
  }

  /** The number after the colon. */
  function MinutesField(t: string): (m: nat)
    requires IsClockText(t)
    ensures m <= 99
  {
    DigitValue(t[3]) * 10 + DigitValue(t[4])
  }

  /** A clock text naming an actual time of day, 00:00 through 23:59. */
  predicate IsTimeOfDay(t: string) {
    IsClockText(t) && Hours(t) <= 23 && MinutesField(t) <= 59
  }

  /** The minutes since midnight a clock text names: the hour field times 60 plus the minute field. */
  function ClockMinutes(t: string): (r: nat)
    requires IsClockText(t)
    ensures r <= 99 * 60 + 99
    ensures IsTimeOfDay(t) ==> r < 24 * 60 && r / 60 == Hours(t) && r % 60 == MinutesField(t)
  {
    TwoDigitsValue(t[..2]);
    TwoDigitsValue(t[3..]);
    DigitsValue(t[..2]) * 60 + DigitsValue(t[3..])
  }

  /** The value of two digits is tens times ten plus units. */
  lemma TwoDigitsValue(s: string)
    requires |s| == 2 && IsDigits(s)
    ensures DigitsValue(s) == DigitValue(s[0]) * 10 + DigitValue(s[1])
  {
    assert DigitsValue(s[..1]) == DigitValue(s[0]) by {
      assert s[..1][..0] == [] && s[..1][0] == s[0];
    }
    assert s[..|s| - 1] == s[..1];
  }

  /**
   * `timeToMinutes`: split at every colon, read the first two pieces with
   * `Number`, and return the first times 60 plus the second. Without a
   * second piece the second is `undefined`, which `Number` reads as `NaN`.
   */
  function TimeToMinutes(t: string): (r: Num)
    ensures IsClockText(t) ==> r == Finite(ClockMinutes(t) as real)
  {
    ClockTextValue(t);
    var parts := Split(t, ':');
    var h := Number(parts[0]);
    var m := if |parts| >= 2 then Number(parts[1]) else NaN;
    Add(TimesSixty(h), m)
  }

  /** A string without a colon, such as an empty time field, has no minute piece, so it reads as `NaN`. */
  lemma NoColonIsNaN(t: string)
    requires ':' !in t
    ensures TimeToMinutes(t).NaN?
  {
    FindFound(t, ':');
  }

  /** Only the first two pieces count: whatever follows a second colon is ignored ("08:00:30" reads as "08:00"). */
  lemma LaterPiecesIgnored(t: string, rest: string)
    requires |Split(t, ':')| == 2
    ensures TimeToMinutes(t + [':'] + rest) == TimeToMinutes(t)
  {
    SplitAppend(t, rest, ':');
    var parts := Split(t + [':'] + rest, ':');
    assert parts[0] == Split(t, ':')[0] && parts[1] == Split(t, ':')[1];
  }

  /** White space before the hour is ignored (" 8:00" reads as "8:00"). */
  lemma LeadingSpaceIgnored(w: string, t: string)
    requires forall i :: 0 <= i < |w| ==> IsTrimmable(w[i])
    ensures TimeToMinutes(w + t) == TimeToMinutes(t)
  {
    assert ':' !in w by {
      forall i | 0 <= i < |w|
        ensures w[i] != ':'
      {
        assert IsTrimmable(w[i]);
      }
    }
    SplitPrefix(w, t, ':');
    NumberPadded(w, Split(t, ':')[0]);
  }

  /** A hour without its leading zero reads the same ("8:00" reads as "08:00"). */
  lemma UnpaddedHour(t: string)
    requires |Split(t, ':')| >= 2
    requires |Split(t, ':')[0]| > 0 && IsDigits(Split(t, ':')[0])
    ensures TimeToMinutes(['0'] + t) == TimeToMinutes(t)
  {
    SplitPrefix(['0'], t, ':');
    var h := Split(t, ':')[0];
    assert Split(['0'] + t, ':')[0] == ['0'] + h;
    NumberOfDigits(h);
    NumberOfDigits(['0'] + h);
    LeadingZero(h);
  }

  /** A clock text splits into its hour and minute digits, and `Number` reads each as its value. */
  lemma ClockTextFields(t: string)
    ensures IsClockText(t) ==> Split(t, ':') == [t[..2], t[3..]]
    ensures IsClockText(t) ==> Number(t[..2]) == Finite(DigitsValue(t[..2]) as real)
    ensures IsClockText(t) ==> Number(t[3..]) == Finite(DigitsValue(t[3..]) as real)
  {
    if IsClockText(t) {
      assert t[..2] == [t[0], t[1]] && t[3..] == [t[3], t[4]];
      FindAt(t, ':', 2);
      var rest := t[3..];
      assert rest[0] != ':' && rest[1] != ':';
      FindAt(rest, ':', 2);
      assert Split(rest, ':') == [rest];
      assert Split(t, ':') == [t[..2]] + Split(rest, ':');
      NumberOfDigits(t[..2]);
      NumberOfDigits(t[3..]);
    }
  }

  /** What `timeToMinutes` computes on a clock text is its minutes since midnight. */
  lemma ClockTextValue(t: string)
    ensures IsClockText(t) ==>
      var parts := Split(t, ':');
      |parts| == 2 && Add(TimesSixty(Number(parts[0])), Number(parts[1])) == Finite(ClockMinutes(t) as real)
  {
    ClockTextFields(t);
  }

  /** The zero-padded "HH:MM" spelling of a minute of the day; the inverse of `ClockMinutes`. */
  function FormatMinutes(n: nat): (t: string)
    requires n < 24 * 60
    ensures IsTimeOfDay(t)
    ensures ClockMinutes(t) == n
  {
    var h := n / 60;
    var m := n % 60;
    [DigitChar(h / 10), DigitChar(h % 10), ':', DigitChar(m / 10), DigitChar(m % 10)]
  }

  /** Every time of day is spelled exactly one way, so reading it and spelling it back is the identity. */
  lemma FormatOfClockMinutes(t: string)
    requires IsTimeOfDay(t)
    ensures FormatMinutes(ClockMinutes(t)) == t
  {
    var n := ClockMinutes(t);
    var h, m := n / 60, n % 60;
    assert h == Hours(t) && m == MinutesField(t);
    TensAndUnits(DigitValue(t[0]), DigitValue(t[1]));
    TensAndUnits(DigitValue(t[3]), DigitValue(t[4]));
    var u := FormatMinutes(n);
    assert u == [DigitChar(h / 10), DigitChar(h % 10), ':', DigitChar(m / 10), DigitChar(m % 10)];
    DigitCharOfValue(t[0]);
    DigitCharOfValue(t[1]);
    DigitCharOfValue(t[3]);
    DigitCharOfValue(t[4]);
  }

  lemma TensAndUnits(a: nat, b: nat)
    requires b <= 9
    ensures (a * 10 + b) / 10 == a && (a * 10 + b) % 10 == b
  {
  }

  lemma DigitCharOfValue(c: char)
    requires IsDigit(c)
    ensures DigitChar(DigitValue(c)) == c
  {
  }

  /** Two times of day are the same string exactly when they name the same minute. */
  lemma ClockMinutesInjective(a: string, b: string)
    requires IsTimeOfDay(a) && IsTimeOfDay(b)
    ensures ClockMinutes(a) == ClockMinutes(b) <==> a == b
  {
    if ClockMinutes(a) == ClockMinutes(b) {
      FormatOfClockMinutes(a);
      FormatOfClockMinutes(b);
    }
  }
}
