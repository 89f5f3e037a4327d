/** The value rules shared by events and activities (the timeline mixin of
    _trips/models.py): effective start and end, the precise-time flag, the
    human-readable duration and the duration recomputed from the four
    date/time columns.

    Dates are day numbers, times are seconds since midnight, and a duration
    is a whole number of tenths of an hour (the column keeps one decimal
    place), so no floating point is needed. */
module Timeline {
  import opened Common

  /** A calendar date as a day number from an arbitrary epoch. */
  type Date = int

  const SecondsPerDay: int := 86400

  /** A time of day in whole seconds since midnight. */
  type TimeOfDay = s: int | 0 <= s < 86400

  /** A duration in tenths of an hour: 25 stands for 2.5 hours. */
  type Tenths = int

  /** Seconds in one tenth of an hour. */
  const SecondsPerTenth: int := 360

  /** The five timeline columns an event or an activity carries. */
  datatype Fields = Fields(
    dateStart: Option<Date>,
    timeStart: Option<TimeOfDay>,
    dateEnd: Option<Date>,
    timeEnd: Option<TimeOfDay>,
    duration: Option<Tenths>)

  /** What an effective start or end is: a bare date, or a date combined
      with a time of day. */
  datatype Moment = Day(date: Date) | DateTime(date: Date, time: TimeOfDay)

  /** The instant of a date and a time, in seconds from the epoch. */
  function Combine(d: Date, t: TimeOfDay): int {
    d * SecondsPerDay + t
  }

  /** The start of the timeline: date and time combined when both are
      set, the date alone when only it is set, nothing otherwise. */
  function EffectiveStart(f: Fields): Option<Moment> {
    if f.dateStart.Some? then
      if f.timeStart.Some? then Some(DateTime(f.dateStart.value, f.timeStart.value))
      else Some(Day(f.dateStart.value))
    else None
  }

  /** The end of the timeline, by the same rule on the end columns. */
  function EffectiveEnd(f: Fields): Option<Moment> {
    if f.dateEnd.Some? then
      if f.timeEnd.Some? then Some(DateTime(f.dateEnd.value, f.timeEnd.value))
      else Some(Day(f.dateEnd.value))
    else None
  }

  /** Whether the start is known to the second. */
  predicate HasTime(f: Fields) {
    f.dateStart.Some? && f.timeStart.Some?
  }

  /** The start columns and the end columns swapped. */
  function SwapEnds(f: Fields): Fields {
    Fields(f.dateEnd, f.timeEnd, f.dateStart, f.timeStart, f.duration)
  }

  /** The effective start is undefined exactly when the start date is unset,
      carries the start date otherwise, and carries a time exactly when
      HasTime holds. */
  lemma EffectiveStartAgreesWithHasTime(f: Fields)
    ensures EffectiveStart(f).None? <==> f.dateStart.None?
    ensures EffectiveStart(f).Some? ==> EffectiveStart(f).value.date == f.dateStart.value
    ensures EffectiveStart(f).Some? && EffectiveStart(f).value.DateTime? <==> HasTime(f)
    ensures HasTime(f) ==> EffectiveStart(f).value.time == f.timeStart.value
  {
  }

  /** The effective end follows the start's rule on the swapped record, and
      depends on the end columns only. */
  lemma EffectiveEndMirrorsStart(f: Fields, g: Fields)
    ensures EffectiveEnd(f) == EffectiveStart(SwapEnds(f))
    ensures f.dateEnd == g.dateEnd && f.timeEnd == g.timeEnd ==> EffectiveEnd(f) == EffectiveEnd(g)
  {
  }

  // ---------------------------------------------------------------------
  // Duration arithmetic

  /** All four date/time columns are set. */
  predicate Complete(f: Fields) {
    f.dateStart.Some? && f.timeStart.Some? && f.dateEnd.Some? && f.timeEnd.Some?
  }

  /** A positive number of seconds rounded to the nearest tenth of an hour
      (halves round up). */
  function RoundToTenths(seconds: nat): Tenths {
    (seconds + SecondsPerTenth / 2) / SecondsPerTenth
  }

  /** The duration after recalculation: the rounded hours between start
      and end when end is after start, zero when it is not, and the
      stored duration untouched when a column is missing. */
  function RecalculatedDuration(f: Fields): Option<Tenths> {
    if Complete(f) then
      var start := Combine(f.dateStart.value, f.timeStart.value);
      var end := Combine(f.dateEnd.value, f.timeEnd.value);
      if end > start then Some(RoundToTenths(end - start)) else Some(0)
    else f.duration
  }

  /** The record after `calculate_duration`: only the duration changes. */
  function Recalculate(f: Fields): Fields {
    f.(duration := RecalculatedDuration(f))
  }

  /** The instant of a combined moment. */
  function Instant(m: Moment): int
    requires m.DateTime?
  {
    Combine(m.date, m.time)
  }

  /** With all four columns set, the duration becomes a nearest tenth of an
      hour to the time from the effective start to the effective end when
      that is positive, and zero otherwise; it is never negative. On a span
      exactly halfway between two tenths either neighbour is nearest. */
  lemma {:induction false} CompleteDurationIsNearestTenth(f: Fields)
    requires Complete(f)
    ensures EffectiveStart(f).Some? && EffectiveStart(f).value.DateTime?
    ensures EffectiveEnd(f).Some? && EffectiveEnd(f).value.DateTime?
    ensures RecalculatedDuration(f).Some? && RecalculatedDuration(f).value >= 0
    ensures
      var span := Instant(EffectiveEnd(f).value) - Instant(EffectiveStart(f).value);
      var r := RecalculatedDuration(f).value;
      (span <= 0 ==> r == 0) &&
      (span > 0 ==> r * SecondsPerTenth - SecondsPerTenth / 2 <= span <= r * SecondsPerTenth + SecondsPerTenth / 2)
  {
    var span := Instant(EffectiveEnd(f).value) - Instant(EffectiveStart(f).value);
    if span > 0 {
      RoundToTenthsIsNearest(span);
    }
  }

  /** Rounding lands on a tenth no more than half a tenth away; a span
      exactly halfway between two tenths goes to the upper one. */
  lemma {:induction false} RoundToTenthsIsNearest(seconds: nat)
    ensures var r := RoundToTenths(seconds);
      r >= 0 && r * SecondsPerTenth - SecondsPerTenth / 2 <= seconds < r * SecondsPerTenth + SecondsPerTenth / 2
  {
    var q := (seconds + 180) / 360;
    var m := (seconds + 180) % 360;
    assert seconds + 180 == q * 360 + m;
  }

  /** With a column missing, the stored duration survives recalculation. */
  lemma IncompleteDurationUnchanged(f: Fields)
    requires !Complete(f)
    ensures Recalculate(f) == f
  {
  }

  /** Recalculation changes the duration column only, and doing it twice is
      the same as doing it once. */
  lemma {:induction false} RecalculateIdempotent(f: Fields)
    ensures Recalculate(f).(duration := f.duration) == f
    ensures Recalculate(Recalculate(f)) == Recalculate(f)
  {
    var g := Recalculate(f);
    assert Complete(g) == Complete(f);
    if Complete(f) {
      assert RecalculatedDuration(g) == RecalculatedDuration(f);
    }
  }

  // ---------------------------------------------------------------------
  // Human-readable duration

  predicate IsDigit(c: char) {
    '0' <= c <= '9'
  }

  predicate AllDigits(s: string) {
    forall i :: 0 <= i < |s| ==> IsDigit(s[i])
  }

  function DigitChar(d: int): (c: char)
    requires 0 <= d < 10
    ensures IsDigit(c) && c as int - '0' as int == d
  {
    (d + '0' as int) as char
  }

  function DigitValue(c: char): int {
    c as int - '0' as int
  }

  /** The decimal numeral of a natural number, without leading zeros. */
  function NatToString(n: nat): (s: string)
    ensures |s| >= 1 && AllDigits(s)
    ensures s[0] == '0' ==> n == 0
    decreases n
  {
    if n < 10 then [DigitChar(n)] else NatToString(n / 10) + [DigitChar(n % 10)]
  }

  /** The value of a decimal numeral. */
  function ParseNat(s: string): nat
    requires AllDigits(s)
  {
    if s == [] then 0
    else
      assert AllDigits(s[..|s| - 1]);
      ParseNat(s[..|s| - 1]) * 10 + DigitValue(s[|s| - 1])
  }

  lemma {:induction false} ParseNatToString(n: nat)
    ensures ParseNat(NatToString(n)) == n
    decreases n
  {
    var s := NatToString(n);
    if n >= 10 {
      assert s[..|s| - 1] == NatToString(n / 10);
      ParseNatToString(n / 10);
    }
  }

  function Abs(v: int): nat {
    if v < 0 then -v else v
  }

  /** The duration as shown: nothing when unset or zero; "Nh" when it is a
      whole number of hours; "N.Mh" otherwise, with a leading "-" for a
      negative value. */
  function DurationDisplay(d: Option<Tenths>): Option<string> {
    if d.None? || d.value == 0 then None
    else
      var v := d.value;
      var sign := if v < 0 then "-" else "";
      var hours := NatToString(Abs(v) / 10);
      if v % 10 == 0 then Some(sign + hours + "h")
      else Some(sign + hours + "." + [DigitChar(Abs(v) % 10)] + "h")
  }

  /** Reads an unsigned "N" or "N.M" back into tenths of an hour. */
  function ParseMagnitude(mag: string): Option<nat> {
    if |mag| >= 3 && mag[|mag| - 2] == '.' && IsDigit(mag[|mag| - 1]) && AllDigits(mag[..|mag| - 2]) then
      Some(ParseNat(mag[..|mag| - 2]) * 10 + DigitValue(mag[|mag| - 1]))
    else if |mag| >= 1 && AllDigits(mag) then
      Some(ParseNat(mag) * 10)
    else None
  }

  /** Reads a displayed duration back into tenths of an hour. */
  function ParseDisplay(s: string): Option<Tenths> {
    if |s| < 2 || s[|s| - 1] != 'h' then None
    else
      var body := s[..|s| - 1];
      var neg := body[0] == '-';
      match ParseMagnitude(if neg then body[1..] else body)
      case None => None
      case Some(v) => var x: int := v; Some(if neg then -x else x)
  }

  lemma {:induction false} ParseWholeMagnitude(n: nat)
    ensures ParseMagnitude(NatToString(n)) == Some(n * 10)
  {
    var mag := NatToString(n);
    ParseNatToString(n);
    assert IsDigit(mag[|mag| - 1]);
  }

  lemma {:induction false} ParseFractionalMagnitude(n: nat, k: int)
    requires 0 <= k < 10
    ensures ParseMagnitude(NatToString(n) + "." + [DigitChar(k)]) == Some(n * 10 + k)
  {
    var hours := NatToString(n);
    var mag := hours + "." + [DigitChar(k)];
    ParseNatToString(n);
    assert mag[..|mag| - 2] == hours;
  }

  lemma {:induction false} ParseSigned(neg: bool, mag: string)
    requires |mag| >= 1 && IsDigit(mag[0])
    ensures var sign := if neg then "-" else "";
      ParseDisplay(sign + mag + "h") ==
        match ParseMagnitude(mag)
        case None => None
        case Some(v) => var x: int := v; Some(if neg then -x else x)
  {
    var sign := if neg then "-" else "";
    var s := sign + mag + "h";
    var body := sign + mag;
    assert s[..|s| - 1] == body;
    assert s[|s| - 1] == 'h';
    if neg {
      assert body[0] == '-' && body[1..] == mag;
    } else {
      assert body == mag && body[0] != '-';
    }
  }

  /** A whole number of hours reads back and has no decimal point. */
  lemma {:induction false} WholeDisplayRoundTrip(v: Tenths)
    requires v != 0 && v % 10 == 0
    ensures DurationDisplay(Some(v)).Some?
    ensures ParseDisplay(DurationDisplay(Some(v)).value) == Some(v)
    ensures '.' !in DurationDisplay(Some(v)).value
  {
    var sign := if v < 0 then "-" else "";
    var n := Abs(v) / 10;
    var hours := NatToString(n);
    var s := sign + hours + "h";
    assert DurationDisplay(Some(v)) == Some(s);
    ParseWholeMagnitude(n);
    ParseSigned(v < 0, hours);
    assert Abs(v) == n * 10;
    forall i | 0 <= i < |s| ensures s[i] != '.' {
      if |sign| <= i < |sign| + |hours| { assert s[i] == hours[i - |sign|]; }
    }
  }

  /** Any other value reads back and shows a decimal point. */
  lemma {:induction false} FractionalDisplayRoundTrip(v: Tenths)
    requires v % 10 != 0
    ensures DurationDisplay(Some(v)).Some?
    ensures ParseDisplay(DurationDisplay(Some(v)).value) == Some(v)
    ensures '.' in DurationDisplay(Some(v)).value
  {
    var sign := if v < 0 then "-" else "";
    var n := Abs(v) / 10;
    var k := Abs(v) % 10;
    var hours := NatToString(n);
    var mag := hours + "." + [DigitChar(k)];
    var s := sign + mag + "h";
    assert DurationDisplay(Some(v)).value == sign + hours + "." + [DigitChar(k)] + "h";
    assert sign + hours + "." + [DigitChar(k)] + "h" == s;
    ParseFractionalMagnitude(n, k);
    ParseSigned(v < 0, mag);
    assert Abs(v) == n * 10 + k;
    assert s[|sign| + |hours|] == '.';
  }

  /** The display is absent exactly for an unset or zero duration; a whole
      number of hours is shown without a decimal point and any other value
      with one; and the shown text determines the duration. */
  lemma {:induction false} DurationDisplayRoundTrip(d: Option<Tenths>)
    ensures DurationDisplay(d).Some? <==> d.Some? && d.value != 0
    ensures DurationDisplay(d).Some? ==> ParseDisplay(DurationDisplay(d).value) == d
    ensures DurationDisplay(d).Some? && d.value % 10 == 0 ==> '.' !in DurationDisplay(d).value
    ensures DurationDisplay(d).Some? && d.value % 10 != 0 ==> '.' in DurationDisplay(d).value
  {
    if d.Some? && d.value != 0 {
      if d.value % 10 == 0 {
        WholeDisplayRoundTrip(d.value);
      } else {
        FractionalDisplayRoundTrip(d.value);
      }
    }
  }

  /** A recalculated duration is shown exactly when the end is at least
      half a tenth of an hour after the start; an end at or before the
      start shows nothing. */
  lemma {:induction false} RecalculatedDisplay(f: Fields)
    requires Complete(f)
    ensures
      var span := Combine(f.dateEnd.value, f.timeEnd.value) - Combine(f.dateStart.value, f.timeStart.value);
      DurationDisplay(RecalculatedDuration(f)).Some? <==> span >= SecondsPerTenth / 2
  {
    var span := Combine(f.dateEnd.value, f.timeEnd.value) - Combine(f.dateStart.value, f.timeStart.value);
    if span > 0 {
      RoundToTenthsIsNearest(span);
    }
  }

  /** Worked values: 09:00 to 11:30 on one day shows "2.5h"; 09:00 to 08:00
      shows nothing; three whole hours show "3h". */
  lemma DurationExamples()
    ensures RecalculatedDuration(Fields(Some(0), Some(9 * 3600), Some(0), Some(11 * 3600 + 1800), None)) == Some(25)
    ensures DurationDisplay(Some(25)) == Some("2.5h")
    ensures RecalculatedDuration(Fields(Some(0), Some(9 * 3600), Some(0), Some(8 * 3600), Some(12))) == Some(0)
    ensures DurationDisplay(Some(0)) == None
    ensures DurationDisplay(Some(30)) == Some("3h")
  {
    assert DigitChar(2) == '2' && DigitChar(3) == '3' && DigitChar(5) == '5';
    assert NatToString(2) == "2";
    assert NatToString(3) == "3";
    assert DurationDisplay(Some(25)).value == "" + "2" + "." + ['5'] + "h";
    assert "" + "2" + "." + ['5'] + "h" == "2.5h";
    assert DurationDisplay(Some(30)).value == "" + "3" + "h";
    assert "" + "3" + "h" == "3h";
  }
}
