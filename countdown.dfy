/**
 * The special-offer countdown on the home page (index.js). The offer ends 24
 * hours after the page loads; once a second the milliseconds left are split
 * into hours, minutes and seconds, shown as `HH:MM:SS`, coloured by urgency,
 * and a `countdown_viewed` event is due while 23:59 is showing. The clock is
 * not modelled: the milliseconds left are the input.
 */
module Countdown {

  const MsPerSecond: int := 1000
  const MsPerMinute: int := 60000
  const MsPerHour: int := 3600000
  const MsPerDay: int := 86400000

  /** The colour change a tick makes: red and bold, orange, or none. */
  datatype Urgency = Red | Orange | Unchanged

  /** What one tick shows: the expiry text, or the time left and how it is shown. */
  datatype Tick =
    | Expired
    | Showing(hours: int, minutes: int, seconds: int, text: string, urgency: Urgency, viewed: bool)

  // ----- formatting -----

  function DigitChar(d: int): char
    requires 0 <= d < 10
  {
    ('0' as int + d) as char
  }

  function DigitValue(c: char): int
  {
    c as int - '0' as int
  }

  /** `n.toString()` for a non-negative integer. */
  function DecimalString(n: nat): (r: string)
    ensures |r| >= 1
    ensures n >= 10 ==> |r| >= 2
  {
    if n < 10 then [DigitChar(n)] else DecimalString(n / 10) + [DigitChar(n % 10)]
  }

  /** `s.padStart(width, fill)` with a one-character fill. */
  function PadStart(s: string, width: nat, fill: char): string
    decreases width - |s|
  {
    if |s| >= width then s else PadStart([fill] + s, width, fill)
  }

  /** Padding reaches the width, keeps the string at its end and fills only in front of it. */
  lemma {:induction false} PadStartShape(s: string, width: nat, fill: char)
    ensures var r := PadStart(s, width, fill);
      |r| == (if |s| >= width then |s| else width) &&
      r[|r| - |s|..] == s &&
      forall i :: 0 <= i < |r| - |s| ==> r[i] == fill
    decreases width - |s|
  {
    if |s| < width {
      var s' := [fill] + s;
      PadStartShape(s', width, fill);
      var r := PadStart(s', width, fill);
      assert PadStart(s, width, fill) == r;
      var tail := r[|r| - |s'|..];
      assert tail == s';
      assert r[|r| - |s|..] == tail[1..] == s;
      forall i | 0 <= i < |r| - |s| ensures r[i] == fill {
        if i == |r| - |s'| {
          assert r[i] == tail[0] == fill;
        }
      }
    }
  }

  /** `n.toString().padStart(2, '0')`. */
  function TwoDigits(n: nat): string
  {
    PadStart(DecimalString(n), 2, '0')
  }

  /** A digit character reads back as its digit. */
  lemma DigitRoundTrip(d: int)
    requires 0 <= d < 10
    ensures DigitValue(DigitChar(d)) == d
  {
  }

  /** A one-character string is padded with a single zero. */
  lemma PadOne(c: char)
    ensures PadStart([c], 2, '0') == ['0', c]
  {
    assert PadStart([c], 2, '0') == PadStart(['0', c], 2, '0');
  }

  /** Below 100 the padded form is exactly the tens digit and the units digit. */
  lemma TwoDigitsOf(n: nat)
    requires n < 100
    ensures TwoDigits(n) == [DigitChar(n / 10), DigitChar(n % 10)]
    ensures DigitValue(TwoDigits(n)[0]) * 10 + DigitValue(TwoDigits(n)[1]) == n
  {
    var q, r := n / 10, n % 10;
    assert n == q * 10 + r && 0 <= q < 10 && 0 <= r < 10;
    if n < 10 {
      assert q == 0 && r == n;
      assert DecimalString(n) == [DigitChar(n)];
      PadOne(DigitChar(n));
      assert DigitChar(0) == '0';
    } else {
      assert DecimalString(q) == [DigitChar(q)];
      assert DecimalString(n) == [DigitChar(q), DigitChar(r)];
    }
    DigitRoundTrip(q);
    DigitRoundTrip(r);
  }

  /** `HH:MM:SS`. */
  function ClockText(h: nat, m: nat, s: nat): string
  {
    TwoDigits(h) + ":" + TwoDigits(m) + ":" + TwoDigits(s)
  }

  /** Each field below 100 takes exactly two digits, and the text reads back as the three numbers. */
  lemma ClockTextReadsBack(h: nat, m: nat, s: nat)
    requires h < 100 && m < 100 && s < 100
    ensures var t := ClockText(h, m, s);
      |t| == 8 && t[2] == ':' && t[5] == ':' &&
      DigitValue(t[0]) * 10 + DigitValue(t[1]) == h &&
      DigitValue(t[3]) * 10 + DigitValue(t[4]) == m &&
      DigitValue(t[6]) * 10 + DigitValue(t[7]) == s
  {
    TwoDigitsOf(h);
    TwoDigitsOf(m);
    TwoDigitsOf(s);
    var a, b, c := TwoDigits(h), TwoDigits(m), TwoDigits(s);
    var t := ClockText(h, m, s);
    assert t == [a[0], a[1], ':', b[0], b[1], ':', c[0], c[1]];
  }

  // ----- one tick -----

  function UrgencyOf(hours: int): Urgency
  {
    if hours < 1 then Red else if hours < 6 then Orange else Unchanged
  }

  /**
   * `updateCountdown` as written: at or below zero the offer has expired;
   * otherwise hours are taken from the time left modulo a day.
   */
  function UpdateCountdown(timeLeft: int): (r: Tick)
    ensures r.Expired? <==> timeLeft <= 0
    ensures r.Showing? ==>
      0 <= r.hours < 24 && 0 <= r.minutes < 60 && 0 <= r.seconds < 60 && |r.text| == 8
  {
    if timeLeft <= 0 then Expired
    else
      var hours := (timeLeft % MsPerDay) / MsPerHour;
      var minutes := (timeLeft % MsPerHour) / MsPerMinute;
      var seconds := (timeLeft % MsPerMinute) / MsPerSecond;
      DayThenHour(timeLeft);
      HourThenMinute(timeLeft);
      MinuteThenSecond(timeLeft);
      ClockTextReadsBack(hours, minutes, seconds);
      Showing(hours, minutes, seconds, ClockText(hours, minutes, seconds), UrgencyOf(hours),
              hours == 23 && minutes == 59)
  }

  /** Within a day, the part below an hour is the part below an hour of the whole. */
  lemma DayThenHour(t: int)
    requires t >= 0
    ensures (t % MsPerDay) % MsPerHour == t % MsPerHour
    ensures 0 <= (t % MsPerDay) / MsPerHour < 24
  {
    var q, r := t / MsPerDay, t % MsPerDay;
    assert t == q * MsPerDay + r && 0 <= r < MsPerDay;
    var q2, r2 := r / MsPerHour, r % MsPerHour;
    assert r == q2 * MsPerHour + r2 && 0 <= r2 < MsPerHour;
    assert t == (q * 24 + q2) * MsPerHour + r2;
  }

  /** Within an hour, the part below a minute is the part below a minute of the whole. */
  lemma HourThenMinute(t: int)
    requires t >= 0
    ensures (t % MsPerHour) % MsPerMinute == t % MsPerMinute
    ensures 0 <= (t % MsPerHour) / MsPerMinute < 60
  {
    var q, r := t / MsPerHour, t % MsPerHour;
    assert t == q * MsPerHour + r && 0 <= r < MsPerHour;
    var q2, r2 := r / MsPerMinute, r % MsPerMinute;
    assert r == q2 * MsPerMinute + r2 && 0 <= r2 < MsPerMinute;
    assert t == (q * 60 + q2) * MsPerMinute + r2;
  }

  /** Within a minute, the part below a second is the part below a second of the whole. */
  lemma MinuteThenSecond(t: int)
    requires t >= 0
    ensures (t % MsPerMinute) % MsPerSecond == t % MsPerSecond
    ensures 0 <= (t % MsPerMinute) / MsPerSecond < 60
  {
    var q, r := t / MsPerMinute, t % MsPerMinute;
    assert t == q * MsPerMinute + r && 0 <= r < MsPerMinute;
    var q2, r2 := r / MsPerSecond, r % MsPerSecond;
    assert r == q2 * MsPerSecond + r2 && 0 <= r2 < MsPerSecond;
    assert t == (q * 60 + q2) * MsPerSecond + r2;
  }

  /**
   * The three fields are the time left within the current day, cut into
   * hours, minutes and seconds, plus the milliseconds not shown.
   */
  lemma UpdateCountdownDecomposes(timeLeft: int)
    requires timeLeft > 0
    ensures var r := UpdateCountdown(timeLeft);
      timeLeft % MsPerDay == r.hours * MsPerHour + r.minutes * MsPerMinute + r.seconds * MsPerSecond + timeLeft % MsPerSecond
  {
    var r := UpdateCountdown(timeLeft);
    DayThenHour(timeLeft);
    HourThenMinute(timeLeft);
    MinuteThenSecond(timeLeft);
    var d := timeLeft % MsPerDay;
    assert d == r.hours * MsPerHour + timeLeft % MsPerHour;
    var h := timeLeft % MsPerHour;
    assert h == r.minutes * MsPerMinute + h % MsPerMinute;
    var mm := timeLeft % MsPerMinute;
    assert mm == r.seconds * MsPerSecond + mm % MsPerSecond;
  }

  /**
   * At the first tick of a 24-hour offer the whole day is left, yet the
   * display reads 00:00:00 in the red reserved for the last hour.
   */
  lemma FullDayShowsMidnight()
    ensures UpdateCountdown(MsPerDay) == Showing(0, 0, 0, "00:00:00", Red, false)
  {
    assert MsPerDay % MsPerDay == 0 && MsPerDay % MsPerHour == 0 && MsPerDay % MsPerMinute == 0;
    MidnightText();
  }

  lemma MidnightText()
    ensures ClockText(0, 0, 0) == "00:00:00"
  {
    TwoDigitsOf(0);
    assert DigitChar(0) == '0';
    var z := TwoDigits(0);
    assert z == ['0', '0'];
    assert ClockText(0, 0, 0) == ['0', '0', ':', '0', '0', ':', '0', '0'];
  }

  // ----- the offer's countdown without the day wrap -----

  /**
   * The countdown for an offer that never runs longer than a day: hours are
   * the whole hours left, so the full day shows as 24:00:00.
   */
  function OfferCountdown(timeLeft: int): (r: Tick)
    ensures r.Expired? <==> timeLeft <= 0
  {
    if timeLeft <= 0 then Expired
    else
      var hours := timeLeft / MsPerHour;
      var minutes := (timeLeft % MsPerHour) / MsPerMinute;
      var seconds := (timeLeft % MsPerMinute) / MsPerSecond;
      Showing(hours, minutes, seconds, ClockText(hours, minutes, seconds), UrgencyOf(hours),
              hours == 23 && minutes == 59)
  }

  /**
   * Within the offer's day the fields account for all the time left, hours
   * never exceed 24, and red shows exactly in the last hour.
   */
  lemma OfferCountdownExact(timeLeft: int)
    requires 0 < timeLeft <= MsPerDay
    ensures var r := OfferCountdown(timeLeft);
      0 <= r.hours <= 24 && 0 <= r.minutes < 60 && 0 <= r.seconds < 60 && |r.text| == 8 &&
      timeLeft == r.hours * MsPerHour + r.minutes * MsPerMinute + r.seconds * MsPerSecond + timeLeft % MsPerSecond &&
      (r.urgency == Red <==> timeLeft < MsPerHour)
  {
    var r := OfferCountdown(timeLeft);
    HourThenMinute(timeLeft);
    MinuteThenSecond(timeLeft);
    ClockTextReadsBack(r.hours, r.minutes, r.seconds);
    var h := timeLeft % MsPerHour;
    assert h == r.minutes * MsPerMinute + h % MsPerMinute;
    var mm := timeLeft % MsPerMinute;
    assert mm == r.seconds * MsPerSecond + mm % MsPerSecond;
  }

  /** Below a full day the corrected countdown shows what the written one shows. */
  lemma OfferCountdownAgrees(timeLeft: int)
    requires timeLeft < MsPerDay
    ensures OfferCountdown(timeLeft) == UpdateCountdown(timeLeft)
  {
    if timeLeft > 0 {
      assert timeLeft % MsPerDay == timeLeft;
    }
  }
}
