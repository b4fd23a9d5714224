/**
  The duration formatter of index.ts: `formatTime` breaks a millisecond
  count into hours-of-day, minutes and seconds and joins their
  `padZero` renderings as `HH:MM:SS`; the days are computed and dropped.
  `printClock` renders wall-clock fields through the same join.
 */
module Clock {
  import opened Decimal

  datatype Option<T> = None | Some(value: T)

  /** The three displayed fields of a `HH:MM:SS` text. */
  datatype Fields = Fields(hours: nat, minutes: nat, seconds: nat) {
    /** Each field fits in two digits. */
    predicate FitsTwoDigits() {
      hours < 100 && minutes < 100 && seconds < 100
    }
    /** The ranges a wall clock reports: 0-23, 0-59, 0-59. */
    predicate IsTimeOfDay() {
      hours < 24 && minutes < 60 && seconds < 60
    }
  }

  // Milliseconds per second, minute (1000 * 60), hour (1000 * 60 * 60) and
  // day (1000 * 60 * 60 * 24) appear below as the literals 1000, 60000,
  // 3600000 and 86400000.

  /** Two digits, a colon, two digits, a colon, two digits. */
  predicate IsClockText(s: string) {
    && |s| == 8
    && s[2] == ':' && s[5] == ':'
    && IsDigit(s[0]) && IsDigit(s[1])
    && IsDigit(s[3]) && IsDigit(s[4])
    && IsDigit(s[6]) && IsDigit(s[7])
  }

  /** Reads the three fields back out of a `HH:MM:SS` text. */
  function ParseClock(s: string): (r: Option<Fields>)
    ensures r.Some? <==> IsClockText(s)
    ensures r.Some? ==> r.value.FitsTwoDigits()
  {
    if IsClockText(s) then
      var h, m, sec := s[0..2], s[3..5], s[6..8];
      LemmaValueTwo(h);
      LemmaValueTwo(m);
      LemmaValueTwo(sec);
      Some(Fields(Value(h), Value(m), Value(sec)))
    else None
  }

  /**
    The template `${padZero(h)}:${padZero(m)}:${padZero(s)}`. Whenever the
    fields fit in two digits the text is a `HH:MM:SS` text from which
    `ParseClock` recovers exactly those fields.
   */
  function Render(f: Fields): (r: string)
    ensures f.FitsTwoDigits() ==> IsClockText(r) && ParseClock(r) == Some(f)
  {
    var r := PadZero(f.hours) + ":" + PadZero(f.minutes) + ":" + PadZero(f.seconds);
    if f.FitsTwoDigits() then
      assert r[0..2] == PadZero(f.hours);
      assert r[3..5] == PadZero(f.minutes);
      assert r[6..8] == PadZero(f.seconds);
      r
    else r
  }

  /** Every `HH:MM:SS` text is the rendering of the fields it parses to. */
  lemma LemmaRenderOfParse(s: string)
    requires ParseClock(s).Some?
    ensures Render(ParseClock(s).value) == s
  {
    var h, m, sec := s[0..2], s[3..5], s[6..8];
    LemmaPadZeroOfValue(h);
    LemmaPadZeroOfValue(m);
    LemmaPadZeroOfValue(sec);
    assert s == h + ":" + m + ":" + sec;
  }

  /** `printClock`, with the wall-clock reading passed in as fields. */
  function ClockFace(now: Fields): (r: string)
    requires now.IsTimeOfDay()
    ensures IsClockText(r)
    ensures ParseClock(r) == Some(now)
    ensures r[0] <= '2' && r[3] <= '5' && r[6] <= '5'
  {
    var r := Render(now);
    LemmaValueTwo(r[0..2]);
    LemmaValueTwo(r[3..5]);
    LemmaValueTwo(r[6..8]);
    r
  }

  /** The whole days in `ms`: computed by `formatTime`, never displayed. */
  function Days(ms: nat): (d: nat)
    ensures d * 86400000 <= ms < (d + 1) * 86400000
  {
    ms / 86400000
  }

  /** The fields `formatTime` displays for `ms`. */
  function Breakdown(ms: nat): (f: Fields)
    ensures f.IsTimeOfDay()
  {
    Fields((ms / 3600000) % 24, (ms / 60000) % 60, (ms / 1000) % 60)
  }

  /**
    `formatTime` on a non-negative millisecond count: an eight-character
    `HH:MM:SS` text whose fields are the hour of the day, the minute of
    the hour and the second of the minute of `ms`.
   */
  function FormatTime(ms: nat): (r: string)
    ensures IsClockText(r)
    ensures ParseClock(r) == Some(Fields((ms / 3600000) % 24, (ms / 60000) % 60, (ms / 1000) % 60))
  {
    Render(Breakdown(ms))
  }

  /** The displayed fields together with the dropped days give back the whole seconds of `ms`. */
  lemma LemmaOnlyDaysAreLost(ms: nat)
    ensures var f := ParseClock(FormatTime(ms)).value;
            Days(ms) * 86400 + f.hours * 3600 + f.minutes * 60 + f.seconds == ms / 1000
  {
    var sec := ms / 1000;
    LemmaDivDiv(ms, 1000, 60);
    LemmaDivDiv(ms, 1000, 3600);
    LemmaDivDiv(ms, 1000, 86400);
    LemmaDivDiv(sec, 60, 60);
    LemmaDivDiv(sec, 3600, 24);
    LemmaSplitSeconds(sec);
  }

  /** Adding a whole day does not change the text: days are not displayed. */
  lemma LemmaDaysDropped(ms: nat)
    ensures FormatTime(ms + 86400000) == FormatTime(ms)
  {
    LemmaShiftField(ms, 1000, 60, 1440);
    LemmaShiftField(ms, 60000, 60, 24);
    LemmaShiftField(ms, 3600000, 24, 1);
    assert Breakdown(ms + 86400000) == Breakdown(ms);
  }

  /** Milliseconds below a whole second do not change the text. */
  lemma LemmaSubSecondIgnored(k: nat, r: nat)
    requires r < 1000
    ensures FormatTime(1000 * k + r) == FormatTime(1000 * k)
  {
    var a, b := 1000 * k + r, 1000 * k;
    assert a / 1000 == k && b / 1000 == k;
    LemmaDivDiv(a, 1000, 60);
    LemmaDivDiv(b, 1000, 60);
    LemmaDivDiv(a, 1000, 3600);
    LemmaDivDiv(b, 1000, 3600);
    LemmaFieldsDetermineText(a, b);
  }

  /**
    Two durations display the same text exactly when they have the same
    whole seconds modulo one day.
   */
  lemma LemmaSameTextIff(a: nat, b: nat)
    ensures FormatTime(a) == FormatTime(b) <==> (a / 1000) % 86400 == (b / 1000) % 86400
  {
    LemmaOnlyDaysAreLost(a);
    LemmaOnlyDaysAreLost(b);
    var fa, fb := ParseClock(FormatTime(a)).value, ParseClock(FormatTime(b)).value;
    LemmaSecondsOfDay(a / 1000, Days(a), fa);
    LemmaSecondsOfDay(b / 1000, Days(b), fb);
    if (a / 1000) % 86400 == (b / 1000) % 86400 {
      LemmaFieldsUnique(fa, fb);
      LemmaRenderOfParse(FormatTime(a));
      LemmaRenderOfParse(FormatTime(b));
    }
  }

  // ---- arithmetic helpers ----

  lemma LemmaFieldsDetermineText(a: nat, b: nat)
    requires (a / 3600000) % 24 == (b / 3600000) % 24
    requires (a / 60000) % 60 == (b / 60000) % 60
    requires (a / 1000) % 60 == (b / 1000) % 60
    ensures FormatTime(a) == FormatTime(b)
  {
  }

  lemma LemmaDivDiv(x: nat, a: nat, b: nat)
    requires a > 0 && b > 0
    ensures x / (a * b) == (x / a) / b
  {
    var q, r := x / a, x % a;
    var q2, r2 := q / b, q % b;
    LemmaRegroup(a, b, q2, r2, r);
    LemmaMulMono(a, r2, b - 1);
    LemmaMulPred(a, b);
    LemmaDivUnique(x, a * b, q2, a * r2 + r);
  }

  /** `a * (b * q + s) + r == (a * b) * q + (a * s + r)` */
  lemma LemmaRegroup(a: nat, b: nat, q: nat, s: nat, r: nat)
    ensures a * (b * q + s) + r == (a * b) * q + (a * s + r)
  {
    assert a * (b * q + s) == a * (b * q) + a * s;
    assert a * (b * q) == (a * b) * q;
  }

  lemma LemmaMulPred(a: nat, b: nat)
    requires b > 0
    ensures a * (b - 1) == a * b - a
  {
    assert a * b == a * (b - 1) + a;
  }

  lemma LemmaDivUnique(x: nat, d: nat, q: nat, r: nat)
    requires d > 0 && r < d && x == d * q + r
    ensures x / d == q && x % d == r
  {
    var q', r' := x / d, x % d;
    assert d * q + r == d * q' + r';
    if q > q' {
      assert d * q == d * q' + d * (q - q');
      LemmaMulAtLeast(d, q - q');
    } else if q < q' {
      assert d * q' == d * q + d * (q' - q);
      LemmaMulAtLeast(d, q' - q);
    }
  }

  lemma LemmaMulMono(a: nat, x: nat, y: nat)
    requires x <= y
    ensures a * x <= a * y
  {
    assert a * y == a * x + a * (y - x);
  }

  lemma LemmaMulAtLeast(d: nat, k: nat)
    requires k >= 1
    ensures d * k >= d
  {
    assert d * k == d * (k - 1) + d;
  }

  lemma LemmaAddMultiple(x: nat, d: nat, k: nat)
    requires d > 0
    ensures (x + d * k) / d == x / d + k
  {
    LemmaDivUnique(x + d * k, d, x / d + k, x % d);
  }

  /** Adding `m * k` units of `d` leaves the unit count modulo `m` unchanged. */
  lemma LemmaShiftField(x: nat, d: nat, m: nat, k: nat)
    requires d > 0 && m > 0
    ensures ((x + d * (m * k)) / d) % m == (x / d) % m
  {
    LemmaAddMultiple(x, d, m * k);
    LemmaModAddMultiple(x / d, m, k);
  }

  lemma LemmaModAddMultiple(q: nat, m: nat, k: nat)
    requires m > 0
    ensures (q + m * k) % m == q % m
  {
    assert m * (q / m + k) == m * (q / m) + m * k;
    LemmaDivUnique(q + m * k, m, q / m + k, q % m);
  }

  lemma LemmaSplitSeconds(sec: nat)
    ensures (sec / 86400) * 86400 + ((sec / 3600) % 24) * 3600 + ((sec / 60) % 60) * 60 + sec % 60 == sec
  {
    LemmaDivDiv(sec, 60, 60);
    LemmaDivDiv(sec, 3600, 24);
  }

  lemma LemmaSecondsOfDay(sec: nat, days: nat, f: Fields)
    requires f.IsTimeOfDay()
    requires days * 86400 + f.hours * 3600 + f.minutes * 60 + f.seconds == sec
    ensures sec % 86400 == f.hours * 3600 + f.minutes * 60 + f.seconds
  {
    LemmaDivUnique(sec, 86400, days, f.hours * 3600 + f.minutes * 60 + f.seconds);
  }

  lemma LemmaFieldsUnique(f: Fields, g: Fields)
    requires f.IsTimeOfDay() && g.IsTimeOfDay()
    requires f.hours * 3600 + f.minutes * 60 + f.seconds == g.hours * 3600 + g.minutes * 60 + g.seconds
    ensures f == g
  {
    var t := f.hours * 3600 + f.minutes * 60 + f.seconds;
    LemmaDivUnique(t, 3600, f.hours, f.minutes * 60 + f.seconds);
    LemmaDivUnique(t, 3600, g.hours, g.minutes * 60 + g.seconds);
    LemmaDivUnique(f.minutes * 60 + f.seconds, 60, f.minutes, f.seconds);
    LemmaDivUnique(g.minutes * 60 + g.seconds, 60, g.minutes, g.seconds);
  }

  /** The worked examples: 0, 1h1m1s, 1m30s and 25h (which wraps to hour 01). */
  lemma LemmaExampleZero()
    ensures FormatTime(0) == "00:00:00"
  {
    assert Breakdown(0) == Fields(0, 0, 0);
    assert PadZero(0) == "00";
  }

  lemma LemmaExampleOneOneOne()
    ensures FormatTime(3661000) == "01:01:01"
  {
    assert Breakdown(3661000) == Fields(1, 1, 1);
    assert PadZero(1) == "01";
  }

  lemma LemmaExampleNinetySeconds()
    ensures FormatTime(90000) == "00:01:30"
  {
    assert Breakdown(90000) == Fields(0, 1, 30);
    assert PadZero(0) == "00" && PadZero(1) == "01";
    assert NatToString(3) == "3";
    assert PadZero(30) == "30";
  }

  lemma LemmaExampleTwentyFiveHours()
    ensures FormatTime(90000000) == "01:00:00"
  {
    assert Breakdown(90000000) == Fields(1, 0, 0);
    assert PadZero(0) == "00" && PadZero(1) == "01";
  }
}
