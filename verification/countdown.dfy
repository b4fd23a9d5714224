/**
  The countdown controller inside `main` in index.ts, as pure steps over
  clock readings supplied by the caller (milliseconds since the epoch):
  one start check against the first reading, then one tick per firing of
  the 1000 ms interval, each with a fresh reading.
 */
module Countdown {
  import opened Decimal
  import opened Clock

  /** `getTimeDifference`, with the current time passed in. */
  function TimeDifference(target: int, now: int): (d: int)
    ensures now + d == target
    ensures d < 0 <==> target < now
  {
    target - now
  }

  datatype Phase =
    | AlreadyPast   // the target was behind the first reading; no interval armed
    | Running       // the interval is armed
    | Finished      // the interval has been cleared

  datatype Controller = Controller(target: int, phase: Phase)

  /** What one step does at the terminal; `Output` gives the text it writes. */
  datatype Effect =
    | ReportPast                   // the target has already passed
    | AnnounceCountdown            // the countdown header
    | ShowRemaining(remaining: nat) // overwrite the countdown line with the remaining time
    | FinishCountdown              // clear the interval, overwrite the line, show the clock face

  /** The text each effect writes (colours, `\r` and the clock face left out). */
  function Output(e: Effect): (text: string)
    ensures e.ShowRemaining? ==> IsClockText(text) && ParseClock(text) == Some(Breakdown(e.remaining))
  {
    match e
    case ReportPast => "The target time has already passed!"
    case AnnounceCountdown => "Countdown to the target time:"
    case ShowRemaining(ms) => FormatTime(ms)
    case FinishCountdown => "Countdown finished!"
  }

  datatype Step = Step(next: Controller, effect: Effect)

  /**
    The start check: a strictly negative difference reports that the
    target has passed; any other difference, zero included, arms the
    interval.
   */
  function Start(target: int, now: int): (s: Step)
    ensures s.next.target == target
    ensures s.next.phase == Running <==> target >= now
    ensures s.next.phase == AlreadyPast <==> target < now
    ensures s.effect == ReportPast <==> s.next.phase == AlreadyPast
    ensures s.effect != ReportPast ==> s.effect == AnnounceCountdown
  {
    var timeDifference := TimeDifference(target, now);
    if timeDifference < 0 then Step(Controller(target, AlreadyPast), ReportPast)
    else Step(Controller(target, Running), AnnounceCountdown)
  }

  /**
    One firing of the interval callback. A positive remaining time is
    displayed as `FormatTime` of it and the controller is left exactly as
    it was; otherwise the interval is cleared and the countdown finishes.
   */
  function Tick(c: Controller, now: int): (s: Step)
    requires c.phase == Running
    ensures s.next.target == c.target
    ensures s.next.phase == Finished <==> c.target - now <= 0
    ensures s.next.phase != Finished ==> s.next == c
    ensures s.effect.ShowRemaining? <==> c.target - now > 0
    ensures s.effect.ShowRemaining? ==>
              && s.effect.remaining == c.target - now
              && Output(s.effect) == FormatTime(c.target - now)
    ensures !s.effect.ShowRemaining? ==> s.effect == FinishCountdown
  {
    var remainingTime := TimeDifference(c.target, now);
    if remainingTime <= 0 then Step(Controller(c.target, Finished), FinishCountdown)
    else Step(c, ShowRemaining(remainingTime))
  }

  /** The outcome of a run: the final controller and what each step wrote. */
  datatype Trace = Trace(final: Controller, effects: seq<Effect>)

  /**
    Ticks at the given clock readings until the interval is cleared; a
    cleared interval fires no more, so later readings produce nothing.
   */
  function Run(c: Controller, readings: seq<int>): (t: Trace)
    ensures t.final.target == c.target
    ensures |t.effects| <= |readings|
    ensures c.phase != Running ==> t == Trace(c, [])
    decreases |readings|
  {
    if |readings| == 0 || c.phase != Running then Trace(c, [])
    else
      var step := Tick(c, readings[0]);
      var rest := Run(step.next, readings[1..]);
      Trace(rest.final, [step.effect] + rest.effects)
  }

  /** The whole session: the start check at `now`, then the ticks. */
  function Session(target: int, now: int, readings: seq<int>): (t: Trace)
    ensures |t.effects| >= 1
    ensures t.effects[0] == (if target < now then ReportPast else AnnounceCountdown)
  {
    var start := Start(target, now);
    var rest := Run(start.next, readings);
    Trace(rest.final, [start.effect] + rest.effects)
  }

  /**
    The index of the first reading at which no time remains, or the
    number of readings if time remains at all of them.
   */
  function FirstExpired(target: int, readings: seq<int>): (k: nat)
    ensures k <= |readings|
    ensures forall j :: 0 <= j < k ==> target - readings[j] > 0
    ensures k < |readings| ==> target - readings[k] <= 0
    decreases |readings|
  {
    if |readings| == 0 || target - readings[0] <= 0 then 0
    else 1 + FirstExpired(target, readings[1..])
  }

  /**
    A running countdown displays the remaining time at every reading
    before the first one at which no time remains, finishes at that
    reading, and writes nothing afterwards.
   */
  lemma {:induction false} LemmaRunTrace(c: Controller, readings: seq<int>)
    requires c.phase == Running
    ensures var k := FirstExpired(c.target, readings);
            var t := Run(c, readings);
            && |t.effects| == (if k < |readings| then k + 1 else k)
            && (forall i :: 0 <= i < k ==>
                  t.effects[i].ShowRemaining? && t.effects[i].remaining == c.target - readings[i])
            && (k < |readings| ==> t.effects[k] == FinishCountdown)
            && t.final == Controller(c.target, if k < |readings| then Finished else Running)
    decreases |readings|
  {
    if |readings| > 0 && c.target - readings[0] > 0 {
      var rest := readings[1..];
      var head := ShowRemaining(c.target - readings[0]);
      assert Tick(c, readings[0]) == Step(c, head);
      var tr := Run(c, rest);
      LemmaRunTrace(c, rest);
      assert Run(c, readings) == Trace(tr.final, [head] + tr.effects);
      var kr := FirstExpired(c.target, rest);
      assert FirstExpired(c.target, readings) == 1 + kr;
      LemmaShiftDisplays(head, tr.effects, c.target, readings, kr);
      if kr < |rest| {
        LemmaConsIndex(head, tr.effects, kr + 1);
      }
    }
  }

  /** Putting one more display in front of a run shifts its displays by one reading. */
  lemma LemmaShiftDisplays(head: Effect, effects: seq<Effect>, target: int, readings: seq<int>, k: nat)
    requires 1 <= |readings| && k <= |effects| && k < |readings|
    requires head.ShowRemaining? && head.remaining == target - readings[0]
    requires forall i :: 0 <= i < k ==>
               effects[i].ShowRemaining? && effects[i].remaining == target - readings[1..][i]
    ensures forall i :: 0 <= i < k + 1 ==>
              ([head] + effects)[i].ShowRemaining? && ([head] + effects)[i].remaining == target - readings[i]
  {
    forall i | 0 <= i < k + 1
      ensures ([head] + effects)[i].ShowRemaining?
      ensures ([head] + effects)[i].remaining == target - readings[i]
    {
      if i > 0 {
        LemmaConsIndex(head, effects, i);
        assert readings[1..][i - 1] == readings[i];
      }
    }
  }

  lemma LemmaConsIndex<T>(h: T, s: seq<T>, i: nat)
    requires 1 <= i <= |s|
    ensures ([h] + s)[i] == s[i - 1]
  {
  }

  /** A target behind the first reading arms no interval: no tick ever fires. */
  lemma LemmaAlreadyPastNoTicks(target: int, now: int, readings: seq<int>)
    requires target < now
    ensures Session(target, now, readings) == Trace(Controller(target, AlreadyPast), [ReportPast])
  {
  }

  /**
    A difference of exactly zero still arms the interval, and the first
    tick (at a reading no earlier than the start) finishes the countdown
    without displaying any remaining time.
   */
  lemma LemmaZeroDifferenceFinishesOnFirstTick(target: int, readings: seq<int>)
    requires |readings| >= 1 && readings[0] >= target
    ensures Session(target, target, readings) ==
            Trace(Controller(target, Finished), [AnnounceCountdown, FinishCountdown])
  {
    var c := Controller(target, Running);
    assert Run(c, readings) == Trace(Controller(target, Finished), [FinishCountdown]) by {
      assert Run(Controller(target, Finished), readings[1..]) == Trace(Controller(target, Finished), []);
    }
  }

  /**
    The tick at which a countdown of `d` ms finishes on an ideal clock
    (tick `i` fires exactly `1000 * i` ms after the start): the first
    tick at which no time remains.
   */
  function FinishingTick(d: nat): (k: nat)
    ensures k >= 1
    ensures d - 1000 * k <= 0
    ensures forall i :: 1 <= i < k ==> d - 1000 * i > 0
  {
    if d == 0 then 1 else (d + 999) / 1000
  }

  /**
    On an ideal clock a countdown of `d >= 0` ms shows `FinishingTick(d) - 1`
    remaining times, the `i`-th being `FormatTime(d - 1000 * i)`, and then
    finishes; a three-second target therefore shows two remaining times.
   */
  lemma LemmaIdealClock(target: int, start: int, readings: seq<int>)
    requires target >= start
    requires forall i :: 0 <= i < |readings| ==> readings[i] == start + 1000 * (i + 1)
    requires |readings| >= FinishingTick(target - start)
    ensures var d := target - start;
            var k := FinishingTick(d);
            var t := Session(target, start, readings);
            && |t.effects| == k + 1
            && t.effects[0] == AnnounceCountdown
            && (forall i :: 1 <= i < k ==> t.effects[i].ShowRemaining? && t.effects[i].remaining == d - 1000 * i)
            && t.effects[k] == FinishCountdown
            && t.final.phase == Finished
  {
    var d := target - start;
    var k := FinishingTick(d);
    var c := Controller(target, Running);
    LemmaIdealFirstExpired(target, start, readings);
    LemmaRunTrace(c, readings);
    var r := Run(c, readings);
    var t := Session(target, start, readings);
    assert t.effects == [AnnounceCountdown] + r.effects;
    LemmaConsIndex(AnnounceCountdown, r.effects, k);
    LemmaIdealShows(target, start, readings, r.effects, k);
  }

  lemma LemmaIdealShows(target: int, start: int, readings: seq<int>, effects: seq<Effect>, k: nat)
    requires 1 <= k <= |effects| + 1 && k <= |readings| + 1
    requires forall i :: 0 <= i < k - 1 ==>
               effects[i].ShowRemaining? && effects[i].remaining == target - readings[i]
    requires forall i :: 0 <= i < |readings| ==> readings[i] == start + 1000 * (i + 1)
    ensures forall i :: 1 <= i < k ==>
              ([AnnounceCountdown] + effects)[i].ShowRemaining? &&
              ([AnnounceCountdown] + effects)[i].remaining == target - start - 1000 * i
  {
    forall i | 1 <= i < k
      ensures ([AnnounceCountdown] + effects)[i].ShowRemaining?
      ensures ([AnnounceCountdown] + effects)[i].remaining == target - start - 1000 * i
    {
      LemmaConsIndex(AnnounceCountdown, effects, i);
      assert readings[i - 1] == start + 1000 * i;
    }
  }

  /** On an ideal clock the first reading with no time left is that of the finishing tick. */
  lemma LemmaIdealFirstExpired(target: int, start: int, readings: seq<int>)
    requires target >= start
    requires forall i :: 0 <= i < |readings| ==> readings[i] == start + 1000 * (i + 1)
    requires |readings| >= FinishingTick(target - start)
    ensures FirstExpired(target, readings) == FinishingTick(target - start) - 1
  {
    var d := target - start;
    var k := FinishingTick(d);
    var e := FirstExpired(target, readings);
    assert target - readings[k - 1] == d - 1000 * k;
    assert e < |readings| ==> target - readings[e] == d - 1000 * (e + 1);
  }

  /** The three-second case of `LemmaIdealClock`, written out. */
  lemma LemmaThreeSecondTarget(start: int, readings: seq<int>)
    requires forall i :: 0 <= i < |readings| ==> readings[i] == start + 1000 * (i + 1)
    requires |readings| >= 3
    ensures var t := Session(start + 3000, start, readings);
            && t.effects == [AnnounceCountdown, ShowRemaining(2000), ShowRemaining(1000), FinishCountdown]
            && Output(t.effects[1]) == "00:00:02"
            && Output(t.effects[2]) == "00:00:01"
  {
    assert FinishingTick(3000) == 3;
    LemmaIdealClock(start + 3000, start, readings);
    var t := Session(start + 3000, start, readings);
    assert t.effects[1].remaining == 2000 && t.effects[2].remaining == 1000;
    LemmaShortSeconds(1);
    LemmaShortSeconds(2);
  }

  lemma LemmaShortSeconds(n: nat)
    requires 1 <= n <= 9
    ensures Output(ShowRemaining(1000 * n)) == ['0', '0', ':', '0', '0', ':', '0', DigitChar(n)]
  {
    assert Breakdown(1000 * n) == Fields(0, 0, n);
    assert PadZero(0) == "00";
    assert PadZero(n) == ['0', DigitChar(n)];
  }
}
