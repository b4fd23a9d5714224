/**
  The six `validate` callbacks of the target-date prompts in index.ts.
  Each tests its answer against an anchored regular expression and
  returns `true` or a message asking for the field again.
 */
module Prompts {
  import opened Decimal
  import opened Regex

  datatype Field = Year | Month | Day | Hour | Minute | Second

  /** What `validate` returns: `true`, or the message shown before asking again. */
  datatype Verdict = Accepted | Rejected(message: string)

  /** `^\d{4}$` */
  const YearPattern: Regex := Repeat(Digit, 4)

  /** `^(0?[1-9]|1[0-2])$` */
  const MonthPattern: Regex :=
    Union(Concat(Optional(Char('0')), Range('1', '9')),
          Concat(Char('1'), Range('0', '2')))

  /** `^(0?[1-9]|[12]\d|3[01])$` */
  const DayPattern: Regex :=
    Union(Union(Concat(Optional(Char('0')), Range('1', '9')),
                Concat(Range('1', '2'), Digit)),
          Concat(Char('3'), Range('0', '1')))

  /** `^(0?\d|1\d|2[0-3])$` */
  const HourPattern: Regex :=
    Union(Union(Concat(Optional(Char('0')), Digit),
                Concat(Char('1'), Digit)),
          Concat(Char('2'), Range('0', '3')))

  /** `^[0-5]?\d$`, used for both minutes and seconds. */
  const MinuteSecondPattern: Regex := Concat(Optional(Range('0', '5')), Digit)

  function Pattern(f: Field): Regex {
    match f
    case Year => YearPattern
    case Month => MonthPattern
    case Day => DayPattern
    case Hour => HourPattern
    case Minute => MinuteSecondPattern
    case Second => MinuteSecondPattern
  }

  function Message(f: Field): string {
    match f
    case Year => "Please enter a valid year (YYYY)."
    case Month => "Please enter a valid month (MM)."
    case Day => "Please enter a valid day (DD)."
    case Hour => "Please enter a valid hour (HH)."
    case Minute => "Please enter a valid minute (MM)."
    case Second => "Please enter a valid second (SS)."
  }

  /** One or two ASCII digits (a leading zero allowed) whose value lies in `lo..hi`. */
  predicate ShortNumberIn(s: string, lo: nat, hi: nat) {
    1 <= |s| <= 2 && AllDigits(s) && lo <= Value(s) <= hi
  }

  /** The answers each field should take, stated by value rather than by pattern. */
  predicate Acceptable(f: Field, s: string) {
    match f
    case Year => |s| == 4 && AllDigits(s)
    case Month => ShortNumberIn(s, 1, 12)
    case Day => ShortNumberIn(s, 1, 31)
    case Hour => ShortNumberIn(s, 0, 23)
    case Minute => ShortNumberIn(s, 0, 59)
    case Second => ShortNumberIn(s, 0, 59)
  }

  /**
    A field's `validate`: accepts exactly the answers `Acceptable` describes
    and otherwise returns that field's own message.
   */
  function Validate(f: Field, value: string): (v: Verdict)
    ensures v.Accepted? <==> Acceptable(f, value)
    ensures v.Rejected? ==> v.message == Message(f) && |v.message| > 0
  {
    LemmaPatternMeaning(f, value);
    if Matches(Pattern(f), value) then Accepted else Rejected(Message(f))
  }

  lemma LemmaPatternMeaning(f: Field, s: string)
    ensures Matches(Pattern(f), s) <==> Acceptable(f, s)
  {
    match f
    case Year => LemmaYearPattern(s);
    case Month => LemmaMonthPattern(s);
    case Day => LemmaDayPattern(s);
    case Hour => LemmaHourPattern(s);
    case Minute => LemmaMinuteSecondPattern(s);
    case Second => LemmaMinuteSecondPattern(s);
  }

  /** Facts about the one- and two-character prefixes the patterns look at. */
  lemma LemmaShortValues(s: string)
    ensures |s| == 1 && AllDigits(s) ==> Value(s) == DigitValue(s[0])
    ensures |s| == 2 && AllDigits(s) ==> Value(s) == 10 * DigitValue(s[0]) + DigitValue(s[1])
    ensures |s| == 2 ==> s[..1] == [s[0]]
  {
    if |s| == 1 && AllDigits(s) { LemmaValueOne(s); }
    if |s| == 2 && AllDigits(s) { LemmaValueTwo(s); }
  }

  /** `^\d{4}$` accepts exactly four ASCII digits. */
  lemma LemmaYearPattern(s: string)
    ensures Matches(YearPattern, s) <==> |s| == 4 && AllDigits(s)
  {
    LemmaRepeatRange('0', '9', 4, s);
  }

  /** `^(0?[1-9]|1[0-2])$` accepts exactly the months 1 to 12. */
  lemma LemmaMonthPattern(s: string)
    ensures Matches(MonthPattern, s) <==> ShortNumberIn(s, 1, 12)
  {
    LemmaConcatRange(Optional(Char('0')), '1', '9', s);
    LemmaConcatRange(Char('1'), '0', '2', s);
    LemmaShortValues(s);
  }

  /** `^(0?[1-9]|[12]\d|3[01])$` accepts exactly the days 1 to 31. */
  lemma LemmaDayPattern(s: string)
    ensures Matches(DayPattern, s) <==> ShortNumberIn(s, 1, 31)
  {
    LemmaConcatRange(Optional(Char('0')), '1', '9', s);
    LemmaConcatRange(Range('1', '2'), '0', '9', s);
    LemmaConcatRange(Char('3'), '0', '1', s);
    LemmaShortValues(s);
  }

  /** `^(0?\d|1\d|2[0-3])$` accepts exactly the hours 0 to 23. */
  lemma LemmaHourPattern(s: string)
    ensures Matches(HourPattern, s) <==> ShortNumberIn(s, 0, 23)
  {
    LemmaConcatRange(Optional(Char('0')), '0', '9', s);
    LemmaConcatRange(Char('1'), '0', '9', s);
    LemmaConcatRange(Char('2'), '0', '3', s);
    LemmaShortValues(s);
  }

  /** `^[0-5]?\d$` accepts exactly the minutes (or seconds) 0 to 59. */
  lemma LemmaMinuteSecondPattern(s: string)
    ensures Matches(MinuteSecondPattern, s) <==> ShortNumberIn(s, 0, 59)
  {
    LemmaConcatRange(Optional(Range('0', '5')), '0', '9', s);
    LemmaShortValues(s);
  }

  /** Out-of-range and malformed answers are refused with the field's message. */
  lemma LemmaValidateRejects()
    ensures Validate(Month, "13") == Rejected("Please enter a valid month (MM).")
    ensures Validate(Hour, "24").Rejected? && Validate(Minute, "60").Rejected?
    ensures Validate(Day, "0").Rejected? && Validate(Year, "99").Rejected?
  {
    LemmaValueTwo("13");
    LemmaValueTwo("24");
    LemmaValueTwo("60");
    LemmaValueOne("0");
  }

  /** Padded and unpadded in-range answers are accepted. */
  lemma LemmaValidateAccepts()
    ensures Validate(Month, "7") == Accepted && Validate(Month, "07") == Accepted
    ensures Validate(Hour, "00") == Accepted && Validate(Year, "2031") == Accepted
  {
    LemmaValueOne("7");
    assert Acceptable(Month, "7");
    LemmaValueTwo("07");
    assert Acceptable(Month, "07");
    LemmaValueTwo("00");
    assert Acceptable(Hour, "00");
    assert Acceptable(Year, "2031");
  }
}
