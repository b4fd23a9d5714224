# Countdown timer core, modelled in Dafny

A terminal countdown timer: it asks for a target year, month, day, hour,
minute and second, checks that the target is not already behind the clock,
and then, once a second, overwrites one line with the remaining time as
`HH:MM:SS` until no time is left, when it prints a completion message and
the current clock face.

The model covers the computational core of `index.ts`:

- `decimal.dfy` (`Decimal`): ASCII digits, the value of a digit string,
  JavaScript's plain rendering of a whole number (`'' + num`) and `padZero`.
- `clock.dfy` (`Clock`): the `HH:MM:SS` template shared by `formatTime` and
  `printClock`, its inverse `ParseClock`, and `formatTime` itself
  (hours wrap at 24, the computed days are dropped).
- `regex.dfy` (`Regex`): the fragment of JavaScript regular expressions
  the validators use (ranges, concatenation, `|`, `?`, `{n}`), matched
  against the whole answer as the `^...$` anchors demand.
- `prompts.dfy` (`Prompts`): the six `validate` callbacks, each written as
  its own regular expression and proved equal to a statement by value
  ("one or two digits whose value lies in the field's range"; "four
  digits" for the year).
- `countdown.dfy` (`Countdown`): `getTimeDifference` with the current time
  passed in, the start check, the interval callback as a step function
  over a `Controller` (phase `AlreadyPast`, `Running` or `Finished`), and
  runs over a sequence of clock readings, one per tick.

Milliseconds are unbounded `nat`/`int`. For the non-negative whole
millisecond counts `formatTime` receives, JavaScript's
`Math.floor((ms / 1000) % 60)` on doubles equals integer `(ms / 1000) % 60`,
which is what the model computes. The clock is never read: every clock
reading is a parameter.

Three consequences of `index.ts` as written: the start check is strict
(`timeDifference < 0`, index.ts:96), so a difference of exactly zero arms
the interval and the first tick finishes it; hours are taken modulo 24
(index.ts:17), so a countdown longer than a day shows only the hour of the
day; and on an ideal clock a three-second target shows `00:00:02` and
`00:00:01` and then finishes (`Countdown.LemmaThreeSecondTarget`).

## Model

| member | source | states |
|---|---|---|
| `Decimal.NatToString` | index.ts:25 | the plain rendering of `n` is a non-empty digit string without a leading zero that denotes `n`, one digit exactly when `n < 10` |
| `Decimal.LemmaNatToStringOfValue` | index.ts:25 | every digit string without a leading zero is the plain rendering of its value (the rendering is a bijection onto canonical digit strings) |
| `Decimal.PadZero` | index.ts:24-26 | `padZero(n)` denotes `n`, has at least two digits, starts with `'0'` exactly when `n < 10`, and is exactly two digits exactly when `n < 100` |
| `Decimal.LemmaPadZeroOfValue` | index.ts:24-26 | every two-digit string is `padZero` of its own value, so `padZero` maps 0..99 one-to-one onto the two-digit strings |
| `Clock.Render` | index.ts:20 | joining the three padded fields with `:` gives an 8-character `DD:DD:DD` text from which the same three fields are read back, whenever each field is below 100 |
| `Clock.LemmaRenderOfParse` | index.ts:20 | every `DD:DD:DD` text is the rendering of the fields it reads back as, so rendering and reading are mutually inverse |
| `Clock.ClockFace` | index.ts:29-34 | the clock face of a wall-clock reading (0-23, 0-59, 0-59) is a `DD:DD:DD` text reading back as that time, with leading digits at most 2, 5 and 5 |
| `Clock.Days` | index.ts:18 | the whole days `d` in `ms`, the one `d` with `d*86400000 <= ms < (d+1)*86400000`; computed by `formatTime` and never displayed |
| `Clock.Breakdown` | index.ts:15-17 | the displayed hour, minute and second of any duration lie in 0-23, 0-59 and 0-59 |
| `Clock.FormatTime` | index.ts:14-21 | for every `ms >= 0` the text is exactly 8 characters `DD:DD:DD` whose fields read back as `(ms div 3600000) mod 24`, `(ms div 60000) mod 60` and `(ms div 1000) mod 60` |
| `Clock.LemmaOnlyDaysAreLost` | index.ts:15-20 | the dropped days times 86400 plus the displayed hours, minutes and seconds give back exactly the whole seconds of `ms` |
| `Clock.LemmaDaysDropped` | index.ts:17-20 | adding one whole day (86400000 ms) does not change the text |
| `Clock.LemmaSubSecondIgnored` | index.ts:15-17 | `formatTime(1000*k + r) == formatTime(1000*k)` for every `0 <= r < 1000` |
| `Clock.LemmaSameTextIff` | index.ts:14-21 | two durations give the same text if and only if their whole seconds agree modulo one day |
| `Clock.LemmaExampleZero` | index.ts:14-21 | `formatTime(0)` is `00:00:00` |
| `Clock.LemmaExampleOneOneOne` | index.ts:14-21 | `formatTime(3661000)` is `01:01:01` |
| `Clock.LemmaExampleNinetySeconds` | index.ts:14-21 | `formatTime(90000)` is `00:01:30` |
| `Clock.LemmaExampleTwentyFiveHours` | index.ts:14-21 | `formatTime(90000000)` (25 hours) is `01:00:00`: the hour wraps at 24 |
| `Regex.Matches` | index.ts:57-87 | the anchored `/^...$/.test(value)`: a pattern matches only whole answers, never longer than the most characters the pattern can consume |
| `Regex.LemmaMatchesSplit` | index.ts:63 | a concatenation matches exactly when some split of the answer matches its two parts in order |
| `Regex.LemmaConcatRange` | index.ts:63-87 | a pattern followed by a character range matches exactly when the pattern matches all but the last character and the last character lies in the range |
| `Regex.LemmaRepeatRange` | index.ts:57 | `[lo-hi]{n}` matches exactly the strings of `n` characters, each in the range |
| `Prompts.LemmaYearPattern` | index.ts:57 | the year pattern accepts an answer if and only if it is exactly four ASCII digits |
| `Prompts.LemmaMonthPattern` | index.ts:63 | the month pattern accepts an answer if and only if it is one or two digits with value 1 to 12 |
| `Prompts.LemmaDayPattern` | index.ts:69 | the day pattern accepts an answer if and only if it is one or two digits with value 1 to 31 |
| `Prompts.LemmaHourPattern` | index.ts:75 | the hour pattern accepts an answer if and only if it is one or two digits with value 0 to 23 |
| `Prompts.LemmaMinuteSecondPattern` | index.ts:81-87 | the minute and second pattern accepts an answer if and only if it is one or two digits with value 0 to 59 (minutes and seconds alike) |
| `Prompts.LemmaPatternMeaning` | index.ts:57-87 | each field's pattern accepts exactly the answers its by-value description allows |
| `Prompts.Validate` | index.ts:52-89 | a field's `validate` returns `true` exactly for the acceptable answers and otherwise that field's non-empty "Please enter a valid ..." message |
| `Prompts.LemmaValidateRejects` | index.ts:57-87 | month `13` is refused with "Please enter a valid month (MM)."; hour `24`, minute `60`, day `0` and year `99` are refused |
| `Prompts.LemmaValidateAccepts` | index.ts:57-87 | month `7` and `07`, hour `00` and year `2031` are accepted |
| `Countdown.TimeDifference` | index.ts:8-11 | the difference added to the reading gives the target, and it is negative exactly when the target is before the reading |
| `Countdown.Start` | index.ts:93-100 | the start check arms the interval exactly when `target >= now` (a zero difference included) and reports the target as passed exactly when `target < now`; the target is kept |
| `Countdown.Tick` | index.ts:103-111 | a tick with no time remaining (`<= 0`) finishes and clears the interval without displaying a remaining time; with time remaining it displays exactly `formatTime(remaining)` and leaves the controller unchanged |
| `Countdown.Output` | index.ts:97-110 | the line written for a remaining time is a `DD:DD:DD` text reading back as that time's hour of day, minute and second |
| `Countdown.Run` | index.ts:102-112 | ticks keep the target, write at most one line per reading, and a controller that is not running fires no ticks |
| `Countdown.Session` | index.ts:92-113 | a session always writes first either the "already passed" report (target before the first reading) or the countdown header |
| `Countdown.FirstExpired` | index.ts:103-104 | the index of the first reading with no time left: time remains at every earlier reading, and none at that one |
| `Countdown.LemmaRunTrace` | index.ts:102-112 | for any clock readings, a running countdown shows the remaining time at each reading before the first with no time left, finishes at that reading, and writes nothing after it; it stays running only if time remains at every reading |
| `Countdown.LemmaAlreadyPastNoTicks` | index.ts:96-97 | a target behind the first reading gives only the "already passed" report and no tick at all |
| `Countdown.LemmaZeroDifferenceFinishesOnFirstTick` | index.ts:96-106 | a zero difference starts the countdown, and the first tick finishes it without displaying a remaining time |
| `Countdown.FinishingTick` | index.ts:102-104 | on an ideal clock the countdown finishes at the first tick `k >= 1` with `d - 1000*k <= 0`; time remains at every earlier tick |
| `Countdown.LemmaIdealFirstExpired` | index.ts:102-104 | on an ideal clock the first reading with no time left is that of the finishing tick |
| `Countdown.LemmaIdealClock` | index.ts:102-112 | on an ideal 1000 ms clock a countdown of `d >= 0` ms shows `d - 1000*i` at ticks `1 <= i < FinishingTick(d)`, then finishes |
| `Countdown.LemmaThreeSecondTarget` | index.ts:102-112 | a three-second target on an ideal clock shows `00:00:02` and `00:00:01`, then finishes |

## Left out

- Prompting with `inquirer` and re-asking on a refused answer (index.ts:52-89): interactive I/O in a library; only the `validate` callbacks are modelled.
- Colours (`chalk`), `console.log`, the `\r` line overwrite and the banner and clock-box art (index.ts:35-47, 97-110): presentation. `Countdown.Output` gives only the plain text of each line.
- Reading the system clock in `printClock` and `getTimeDifference` (index.ts:9, 30): wall-clock I/O; readings are parameters.
- Building the target with `new Date("YYYY-MM-DDTHH:MM:SS")` (index.ts:92): its parsing in local time, the time zone and impossible dates such as 31 February belong to the host's `Date`; the target is a parameter in milliseconds. Unpadded answers such as month `7` are accepted by the validators but make a string that is not ISO 8601; what `Date` does with it is not modelled. If the target is an Invalid Date the difference is `NaN`; `NaN < 0` and `NaN <= 0` are both false (index.ts:96, 104), so the program would arm the interval and write `NaN:NaN:NaN` every second without ever clearing it (index.ts:110, 25). The model's differences are integers, so this path is not modelled.
- The clock face printed after "Countdown finished!" (index.ts:108): `Countdown.Output(FinishCountdown)` gives only the completion message, because the wall-clock reading that face shows is not a parameter of the tick; `Clock.ClockFace` models `printClock` on its own.
- Timer scheduling (index.ts:102-112): `setInterval` timing, drift and jitter are not modelled; a run takes whatever clock reading each tick sees, and `LemmaIdealClock` assumes readings exactly 1000 ms apart.
- `formatTime` on negative input and on non-integral or huge doubles: the caller only passes a positive whole-millisecond difference (index.ts:104), so the model takes a `nat`; double rounding beyond 2^53 ms is not modelled.
- `padZero` on negative or fractional numbers, and JavaScript's exponential rendering of numbers of 10^21 and above: `padZero` is only called with hours, minutes and seconds, so the model takes a `nat` and renders it in plain decimal.
- Countdown.Tick: requires the controller to be running, because the interval callback only fires while the interval is armed; a cleared interval is modelled by `Run` firing no further ticks.
