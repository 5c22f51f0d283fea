# taevus date-range parser, modelled in Dafny

taevus is a command-line time tracker. A user can filter reports by a date
range written as `D`, `D..`, `..D` or `D1..D2`. This project models the parser
for that range, found in `src/utils.rs`, and proves what it does for every
input. `parse_date_range` splits the text on `..`, cases on how many pieces
it gets and which of them are empty, and resolves each date token with
`get_date_from_arg`. `get_start_date` supplies the open start of a range.

Files and modules:

- `split.dfy`, module `StrSplit`: Rust's `str::split("..")`. It searches left
  to right and its matches never overlap. The module also gives an
  independent description of that kind of split (`IsLeftmostSplit`) and
  proves that `Split` is the only function that meets it.
- `time.dfy`, module `Time`: the parts of chrono the parser uses. These are
  calendar dates, date-times with a fixed UTC offset (`DateTime<FixedOffset>`),
  and the Gregorian validity check `NaiveDate::from_ymd` applies. The module
  also has `timestamp()` (seconds since 1970-01-01T00:00:00Z). The parser
  never calls it, but the unit tests compare their results with it. The day
  count behind it is checked against the calendar: the next calendar day is
  always one day later.
- `utils.dfy`, module `Utils`: `GetStartDate`, `GetDateFromArg`,
  `ParseDateRange` and the lemmas about them.
- `utils_tests.dfy`, module `UtilsTests`: the three unit tests of
  `src/utils.rs`, as lemmas. They hold for every clock reading and for every
  time zone that has a single local midnight on the days the test uses.

The parser has three outcomes (`RangeResult`):

- `Ok(DateRange(from, to))`.
- `Err("Invalid date-range provided")`.
- `Abort(p)`: the process panics. This happens in the `expect` on the
  regex captures, or inside chrono when the day does not exist in the
  calendar or has no single local midnight.

The environment is explicit:

- `now` is the value `Local::now()` would return.
- `zone: Date -> Option<int>` gives the UTC offset of local midnight on each
  day. It gives `None` when local midnight is skipped or ambiguous on that
  day. The model assumes that chrono then panics. Whether it does depends on
  the chrono version, which is not part of this model.
- The start of time is the Unix epoch at offset zero. `StartDateIsEpoch`
  proves its timestamp is 0.

The doc comment of `parse_date_range` at `src/utils.rs:119-125` promises more
than the code does. The model follows the code:

- The comment accepts `today` and `mm-dd` tokens, with a missing year taken
  as the current one. The code accepts only `YYYY-MM-DD`, so every other token
  aborts (`RejectedTokens`).
- The comment calls the open start `<earliest_tempus_date>`. The code uses
  1970-01-01T00:00:00Z (`get_start_date`, `src/utils.rs:100-102`).
- A malformed token panics in the `expect` at `src/utils.rs:107-109`. It does
  not return an error, so the model gives it the `Abort` outcome, not `Err`.

## Model

| member | source | states |
|---|---|---|
| `StrSplit.Split` | src/utils.rs:127 | splitting always gives at least one piece |
| `StrSplit.SplitIsLeftmost` | src/utils.rs:127 | the pieces joined with `..` give back the input exactly; no piece contains `..`; no piece before the last ends with `.` (left-to-right, non-overlapping matching) |
| `StrSplit.SplitUnique` | src/utils.rs:127 | any way of cutting the input that meets that description is exactly the result of `Split` |
| `StrSplit.SplitCharacterization` | src/utils.rs:127 | both directions: a piece sequence is the leftmost non-overlapping cut of the input if and only if it equals `Split(input)` |
| `StrSplit.PieceCount` | src/utils.rs:127 | the number of pieces is one more than the number of non-overlapping `..` matches |
| `StrSplit.NoOccurrences` | src/utils.rs:127 | the search finds no match exactly when the text contains no `..` |
| `StrSplit.SplitNoSep` | src/utils.rs:127 | a text without `..` splits into itself alone |
| `StrSplit.SplitPrefix` | src/utils.rs:127 | a leading piece with no `..` and no trailing dot is split off unchanged, and the rest splits as it would alone |
| `Time.ValidDate` | src/utils.rs:116 | definition: the dates `Local.ymd` accepts, with a year in chrono's range, a month from 1 to 12, and a day within that month (see `ImpossibleDates`, `ResolveDateToken`) |
| `Time.Timestamp` | src/utils.rs:159-194 | definition: `timestamp()`, seconds since the epoch at the value's own offset. The tests compare with it. `StartDateIsEpoch` and `NextDateIsOneDayLater` are proved about it |
| `Time.DaysInMonth` | src/utils.rs:116 | every month has 28 to 31 days; February has 29 exactly in leap years |
| `Time.EpochIsDayZero` | src/utils.rs:101 | 1970-01-01 is day 0 of the day count behind `timestamp()` |
| `Time.DaysToMarchStep` | src/utils.rs:159-194 | from one first of March to the next there are 366 days when the February between has a leap day, else 365 |
| `Time.NextDateIsOneDayLater` | src/utils.rs:158-166 | for every valid date, the next calendar day is exactly one day later in the count, so `Timestamp` measures seconds along the real calendar |
| `Utils.GetStartDate` | src/utils.rs:100-102 | the start date is a valid calendar date at 00:00:00, UTC offset 0 |
| `Utils.StartDateIsEpoch` | src/utils.rs:100-102 | the start date is 1970-01-01T00:00:00 at UTC offset 0, and its timestamp is 0 |
| `Utils.DigitsValue` | src/utils.rs:111-113 | `parse()` of a digit string: its value is below 10 to the power of the string's length |
| `Utils.IsDateToken` | src/utils.rs:105-109 | definition: the whole token matches `^(\d{4})-(\d{2})-(\d{2})$` with ASCII digits (see `TokenByChars`, `TokenRoundTrip`, `GetDateFromArg`) |
| `Utils.TokenDate` | src/utils.rs:105-113 | the date the three captures name: a year below 10000, and a month and a day below 100 |
| `Utils.DigitsRoundTrip` | src/utils.rs:111-113 | reading back a number written with a fixed count of decimal digits gives the number |
| `Utils.DigitsValueRoundTrip` | src/utils.rs:111-113 | a digit string's value fits its width, and writing that value with that width gives the string back |
| `Utils.TokenRoundTrip` | src/utils.rs:105-113 | every token the pattern accepts is the `YYYY-MM-DD` text of the date its three fields name |
| `Utils.DateTokenRoundTrip` | src/utils.rs:105-113 | the `YYYY-MM-DD` text of any date with a 4-digit year and 2-digit month and day is accepted, and its fields give back that date |
| `Utils.TokenByChars` | src/utils.rs:105-113 | the pattern and the field values explained one character at a time |
| `Utils.TokenShape` | src/utils.rs:105 | an accepted token contains no `..` and does not end with a dot |
| `Utils.GetDateFromArg` | src/utils.rs:104-117 | the token aborts in the `expect` exactly when it does not match `^\d{4}-\d{2}-\d{2}$`; a resolved token gives 00:00:00 of the valid date its fields name, at the offset the zone gives for that day |
| `Utils.ResolveDateToken` | src/utils.rs:104-117 | for the text of a date: an impossible calendar date aborts, a day without a single local midnight aborts, and any other day resolves to its local midnight |
| `Utils.ResolveToken` | src/utils.rs:104-117 | an accepted token for a day that exists, and has a local midnight, resolves to that midnight |
| `Utils.RejectedTokens` | src/utils.rs:107-109 | `""`, `today`, `12-01`, `2021-1-01`, `2021/12/01` and a token with a leading space all abort in the `expect` |
| `Utils.ImpossibleDates` | src/utils.rs:116 | `2021-13-45`, `2021-02-29` and `2021-00-10` match the pattern but abort in chrono |
| `Utils.MakeRange` | src/utils.rs:140-143 | definition: Rust evaluates the two arguments of `DateRange(..)` left to right, so a panic of the start wins (proved for input texts in `Closed`, `OpenEnd`, `SingleDate`) |
| `Utils.ParseDateRange` | src/utils.rs:137-146 | every error carries the message `Invalid date-range provided` |
| `Utils.SingleDate` | src/utils.rs:132-134 | an input with no `..` gives the range from the epoch to the token's local midnight, or the token's abort |
| `Utils.OpenEnd` | src/utils.rs:139 | `D..`, where `D` is non-empty, contains no `..` and does not end with `.`, gives the range from `D`'s local midnight to `now`, or `D`'s abort |
| `Utils.OpenStart` | src/utils.rs:138 | `..D`, where `D` is non-empty and contains no `..`, gives exactly what `D` alone gives |
| `Utils.Closed` | src/utils.rs:140-143 | `D1..D2`, where both are non-empty and contain no `..` and `D1` does not end with `.`, gives the range from `D1`'s midnight to `D2`'s midnight in the order written, with no check that `D1` is earlier; if both tokens are bad, `D1`'s abort is the one reported |
| `Utils.DotsOnly` | src/utils.rs:137 | the input `..` gives the error |
| `Utils.ErrExactly` | src/utils.rs:135-147 | the result is the error if and only if the input is `..` or contains at least two non-overlapping `..` |
| `Utils.ManySeparators` | src/utils.rs:145-147 | with two or more separators the result is the error, whatever the tokens, clock or zone, so such inputs never abort |
| `Utils.AbortFromPiece` | src/utils.rs:132-147 | an abort is always the abort of one of the input's pieces, and only inputs with at most one separator abort |
| `Utils.NowOnlyAsOpenEnd` | src/utils.rs:130 | two clock readings give different results only when both are `Ok` ranges ending at their clock reading and starting at the same instant |
| `Utils.DateTokenRanges` | src/utils.rs:126-148 | for the texts of valid dates: `D` and `..D` give (epoch, midnight D), `D..` gives (midnight D, now), `D1..D2` gives (midnight D1, midnight D2) |
| `UtilsTests.TestBothBounds` | src/utils.rs:154-167 | `2021-12-01..2021-12-13` gives the midnights of 2021-12-01 and 2021-12-13 |
| `UtilsTests.TestEndOnly` | src/utils.rs:169-182 | `2021-12-01` gives the range from the epoch to the midnight of 2021-12-01 |
| `UtilsTests.TestStartOnly` | src/utils.rs:184-195 | `2021-12-01..` gives the range from the midnight of 2021-12-01 to `now` |

## Left out

- src/main.rs: clap argument parsing and dispatch to `tempus::calc_total_log_time`, `print_session_start` and `do_session`. Their bodies are not part of this model, and the session store, aggregator and session state machine they reach are not part of it either.
- `DateRange` belongs to the times module, which is not part of this model. It appears only as a pair of two date-times.
- File, directory and environment I/O in src/utils.rs are left out: `get_metadata_created`, `get_home_dir`, `create_dir`, `create_or_open_file` and `get_file_contents`. They are thin wrappers around the operating system.
- `system_time_to_datetime`, `format_datetime`, `datetime_from_str` and `datetime_to_readable_str` are left out. They delegate to chrono for conversion and for RFC 3339 or display formatting.
- `get_length_hours` is left out, because it divides in floating point.
- Reading the wall clock and the local time zone are left out. Both are parameters (`now`, `zone`); the zone's rules are not derived.
- The regex class `\d` also matches non-ASCII digits, which `parse::<i32>` then rejects with a panic. The model counts only ASCII digits as digits. Such a token still aborts in the model, but the recorded reason is `NotADate` instead of the failed `unwrap`.
- Sub-second precision of `now` and of chrono date-times is not modelled.
- `Time.NextDateIsOneDayLater` cross-checks the day count, not chrono's own code. `Timestamp` is written from the days-from-civil formula, not taken from chrono.
- Panic messages are not modelled. A panic's kind and the token or date it concerns are.
