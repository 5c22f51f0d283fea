/** The date-range parser of src/utils.rs: `get_start_date`,
    `get_date_from_arg` and `parse_date_range`.

    The wall clock (`Local::now()`) and the local time zone are parameters:
    `now` is the instant the clock would return, and `zone` gives, for each
    calendar date, the UTC offset of local midnight on that date, or None when
    local midnight does not exist or is ambiguous there (a daylight-saving
    jump at midnight). The model assumes that chrono panics on such a day;
    whether it does depends on the chrono version. The process-ending panics
    of the source become the Abort outcome. */
module Utils {
  import opened StrSplit
  import opened Time

  /** `DateRange(from, to)` of the times module, which is not part of this
      model beyond these two fields. */
  datatype DateRange = DateRange(from: DateTime, to: DateTime)

  /** The local time zone, as the parser sees it. */
  type LocalZone = Date -> Option<int>

  /** Why the process would panic. */
  datatype Panic =
    | NotADate(token: string)           // the `expect` on the regex captures
    | InvalidCalendarDate(date: Date)   // `Local.ymd` on a date the calendar lacks
    | NoSingleLocalMidnight(date: Date) // `and_hms(0, 0, 0)` with no unique local midnight (assumed)

  /** What `get_date_from_arg` does: return an instant or panic. */
  datatype Resolution = Resolved(time: DateTime) | Aborted(panic: Panic)

  /** What `parse_date_range` does: return Ok or Err, or panic. */
  datatype RangeResult = Ok(range: DateRange) | Err(message: string) | Abort(panic: Panic)

  const InvalidRangeMessage: string := "Invalid date-range provided"

  // ---------------------------------------------------------------------
  // The token pattern ^(\d{4})-(\d{2})-(\d{2})$ and its fields

  predicate IsDigit(c: char) {
    '0' <= c <= '9'
  }

  predicate AllDigits(s: string) {
    forall i :: 0 <= i < |s| ==> IsDigit(s[i])
  }

  /** `str::parse` of a string of decimal digits. */
  function DigitsValue(s: string): (n: nat)
    requires AllDigits(s)
    ensures n < Pow10(|s|)
  {
    if s == [] then 0
    else DigitsValue(s[..|s| - 1]) * 10 + (s[|s| - 1] as int - '0' as int)
  }

  /** The whole token is four digits, a dash, two digits, a dash, two digits. */
  predicate IsDateToken(tok: string) {
    && |tok| == 10
    && AllDigits(tok[0..4]) && tok[4] == '-'
    && AllDigits(tok[5..7]) && tok[7] == '-'
    && AllDigits(tok[8..10])
  }

  /** The date named by the three captured fields. */
  function TokenDate(tok: string): (d: Date)
    requires IsDateToken(tok)
    ensures 0 <= d.year < 10000 && 0 <= d.month < 100 && 0 <= d.day < 100
  {
    Date(DigitsValue(tok[0..4]), DigitsValue(tok[5..7]), DigitsValue(tok[8..10]))
  }

  function Pow10(n: nat): nat {
    if n == 0 then 1 else 10 * Pow10(n - 1)
  }

  /** `n` written with exactly `width` decimal digits, leading zeros included. */
  function Digits(n: nat, width: nat): (s: string)
    requires n < Pow10(width)
    ensures |s| == width && AllDigits(s)
  {
    if width == 0 then []
    else Digits(n / 10, width - 1) + [('0' as int + n % 10) as char]
  }

  /** The dates a token can name at all: four-digit years, two-digit months and days. */
  predicate Writable(d: Date) {
    0 <= d.year <= 9999 && 0 <= d.month <= 99 && 0 <= d.day <= 99
  }

  /** The text `YYYY-MM-DD` that names `d`. */
  function DateToken(d: Date): string
    requires Writable(d)
  {
    Digits(d.year, 4) + "-" + Digits(d.month, 2) + "-" + Digits(d.day, 2)
  }

  lemma {:induction false} DigitsRoundTrip(n: nat, width: nat)
    requires n < Pow10(width)
    ensures DigitsValue(Digits(n, width)) == n
  {
    if width > 0 {
      var s := Digits(n, width);
      assert s[..|s| - 1] == Digits(n / 10, width - 1);
      DigitsRoundTrip(n / 10, width - 1);
    }
  }

  lemma {:induction false} DigitsValueRoundTrip(s: string)
    requires AllDigits(s)
    ensures DigitsValue(s) < Pow10(|s|)
    ensures Digits(DigitsValue(s), |s|) == s
  {
    if s != [] {
      var init := s[..|s| - 1];
      assert AllDigits(init);
      DigitsValueRoundTrip(init);
      var v, c := DigitsValue(init), s[|s| - 1] as int - '0' as int;
      assert 0 <= c < 10;
      assert DigitsValue(s) == v * 10 + c;
      assert (v * 10 + c) / 10 == v && (v * 10 + c) % 10 == c;
      assert s == init + [s[|s| - 1]];
    }
  }

  /** Every accepted token is the text of the date it names. */
  lemma TokenRoundTrip(tok: string)
    requires IsDateToken(tok)
    ensures Writable(TokenDate(tok)) && DateToken(TokenDate(tok)) == tok
  {
    DigitsValueRoundTrip(tok[0..4]);
    DigitsValueRoundTrip(tok[5..7]);
    DigitsValueRoundTrip(tok[8..10]);
    assert tok == tok[0..4] + "-" + tok[5..7] + "-" + tok[8..10];
  }

  /** The text of a date is an accepted token, and it names that date. */
  lemma DateTokenRoundTrip(d: Date)
    requires Writable(d)
    ensures IsDateToken(DateToken(d)) && TokenDate(DateToken(d)) == d
  {
    var tok := DateToken(d);
    assert tok[0..4] == Digits(d.year, 4);
    assert tok[5..7] == Digits(d.month, 2);
    assert tok[8..10] == Digits(d.day, 2);
    DigitsRoundTrip(d.year, 4);
    DigitsRoundTrip(d.month, 2);
    DigitsRoundTrip(d.day, 2);
  }

  function DigitAt(tok: string, i: nat): int
    requires i < |tok|
  {
    tok[i] as int - '0' as int
  }

  /** The token pattern and its fields, character by character. */
  lemma TokenByChars(tok: string)
    requires |tok| == 10
    ensures IsDateToken(tok) <==>
      && IsDigit(tok[0]) && IsDigit(tok[1]) && IsDigit(tok[2]) && IsDigit(tok[3])
      && tok[4] == '-' && IsDigit(tok[5]) && IsDigit(tok[6])
      && tok[7] == '-' && IsDigit(tok[8]) && IsDigit(tok[9])
    ensures IsDateToken(tok) ==> TokenDate(tok) == Date(
      1000 * DigitAt(tok, 0) + 100 * DigitAt(tok, 1) + 10 * DigitAt(tok, 2) + DigitAt(tok, 3),
      10 * DigitAt(tok, 5) + DigitAt(tok, 6),
      10 * DigitAt(tok, 8) + DigitAt(tok, 9))
  {
    var y, m, d := tok[0..4], tok[5..7], tok[8..10];
    assert forall i :: 0 <= i < 4 ==> y[i] == tok[i];
    assert forall i :: 0 <= i < 2 ==> m[i] == tok[i + 5] && d[i] == tok[i + 8];
    if IsDateToken(tok) {
      assert y[..3] == tok[0..3] && y[..3][..2] == tok[0..2] && y[..3][..2][..1] == tok[0..1];
      assert DigitsValue(tok[0..1]) == DigitAt(tok, 0) by {
        assert tok[0..1][..0] == [];
      }
      assert DigitsValue(tok[0..2]) == 10 * DigitAt(tok, 0) + DigitAt(tok, 1);
      assert DigitsValue(tok[0..3]) == 100 * DigitAt(tok, 0) + 10 * DigitAt(tok, 1) + DigitAt(tok, 2);
      assert DigitsValue(y) == 1000 * DigitAt(tok, 0) + 100 * DigitAt(tok, 1) + 10 * DigitAt(tok, 2) + DigitAt(tok, 3);
      assert m[..1][..0] == [] && d[..1][..0] == [];
      assert DigitsValue(m) == 10 * DigitAt(tok, 5) + DigitAt(tok, 6);
      assert DigitsValue(d) == 10 * DigitAt(tok, 8) + DigitAt(tok, 9);
    }
  }

  // ---------------------------------------------------------------------
  // get_start_date and get_date_from_arg

  /** `get_start_date`: the beginning of time for the parser, the Unix epoch
      1970-01-01T00:00:00 in UTC. */
  function GetStartDate(): (t: DateTime)
    ensures ValidDate(t.date) && t.hour == 0 && t.minute == 0 && t.second == 0
    ensures t.offset == 0
  {
    DateTime(Date(1970, 1, 1), 0, 0, 0, 0)
  }

  /** The start date is the instant with timestamp zero, held at offset zero. */
  lemma StartDateIsEpoch()
    ensures 1 <= GetStartDate().date.month <= 12
    ensures Timestamp(GetStartDate()) == 0 && GetStartDate().offset == 0
  {
    EpochIsDayZero();
  }

  /** Midnight on `d` at the given offset. */
  function Midnight(d: Date, offset: int): DateTime {
    DateTime(d, 0, 0, 0, offset)
  }

  /** `get_date_from_arg`: a token that matches the pattern resolves to local
      midnight of the day it names; anything else panics in the `expect`, and
      a day that the calendar or the local zone lacks panics in chrono. */
  function GetDateFromArg(tok: string, zone: LocalZone): (r: Resolution)
    ensures r == Aborted(NotADate(tok)) <==> !IsDateToken(tok)
    ensures r.Resolved? ==>
      && IsDateToken(tok) && r.time.date == TokenDate(tok) && ValidDate(r.time.date)
      && r.time.hour == 0 && r.time.minute == 0 && r.time.second == 0
      && zone(r.time.date) == Some(r.time.offset)
  {
    if !IsDateToken(tok) then Aborted(NotADate(tok))
    else
      var d := TokenDate(tok);
      if !ValidDate(d) then Aborted(InvalidCalendarDate(d))
      else match zone(d)
        case None => Aborted(NoSingleLocalMidnight(d))
        case Some(offset) => Resolved(Midnight(d, offset))
  }

  /** The outcome for the text of a date, case by case. */
  lemma ResolveDateToken(d: Date, zone: LocalZone)
    requires Writable(d)
    ensures GetDateFromArg(DateToken(d), zone) ==
      if !ValidDate(d) then Aborted(InvalidCalendarDate(d))
      else if zone(d).None? then Aborted(NoSingleLocalMidnight(d))
      else Resolved(Midnight(d, zone(d).value))
  {
    DateTokenRoundTrip(d);
  }

  /** Tokens the documentation comment of `parse_date_range` advertises but
      the code does not accept (`today`, a date without the year), and other
      near misses, all panic in the `expect`. */
  lemma RejectedTokens(zone: LocalZone)
    ensures GetDateFromArg("", zone) == Aborted(NotADate(""))
    ensures GetDateFromArg("today", zone) == Aborted(NotADate("today"))
    ensures GetDateFromArg("12-01", zone) == Aborted(NotADate("12-01"))
    ensures GetDateFromArg("2021-1-01", zone) == Aborted(NotADate("2021-1-01"))
    ensures GetDateFromArg("2021/12/01", zone) == Aborted(NotADate("2021/12/01"))
    ensures GetDateFromArg(" 2021-12-01", zone) == Aborted(NotADate(" 2021-12-01"))
  {
    assert !IsDigit('/');
    assert !IsDigit(' ');
  }

  /** Days the pattern lets through but the calendar lacks panic in chrono. */
  lemma ImpossibleDates(zone: LocalZone)
    ensures GetDateFromArg("2021-13-45", zone) == Aborted(InvalidCalendarDate(Date(2021, 13, 45)))
    ensures GetDateFromArg("2021-02-29", zone) == Aborted(InvalidCalendarDate(Date(2021, 2, 29)))
    ensures GetDateFromArg("2021-00-10", zone) == Aborted(InvalidCalendarDate(Date(2021, 0, 10)))
  {
    TokenByChars("2021-13-45");
    TokenByChars("2021-02-29");
    TokenByChars("2021-00-10");
  }

  // ---------------------------------------------------------------------
  // parse_date_range

  /** A range from two outcomes, evaluated left to right as Rust evaluates the
      arguments of `DateRange(..)`: a panic of the start wins. */
  function MakeRange(from: Resolution, to: Resolution): RangeResult {
    if from.Aborted? then Abort(from.panic)
    else if to.Aborted? then Abort(to.panic)
    else Ok(DateRange(from.time, to.time))
  }

  /** `parse_date_range`, with the clock reading `now` and the local zone
      `zone` given. */
  function ParseDateRange(input: string, now: DateTime, zone: LocalZone): (r: RangeResult)
    ensures r.Err? ==> r.message == InvalidRangeMessage
  {
    var dates := Split(input);
    var start := Resolved(GetStartDate());
    if |dates| == 1 then
      MakeRange(start, GetDateFromArg(dates[0], zone))
    else if |dates| == 2 then
      if dates[0] == "" && dates[1] == "" then Err(InvalidRangeMessage)
      else if dates[0] == "" then MakeRange(start, GetDateFromArg(dates[1], zone))
      else if dates[1] == "" then MakeRange(GetDateFromArg(dates[0], zone), Resolved(now))
      else MakeRange(GetDateFromArg(dates[0], zone), GetDateFromArg(dates[1], zone))
    else
      Err(InvalidRangeMessage)
  }

  /** `D` with no separator: everything from the epoch up to midnight of `D`. */
  lemma SingleDate(d: string, now: DateTime, zone: LocalZone)
    requires !HasSep(d)
    ensures ParseDateRange(d, now, zone) ==
      match GetDateFromArg(d, zone)
      case Resolved(t) => Ok(DateRange(GetStartDate(), t))
      case Aborted(p) => Abort(p)
  {
    SplitNoSep(d);
  }

  /** `D..`: from midnight of `D` up to now. */
  lemma OpenEnd(d: string, now: DateTime, zone: LocalZone)
    requires d != "" && !HasSep(d) && !EndsWithDot(d)
    ensures ParseDateRange(d + Sep, now, zone) ==
      match GetDateFromArg(d, zone)
      case Resolved(t) => Ok(DateRange(t, now))
      case Aborted(p) => Abort(p)
  {
    SplitPrefix(d, "");
    assert d + Sep == d + Sep + "";
  }

  /** `..D` means the same as `D`. */
  lemma OpenStart(d: string, now: DateTime, zone: LocalZone)
    requires d != "" && !HasSep(d)
    ensures ParseDateRange(Sep + d, now, zone) == ParseDateRange(d, now, zone)
  {
    SplitPrefix("", d);
    assert Sep + d == "" + Sep + d;
    SplitNoSep(d);
  }

  /** `D1..D2`: from midnight of `D1` to midnight of `D2`, in the order given,
      whichever is later; a bad `D1` is reported before a bad `D2`. */
  lemma Closed(d1: string, d2: string, now: DateTime, zone: LocalZone)
    requires d1 != "" && !HasSep(d1) && !EndsWithDot(d1)
    requires d2 != "" && !HasSep(d2)
    ensures ParseDateRange(d1 + Sep + d2, now, zone) ==
      match (GetDateFromArg(d1, zone), GetDateFromArg(d2, zone))
      case (Aborted(p), _) => Abort(p)
      case (Resolved(_), Aborted(p)) => Abort(p)
      case (Resolved(t1), Resolved(t2)) => Ok(DateRange(t1, t2))
  {
    SplitPrefix(d1, d2);
    SplitNoSep(d2);
  }

  /** The input `..` alone is the error. */
  lemma DotsOnly(now: DateTime, zone: LocalZone)
    ensures ParseDateRange(Sep, now, zone) == Err(InvalidRangeMessage)
  {
    SplitPrefix("", "");
    assert Sep == "" + Sep + "";
  }

  /** The error occurs exactly for `..` and for inputs with two or more
      separators; every other input either gives a range or panics. */
  lemma ErrExactly(s: string, now: DateTime, zone: LocalZone)
    ensures ParseDateRange(s, now, zone).Err? <==> s == Sep || Occurrences(s) >= 2
  {
    PieceCount(s);
    var dates := Split(s);
    if |dates| == 2 {
      JoinCons(dates[0], dates[1..]);
      assert dates[1..] == [dates[1]];
      if s == Sep {
        DotsOnly(now, zone);
      }
    }
  }

  /** With two or more separators no token is examined: the result is the
      error whatever the tokens, the clock and the zone. */
  lemma ManySeparators(s: string, now: DateTime, zone: LocalZone)
    requires Occurrences(s) >= 2
    ensures ParseDateRange(s, now, zone) == Err(InvalidRangeMessage)
  {
    ErrExactly(s, now, zone);
  }

  /** A panic is always that of a piece of the input, and only inputs with at
      most one separator can panic. */
  lemma AbortFromPiece(s: string, now: DateTime, zone: LocalZone)
    requires ParseDateRange(s, now, zone).Abort?
    ensures Occurrences(s) <= 1
    ensures exists i :: (0 <= i < |Split(s)| &&
      GetDateFromArg(Split(s)[i], zone) == Aborted(ParseDateRange(s, now, zone).panic))
  {
    PieceCount(s);
    var dates := Split(s);
    if |dates| == 1 {
      assert GetDateFromArg(dates[0], zone) == Aborted(ParseDateRange(s, now, zone).panic);
    } else if dates[0] != "" && GetDateFromArg(dates[0], zone).Aborted? {
      assert GetDateFromArg(dates[0], zone) == Aborted(ParseDateRange(s, now, zone).panic);
    } else {
      assert GetDateFromArg(dates[1], zone) == Aborted(ParseDateRange(s, now, zone).panic);
    }
  }

  /** The clock reading matters only as the open end of `D..`. */
  lemma NowOnlyAsOpenEnd(s: string, now: DateTime, now': DateTime, zone: LocalZone)
    ensures ParseDateRange(s, now, zone) != ParseDateRange(s, now', zone) ==>
      && ParseDateRange(s, now, zone).Ok? && ParseDateRange(s, now, zone).range.to == now
      && ParseDateRange(s, now', zone).Ok? && ParseDateRange(s, now', zone).range.to == now'
      && ParseDateRange(s, now, zone).range.from == ParseDateRange(s, now', zone).range.from
  {
  }

  /** An accepted token for a day that exists, locally too, resolves to its
      local midnight and can stand on either side of a separator. */
  lemma ResolveToken(tok: string, zone: LocalZone)
    requires IsDateToken(tok) && ValidDate(TokenDate(tok)) && zone(TokenDate(tok)).Some?
    ensures GetDateFromArg(tok, zone) ==
      Resolved(Midnight(TokenDate(tok), zone(TokenDate(tok)).value))
    ensures tok != "" && !HasSep(tok) && !EndsWithDot(tok)
  {
    TokenShape(tok);
  }

  /** An accepted token holds no dot at all. */
  lemma TokenShape(tok: string)
    requires IsDateToken(tok)
    ensures !HasSep(tok) && !EndsWithDot(tok)
  {
    assert forall i :: 0 <= i < 10 ==> tok[i] != '.' by {
      forall i | 0 <= i < 10 ensures tok[i] != '.' {
        if i < 4 { assert tok[0..4][i] == tok[i]; }
        else if 5 <= i < 7 { assert tok[5..7][i - 5] == tok[i]; }
        else if 8 <= i { assert tok[8..10][i - 8] == tok[i]; }
      }
    }
  }

  /** For the text of a date, the three forms of the grammar with that date
      as a bound. */
  lemma DateTokenRanges(d: Date, d2: Date, now: DateTime, zone: LocalZone)
    requires Writable(d) && ValidDate(d) && zone(d).Some?
    requires Writable(d2) && ValidDate(d2) && zone(d2).Some?
    ensures ParseDateRange(DateToken(d), now, zone) ==
      Ok(DateRange(GetStartDate(), Midnight(d, zone(d).value)))
    ensures ParseDateRange(Sep + DateToken(d), now, zone) ==
      Ok(DateRange(GetStartDate(), Midnight(d, zone(d).value)))
    ensures ParseDateRange(DateToken(d) + Sep, now, zone) ==
      Ok(DateRange(Midnight(d, zone(d).value), now))
    ensures ParseDateRange(DateToken(d) + Sep + DateToken(d2), now, zone) ==
      Ok(DateRange(Midnight(d, zone(d).value), Midnight(d2, zone(d2).value)))
  {
    var t, t2 := DateToken(d), DateToken(d2);
    DateTokenRoundTrip(d);
    DateTokenRoundTrip(d2);
    TokenShape(t);
    TokenShape(t2);
    ResolveDateToken(d, zone);
    ResolveDateToken(d2, zone);
    SingleDate(t, now, zone);
    OpenStart(t, now, zone);
    OpenEnd(t, now, zone);
    Closed(t, t2, now, zone);
  }
}
