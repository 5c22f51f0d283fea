/** The unit tests of src/utils.rs, as lemmas: each holds for every clock
    reading and every time zone in which the days involved have a single
    local midnight. */
module UtilsTests {
  import opened StrSplit
  import opened Time
  import opened Utils

  /** The source's test of `2021-12-01..2021-12-13`. */
  lemma TestBothBounds(now: DateTime, zone: LocalZone)
    requires zone(Date(2021, 12, 1)).Some? && zone(Date(2021, 12, 13)).Some?
    ensures ParseDateRange("2021-12-01..2021-12-13", now, zone) ==
      Ok(DateRange(Midnight(Date(2021, 12, 1), zone(Date(2021, 12, 1)).value),
                   Midnight(Date(2021, 12, 13), zone(Date(2021, 12, 13)).value)))
  {
    TestDays(zone);
    TestTokensHaveNoDots();
    TestInputsJoin();
    Closed("2021-12-01", "2021-12-13", now, zone);
  }

  /** The source's test of `2021-12-01`: the range starts at the epoch. */
  lemma TestEndOnly(now: DateTime, zone: LocalZone)
    requires zone(Date(2021, 12, 1)).Some?
    ensures ParseDateRange("2021-12-01", now, zone) ==
      Ok(DateRange(GetStartDate(), Midnight(Date(2021, 12, 1), zone(Date(2021, 12, 1)).value)))
  {
    TestDays(zone);
    TestTokensHaveNoDots();
    SingleDate("2021-12-01", now, zone);
  }

  /** The source's test of `2021-12-01..`: the range ends now. */
  lemma TestStartOnly(now: DateTime, zone: LocalZone)
    requires zone(Date(2021, 12, 1)).Some?
    ensures ParseDateRange("2021-12-01..", now, zone) ==
      Ok(DateRange(Midnight(Date(2021, 12, 1), zone(Date(2021, 12, 1)).value), now))
  {
    TestDays(zone);
    TestTokensHaveNoDots();
    TestInputsJoin();
    OpenEnd("2021-12-01", now, zone);
  }

  /** The two days of the tests resolve to their local midnights. */
  lemma TestDays(zone: LocalZone)
    ensures zone(Date(2021, 12, 1)).Some? ==>
      GetDateFromArg("2021-12-01", zone) == Resolved(Midnight(Date(2021, 12, 1), zone(Date(2021, 12, 1)).value))
    ensures zone(Date(2021, 12, 13)).Some? ==>
      GetDateFromArg("2021-12-13", zone) == Resolved(Midnight(Date(2021, 12, 13), zone(Date(2021, 12, 13)).value))
  {
    FirstTestDay(zone);
    SecondTestDay(zone);
  }

  lemma FirstTestDay(zone: LocalZone)
    ensures zone(Date(2021, 12, 1)).Some? ==>
      GetDateFromArg("2021-12-01", zone) == Resolved(Midnight(Date(2021, 12, 1), zone(Date(2021, 12, 1)).value))
  {
    TokenByChars("2021-12-01");
  }

  lemma SecondTestDay(zone: LocalZone)
    ensures zone(Date(2021, 12, 13)).Some? ==>
      GetDateFromArg("2021-12-13", zone) == Resolved(Midnight(Date(2021, 12, 13), zone(Date(2021, 12, 13)).value))
  {
    TokenByChars("2021-12-13");
  }

  /** The test inputs, written as token, separator and token. */
  lemma TestInputsJoin()
    ensures "2021-12-01" + Sep == "2021-12-01.."
    ensures "2021-12-01" + Sep + "2021-12-13" == "2021-12-01..2021-12-13"
  {
  }

  lemma TestTokensHaveNoDots()
    ensures !HasSep("2021-12-01") && !EndsWithDot("2021-12-01") && !HasSep("2021-12-13")
  {
    TokenByChars("2021-12-01");
    TokenByChars("2021-12-13");
    TokenShape("2021-12-01");
    TokenShape("2021-12-13");
  }
}
