/** Concrete conversions with the shipped tables: the documented examples
    that the table data supports, the three failure kinds, and the corner
    cases where the converter's behaviour departs from the intended one. */
module LunarApiExamples {
  import opened Wrappers
  import opened Types
  import opened CivilCalendar
  import opened LunarTables
  import opened LunarApi

  /** A lunar date of a year whose entry is `yd` that passes validation,
      whose slots ahead of its own are `before` with `total` days between
      them, converts to the valid date `g` whose day number is the anchor's
      plus `total` plus `day - 1`. */
  lemma ConvertsTo(d: LunarDate, yd: YearData, before: seq<nat>, total: int, g: GregorianDate)
    requires Supported(d.year)
    requires ValidDate(g) && DayNumber(g) <= MaxTimeDays
    requires DayNumber(g) == DayNumber(Anchor(d.year)) + total + d.day - 1
    requires YearDataTable[d.year] == yd
    requires d.Leap() ==> yd.leapMonth == Some(d.month)
    requires MonthIndex(d.month, d.Leap()) <= |yd.months|
    requires !DayRejected(d.day, MonthLength(yd, MonthIndex(d.month, d.Leap())))
    requires |before| == SlotsAhead(MonthIndex(d.month, d.Leap())) && yd.months[..|before|] == before
    requires Sum(before) == total
    ensures LunarToGregorian(d) == Success(Date(g))
  {
    PrefixSumIsSum(yd.months, |before|);
    AnchorDayNumberBounds(d.year);
    DayNumberInjective(g, LunarToGregorian(d).value.date);
  }


  lemma NewYear2024()
    ensures LunarToGregorian(LunarDate(2024, 1, 1, Some(false))) == Success(Date(GregorianDate(2024, 2, 10)))
  {
    NewYearIsAnchor(2024, Some(false));
  }

  /** The mid-autumn festival of 2024. */
  lemma MidAutumn2024()
    ensures LunarToGregorian(LunarDate(2024, 8, 15, Some(false))) == Success(Date(GregorianDate(2024, 9, 17)))
  {
    ConvertsTo(LunarDate(2024, 8, 15, Some(false)), Year2024,
      [29, 30, 29, 30, 29, 30, 29], 206, GregorianDate(2024, 9, 17));
  }

  /** The twelfth ordinary month of 2024 reads the eleventh-month slot (the
      leap month took slot 4), so its 29th day falls on 2025-01-27. */
  lemma LastMonth2024()
    ensures LunarToGregorian(LunarDate(2024, 12, 29, None)) == Success(Date(GregorianDate(2025, 1, 27)))
  {
    ConvertsTo(LunarDate(2024, 12, 29, None), Year2024,
      [29, 30, 29, 30, 29, 30, 29, 30, 29, 30, 29], 324, GregorianDate(2025, 1, 27));
  }

  /** The leap fourth month of 2024 and the ordinary fifth month read the
      same slot and give the same dates. */
  lemma LeapFourth2024()
    ensures LunarToGregorian(LunarDate(2024, 4, 1, Some(true))) == Success(Date(GregorianDate(2024, 6, 7)))
    ensures LunarToGregorian(LunarDate(2024, 5, 1, Some(false))) == Success(Date(GregorianDate(2024, 6, 7)))
    ensures LunarToGregorian(LunarDate(2024, 4, 15, Some(true))) == Success(Date(GregorianDate(2024, 6, 21)))
  {
    ConvertsTo(LunarDate(2024, 4, 1, Some(true)), Year2024,
      [29, 30, 29, 30], 118, GregorianDate(2024, 6, 7));
    ConvertsTo(LunarDate(2024, 4, 15, Some(true)), Year2024,
      [29, 30, 29, 30], 118, GregorianDate(2024, 6, 21));
    LeapSlotSharedWithNextMonth(2024, 4, 1, Some(false));
  }

  /** The last day of the leap fourth month of 2024 lies 28 days after its
      first day, in July. */
  lemma LeapFourthLastDay2024()
    ensures LunarToGregorian(LunarDate(2024, 4, 29, Some(true))) == Success(Date(GregorianDate(2024, 7, 5)))
  {
    ConvertsTo(LunarDate(2024, 4, 29, Some(true)), Year2024,
      [29, 30, 29, 30], 118, GregorianDate(2024, 7, 5));
  }

  /** The 15th day of the sixth month of 2025, a year without a leap month. */
  lemma SixthMonth2025()
    ensures LunarToGregorian(LunarDate(2025, 6, 15, Some(false))) == Success(Date(GregorianDate(2025, 7, 10)))
  {
    ConvertsTo(LunarDate(2025, 6, 15, Some(false)), Year2025,
      [30, 29, 30, 29, 30], 148, GregorianDate(2025, 7, 10));
  }

  /** The 15th day of the leap sixth month of 2028 reads slot 6. */
  lemma LeapSixth2028()
    ensures LunarToGregorian(LunarDate(2028, 6, 15, Some(true))) == Success(Date(GregorianDate(2028, 8, 4)))
  {
    ConvertsTo(LunarDate(2028, 6, 15, Some(true)), Year2028,
      [30, 29, 30, 29, 30, 29], 177, GregorianDate(2028, 8, 4));
  }

  /** The first day of the leap eighth month of 2035 reads slot 8. */
  lemma LeapEighth2035()
    ensures LunarToGregorian(LunarDate(2035, 8, 1, Some(true))) == Success(Date(GregorianDate(2035, 10, 2)))
  {
    ConvertsTo(LunarDate(2035, 8, 1, Some(true)), Year2035,
      [30, 29, 30, 29, 30, 29, 30, 29], 236, GregorianDate(2035, 10, 2));
  }

  /** The mid-autumn festival of 2025. */
  lemma MidAutumn2025()
    ensures LunarToGregorian(LunarDate(2025, 8, 15, Some(false))) == Success(Date(GregorianDate(2025, 9, 7)))
  {
    ConvertsTo(LunarDate(2025, 8, 15, Some(false)), Year2025,
      [30, 29, 30, 29, 30, 29, 30], 207, GregorianDate(2025, 9, 7));
  }

  /** The mid-autumn festival of 2026. */
  lemma MidAutumn2026()
    ensures LunarToGregorian(LunarDate(2026, 8, 15, Some(false))) == Success(Date(GregorianDate(2026, 9, 26)))
  {
    ConvertsTo(LunarDate(2026, 8, 15, Some(false)), Year2026,
      [30, 29, 30, 29, 30, 29, 30], 207, GregorianDate(2026, 9, 26));
  }

  /** In 2031 the leap fifth month is not skipped, so the eighth-month
      template reads the seventh month's slot and mid-autumn falls in August;
      the projection from 2024 on therefore holds an August date. */
  lemma MidAutumnInAugust()
    ensures LunarToGregorian(LunarDate(2031, 8, 15, Some(false))) == Success(Date(GregorianDate(2031, 8, 31)))
    ensures Date(GregorianDate(2031, 8, 31)) in MultiYearDates(8, 15, false, 2024)
  {
    ConvertsTo(LunarDate(2031, 8, 15, Some(false)), Year2031,
      [29, 30, 29, 30, 29, 30, 29], 206, GregorianDate(2031, 8, 31));
    TableYears(2031);
  }

  /** Each failure kind, and the check that reports it. */
  lemma Failures()
    ensures LunarToGregorian(LunarDate(2024, 5, 1, Some(true))) == Failure(InvalidLeapMonth)
    ensures LunarToGregorian(LunarDate(2025, 1, 1, Some(true))) == Failure(InvalidLeapMonth)
    ensures LunarToGregorian(LunarDate(2024, 1, 31, Some(false))) == Failure(InvalidDay)
    ensures LunarToGregorian(LunarDate(2024, 1, 0, None)) == Failure(InvalidDay)
    ensures LunarToGregorian(LunarDate(2033, 3, 30, Some(true))) == Failure(InvalidDay)
    ensures LunarToGregorian(LunarDate(2054, 1, 1, Some(false))) == Failure(UnsupportedYear)
    ensures LunarToGregorian(LunarDate(2023, 1, 1, Some(false))) == Failure(UnsupportedYear)
  {
    assert YearDataTable[2024].months[0] == 29;
    assert YearDataTable[2033].months[3] == 29;
  }

  /** 2026 names month 12 as leap but has no thirteenth length, so the leap
      twelfth month reads the slot past the end: its first day is the day
      after all twelve listed months. */
  lemma LeapTwelfth2026()
    ensures LunarToGregorian(LunarDate(2026, 12, 1, Some(true))) == Success(Date(GregorianDate(2027, 2, 7)))
  {
    ConvertsTo(LunarDate(2026, 12, 1, Some(true)), Year2026,
      Year2026.months, 355, GregorianDate(2027, 2, 7));
  }

  /** The same missing length puts no upper bound on the day: day 45 of the
      leap twelfth month of 2026 passes validation. */
  lemma LeapTwelfth2026Unbounded()
    ensures LunarToGregorian(LunarDate(2026, 12, 45, Some(true))) == Success(Date(GregorianDate(2027, 3, 23)))
  {
    ConvertsTo(LunarDate(2026, 12, 45, Some(true)), Year2026,
      Year2026.months, 355, GregorianDate(2027, 3, 23));
  }

  /** No month range check: month 0 reads slot -1, which does not exist, so
      the day is counted from the New Year itself. */
  lemma MonthZero()
    ensures LunarToGregorian(LunarDate(2025, 0, 3, None)) == Success(Date(GregorianDate(2025, 1, 31)))
  {
    ConvertsTo(LunarDate(2025, 0, 3, None), Year2025,
      [], 0, GregorianDate(2025, 1, 31));
  }

  /** Month 13 of a twelve-month year reads the slot just past the end, which
      puts no bound on the day. */
  lemma MonthThirteen()
    ensures LunarToGregorian(LunarDate(2025, 13, 40, None)) == Success(Date(GregorianDate(2026, 2, 26)))
  {
    ConvertsTo(LunarDate(2025, 13, 40, None), Year2025,
      Year2025.months, 354, GregorianDate(2026, 2, 26));
  }

  /** Month 14 of a twelve-month year sums a slot past the end, so the result
      is the NaN date rather than null. */
  lemma MonthFourteen()
    ensures LunarToGregorian(LunarDate(2025, 14, 1, None)) == Success(NaNDate)
  {
    assert |YearDataTable[2025].months| == 12;
  }

  /** The tenth day of the twelfth month of 2024 falls in January 2025. */
  lemma TwelfthMonth2024()
    ensures LunarToGregorian(LunarDate(2024, 12, 10, Some(false))) == Success(Date(GregorianDate(2025, 1, 8)))
  {
    ConvertsTo(LunarDate(2024, 12, 10, Some(false)), Year2024,
      [29, 30, 29, 30, 29, 30, 29, 30, 29, 30, 29], 324, GregorianDate(2025, 1, 8));
  }

  /** The tenth day of the twelfth month of 2025 falls in December 2025. */
  lemma TwelfthMonth2025()
    ensures LunarToGregorian(LunarDate(2025, 12, 10, Some(false))) == Success(Date(GregorianDate(2025, 12, 29)))
  {
    ConvertsTo(LunarDate(2025, 12, 10, Some(false)), Year2025,
      [30, 29, 30, 29, 30, 29, 30, 29, 30, 29, 30], 325, GregorianDate(2025, 12, 29));
  }

  /** When the first two years convert, they give the first two entries. */
  lemma ProjectFirstTwo(convert: int -> Result<Converted, ConversionError>, years: seq<int>, a: Converted, b: Converted)
    requires |years| >= 2
    requires convert(years[0]) == Success(a) && convert(years[1]) == Success(b)
    ensures |Project(convert, years)| >= 2
    ensures Project(convert, years)[0] == a && Project(convert, years)[1] == b
  {
    assert years[1..][0] == years[1];
  }

  /** A projection of the twelfth month from 2024 on starts with lunar
      years 2024 and 2025, whose dates share the Gregorian year 2025: the
      lunar years kept ascend, but the Gregorian years need not. */
  lemma GregorianYearRepeats()
    ensures |MultiYearDates(12, 10, false, 2024)| >= 2
    ensures MultiYearDates(12, 10, false, 2024)[0] == Date(GregorianDate(2025, 1, 8))
    ensures MultiYearDates(12, 10, false, 2024)[1] == Date(GregorianDate(2025, 12, 29))
  {
    TwelfthMonth2024();
    TwelfthMonth2025();
    ProjectFirstTwo(Template(12, 10, false), CandidateYears(2024),
      Date(GregorianDate(2025, 1, 8)), Date(GregorianDate(2025, 12, 29)));
  }
}
