/** The two read-only reference tables the converter consults, keyed by lunar
    year, and the facts about their contents that the converter relies on. */
module LunarTables {
  import opened Wrappers
  import opened Types
  import opened CivilCalendar

  /** Structure of one lunar year: the length of each month in order (the leap
      month, when there is one, is meant to sit right after its ordinary
      sibling) and the ordinal of the doubled month, if any. */
  datatype YearData = YearData(months: seq<nat>, leapMonth: Option<int>)

  const FirstYear := 2024
  const LastYear := 2053

  /** Gregorian (month, day) of each lunar year's New Year. */
  const NewYearList: seq<(int, int)> := [
    (2, 10),  // 2024
    (1, 29),  // 2025
    (2, 17),  // 2026
    (2, 6),  // 2027
    (1, 26),  // 2028
    (2, 13),  // 2029
    (2, 3),  // 2030
    (1, 23),  // 2031
    (2, 11),  // 2032
    (1, 31),  // 2033
    (2, 19),  // 2034
    (2, 8),  // 2035
    (1, 28),  // 2036
    (2, 15),  // 2037
    (2, 4),  // 2038
    (1, 24),  // 2039
    (2, 12),  // 2040
    (2, 1),  // 2041
    (1, 22),  // 2042
    (2, 10),  // 2043
    (1, 30),  // 2044
    (2, 17),  // 2045
    (2, 6),  // 2046
    (1, 26),  // 2047
    (2, 14),  // 2048
    (2, 2),  // 2049
    (1, 23),  // 2050
    (2, 11),  // 2051
    (1, 31),  // 2052
    (2, 19)  // 2053
  ]

  /** Gregorian (month, day) of each lunar year's New Year, keyed by year. */
  const NewYearTable: map<int, (int, int)> :=
    map y | FirstYear <= y <= LastYear :: NewYearList[y - FirstYear]

  /** Month lengths and leap month of each lunar year. */
  const Year2024 := YearData([29, 30, 29, 30, 29, 30, 29, 30, 29, 30, 29, 30, 29], Some(4))
  const Year2025 := YearData([30, 29, 30, 29, 30, 29, 30, 29, 30, 29, 30, 29], None)
  const Year2026 := YearData([30, 29, 30, 29, 30, 29, 30, 29, 30, 29, 30, 30], Some(12))
  const Year2027 := YearData([29, 30, 29, 30, 29, 30, 29, 30, 29, 30, 29, 30], None)
  const Year2028 := YearData([30, 29, 30, 29, 30, 29, 30, 29, 30, 29, 30, 29, 30], Some(6))
  const Year2029 := YearData([29, 30, 29, 30, 29, 30, 29, 30, 29, 30, 29, 30], None)
  const Year2030 := YearData([29, 30, 29, 30, 29, 30, 29, 30, 29, 30, 29, 30], None)
  const Year2031 := YearData([29, 30, 29, 30, 29, 30, 29, 30, 29, 30, 29, 30, 30], Some(5))
  const Year2032 := YearData([29, 30, 29, 30, 29, 30, 29, 30, 29, 30, 29, 30], None)
  const Year2033 := YearData([30, 29, 30, 29, 30, 29, 30, 29, 30, 29, 30, 29, 30], Some(3))
  const Year2034 := YearData([29, 30, 29, 30, 29, 30, 29, 30, 29, 30, 29, 30], None)
  const Year2035 := YearData([30, 29, 30, 29, 30, 29, 30, 29, 30, 29, 30, 29, 30], Some(8))
  const Year2036 := YearData([29, 30, 29, 30, 29, 30, 29, 30, 29, 30, 29, 30], None)
  const Year2037 := YearData([30, 29, 30, 29, 30, 29, 30, 29, 30, 29, 30, 29, 30], Some(6))
  const Year2038 := YearData([29, 30, 29, 30, 29, 30, 29, 30, 29, 30, 29, 30], None)
  const Year2039 := YearData([30, 29, 30, 29, 30, 29, 30, 29, 30, 29, 30, 29], None)
  const Year2040 := YearData([30, 29, 30, 29, 30, 29, 30, 29, 30, 29, 30, 29, 30], Some(4))
  const Year2041 := YearData([29, 30, 29, 30, 29, 30, 29, 30, 29, 30, 29, 30], None)
  const Year2042 := YearData([30, 29, 30, 29, 30, 29, 30, 29, 30, 29, 30, 29, 30], Some(3))
  const Year2043 := YearData([29, 30, 29, 30, 29, 30, 29, 30, 29, 30, 29, 30], None)
  const Year2044 := YearData([30, 29, 30, 29, 30, 29, 30, 29, 30, 29, 30, 29, 30], Some(7))
  const Year2045 := YearData([29, 30, 29, 30, 29, 30, 29, 30, 29, 30, 29, 30], None)
  const Year2046 := YearData([30, 29, 30, 29, 30, 29, 30, 29, 30, 29, 30, 29], None)
  const Year2047 := YearData([30, 29, 30, 29, 30, 29, 30, 29, 30, 29, 30, 29, 30], Some(5))
  const Year2048 := YearData([29, 30, 29, 30, 29, 30, 29, 30, 29, 30, 29, 30], None)
  const Year2049 := YearData([30, 29, 30, 29, 30, 29, 30, 29, 30, 29, 30, 29, 30], Some(4))
  const Year2050 := YearData([29, 30, 29, 30, 29, 30, 29, 30, 29, 30, 29, 30], None)
  const Year2051 := YearData([30, 29, 30, 29, 30, 29, 30, 29, 30, 29, 30, 29], None)
  const Year2052 := YearData([30, 29, 30, 29, 30, 29, 30, 29, 30, 29, 30, 29, 30], Some(3))
  const Year2053 := YearData([29, 30, 29, 30, 29, 30, 29, 30, 29, 30, 29, 30], None)

  /** The years' entries in order, from 2024. */
  const YearDataList: seq<YearData> := [
    Year2024, Year2025, Year2026, Year2027, Year2028, Year2029,
    Year2030, Year2031, Year2032, Year2033, Year2034, Year2035,
    Year2036, Year2037, Year2038, Year2039, Year2040, Year2041,
    Year2042, Year2043, Year2044, Year2045, Year2046, Year2047,
    Year2048, Year2049, Year2050, Year2051, Year2052, Year2053
  ]

  /** Month lengths and leap month of each lunar year, keyed by year. */
  const YearDataTable: map<int, YearData> :=
    map y | FirstYear <= y <= LastYear :: YearDataList[y - FirstYear]

  /** The Gregorian date of lunar year `y`'s New Year. */
  function Anchor(y: int): GregorianDate
    requires y in NewYearTable
  {
    GregorianDate(y, NewYearTable[y].0, NewYearTable[y].1)
  }

  /** The intended shape of a year: every month 29 or 30 days long, a leap
      ordinal within 1..12, and a 13th length exactly when a leap month is
      named. */
  predicate WellFormedYear(yd: YearData) {
    LooseYear(yd) && (|yd.months| == 13 <==> yd.leapMonth.Some?)
  }

  /** The shape without the link between a leap month and a 13th length. */
  predicate LooseYear(yd: YearData) {
    && (forall i :: 0 <= i < |yd.months| ==> yd.months[i] == 29 || yd.months[i] == 30)
    && (yd.leapMonth.Some? ==> 1 <= yd.leapMonth.value <= 12)
    && (|yd.months| == 12 || |yd.months| == 13)
  }

  /** Both tables cover exactly the contiguous years 2024..2053. */
  lemma TableYears(y: int)
    ensures y in NewYearTable <==> FirstYear <= y <= LastYear
    ensures y in YearDataTable <==> FirstYear <= y <= LastYear
  {
  }

  /** Every New Year anchor is a real date in January or February of the
      lunar year's own number. */
  lemma AnchorsValid(y: int)
    requires y in NewYearTable
    ensures ValidDate(Anchor(y))
    ensures Anchor(y).year == y && 1 <= Anchor(y).month <= 2
  {
  }

  /** Every anchor's day number is non-negative and below January 1st of the
      year after the last table year. */
  lemma AnchorDayNumberBounds(y: int)
    requires y in NewYearTable
    ensures 0 <= DayNumber(Anchor(y)) < DaysBeforeYear(LastYear + 1)
  {
    AnchorsValid(y);
    DayNumberWithinYear(Anchor(y));
    DaysBeforeYearMonotone(1970, y);
    DaysBeforeYearMonotone(y + 1, LastYear + 1);
  }

  /** Every entry has month lengths 29 or 30, a leap ordinal in 1..12 and 12
      or 13 lengths. */
  lemma YearsLoose(y: int)
    requires y in YearDataTable
    ensures LooseYear(YearDataTable[y])
  {
  }

  /** Every entry except 2026 has the intended shape: a 13th length exactly
      when it names a leap month. 2026 names month 12 as leap yet lists only
      twelve lengths. */
  lemma YearsWellFormedExcept2026(y: int)
    requires y in YearDataTable
    ensures WellFormedYear(YearDataTable[y]) <==> y != 2026
  {
    YearsLoose(y);
  }
}
