/** The lunar-to-Gregorian converter: validation of a lunar date against the
    year-structure table, the day offset from the year's New Year anchor, and
    the projection of one (month, day, leap) template over the table years
    from a given current year onward. */
module LunarApi {
  import opened Wrappers
  import opened Types
  import opened CivilCalendar
  import opened LunarTables

  /** Which validation rejected a date. Each failure is reported to the caller
      as a plain null; the kind is the diagnostic message logged with it. */
  datatype ConversionError = UnsupportedYear | InvalidLeapMonth | InvalidDay

  /** What a conversion that passed validation returns: a real date, or the
      object whose year, month and day are all NaN, produced when the day
      offset is NaN or the result falls outside the range of time values. */
  datatype Converted = Date(date: GregorianDate) | NaNDate

  /** Time values are limited to 8.64e15 ms either side of the epoch, which
      is exactly 100,000,000 days. */
  const MaxTimeDays := 100_000_000

  /** Position of a month in the year's length list. The leap flag adds one,
      but ordinary months after the leap month are not shifted. */
  function MonthIndex(month: int, leap: bool): int {
    month - 1 + (if leap then 1 else 0)
  }

  /** The length stored at position `i`, or nothing when `i` is outside the
      list (an undefined array slot). */
  function MonthLength(yd: YearData, i: int): Option<nat> {
    if 0 <= i < |yd.months| then Some(yd.months[i]) else None
  }

  /** The day check: below 1, or above a length that exists. A comparison
      with an undefined length is false, so a missing slot only checks the
      lower bound. */
  predicate DayRejected(day: int, len: Option<nat>) {
    day < 1 || (len.Some? && day > len.value)
  }

  /** A day passes the day check exactly when it is at least 1 and, when the
      slot exists, at most that slot's length: a missing slot bounds the day
      only from below. */
  lemma DayCheckAccepts(yd: YearData, i: int, day: int)
    ensures !DayRejected(day, MonthLength(yd, i)) <==>
      1 <= day && (0 <= i < |yd.months| ==> day <= yd.months[i])
  {
  }

  /** How many slots the summing loop visits before `monthIndex`: none when
      the index is negative. */
  function SlotsAhead(monthIndex: int): nat {
    if monthIndex < 0 then 0 else monthIndex
  }

  /** Total length of the first `k` slots, added in list order. */
  function PrefixSum(s: seq<nat>, k: nat): nat
    requires k <= |s|
  {
    if k == 0 then 0 else PrefixSum(s, k - 1) + s[k - 1]
  }

  /** Total length of a list of slots, summed from the front. */
  function Sum(s: seq<nat>): nat {
    if |s| == 0 then 0 else s[0] + Sum(s[1..])
  }

  /** Summing one more element adds it to the total. */
  lemma {:induction false} SumSnoc(s: seq<nat>, x: nat)
    ensures Sum(s + [x]) == Sum(s) + x
  {
    if |s| > 0 {
      assert (s + [x])[1..] == s[1..] + [x];
      SumSnoc(s[1..], x);
    }
  }

  /** The loop's running total over the first `k` slots is the sum of the
      list's first `k` elements. */
  lemma {:induction false} PrefixSumIsSum(s: seq<nat>, k: nat)
    requires k <= |s|
    ensures PrefixSum(s, k) == Sum(s[..k])
  {
    if k > 0 {
      PrefixSumIsSum(s, k - 1);
      assert s[..k] == s[..k - 1] + [s[k - 1]];
      SumSnoc(s[..k - 1], s[k - 1]);
    }
  }

  /** In a year whose lengths are all 29 or 30, the first `k` slots span
      between 29 and 30 days each. */
  lemma {:induction false} PrefixSumBounds(s: seq<nat>, k: nat)
    requires k <= |s|
    requires forall i :: 0 <= i < |s| ==> s[i] == 29 || s[i] == 30
    ensures 29 * k <= PrefixSum(s, k) <= 30 * k
  {
    if k > 0 {
      PrefixSumBounds(s, k - 1);
    }
  }

  /** Days from the New Year to the requested day: the lengths of all slots
      before `monthIndex`, plus `day - 1`. Reaching past the end of the list
      adds an undefined length, which makes the offset NaN (`None`). */
  function DaysToAdd(yd: YearData, monthIndex: int, day: int): (n: Option<int>)
    ensures n.Some? <==> monthIndex <= |yd.months|
    ensures n.Some? && day >= 1 ==> n.value >= 0
  {
    if monthIndex > |yd.months| then None
    else Some(PrefixSum(yd.months, SlotsAhead(monthIndex)) + day - 1)
  }

  /** The summing loop as written: it starts at 0, adds `months[i]` for each
      `i < monthIndex`, and NaN absorbs everything once an undefined slot has
      been added; finally `day - 1` is added. */
  method DaysToAddLoop(yd: YearData, monthIndex: int, day: int) returns (n: Option<int>)
    ensures n == DaysToAdd(yd, monthIndex, day)
  {
    var acc: Option<int> := Some(0);
    var i := 0;
    while i < monthIndex
      invariant 0 <= i <= SlotsAhead(monthIndex)
      invariant i <= |yd.months| ==> acc == Some(PrefixSum(yd.months, i))
      invariant i > |yd.months| ==> acc == None
      decreases monthIndex - i
    {
      if i < |yd.months| && acc.Some? {
        acc := Some(acc.value + yd.months[i]);
      } else {
        acc := None;
      }
      i := i + 1;
    }
    n := if acc.Some? then Some(acc.value + day - 1) else None;
  }

  /** Advances the New Year anchor by `offset` days; a day number outside the
      representable range gives the NaN object. */
  function Shift(base: GregorianDate, offset: nat): (c: Converted)
    requires ValidDate(base)
    ensures c.Date? <==> -MaxTimeDays <= DayNumber(base) + offset <= MaxTimeDays
    ensures c.Date? ==> ValidDate(c.date) && DayNumber(c.date) == DayNumber(base) + offset
  {
    var target := DayNumber(base) + offset;
    if target < -MaxTimeDays || target > MaxTimeDays then NaNDate
    else Date(AddDays(base, offset))
  }

  /** Both tables have an entry for the year. */
  predicate Supported(year: int) {
    year in NewYearTable && year in YearDataTable
  }

  /** Converts a lunar date: the year check, then the leap check, then the
      day check, and finally the anchor advanced by the day offset. */
  function LunarToGregorian(d: LunarDate): (r: Result<Converted, ConversionError>)
    ensures r == Failure(UnsupportedYear) <==> !Supported(d.year)
    ensures r == Failure(InvalidLeapMonth) <==>
      Supported(d.year) && d.Leap() && YearDataTable[d.year].leapMonth != Some(d.month)
    ensures r == Failure(InvalidDay) <==>
      && Supported(d.year)
      && (d.Leap() ==> YearDataTable[d.year].leapMonth == Some(d.month))
      && DayRejected(d.day, MonthLength(YearDataTable[d.year], MonthIndex(d.month, d.Leap())))
    ensures r.Success? ==> d.day >= 1 && Supported(d.year)
    ensures r.Success? && r.value.Date? ==>
      var k := MonthIndex(d.month, d.Leap());
      var months := YearDataTable[d.year].months;
      && k <= |months|
      && ValidDate(r.value.date)
      && DayNumber(r.value.date)
         == DayNumber(Anchor(d.year)) + PrefixSum(months, SlotsAhead(k)) + d.day - 1
    ensures r.Success? ==>
      var k := MonthIndex(d.month, d.Leap());
      var months := YearDataTable[d.year].months;
      if k > |months| then r.value == NaNDate
      else
        var target := DayNumber(Anchor(d.year)) + PrefixSum(months, SlotsAhead(k)) + d.day - 1;
        r.value.Date? <==> -MaxTimeDays <= target <= MaxTimeDays
  {
    if !Supported(d.year) then Failure(UnsupportedYear)
    else
      var yd := YearDataTable[d.year];
      if d.Leap() && yd.leapMonth != Some(d.month) then Failure(InvalidLeapMonth)
      else
        var k := MonthIndex(d.month, d.Leap());
        if DayRejected(d.day, MonthLength(yd, k)) then Failure(InvalidDay)
        else
          match DaysToAdd(yd, k, d.day)
          case None => Success(NaNDate)
          case Some(n) =>
            AnchorsValid(d.year);
            Success(Shift(Anchor(d.year), n))
  }

  /** A lunar year that has a leap month `k` stores the leap copy at the slot
      ordinary month `k + 1` also reads, so the two dates convert alike. */
  lemma LeapSlotSharedWithNextMonth(year: int, k: int, day: int, flag: Option<bool>)
    requires year in YearDataTable && YearDataTable[year].leapMonth == Some(k)
    requires flag != Some(true)
    ensures LunarToGregorian(LunarDate(year, k + 1, day, flag))
         == LunarToGregorian(LunarDate(year, k, day, Some(true)))
  {
  }

  /** The first day of the first month is the New Year anchor itself, in the
      same Gregorian year. */
  lemma NewYearIsAnchor(year: int, flag: Option<bool>)
    requires Supported(year)
    requires flag != Some(true)
    ensures LunarToGregorian(LunarDate(year, 1, 1, flag)) == Success(Date(Anchor(year)))
    ensures Anchor(year).year == year
  {
    YearsLoose(year);
    AnchorsValid(year);
    AnchorDayNumberBounds(year);
    AddDaysRoundTrip(Anchor(year), Anchor(year));
  }

  /** When a day and the day after it in the same lunar month both convert to
      real dates, the second is the calendar day after the first. */
  lemma ConsecutiveDays(year: int, month: int, day: int, flag: Option<bool>)
    requires LunarToGregorian(LunarDate(year, month, day, flag)).Success?
    requires LunarToGregorian(LunarDate(year, month, day, flag)).value.Date?
    requires LunarToGregorian(LunarDate(year, month, day + 1, flag)).Success?
    requires LunarToGregorian(LunarDate(year, month, day + 1, flag)).value.Date?
    ensures
      var first := LunarToGregorian(LunarDate(year, month, day, flag)).value.date;
      var next := LunarToGregorian(LunarDate(year, month, day + 1, flag)).value.date;
      DayNumber(next) == DayNumber(first) + 1 && next == AddDays(first, 1)
  {
    var first := LunarToGregorian(LunarDate(year, month, day, flag)).value.date;
    var next := LunarToGregorian(LunarDate(year, month, day + 1, flag)).value.date;
    DayNumberInjective(next, AddDays(first, 1));
  }

  /** The years from `lo` up to but excluding `hi`, ascending. */
  function YearRange(lo: int, hi: int): (ys: seq<int>)
    ensures |ys| == if lo < hi then hi - lo else 0
    ensures forall i :: 0 <= i < |ys| ==> ys[i] == lo + i
    ensures forall y :: y in ys <==> lo <= y < hi
    decreases hi - lo
  {
    if lo >= hi then [] else [lo] + YearRange(lo + 1, hi)
  }

  /** The earliest year the projection may start from. */
  function FirstCandidate(currentYear: int): int {
    if currentYear < FirstYear then FirstYear else currentYear
  }

  /** The year-structure table's years that are at least `currentYear`, in
      ascending order. */
  function CandidateYears(currentYear: int): (ys: seq<int>)
    ensures |ys| ==
      if currentYear <= FirstYear then LastYear - FirstYear + 1
      else if currentYear <= LastYear then LastYear - currentYear + 1
      else 0
    ensures forall i :: 0 <= i < |ys| ==> ys[i] == FirstCandidate(currentYear) + i
  {
    YearRange(FirstCandidate(currentYear), LastYear + 1)
  }

  /** The candidate years are exactly the table years from `currentYear` on,
      each once, in ascending order: the table's keys filtered and sorted. */
  lemma CandidateYearsAreTableYears(currentYear: int)
    ensures forall y :: y in CandidateYears(currentYear) <==> y in YearDataTable && y >= currentYear
    ensures forall i, j :: 0 <= i < j < |CandidateYears(currentYear)| ==>
      CandidateYears(currentYear)[i] < CandidateYears(currentYear)[j]
  {
    var ys := CandidateYears(currentYear);
    forall y ensures y in ys <==> y in YearDataTable && y >= currentYear {
      TableYears(y);
      if FirstCandidate(currentYear) <= y <= LastYear {
        assert ys[y - FirstCandidate(currentYear)] == y;
      }
    }
  }

  /** One conversion attempt per year, with the template's month, day and
      leap flag filled in. */
  function Template(month: int, day: int, leap: bool): int -> Result<Converted, ConversionError> {
    year => LunarToGregorian(LunarDate(year, month, day, Some(leap)))
  }

  /** Runs `convert` on each year in turn and keeps the results that are not
      null, so there are never more results than years. */
  function Project(convert: int -> Result<Converted, ConversionError>, years: seq<int>): (out: seq<Converted>)
    ensures |out| <= |years|
  {
    if |years| == 0 then []
    else
      var rest := Project(convert, years[1..]);
      match convert(years[0])
      case Success(c) => [c] + rest
      case Failure(_) => rest
  }

  /** Every projected result is some input year's conversion, and every input
      year that converts contributes its result. */
  lemma {:induction false} ProjectMembers(convert: int -> Result<Converted, ConversionError>, years: seq<int>)
    ensures forall c :: c in Project(convert, years) ==> exists y :: y in years && convert(y) == Success(c)
    ensures forall y :: y in years && convert(y).Success? ==> convert(y).value in Project(convert, years)
  {
    if |years| > 0 {
      ProjectMembers(convert, years[1..]);
      assert forall y :: y in years <==> y == years[0] || y in years[1..];
    }
  }

  /** The dates of one lunar (month, day, leap) template in every table year
      from `currentYear` on: each is the conversion of such a year, every
      such year that converts contributes its date, and there is at most one
      date per year. */
  function MultiYearDates(month: int, day: int, isLeapMonth: bool, currentYear: int): (r: seq<Converted>)
    ensures |r| <= |CandidateYears(currentYear)|
    ensures forall c :: c in r ==> exists y ::
      && y in YearDataTable && y >= currentYear
      && LunarToGregorian(LunarDate(y, month, day, Some(isLeapMonth))) == Success(c)
    ensures forall y ::
      && y in YearDataTable && y >= currentYear
      && LunarToGregorian(LunarDate(y, month, day, Some(isLeapMonth))).Success?
      ==> LunarToGregorian(LunarDate(y, month, day, Some(isLeapMonth))).value in r
  {
    CandidateYearsAreTableYears(currentYear);
    ProjectMembers(Template(month, day, isLeapMonth), CandidateYears(currentYear));
    Project(Template(month, day, isLeapMonth), CandidateYears(currentYear))
  }

  /** The years, in order, whose conversion succeeds. */
  function KeptYears(convert: int -> Result<Converted, ConversionError>, years: seq<int>): seq<int> {
    if |years| == 0 then []
    else
      var rest := KeptYears(convert, years[1..]);
      if convert(years[0]).Success? then [years[0]] + rest else rest
  }

  /** The projection is exactly the conversions of the kept years, in order,
      and there are no more of them than there are input years. */
  lemma {:induction false} ProjectKeepsSuccesses(convert: int -> Result<Converted, ConversionError>, years: seq<int>)
    ensures
      var out := Project(convert, years);
      var kept := KeptYears(convert, years);
      && |out| == |kept| <= |years|
      && forall i :: 0 <= i < |kept| ==> convert(kept[i]) == Success(out[i])
  {
    if |years| > 0 {
      ProjectKeepsSuccesses(convert, years[1..]);
      var rest, keptRest := Project(convert, years[1..]), KeptYears(convert, years[1..]);
      if convert(years[0]).Success? {
        assert Project(convert, years) == [convert(years[0]).value] + rest;
        assert KeptYears(convert, years) == [years[0]] + keptRest;
      } else {
        assert Project(convert, years) == rest && KeptYears(convert, years) == keptRest;
      }
    }
  }

  /** A year is kept exactly when it is one of the input years and its
      conversion succeeds. */
  lemma {:induction false} KeptYearsMembers(convert: int -> Result<Converted, ConversionError>, years: seq<int>)
    ensures forall y :: y in KeptYears(convert, years) <==> y in years && convert(y).Success?
  {
    if |years| > 0 {
      KeptYearsMembers(convert, years[1..]);
      assert forall y :: y in years <==> y == years[0] || y in years[1..];
    }
  }

  /** Filtering ascending years leaves them ascending. */
  lemma {:induction false} KeptYearsAscending(convert: int -> Result<Converted, ConversionError>, years: seq<int>)
    requires forall i, j :: 0 <= i < j < |years| ==> years[i] < years[j]
    ensures forall i, j :: 0 <= i < j < |KeptYears(convert, years)| ==>
      KeptYears(convert, years)[i] < KeptYears(convert, years)[j]
  {
    if |years| > 0 {
      KeptYearsAscending(convert, years[1..]);
      KeptYearsMembers(convert, years[1..]);
      var rest := KeptYears(convert, years[1..]);
      forall k | 0 <= k < |rest| ensures years[0] < rest[k] {
        assert rest[k] in rest;
      }
    }
  }

  /** When every year converts, nothing is dropped. */
  lemma {:induction false} ProjectAllSucceed(convert: int -> Result<Converted, ConversionError>, years: seq<int>)
    requires forall i :: 0 <= i < |years| ==> convert(years[i]).Success?
    ensures |Project(convert, years)| == |years|
    ensures forall i :: 0 <= i < |years| ==> convert(years[i]) == Success(Project(convert, years)[i])
  {
    if |years| > 0 {
      ProjectAllSucceed(convert, years[1..]);
    }
  }

  /** The multi-year dates are the conversions, in ascending year order, of
      exactly those table years from `currentYear` on whose conversion
      succeeds; there are at most as many as there are such table years. */
  lemma MultiYearDatesKeepsSuccesses(month: int, day: int, isLeapMonth: bool, currentYear: int)
    ensures
      var out := MultiYearDates(month, day, isLeapMonth, currentYear);
      var kept := KeptYears(Template(month, day, isLeapMonth), CandidateYears(currentYear));
      && |out| == |kept| <= |CandidateYears(currentYear)|
      && (forall i :: 0 <= i < |kept| ==>
            LunarToGregorian(LunarDate(kept[i], month, day, Some(isLeapMonth))) == Success(out[i]))
      && (forall y :: y in kept <==>
            && y in YearDataTable && y >= currentYear
            && LunarToGregorian(LunarDate(y, month, day, Some(isLeapMonth))).Success?)
      && (forall i, j :: 0 <= i < j < |kept| ==> kept[i] < kept[j])
  {
    var convert := Template(month, day, isLeapMonth);
    var years := CandidateYears(currentYear);
    CandidateYearsAreTableYears(currentYear);
    ProjectKeepsSuccesses(convert, years);
    KeptYearsMembers(convert, years);
    KeptYearsAscending(convert, years);
  }

  /** Projecting the New Year (first month, first day, not leap) yields every
      table year from `currentYear` on, one step at a time, each on its
      anchor date. */
  lemma NewYearProjection(currentYear: int)
    ensures |MultiYearDates(1, 1, false, currentYear)| ==
      if FirstCandidate(currentYear) <= LastYear then LastYear - FirstCandidate(currentYear) + 1 else 0
    ensures forall i :: 0 <= i < |MultiYearDates(1, 1, false, currentYear)| ==>
      && FirstCandidate(currentYear) + i in NewYearTable
      && MultiYearDates(1, 1, false, currentYear)[i] == Date(Anchor(FirstCandidate(currentYear) + i))
      && MultiYearDates(1, 1, false, currentYear)[i].date.year == FirstCandidate(currentYear) + i
  {
    var ys := CandidateYears(currentYear);
    var convert := Template(1, 1, false);
    forall i | 0 <= i < |ys|
      ensures ys[i] in NewYearTable && convert(ys[i]) == Success(Date(Anchor(ys[i])))
    {
      NewYearTemplate(ys[i]);
    }
    ProjectAllSucceed(convert, ys);
    var out := Project(convert, ys);
    assert |out| == |ys|;
    assert MultiYearDates(1, 1, false, currentYear) == out;
    forall i | 0 <= i < |ys|
      ensures ys[i] == FirstCandidate(currentYear) + i
      ensures out[i] == Date(Anchor(ys[i])) && out[i].date.year == ys[i]
    {
      NewYearTemplate(ys[i]);
      AnchorsValid(ys[i]);
    }
  }

  /** The New Year template converts a table year to its anchor. */
  lemma NewYearTemplate(y: int)
    requires FirstYear <= y <= LastYear
    ensures y in NewYearTable && Template(1, 1, false)(y) == Success(Date(Anchor(y)))
  {
    TableYears(y);
    NewYearIsAnchor(y, Some(false));
  }

  /** An absent leap flag and an explicit `false` are both ordinary months:
      only an explicit `true` selects the leap month. */
  lemma MissingLeapFlagIsOrdinary(year: int, month: int, day: int)
    ensures LunarToGregorian(LunarDate(year, month, day, None))
         == LunarToGregorian(LunarDate(year, month, day, Some(false)))
  {
  }

  /** A leap-month template keeps exactly the years whose leap month is that
      month (for a day every month has); no other year appears. */
  lemma LeapProjection(month: int, day: int, currentYear: int)
    ensures
      var kept := KeptYears(Template(month, day, true), CandidateYears(currentYear));
      && (forall y :: y in kept ==> y in YearDataTable && YearDataTable[y].leapMonth == Some(month))
      && (1 <= day <= 29 ==>
            forall y :: y in kept <==>
              y in YearDataTable && y >= currentYear && YearDataTable[y].leapMonth == Some(month))
  {
    MultiYearDatesKeepsSuccesses(month, day, true, currentYear);
    if 1 <= day <= 29 {
      forall y | y in YearDataTable && YearDataTable[y].leapMonth == Some(month)
        ensures LunarToGregorian(LunarDate(y, month, day, Some(true))).Success?
      {
        LeapDayConverts(y, month, day);
      }
    }
  }

  /** Any day up to 29 of a year's actual leap month passes validation. */
  lemma LeapDayConverts(y: int, month: int, day: int)
    requires y in YearDataTable && YearDataTable[y].leapMonth == Some(month)
    requires 1 <= day <= 29
    ensures LunarToGregorian(LunarDate(y, month, day, Some(true))).Success?
  {
    YearsLoose(y);
    TableYears(y);
  }
}
