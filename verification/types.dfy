/** The two value types the converter exchanges with its callers. */
module Types {
  import opened Wrappers

  /** A date in the lunar calendar. `month` is the ordinal month (not an index
      into the year's month-length list). The leap flag is optional; an absent
      flag behaves exactly like `false`. */
  datatype LunarDate = LunarDate(year: int, month: int, day: int, isLeapMonth: Option<bool>) {

    /** Whether the date names the leap copy of its month. */
    predicate Leap() {
      isLeapMonth == Some(true)
    }
  }

  /** A date in the proleptic Gregorian calendar. */
  datatype GregorianDate = GregorianDate(year: int, month: int, day: int)
}
