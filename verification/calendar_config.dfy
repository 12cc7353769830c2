/**
 * Day eligibility and the page windows of lib/calendarConfig.js.
 *
 * A Saturday or Sunday is known by a code made of `SAT` or `SUN` and its
 * week of the month, `ceil(dayOfMonth / 7)`; every other weekday has the
 * empty code. A day is allowed unless its code is on the disabled list.
 */
module CalendarConfig {
  import opened Text

  /** `Date.getDay()`: 0 is Sunday, 6 is Saturday. */
  type DayOfWeek = d: int | 0 <= d <= 6

  /** `Date.getDate()`. */
  type DayOfMonth = d: int | 1 <= d <= 31 witness 1

  const Sunday: DayOfWeek := 0
  const Saturday: DayOfWeek := 6

  /** A page's booking window, in whole hours. */
  datatype Window = Window(openHour: int, closeHour: int, stepMin: int)

  const NormalWindow: Window := Window(10, 18, 30)
  const ExtraWindow: Window := Window(18, 20, 30)

  /** The normal window closes where the extra window opens, and both walk in half hours. */
  lemma WindowsAbut()
    ensures NormalWindow.closeHour == ExtraWindow.openHour == 18
    ensures NormalWindow.stepMin == ExtraWindow.stepMin == 30
    ensures NormalWindow.openHour < NormalWindow.closeHour < ExtraWindow.closeHour
  {
  }

  /** `Math.ceil(dayOfMonth / 7)`. */
  function WeekNumber(dayOfMonth: DayOfMonth): int
  {
    -((0 - dayOfMonth as int) / 7)
  }

  /**
   * The week number is the ordinal of the day among the days of the month
   * that fall on the same weekday: `n - 1` weeks back is still in the month,
   * `n` weeks back is not.
   */
  lemma WeekNumberIsOrdinal(dayOfMonth: DayOfMonth)
    ensures 1 <= WeekNumber(dayOfMonth) <= 5
    ensures 1 <= dayOfMonth - 7 * (WeekNumber(dayOfMonth) - 1) <= 7
    ensures dayOfMonth - 7 * WeekNumber(dayOfMonth) < 1
  {
  }

  /** The code `isAllowedBusinessDay` looks for in the disabled list. */
  function DayCode(dayOfWeek: DayOfWeek, dayOfMonth: DayOfMonth): string
  {
    if dayOfWeek == Sunday then "SUN" + IntToString(WeekNumber(dayOfMonth))
    else if dayOfWeek == Saturday then "SAT" + IntToString(WeekNumber(dayOfMonth))
    else ""
  }

  /** `isAllowedBusinessDay(date, disabledDaysConfig)`. */
  predicate IsAllowedBusinessDay(dayOfWeek: DayOfWeek, dayOfMonth: DayOfMonth, disabled: seq<string>)
  {
    DayCode(dayOfWeek, dayOfMonth) !in disabled
  }

  /** Weekend codes name the weekday and the week of the month; weekdays get `""`. */
  lemma DayCodeShape(dayOfWeek: DayOfWeek, dayOfMonth: DayOfMonth)
    ensures dayOfWeek == Sunday ==>
      DayCode(dayOfWeek, dayOfMonth) == "SUN" + [DigitChar(WeekNumber(dayOfMonth))]
    ensures dayOfWeek == Saturday ==>
      DayCode(dayOfWeek, dayOfMonth) == "SAT" + [DigitChar(WeekNumber(dayOfMonth))]
    ensures dayOfWeek != Sunday && dayOfWeek != Saturday ==> DayCode(dayOfWeek, dayOfMonth) == ""
  {
    WeekNumberIsOrdinal(dayOfMonth);
  }

  /** The Sunday code names exactly one week of the month. */
  lemma SundayCodeNamesItsWeek(dayOfMonth: DayOfMonth, week: int)
    ensures DayCode(Sunday, dayOfMonth) == "SUN" + IntToString(week) <==> WeekNumber(dayOfMonth) == week
  {
    if DayCode(Sunday, dayOfMonth) == "SUN" + IntToString(week) {
      var a, b := IntToString(WeekNumber(dayOfMonth)), IntToString(week);
      assert a == ("SUN" + a)[3..] == ("SUN" + b)[3..] == b;
      IntToStringInjective(WeekNumber(dayOfMonth), week);
    }
  }

  /** Disabling `SUN2` closes exactly the Sundays on the 8th to the 14th. */
  lemma SecondSundayDisabled(dayOfMonth: DayOfMonth)
    ensures IsAllowedBusinessDay(Sunday, dayOfMonth, ["SUN2"]) <==> !(8 <= dayOfMonth <= 14)
  {
    assert "SUN" + IntToString(2) == "SUN2";
    SundayCodeNamesItsWeek(dayOfMonth, 2);
    WeekNumberIsOrdinal(dayOfMonth);
  }

  /** The empty list allows every day. */
  lemma EmptyListAllowsAll(dayOfWeek: DayOfWeek, dayOfMonth: DayOfMonth)
    ensures IsAllowedBusinessDay(dayOfWeek, dayOfMonth, [])
  {
  }

  /** Monday to Friday is closed only by listing the empty code. */
  lemma WeekdaysAllowedUnlessEmptyCodeListed(dayOfWeek: DayOfWeek, dayOfMonth: DayOfMonth, disabled: seq<string>)
    requires dayOfWeek != Sunday && dayOfWeek != Saturday
    ensures IsAllowedBusinessDay(dayOfWeek, dayOfMonth, disabled) <==> "" !in disabled
  {
  }

  /** Lengthening the disabled list never reopens a day. */
  lemma MoreDisabledCodesAllowFewerDays(dayOfWeek: DayOfWeek, dayOfMonth: DayOfMonth, disabled: seq<string>, more: seq<string>)
    requires forall c :: c in disabled ==> c in more
    requires IsAllowedBusinessDay(dayOfWeek, dayOfMonth, more)
    ensures IsAllowedBusinessDay(dayOfWeek, dayOfMonth, disabled)
  {
  }
}
