/** Day arithmetic on ISO dates, as the JavaScript date algorithms define it (section 21.4.1 of ECMA-262). */
module Calendar {
  import opened Prelude
  import opened JsText

  // ----- days and civil dates

  /** Month and day count from 1. */
  datatype Civil = Civil(year: int, month: int, day: int)

  predicate Leap(y: int) { y % 4 == 0 && (y % 100 != 0 || y % 400 == 0) }

  /** Days from 1 January 1970 to 1 January of year `y`. */
  function DayFromYear(y: int): int {
    365 * (y - 1970) + (y - 1969) / 4 - (y - 1901) / 100 + (y - 1601) / 400
  }

  function YearLength(y: int): int { if Leap(y) then 366 else 365 }

  /** Days of a year before month `m`, counting months from 0; month 12 is the whole year. */
  function DaysBefore(m: int, leap: bool): int
    requires 0 <= m <= 12
  {
    var l := if leap then 1 else 0;
    if m == 0 then 0 else if m == 1 then 31 else if m == 2 then 59 + l else if m == 3 then 90 + l
    else if m == 4 then 120 + l else if m == 5 then 151 + l else if m == 6 then 181 + l else if m == 7 then 212 + l
    else if m == 8 then 243 + l else if m == 9 then 273 + l else if m == 10 then 304 + l
    else if m == 11 then 334 + l else 365 + l
  }

  /** The day number of day `date` of month `month` (from 0, any integer) of year `year`. */
  function MakeDay(year: int, month: int, date: int): int {
    var y, m := year + month / 12, month % 12;
    DayFromYear(y) + DaysBefore(m, Leap(y)) + date - 1
  }

  function YearFrom(d: int, y: int): (r: int)
    requires DayFromYear(y) <= d
    ensures DayFromYear(r) <= d < DayFromYear(r + 1)
    decreases d - DayFromYear(y)
  {
    YearStep(y);
    if DayFromYear(y + 1) <= d then YearFrom(d, y + 1) else y
  }

  lemma YearStep(y: int)
    ensures DayFromYear(y + 1) == DayFromYear(y) + YearLength(y)
  {
    hide Leap;
    FourthYear(y);
    HundredthYear(y);
    FourHundredthYear(y);
    LeapCount(y);
  }

  lemma FourthYear(y: int)
    ensures (y - 1968) / 4 == (y - 1969) / 4 + if y % 4 == 0 then 1 else 0
  {
  }

  lemma HundredthYear(y: int)
    ensures (y - 1900) / 100 == (y - 1901) / 100 + if y % 100 == 0 then 1 else 0
  {
  }

  lemma FourHundredthYear(y: int)
    ensures (y - 1600) / 400 == (y - 1601) / 400 + if y % 400 == 0 then 1 else 0
  {
  }

  lemma LeapCount(y: int)
    ensures (if Leap(y) then 1 else 0)
            == (if y % 4 == 0 then 1 else 0) - (if y % 100 == 0 then 1 else 0) + (if y % 400 == 0 then 1 else 0)
  {
  }

  /** A year that starts no later than day `d`. */
  function YearBelow(d: int): (y: int)
    ensures DayFromYear(y) <= d
  {
    if d >= 0 then 1970 else 1970 + d / 365
  }

  /** The year day `d` falls in: the last one to start no later. */
  function YearOf(d: int): (y: int)
    ensures DayFromYear(y) <= d < DayFromYear(y + 1)
  {
    YearFrom(d, YearBelow(d))
  }

  function MonthFrom(n: int, m: int, leap: bool): (r: int)
    requires 0 <= m < 12 && DaysBefore(m, leap) <= n < DaysBefore(12, leap)
    ensures 0 <= r < 12 && DaysBefore(r, leap) <= n < DaysBefore(r + 1, leap)
    decreases 12 - m
  {
    if m < 11 && DaysBefore(m + 1, leap) <= n then MonthFrom(n, m + 1, leap) else m
  }

  /** The date exists in the proleptic Gregorian calendar. */
  predicate Exists(c: Civil) { 1 <= c.month <= 12 && 1 <= c.day <= MonthLength(c.month, Leap(c.year)) }

  /** Thirty days hath September. */
  function MonthLength(month: int, leap: bool): int {
    if month == 2 then (if leap then 29 else 28) else if month in {4, 6, 9, 11} then 30 else 31
  }

  function InYear(d: int): (n: int)
    ensures 0 <= n < DaysBefore(12, Leap(YearOf(d)))
  {
    YearStep(YearOf(d));
    d - DayFromYear(YearOf(d))
  }

  function CivilOf(d: int): (c: Civil)
    ensures Exists(c)
  {
    var leap, n := Leap(YearOf(d)), InYear(d);
    var m := MonthFrom(n, 0, leap);
    MonthStep(m, leap);
    Civil(YearOf(d), m + 1, n - DaysBefore(m, leap) + 1)
  }

  lemma MonthStep(m: int, leap: bool)
    requires 0 <= m < 12
    ensures DaysBefore(m + 1, leap) == DaysBefore(m, leap) + MonthLength(m + 1, leap)
  {
  }

  // ----- texts

  const DASH: CodeUnit := 45

  /** What an invalid date prints: "NaN-NaN-NaN". */
  const NOT_A_DATE: JsString := [78, 97, 78, DASH, 78, 97, 78, DASH, 78, 97, 78]

  function DigitOf(c: CodeUnit): int
    requires IsDigit(c)
  {
    c as int - 48
  }

  function NumberText(n: int): JsString { if n < 0 then [DASH] + Decimal(-n) else Decimal(n) }

  function PadTwoDigits(n: nat): JsString { if n < 10 then [48] + Decimal(n) else Decimal(n) }

  /** The pattern of four, two and two digits. */
  predicate LooksLikeDate(s: JsString) {
    && |s| == 10 && s[4] == DASH && s[7] == DASH
    && forall i | 0 <= i < 10 && i != 4 && i != 7 :: IsDigit(s[i])
  }

  /** The numbers a date text spells; its month and day need not exist. */
  function Spelled(s: JsString): Civil
    requires LooksLikeDate(s)
  {
    Civil(DigitOf(s[0]) * 1000 + DigitOf(s[1]) * 100 + DigitOf(s[2]) * 10 + DigitOf(s[3]),
          DigitOf(s[5]) * 10 + DigitOf(s[6]), DigitOf(s[8]) * 10 + DigitOf(s[9]))
  }

  /** `Date.UTC` takes years 0 to 99 for the years 1900 to 1999. */
  function UtcYear(y: int): int { if 0 <= y <= 99 then 1900 + y else y }

  /** Beyond this many days from 1970 a date is invalid. */
  const MAX_DAY := 100_000_000

  function DateText(d: int): JsString {
    if -MAX_DAY <= d <= MAX_DAY then Iso(CivilOf(d)) else NOT_A_DATE
  }

  function Iso(c: Civil): JsString
    requires c.month >= 0 && c.day >= 0
  {
    NumberText(c.year) + [DASH] + PadTwoDigits(c.month) + [DASH] + PadTwoDigits(c.day)
  }

  function DayOf(s: JsString): int
    requires LooksLikeDate(s)
  {
    MakeDay(UtcYear(Spelled(s).year), Spelled(s).month - 1, Spelled(s).day)
  }

  /** `days` is `None` when it is no integer. A count of days is added to the day of the month, which is the
      last thing `MakeDay` adds. */
  function AddDaysToIsoDate(date: JsString, days: Option<int>): Option<JsString> {
    if !LooksLikeDate(date) || days.None? then None else Some(DateText(DayOf(date) + days.value))
  }
}
