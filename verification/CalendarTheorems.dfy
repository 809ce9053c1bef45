/** Adding days to an ISO date: a group action on the dates of years 1000 to 9999, and no further. */
module CalendarTheorems {
  import opened Prelude
  import opened JsText
  import opened Calendar

  // ----- days and civil dates are in one-to-one correspondence

  lemma {:induction false} YearsAscend(a: int, b: int)
    requires a <= b
    ensures DayFromYear(a) + 365 * (b - a) <= DayFromYear(b)
    decreases b - a
  {
    if a < b {
      YearsAscend(a, b - 1);
      YearStep(b - 1);
    }
  }

  lemma YearIs(d: int, y: int)
    requires DayFromYear(y) <= d < DayFromYear(y + 1)
    ensures YearOf(d) == y
  {
    hide DayFromYear;
    var r := YearOf(d);
    if r < y { YearsAscend(r + 1, y); }
    if y < r { YearsAscend(y + 1, r); }
  }

  function DayNumber(c: Civil): int { MakeDay(c.year, c.month - 1, c.day) }

  /** The month arithmetic does nothing to a date that exists. */
  lemma DayNumberIs(c: Civil)
    requires Exists(c)
    ensures DayNumber(c) == DayFromYear(c.year) + DaysBefore(c.month - 1, Leap(c.year)) + c.day - 1
  {
    hide DayFromYear, Leap, DaysBefore;
    var m := c.month - 1;
    assert m / 12 == 0 && m % 12 == m;
  }

  lemma DayOfCivil(d: int)
    ensures DayNumber(CivilOf(d)) == d
  {
    hide DayFromYear, YearOf, Leap, DayNumber;
    DayNumberIs(CivilOf(d));
  }

  lemma MonthIs(n: int, m: int, k: int, leap: bool)
    requires 0 <= m < 12 && 0 <= k < 12
    requires DaysBefore(m, leap) <= n < DaysBefore(m + 1, leap)
    requires DaysBefore(k, leap) <= n < DaysBefore(k + 1, leap)
    ensures m == k
  {
  }

  lemma CivilOfDay(c: Civil)
    requires Exists(c)
    ensures CivilOf(DayNumber(c)) == c
  {
    hide DayFromYear, Leap, DayNumber, DaysBefore, YearOf, MonthLength, MonthFrom;
    DayNumberIs(c);
    MonthStep(c.month - 1, Leap(c.year));
    YearStep(c.year);
    DaysAscend(c.month, Leap(c.year));
    YearIs(DayNumber(c), c.year);
    var n := InYear(DayNumber(c));
    MonthIs(n, MonthFrom(n, 0, Leap(c.year)), c.month - 1, Leap(c.year));
  }

  lemma DaysAscend(m: int, leap: bool)
    requires 1 <= m <= 12
    ensures DaysBefore(0, leap) == 0 <= DaysBefore(m - 1, leap) && DaysBefore(m, leap) <= DaysBefore(12, leap)
    ensures DaysBefore(12, leap) == if leap then 366 else 365
  {
  }

  /** Month ends and leap years, without counting days from any epoch. */
  function NextDay(c: Civil): Civil {
    if c.day < MonthLength(c.month, Leap(c.year)) then c.(day := c.day + 1)
    else if c.month < 12 then Civil(c.year, c.month + 1, 1)
    else Civil(c.year + 1, 1, 1)
  }

  /** The day after day `d` carries the next date of the calendar. */
  lemma NextDayIsNext(d: int)
    ensures CivilOf(d + 1) == NextDay(CivilOf(d))
  {
    hide DayFromYear, Leap, DayNumber, CivilOf, MonthLength, DaysBefore;
    var c := CivilOf(d);
    var e := NextDay(c);
    DayOfCivil(d);
    DayNumberIs(c);
    NextDayExists(c);
    DayNumberIs(e);
    CivilOfDay(e);
    MonthStep(c.month - 1, Leap(c.year));
    YearStep(c.year);
    DaysAscend(c.month, Leap(c.year));
    DaysAscend(1, Leap(e.year));
  }

  lemma NextDayExists(c: Civil)
    requires Exists(c)
    ensures Exists(NextDay(c))
  {
    hide Leap;
  }

  /** Days are counted from 1 January 1970. */
  lemma Epoch()
    ensures CivilOf(0) == Civil(1970, 1, 1) && DayNumber(Civil(1970, 1, 1)) == 0
  {
    CivilOfDay(Civil(1970, 1, 1));
  }

  /** The months have their days, and February one more in years divisible by 4, but not by 100 unless by 400. */
  lemma MonthsSpelled(c: Civil)
    ensures Exists(c)
            <==> && 1 <= c.month <= 12 && 1 <= c.day <= 31 && (c.month in {4, 6, 9, 11} ==> c.day <= 30)
                 && (c.month == 2 ==>
                       (c.day <= 28 || (c.day == 29 && (c.year % 400 == 0 || (c.year % 100 != 0 && c.year % 4 == 0)))))
  {
    hide Leap;
    LeapSpelled(c.year);
  }

  lemma LeapSpelled(y: int)
    ensures Leap(y) <==> y % 400 == 0 || (y % 100 != 0 && y % 4 == 0)
  {
    if y % 400 == 0 { assert y == y / 400 * 400; }
  }

  // ----- printed dates are read back

  /** The dates with a year of exactly four digits. */
  predicate FourDigitYear(d: int) { DayFromYear(1000) <= d < DayFromYear(10000) }

  lemma FourDigitYearMeans(d: int)
    ensures FourDigitYear(d) <==> 1000 <= CivilOf(d).year <= 9999
    ensures FourDigitYear(d) ==> -MAX_DAY <= d <= MAX_DAY
  {
    hide YearOf, DayFromYear, InYear, Leap, MonthFrom, DaysBefore;
    YearBounds();
    var y := YearOf(d);
    if y < 1000 { YearsAscend(y + 1, 1000); }
    if 1000 <= y { YearsAscend(1000, y); }
    if y <= 9999 { YearsAscend(y + 1, 10000); }
    if 10000 <= y { YearsAscend(10000, y); }
  }

  lemma YearBounds()
    ensures DayFromYear(1000) == -354285 && DayFromYear(10000) == 2932897
  {
  }

  lemma {:induction false} DecimalLength(n: nat)
    ensures |Decimal(n)| >= 1 && forall i | 0 <= i < |Decimal(n)| :: IsDigit(Decimal(n)[i])
    ensures |Decimal(n)| < 4 <==> n < 1000
    ensures |Decimal(n)| == 4 <==> 1000 <= n < 10000
    ensures |Decimal(n)| == 1 <==> n < 10
    ensures |Decimal(n)| == 2 <==> 10 <= n < 100
  {
    if n >= 10 {
      DecimalLength(n / 10);
      Widths(n / 10);
    }
  }

  lemma {:induction false} Widths(n: nat)
    ensures |Decimal(n)| == 3 <==> 100 <= n < 1000
  {
    if n >= 10 { DecimalLength(n / 10); }
  }

  lemma TwoDigits(n: nat)
    requires n < 100
    ensures |PadTwoDigits(n)| == 2 && IsDigit(PadTwoDigits(n)[0]) && IsDigit(PadTwoDigits(n)[1])
    ensures DigitOf(PadTwoDigits(n)[0]) * 10 + DigitOf(PadTwoDigits(n)[1]) == n
  {
    if n >= 10 { assert Decimal(n / 10) == [(48 + n / 10) as CodeUnit]; }
  }

  lemma FourDigits(n: nat)
    requires 1000 <= n < 10000
    ensures var t := Decimal(n); |t| == 4 && forall i | 0 <= i < 4 :: IsDigit(t[i])
    ensures var t := Decimal(n);
            DigitOf(t[0]) * 1000 + DigitOf(t[1]) * 100 + DigitOf(t[2]) * 10 + DigitOf(t[3]) == n
  {
    var a, b, c := n / 10, n / 10 / 10, n / 10 / 10 / 10;
    assert Decimal(c) == [(48 + c) as CodeUnit];
    assert Decimal(b) == [(48 + c) as CodeUnit, (48 + b % 10) as CodeUnit];
    assert Decimal(a) == [(48 + c) as CodeUnit, (48 + b % 10) as CodeUnit, (48 + a % 10) as CodeUnit];
    assert Decimal(n)
      == [(48 + c) as CodeUnit, (48 + b % 10) as CodeUnit, (48 + a % 10) as CodeUnit, (48 + n % 10) as CodeUnit];
  }

  lemma IsoReads(c: Civil)
    requires Exists(c) && 1000 <= c.year <= 9999
    ensures LooksLikeDate(Iso(c)) && Spelled(Iso(c)) == c
  {
    var y, m, d := NumberText(c.year), PadTwoDigits(c.month), PadTwoDigits(c.day);
    FourDigits(c.year);
    TwoDigits(c.month);
    TwoDigits(c.day);
    assert Iso(c) == [y[0], y[1], y[2], y[3], DASH, m[0], m[1], DASH, d[0], d[1]];
  }

  lemma IsoRefused(c: Civil)
    requires Exists(c) && !(1000 <= c.year <= 9999)
    ensures !LooksLikeDate(Iso(c))
  {
    TwoDigits(c.month);
    TwoDigits(c.day);
    if c.year < 0 {
      assert Iso(c)[0] == DASH;
    } else {
      DecimalLength(c.year);
      assert |Iso(c)| == |Decimal(c.year)| + 6;
    }
  }

  /** A printed day is a date text again, and of the same day, exactly when its year has four digits. */
  lemma PrintedDay(d: int)
    ensures LooksLikeDate(DateText(d)) <==> FourDigitYear(d)
    ensures FourDigitYear(d) ==> Spelled(DateText(d)) == CivilOf(d) && DayOf(DateText(d)) == d
  {
    hide CivilOf, FourDigitYear, MakeDay, Spelled, Iso, Exists;
    FourDigitYearMeans(d);
    if FourDigitYear(d) {
      IsoReads(CivilOf(d));
      DayOfCivil(d);
    } else if -MAX_DAY <= d <= MAX_DAY {
      IsoRefused(CivilOf(d));
    } else {
      assert DateText(d)[0] == 78;
    }
  }

  // ----- the group action

  function Then(date: Option<JsString>, days: int): Option<JsString> {
    if date.None? then None else AddDaysToIsoDate(date.value, Some(days))
  }

  /** For every date text, existing or not: adding `a` and then `b` days is adding `a + b` at once
      exactly when the date in between has a year of four digits. */
  lemma ShiftsAddUpExactly(date: JsString, a: int, b: int)
    requires LooksLikeDate(date)
    ensures Then(AddDaysToIsoDate(date, Some(a)), b) == AddDaysToIsoDate(date, Some(a + b))
            <==> FourDigitYear(DayOf(date) + a)
  {
    hide MakeDay, DateText, UtcYear, FourDigitYear, LooksLikeDate, Spelled, DayOf;
    PrintedDay(DayOf(date) + a);
  }

  lemma SpellingIsUnique(s: JsString, t: JsString)
    requires LooksLikeDate(s) && LooksLikeDate(t) && Spelled(s) == Spelled(t)
    ensures s == t
  {
    var a, b := Spelled(s), Spelled(t);
    assert a.month / 10 == DigitOf(s[5]) && a.day / 10 == DigitOf(s[8]);
    assert b.month / 10 == DigitOf(t[5]) && b.day / 10 == DigitOf(t[8]);
    assert a.year / 1000 == DigitOf(s[0]) && a.year / 100 == DigitOf(s[0]) * 10 + DigitOf(s[1]);
    assert b.year / 1000 == DigitOf(t[0]) && b.year / 100 == DigitOf(t[0]) * 10 + DigitOf(t[1]);
    assert a.year / 10 == a.year / 100 * 10 + DigitOf(s[2]) && b.year / 10 == b.year / 100 * 10 + DigitOf(t[2]);
  }

  /** Adding no days gives the text back exactly for dates that exist, in years from 1000 on. */
  lemma AddingZeroExactly(date: JsString)
    requires LooksLikeDate(date)
    ensures AddDaysToIsoDate(date, Some(0)) == Some(date)
            <==> Exists(Spelled(date)) && Spelled(date).year >= 1000
  {
    hide Spelled, CivilOf, DateText, Exists, LooksLikeDate, DayOf, FourDigitYear, MakeDay;
    var c, d := Spelled(date), DayOf(date);
    PrintedDay(d);
    FourDigitYearMeans(d);
    if Exists(c) && c.year >= 1000 {
      CivilOfSpelled(date);
      SpellingIsUnique(DateText(d), date);
    }
  }

  /** A negative count undoes a positive one, and the other way round, inside the four-digit years. */
  lemma ShiftIsUndone(date: JsString, n: int)
    requires LooksLikeDate(date) && Exists(Spelled(date)) && Spelled(date).year >= 1000
    ensures Then(AddDaysToIsoDate(date, Some(n)), -n) == Some(date) <==> FourDigitYear(DayOf(date) + n)
  {
    hide Spelled, DayOf, DateText, Exists, FourDigitYear, AddDaysToIsoDate, Then;
    ShiftsAddUpExactly(date, n, -n);
    AddingZeroExactly(date);
    assert n + -n == 0;
  }

  /** One day more is the next date of the calendar, across month ends and leap years. */
  lemma AddingOneIsNextDay(date: JsString)
    requires LooksLikeDate(date) && Exists(Spelled(date)) && Spelled(date).year >= 1000
    ensures AddDaysToIsoDate(date, Some(1)) == Some(Iso(NextDay(Spelled(date))))
  {
    hide Iso, CivilOf, Spelled, DayOf, NextDay, Exists, DayFromYear, LooksLikeDate;
    CivilOfSpelled(date);
    FourDigitYearMeans(DayOf(date));
    YearBounds();
    NextDayIsNext(DayOf(date));
  }

  lemma CivilOfSpelled(date: JsString)
    requires LooksLikeDate(date) && Exists(Spelled(date)) && Spelled(date).year >= 1000
    ensures CivilOf(DayOf(date)) == Spelled(date)
    ensures Spelled(date).year <= 9999
  {
    hide CivilOf, MakeDay, Exists;
    CivilOfDay(Spelled(date));
  }

  function NextDays(c: Civil, n: nat): (r: Civil)
    requires Exists(c)
    ensures Exists(r)
  {
    if n == 0 then c else
      NextDayExists(NextDays(c, n - 1));
      NextDay(NextDays(c, n - 1))
  }

  /** `n` days more are `n` turns of the calendar page, up to the last day there is: also past the year 9999. */
  lemma {:induction false} AddingManyIsTurningPages(date: JsString, n: nat)
    requires LooksLikeDate(date) && Exists(Spelled(date)) && Spelled(date).year >= 1000
    ensures AddDaysToIsoDate(date, Some(n))
            == Some(if DayOf(date) + n <= 100_000_000 then Iso(NextDays(Spelled(date), n)) else NOT_A_DATE)
  {
    hide Iso, CivilOf, Spelled, DayOf, NextDays, Exists, FourDigitYear, LooksLikeDate;
    CivilOfSpelled(date);
    FourDigitYearMeans(DayOf(date));
    YearBounds();
    PagesTurned(DayOf(date), n);
  }

  lemma {:induction false} PagesTurned(d: int, n: nat)
    ensures CivilOf(d + n) == NextDays(CivilOf(d), n)
  {
    hide CivilOf, NextDay;
    if n > 0 {
      PagesTurned(d, n - 1);
      NextDayIsNext(d + n - 1);
      assert d + (n - 1) == d + n - 1;
    }
  }

  /** A day past the end of its month runs on into the months after. */
  lemma PastTheMonthEnd(date: JsString, n: int)
    requires LooksLikeDate(date) && Spelled(date).year >= 1000 && 1 <= Spelled(date).month <= 12
    requires Spelled(date).day > MonthLength(Spelled(date).month, Leap(Spelled(date).year))
    ensures var c := Spelled(date);
            var last := c.(day := MonthLength(c.month, Leap(c.year)));
            AddDaysToIsoDate(date, Some(n)) == AddDaysToIsoDate(Iso(last), Some(c.day - last.day + n))
  {
    hide DayFromYear, DaysBefore, Leap, DateText, Iso, Spelled, LooksLikeDate;
    var c := Spelled(date);
    SpelledYear(date);
    IsoReads(c.(day := MonthLength(c.month, Leap(c.year))));
  }

  /** Twelve months more are a year more, for any two-digit months: month 13 is January of the year after, month 0
      December of the year before. Years from 100 on are themselves. */
  lemma TwelveMonthsAreAYear(s: JsString, t: JsString, n: int)
    requires LooksLikeDate(s) && LooksLikeDate(t) && Spelled(t).year >= 100
    requires Spelled(s) == Civil(Spelled(t).year - 1, Spelled(t).month + 12, Spelled(t).day)
    requires Spelled(s).year >= 100
    ensures AddDaysToIsoDate(s, Some(n)) == AddDaysToIsoDate(t, Some(n))
  {
    hide DayFromYear, DaysBefore, Leap, DateText, Spelled, LooksLikeDate;
  }

  /** The date texts are four, two and two digits with a dash between; any other text, and any count that is no
      integer, is answered with nothing. */
  lemma AnsweredExactly(s: JsString, days: Option<int>)
    ensures AddDaysToIsoDate(s, days).Some?
            <==> && days.Some? && |s| == 10 && s[4] == 45 && s[7] == 45
                 && forall i | 0 <= i < 10 :: i == 4 || i == 7 || 48 <= s[i] <= 57
  {
    hide DateText, DayOf;
  }

  /** What a day prints: digits of year, month and day with dashes between, or that it is no date. */
  lemma DayPrinted(d: int)
    ensures !(-100_000_000 <= d <= 100_000_000) ==> DateText(d) == Units("NaN-NaN-NaN")
    ensures -100_000_000 <= d <= 100_000_000 ==>
              var c := CivilOf(d);
              && DateText(d) == NumberText(c.year) + Units("-") + TwoPlaces(c.month) + Units("-") + TwoPlaces(c.day)
              && (c.year < 0 ==> NumberText(c.year) == Units("-") + NumberText(-c.year))
              && (c.year >= 0 ==> NumberText(c.year) == Decimal(c.year))
  {
    hide CivilOf, Decimal;
    assert Units("-") == [45];
    assert Units("NaN-NaN-NaN") == NOT_A_DATE;
    if -MAX_DAY <= d <= MAX_DAY {
      TwoPlacesPadded(CivilOf(d).month);
      TwoPlacesPadded(CivilOf(d).day);
    }
  }

  function TwoPlaces(n: nat): JsString
    requires n < 100
  {
    [(48 + n / 10) as CodeUnit, (48 + n % 10) as CodeUnit]
  }

  lemma TwoPlacesPadded(n: nat)
    requires n < 100
    ensures PadTwoDigits(n) == TwoPlaces(n)
  {
    if n >= 10 { assert Decimal(n / 10) == [(48 + n / 10) as CodeUnit]; }
  }

  /** Years 0 to 99 are read as 1900 to 1999, whether or not the date exists. */
  lemma TwoDigitYears(date: JsString, n: int)
    requires LooksLikeDate(date) && Spelled(date).year <= 99
    ensures AddDaysToIsoDate(date, Some(n)) == AddDaysToIsoDate([49, 57] + date[2..], Some(n))
  {
    hide MakeDay, DateText;
    var later := [49, 57] + date[2..];
    assert date[0] == 48 && date[1] == 48;
    assert later[0] == 49 && later[1] == 57 && forall i | 2 <= i < 10 :: later[i] == date[i];
    assert Spelled(later) == Spelled(date).(year := 1900 + Spelled(date).year);
  }

  lemma SpelledYear(date: JsString)
    requires LooksLikeDate(date)
    ensures 0 <= Spelled(date).year <= 9999
  {
  }
}
