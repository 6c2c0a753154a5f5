/** Due dates: a YYYY-MM-DD flag is checked by sending its numbers through Date.UTC and back.
    The arithmetic follows sections 21.4.1 and 21.4.3.4 of ECMA-262, in whole days. */
module DueDate {
  import opened CliFlags
  import opened Options

  // ---------------------------------------------------------------- the Gregorian calendar

  predicate Leap(year: int) {
    year % 4 == 0 && (year % 100 != 0 || year % 400 == 0)
  }

  function DaysInYear(year: int): nat {
    if Leap(year) then 366 else 365
  }

  /** Months count from 0. */
  function DaysInMonth(year: int, month: int): nat
    requires 0 <= month < 12
  {
    if month == 1 then (if Leap(year) then 29 else 28)
    else if month in {3, 5, 8, 10} then 30
    else 31
  }

  datatype Date = Date(year: int, month: int, day: int)

  predicate Real(d: Date) {
    0 <= d.month < 12 && 1 <= d.day <= DaysInMonth(d.year, d.month)
  }

  // ---------------------------------------------------------------- days since 1970-01-01

  /** DayFromYear: the day number of the first day of a year. */
  function DayFromYear(year: int): int {
    365 * (year - 1970) + (year - 1969) / 4 - (year - 1901) / 100 + (year - 1601) / 400
  }

  /** The day of the year on which a month starts. */
  function MonthStart(year: int, month: int): nat
    requires 0 <= month <= 12
  {
    if month == 0 then 0 else MonthStart(year, month - 1) + DaysInMonth(year, month - 1)
  }

  /** MakeDay: months outside 0..11 carry into the year, days just count on. */
  function MakeDay(year: int, month: int, day: int): int {
    DayFromYear(year + month / 12) + MonthStart(year + month / 12, month % 12) + day - 1
  }

  /** How a quotient grows from one number to the next, counted from a multiple of the period. */
  lemma QuotientStep(n: int, start: int, period: int)
    requires (period, start) in {(4, 1968), (100, 1900), (400, 1600)}
    ensures (n - start) / period == (n - start - 1) / period + if n % period == 0 then 1 else 0
  {}

  lemma Multiples(n: int)
    ensures n % 400 == 0 ==> n % 100 == 0
    ensures n % 100 == 0 ==> n % 4 == 0
  {}

  lemma AddUp(n: int, fourths: int, hundredths: int, fourHundredths: int)
    requires (n % 400 == 0 ==> n % 100 == 0) && (n % 100 == 0 ==> n % 4 == 0)
    ensures 365 * (n + 1) + (fourths + if n % 4 == 0 then 1 else 0) - (hundredths + if n % 100 == 0 then 1 else 0)
            + (fourHundredths + if n % 400 == 0 then 1 else 0)
         == 365 * n + fourths - hundredths + fourHundredths + DaysInYear(n)
  {}

  lemma YearLength(year: int)
    ensures DayFromYear(year + 1) == DayFromYear(year) + DaysInYear(year)
  {
    QuotientStep(year, 1968, 4);
    QuotientStep(year, 1900, 100);
    QuotientStep(year, 1600, 400);
    Multiples(year);
    AddUp(year, (year - 1969) / 4, (year - 1901) / 100, (year - 1601) / 400);
  }

  lemma MonthsFillYear(year: int)
    ensures MonthStart(year, 12) == DaysInYear(year)
    ensures MonthStart(year, 1) == 31 && MonthStart(year, 2) == 31 + DaysInMonth(year, 1)
    ensures forall m | 2 <= m <= 12 ::
              MonthStart(year, m) == MonthStart(year, 2) + [0, 31, 61, 92, 122, 153, 184, 214, 245, 275, 306][m - 2]
  {
    assert MonthStart(year, 2) == MonthStart(year, 1) + DaysInMonth(year, 1);
    assert MonthStart(year, 3) == MonthStart(year, 2) + 31;
    assert MonthStart(year, 4) == MonthStart(year, 3) + 30;
    assert MonthStart(year, 5) == MonthStart(year, 4) + 31;
    assert MonthStart(year, 6) == MonthStart(year, 5) + 30;
    assert MonthStart(year, 7) == MonthStart(year, 6) + 31;
    assert MonthStart(year, 8) == MonthStart(year, 7) + 31;
    assert MonthStart(year, 9) == MonthStart(year, 8) + 30;
    assert MonthStart(year, 10) == MonthStart(year, 9) + 31;
    assert MonthStart(year, 11) == MonthStart(year, 10) + 30;
    assert MonthStart(year, 12) == MonthStart(year, 11) + 31;
  }

  // ---------------------------------------------------------------- and back

  /** How many days lie between a day and a stretch of days that does not contain it. */
  function DaysOff(day: int, first: int, next: int): nat {
    if day < first then first - day
    else if day >= next then day - next + 1
    else 0
  }

  lemma DaysOffShrinks(day: int, before: int, first: int, next: int, after: int)
    requires before < first < next < after
    ensures day < first ==> DaysOff(day, before, first) < DaysOff(day, first, next)
    ensures day >= next ==> DaysOff(day, next, after) < DaysOff(day, first, next)
  {}

  lemma YearsGoOn(year: int)
    ensures DayFromYear(year - 1) < DayFromYear(year) < DayFromYear(year + 1) < DayFromYear(year + 2)
  {
    YearLength(year - 1);
    YearLength(year);
    YearLength(year + 1);
  }

  /** YearFromTime: the last year that starts on or before the day, looked for from `year`. */
  function YearFromDay(day: int, year: int): (y: int)
    ensures DayFromYear(y) <= day < DayFromYear(y + 1)
    decreases DaysOff(day, DayFromYear(year), DayFromYear(year + 1))
  {
    YearsGoOn(year);
    DaysOffShrinks(day, DayFromYear(year - 1), DayFromYear(year), DayFromYear(year + 1), DayFromYear(year + 2));
    if day < DayFromYear(year) then YearFromDay(day, year - 1)
    else if day >= DayFromYear(year + 1) then YearFromDay(day, year + 1)
    else year
  }

  /** MonthFromTime, as the cascade of the standard: the last month that starts on or before
      the given day of the year, looked for from December down. */
  function MonthFromDay(year: int, dayOfYear: nat, month: int): (m: int)
    requires 0 <= month < 12 && dayOfYear < MonthStart(year, month + 1)
    ensures 0 <= m < 12 && MonthStart(year, m) <= dayOfYear < MonthStart(year, m + 1)
  {
    if MonthStart(year, month) <= dayOfYear then month else MonthFromDay(year, dayOfYear, month - 1)
  }

  function DateInYear(year: int, dayOfYear: nat): (d: Date)
    requires dayOfYear < DaysInYear(year)
    ensures Real(d) && d.year == year && MonthStart(year, d.month) + d.day - 1 == dayOfYear
  {
    MonthsFillYear(year);
    var month := MonthFromDay(year, dayOfYear, 11);
    Date(year, month, dayOfYear - MonthStart(year, month) + 1)
  }

  function DateFromDay(day: int): (d: Date)
    ensures Real(d)
  {
    var year := YearFromDay(day, 1970);
    YearLength(year);
    DateInYear(year, day - DayFromYear(year))
  }

  lemma {:induction false} YearsAreOrdered(a: int, b: int)
    requires a <= b
    ensures DayFromYear(a) + 365 * (b - a) <= DayFromYear(b)
    decreases b - a
  {
    if a < b {
      YearLength(a);
      YearsAreOrdered(a + 1, b);
    }
  }

  lemma {:induction false} MonthsAreOrdered(year: int, a: int, b: int)
    requires 0 <= a <= b <= 12
    ensures MonthStart(year, a) <= MonthStart(year, b)
    decreases b
  {
    if a < b {
      MonthsAreOrdered(year, a, b - 1);
    }
  }

  /** A day of a year lies in that year only. */
  lemma YearIsUnique(day: int, year: int)
    requires DayFromYear(year) <= day < DayFromYear(year + 1)
    ensures YearFromDay(day, 1970) == year
  {
    YearsAreDisjoint(day, YearFromDay(day, 1970), year);
  }

  lemma YearsAreDisjoint(day: int, a: int, b: int)
    requires DayFromYear(a) <= day < DayFromYear(a + 1)
    requires DayFromYear(b) <= day < DayFromYear(b + 1)
    ensures a == b
  {
    if a < b {
      YearsAreOrdered(a + 1, b);
    } else if a > b {
      YearsAreOrdered(b + 1, a);
    }
  }

  lemma MonthIsUnique(year: int, dayOfYear: nat, month: int, from: int)
    requires 0 <= month <= from < 12
    requires MonthStart(year, month) <= dayOfYear < MonthStart(year, month + 1)
    requires dayOfYear < MonthStart(year, from + 1)
    ensures MonthFromDay(year, dayOfYear, from) == month
  {
    var m := MonthFromDay(year, dayOfYear, from);
    if m < month {
      MonthsAreOrdered(year, m + 1, month);
    } else if m > month {
      MonthsAreOrdered(year, month + 1, m);
    }
  }

  lemma DayOfYearFits(d: Date)
    requires Real(d)
    ensures var dayOfYear := MonthStart(d.year, d.month) + d.day - 1;
            MonthStart(d.year, d.month) <= dayOfYear < MonthStart(d.year, d.month + 1) <= DaysInYear(d.year)
  {
    MonthsAreOrdered(d.year, d.month + 1, 12);
    MonthsFillYear(d.year);
  }

  lemma MakeDayOfReal(d: Date)
    requires Real(d)
    ensures MakeDay(d.year, d.month, d.day) == DayFromYear(d.year) + MonthStart(d.year, d.month) + d.day - 1
  {
    assert d.month / 12 == 0 && d.month % 12 == d.month;
  }

  lemma YearOfReal(d: Date)
    requires Real(d)
    ensures YearFromDay(MakeDay(d.year, d.month, d.day), 1970) == d.year
  {
    MakeDayOfReal(d);
    DayOfYearFits(d);
    YearLength(d.year);
    YearIsUnique(MakeDay(d.year, d.month, d.day), d.year);
  }

  lemma DateInYearOfReal(d: Date)
    requires Real(d)
    ensures var dayOfYear := MonthStart(d.year, d.month) + d.day - 1;
            dayOfYear < DaysInYear(d.year) && DateInYear(d.year, dayOfYear) == d
  {
    DayOfYearFits(d);
    MonthsFillYear(d.year);
    MonthIsUnique(d.year, MonthStart(d.year, d.month) + d.day - 1, d.month, 11);
  }

  lemma DateOfDay(day: int, d: Date)
    requires Real(d) && YearFromDay(day, 1970) == d.year
    requires day - DayFromYear(d.year) == MonthStart(d.year, d.month) + d.day - 1
    ensures DateFromDay(day) == d
  {
    DateInYearOfReal(d);
  }

  /** From a date to its day number and back. */
  lemma DateRoundTrip(d: Date)
    requires Real(d)
    ensures DateFromDay(MakeDay(d.year, d.month, d.day)) == d
  {
    MakeDayOfReal(d);
    YearOfReal(d);
    DateOfDay(MakeDay(d.year, d.month, d.day), d);
  }

  /** And from any day number to its date and back. */
  lemma DayRoundTrip(day: int)
    ensures var d := DateFromDay(day); MakeDay(d.year, d.month, d.day) == day
  {
    MakeDayOfReal(DateFromDay(day));
  }

  // ---------------------------------------------------------------- Date.UTC and the flag

  /** MakeFullYear: two-digit years mean the 1900s. */
  function FullYear(year: int): int {
    if 0 <= year <= 99 then 1900 + year else year
  }

  function DateUtc(year: int, month: int, day: int): int {
    MakeDay(FullYear(year), month, day)
  }

  predicate IsDigit(c: char) {
    '0' <= c <= '9'
  }

  predicate AllDigits(s: string) {
    forall i | 0 <= i < |s| :: IsDigit(s[i])
  }

  function Number(s: string): nat
    requires AllDigits(s)
  {
    if s == "" then 0 else 10 * Number(s[..|s| - 1]) + (s[|s| - 1] as int - '0' as int)
  }

  predicate HasDateShape(s: string) {
    && |s| == 10 && s[4] == '-' && s[7] == '-'
    && AllDigits(s[..4]) && AllDigits(s[5..7]) && AllDigits(s[8..])
  }

  /** The date a well-shaped text spells, months counted from 0. */
  function Spelled(s: string): (d: Date)
    requires HasDateShape(s)
  {
    Date(Number(s[..4]), Number(s[5..7]) - 1, Number(s[8..]))
  }

  function GetDueDateFlag(flags: FlagMap, name: string): Result<string> {
    match GetRequiredStringFlag(flags, name)
    case Err(e) => Err(e)
    case Ok(value) =>
      if !HasDateShape(value) then Err(BadFormat(name))
      else
        var d := Spelled(value);
        var date := DateFromDay(DateUtc(d.year, d.month, d.day));
        if date.year != d.year || date.month != d.month || date.day != d.day then Err(NotADate(name))
        else Ok(value)
  }

  lemma {:induction false} NumberIsSmall(s: string)
    requires AllDigits(s)
    ensures |s| == 2 ==> Number(s) <= 99
  {
    if |s| == 2 {
      var t := s[..1];
      assert t[..0] == "";
      assert Number(t) == 10 * Number(t[..0]) + (t[0] as int - '0' as int);
    }
  }

  /** Years before 100 come back as 1899 or later, whatever the month and day. */
  lemma EarlyYearsMove(year: int, month: int, day: int)
    requires 0 <= year <= 99 && -1 <= month <= 98 && 0 <= day <= 99
    ensures DateFromDay(DateUtc(year, month, day)).year >= 1899
  {
    var n := DateUtc(year, month, day);
    var first := FullYear(year) + month / 12;
    var y := YearFromDay(n, 1970);
    if y < 1899 {
      YearsAreOrdered(y + 1, 1899);
      YearsAreOrdered(1899, first);
      if month == -1 {
        MonthsFillYear(first);
      } else {
        YearsAreOrdered(1899, 1900);
        YearsAreOrdered(1900, first);
      }
    }
  }

  /** The check accepts exactly the real Gregorian dates from the year 100 on. */
  lemma AcceptsExactlyRealDates(flags: FlagMap, name: string, value: string)
    requires Get(flags, name) == Some(Text(value))
    ensures GetDueDateFlag(flags, name) ==
              if value == "" then Err(Missing(name))
              else if !HasDateShape(value) then Err(BadFormat(name))
              else if Real(Spelled(value)) && Spelled(value).year >= 100 then Ok(value)
              else Err(NotADate(name))
  {
    if HasDateShape(value) {
      var d := Spelled(value);
      NumberIsSmall(value[5..7]);
      NumberIsSmall(value[8..]);
      if d.year < 100 {
        EarlyYearsMove(d.year, d.month, d.day);
      } else if Real(d) {
        DateRoundTrip(d);
      }
    }
  }

  /** Without a text there is no date to check: the flag is missing, or was passed bare. */
  lemma RefusesWithoutText(flags: FlagMap, name: string)
    requires Get(flags, name) in {None, Some(Bare)}
    ensures GetDueDateFlag(flags, name) == Err(if Get(flags, name) == None then Missing(name) else NeedsValue(name))
  {}

  lemma NumberOfDigits(s: string, tens: nat)
    requires AllDigits(s) && s != "" && Number(s[..|s| - 1]) == tens
    ensures Number(s) == 10 * tens + (s[|s| - 1] as int - '0' as int)
  {}

  lemma SpellsYearNinetyNine()
    ensures HasDateShape("0099-12-31") && Spelled("0099-12-31") == Date(99, 11, 31)
  {
    var text := "0099-12-31";
    assert text[..4] == "0099" && text[5..7] == "12" && text[8..] == "31";
    TwoDigits("12");
    TwoDigits("31");
    FourDigits();
  }

  lemma FourDigits()
    ensures AllDigits("0099") && Number("0099") == 99
  {
    TwoDigits("00");
    assert "009"[..2] == "00" && "0099"[..3] == "009";
    NumberOfDigits("009", 0);
    NumberOfDigits("0099", 9);
  }

  /** For example the last day of the year 99 is refused as no real date. */
  lemma YearNinetyNineIsRefused(flags: FlagMap, name: string)
    requires Get(flags, name) == Some(Text("0099-12-31"))
    ensures HasDateShape("0099-12-31") && Spelled("0099-12-31") == Date(99, 11, 31) && Real(Date(99, 11, 31))
    ensures GetDueDateFlag(flags, name) == Err(NotADate(name))
  {
    SpellsYearNinetyNine();
    AcceptsExactlyRealDates(flags, name, "0099-12-31");
  }

  lemma TwoDigits(s: string)
    requires |s| == 2 && AllDigits(s)
    ensures Number(s) == 10 * (s[0] as int - '0' as int) + (s[1] as int - '0' as int)
  {
    var front := s[..1];
    assert front[..0] == "";
    NumberOfDigits(front, 0);
    NumberOfDigits(s, Number(front));
  }
}
