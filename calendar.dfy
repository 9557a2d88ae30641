/**
 * Calendar dates as day numbers.  A day number counts the days since
 * 0001-01-01 in the proleptic Gregorian calendar, as `DateOnly.DayNumber`
 * does on the server; the browser's `Date` objects pinned to noon are the
 * same days.  Date keys are the `YYYY-MM-DD` strings that `toISOString`
 * starts with.
 */
module Calendar {
  import opened Text
  import opened Wrappers

  predicate IsLeapYear(y: int) {
    y % 4 == 0 && (y % 100 != 0 || y % 400 == 0)
  }

  function DaysInYear(y: int): nat {
    if IsLeapYear(y) then 366 else 365
  }

  /** Length of month `m` (1-based) of year `y`. */
  function DaysInMonth(y: int, m: int): nat {
    if m == 2 then (if IsLeapYear(y) then 29 else 28)
    else if m == 4 || m == 6 || m == 9 || m == 11 then 30
    else 31
  }

  datatype Date = Date(year: int, month: int, day: int)

  predicate ValidDate(d: Date) {
    1 <= d.year && 1 <= d.month <= 12 && 1 <= d.day <= DaysInMonth(d.year, d.month)
  }

  /** Days in the years 1 to y - 1. */
  function DaysBeforeYear(y: int): nat
    requires y >= 1
    decreases y
  {
    if y == 1 then 0 else DaysBeforeYear(y - 1) + DaysInYear(y - 1)
  }

  /** Days in the months 1 to m - 1 of year y. */
  function DaysBeforeMonth(y: int, m: int): nat
    requires 1 <= m <= 13
    decreases m
  {
    if m == 1 then 0 else DaysBeforeMonth(y, m - 1) + DaysInMonth(y, m - 1)
  }

  lemma MonthsFillYear(y: int)
    ensures DaysBeforeMonth(y, 13) == DaysInYear(y)
  {
    assert DaysBeforeMonth(y, 13) == DaysBeforeMonth(y, 12) + 31;
    assert DaysBeforeMonth(y, 12) == DaysBeforeMonth(y, 11) + 30;
    assert DaysBeforeMonth(y, 11) == DaysBeforeMonth(y, 10) + 31;
    assert DaysBeforeMonth(y, 10) == DaysBeforeMonth(y, 9) + 30;
    assert DaysBeforeMonth(y, 9) == DaysBeforeMonth(y, 8) + 31;
    assert DaysBeforeMonth(y, 8) == DaysBeforeMonth(y, 7) + 31;
    assert DaysBeforeMonth(y, 7) == DaysBeforeMonth(y, 6) + 30;
    assert DaysBeforeMonth(y, 6) == DaysBeforeMonth(y, 5) + 31;
    assert DaysBeforeMonth(y, 5) == DaysBeforeMonth(y, 4) + 30;
    assert DaysBeforeMonth(y, 4) == DaysBeforeMonth(y, 3) + 31;
    assert DaysBeforeMonth(y, 3) == DaysBeforeMonth(y, 2) + DaysInMonth(y, 2);
  }

  lemma {:induction false} DaysBeforeMonthMonotone(y: int, m1: int, m2: int)
    requires 1 <= m1 <= m2 <= 13
    ensures DaysBeforeMonth(y, m1) <= DaysBeforeMonth(y, m2)
    decreases m2
  {
    if m1 < m2 {
      DaysBeforeMonthMonotone(y, m1, m2 - 1);
    }
  }

  lemma {:induction false} DaysBeforeYearMonotone(y1: int, y2: int)
    requires 1 <= y1 <= y2
    ensures DaysBeforeYear(y1) <= DaysBeforeYear(y2)
    ensures y1 < y2 ==> DaysBeforeYear(y1) + DaysInYear(y1) <= DaysBeforeYear(y2)
    decreases y2
  {
    if y1 < y2 {
      DaysBeforeYearMonotone(y1, y2 - 1);
    }
  }

  /** Every year has at least 365 days. */
  lemma {:induction false} DaysBeforeYearLower(y: int)
    requires y >= 1
    ensures DaysBeforeYear(y) >= 365 * (y - 1)
    decreases y
  {
    if y > 1 {
      DaysBeforeYearLower(y - 1);
    }
  }

  /** The day number of a date: days elapsed since 0001-01-01. */
  function DayNumber(d: Date): nat
    requires ValidDate(d)
  {
    DaysBeforeYear(d.year) + DaysBeforeMonth(d.year, d.month) + d.day - 1
  }

  /** Locates the year holding day `n` counted from 1 January of year `y`, and the offset in it. */
  function YearOf(n: nat, y: int): (r: (int, nat))
    requires y >= 1
    ensures r.0 >= y && r.1 < DaysInYear(r.0)
    ensures DaysBeforeYear(r.0) + r.1 == DaysBeforeYear(y) + n
    decreases n
  {
    if n < DaysInYear(y) then (y, n) else YearOf(n - DaysInYear(y), y + 1)
  }

  /** Locates the month holding day offset `r` of year `y`, counted from month `m`. */
  function MonthOf(y: int, r: nat, m: int): (res: (int, nat))
    requires 1 <= m <= 12 && DaysBeforeMonth(y, m) + r < DaysInYear(y)
    ensures m <= res.0 <= 12 && res.1 < DaysInMonth(y, res.0)
    ensures DaysBeforeMonth(y, res.0) + res.1 == DaysBeforeMonth(y, m) + r
    decreases 12 - m
  {
    MonthsFillYear(y);
    if m == 12 || r < DaysInMonth(y, m) then (m, r)
    else MonthOf(y, r - DaysInMonth(y, m), m + 1)
  }

  /** The date of a day number: the inverse of DayNumber. */
  function FromDayNumber(n: nat): (d: Date)
    ensures ValidDate(d) && DayNumber(d) == n
  {
    var (y, r) := YearOf(n, 1);
    var (m, rest) := MonthOf(y, r, 1);
    Date(y, m, rest + 1)
  }

  lemma DayNumberWithinYear(d: Date)
    requires ValidDate(d)
    ensures DaysBeforeYear(d.year) <= DayNumber(d) < DaysBeforeYear(d.year) + DaysInYear(d.year)
  {
    DaysBeforeMonthMonotone(d.year, d.month + 1, 13);
    MonthsFillYear(d.year);
  }

  lemma SameDayNumberSameYear(d1: Date, d2: Date)
    requires ValidDate(d1) && ValidDate(d2) && DayNumber(d1) == DayNumber(d2)
    ensures d1.year == d2.year
  {
    DayNumberWithinYear(d1);
    DayNumberWithinYear(d2);
    if d1.year < d2.year {
      DaysBeforeYearMonotone(d1.year, d2.year);
    } else if d2.year < d1.year {
      DaysBeforeYearMonotone(d2.year, d1.year);
    }
  }

  lemma MonthEndBound(d: Date)
    requires ValidDate(d)
    ensures DaysBeforeMonth(d.year, d.month) + d.day - 1 < DaysBeforeMonth(d.year, d.month + 1)
  {
  }

  /** Distinct valid dates have distinct day numbers. */
  lemma DayNumberInjective(d1: Date, d2: Date)
    requires ValidDate(d1) && ValidDate(d2) && DayNumber(d1) == DayNumber(d2)
    ensures d1 == d2
  {
    SameDayNumberSameYear(d1, d2);
    assert DaysBeforeMonth(d1.year, d1.month) + d1.day == DaysBeforeMonth(d2.year, d2.month) + d2.day;
    LaterMonthLaterOffset(d1, d2);
    LaterMonthLaterOffset(d2, d1);
  }

  /** Within one year, the same offset from 1 January cannot fall in an earlier month. */
  lemma LaterMonthLaterOffset(d1: Date, d2: Date)
    requires ValidDate(d1) && ValidDate(d2) && d1.year == d2.year
    requires DaysBeforeMonth(d1.year, d1.month) + d1.day == DaysBeforeMonth(d2.year, d2.month) + d2.day
    ensures d1.month >= d2.month
  {
    if d1.month < d2.month {
      MonthEndBound(d1);
      DaysBeforeMonthMonotone(d1.year, d1.month + 1, d2.month);
    }
  }

  /** Day numbers and dates are in one-to-one correspondence. */
  lemma FromDayNumberInverse(d: Date)
    requires ValidDate(d)
    ensures FromDayNumber(DayNumber(d)) == d
  {
    DayNumberInjective(FromDayNumber(DayNumber(d)), d);
  }

  // ---- date keys ----

  function Digits2(n: nat): string
    requires n < 100
  {
    [DigitChar(n / 10), DigitChar(n % 10)]
  }

  function Digits4(n: nat): string
    requires n < 10000
  {
    [DigitChar(n / 1000), DigitChar(n / 100 % 10), DigitChar(n / 10 % 10), DigitChar(n % 10)]
  }

  /** `YYYY-MM-DD` of a date, as the first ten characters of `toISOString`; years past 9999 take the `+YYYYYY` form. */
  function EncodeDate(d: Date): (r: string)
    requires ValidDate(d)
    ensures |r| >= 10 && (d.year <= 9999 ==> |r| == 10)
  {
    (if d.year <= 9999 then Digits4(d.year) else "+" + PadZero(NatToString(d.year), 6))
    + "-" + Digits2(d.month) + "-" + Digits2(d.day)
  }

  /** `toDateKey`: the key of a day, the first ten characters of the ISO form. */
  function ToDateKey(n: nat): (r: string)
    ensures |r| == 10
  {
    EncodeDate(FromDayNumber(n))[..10]
  }

  /** `s.slice(0, 10)`: the day part of an ISO date-time text. */
  function KeyPrefix(s: string): (r: string)
    ensures |r| <= 10 && r <= s
    ensures |s| >= 10 ==> |r| == 10
  {
    if |s| >= 10 then s[..10] else s
  }

  /** Ten characters shaped `DDDD-DD-DD` with D a decimal digit. */
  predicate KeyShaped(s: string) {
    |s| == 10 && s[4] == '-' && s[7] == '-'
    && IsDigit(s[0]) && IsDigit(s[1]) && IsDigit(s[2]) && IsDigit(s[3])
    && IsDigit(s[5]) && IsDigit(s[6]) && IsDigit(s[8]) && IsDigit(s[9])
  }

  function YearField(s: string): nat
    requires KeyShaped(s)
  {
    1000 * DigitValue(s[0]) + 100 * DigitValue(s[1]) + 10 * DigitValue(s[2]) + DigitValue(s[3])
  }

  function MonthField(s: string): nat
    requires KeyShaped(s)
  {
    10 * DigitValue(s[5]) + DigitValue(s[6])
  }

  function DayField(s: string): nat
    requires KeyShaped(s)
  {
    10 * DigitValue(s[8]) + DigitValue(s[9])
  }

  /**
   * `new Date(year, monthIndex, day)`: a month index outside 0..11 moves
   * into neighbouring years and a day outside the month moves into
   * neighbouring months.
   */
  function LenientDayNumber(year: int, monthIndex: int, day: int): int
    requires year * 12 + monthIndex >= 12
  {
    var total := year * 12 + monthIndex;
    DaysBeforeYear(total / 12) + DaysBeforeMonth(total / 12, total % 12 + 1) + day - 1
  }

  /** No key parses to a day before 0099-01-01 minus one day: years below 100 read as 19xx. */
  const MinParsedDay: nat := 365 * 98 - 1

  /** The `Date` constructor reads years 0 to 99 as 1900 to 1999. */
  function ConstructorYear(y: int): int {
    if 0 <= y <= 99 then 1900 + y else y
  }

  /**
   * `parseDateKey`: a `YYYY-MM-DD` key becomes the day the `Date`
   * constructor builds from its three numbers; any other text yields None.
   */
  function ParseDateKey(s: string): (r: Option<int>)
    ensures r.Some? ==> r.value >= MinParsedDay
  {
    if !KeyShaped(s) then None
    else
      var y := ConstructorYear(YearField(s));
      var total := y * 12 + MonthField(s) - 1;
      assert total / 12 >= 99;
      DaysBeforeYearLower(total / 12);
      Some(LenientDayNumber(y, MonthField(s) - 1, DayField(s)))
  }

  /**
   * The date text the store reads: the day of a valid `YYYY-MM-DD` date,
   * otherwise None.  This is the ISO subset of what `DateOnly.TryParse`
   * and `DateOnly.Parse` accept; their culture-dependent formats are not
   * modelled.
   */
  function ParseIsoDate(s: string): (r: Option<nat>)
  {
    if KeyShaped(s) && ValidDate(Date(YearField(s), MonthField(s), DayField(s)))
    then Some(DayNumber(Date(YearField(s), MonthField(s), DayField(s))))
    else None
  }

  // ---- round trips ----

  lemma Digits4Fields(n: nat)
    requires n < 10000
    ensures 1000 * DigitValue(Digits4(n)[0]) + 100 * DigitValue(Digits4(n)[1])
            + 10 * DigitValue(Digits4(n)[2]) + DigitValue(Digits4(n)[3]) == n
  {
    var a, b, c, e := n / 1000, n / 100 % 10, n / 10 % 10, n % 10;
    assert n / 10 == 10 * (n / 100) + c;
    assert n / 100 == 10 * (n / 1000) + b;
    assert n == 10 * (n / 10) + e;
  }

  /** Reading back a written date gives the fields it was written from. */
  lemma EncodeDateFields(d: Date)
    requires ValidDate(d) && d.year <= 9999
    ensures KeyShaped(EncodeDate(d))
    ensures YearField(EncodeDate(d)) == d.year
    ensures MonthField(EncodeDate(d)) == d.month && DayField(EncodeDate(d)) == d.day
  {
    var s := EncodeDate(d);
    assert s[..4] == Digits4(d.year);
    Digits4Fields(d.year);
  }

  /** Writing the fields of a key gives the key back. */
  lemma FieldsEncodeDate(s: string)
    requires KeyShaped(s) && ValidDate(Date(YearField(s), MonthField(s), DayField(s)))
    ensures EncodeDate(Date(YearField(s), MonthField(s), DayField(s))) == s
  {
    YearFieldDigits(s);
    TwoDigits(s[5], s[6]);
    TwoDigits(s[8], s[9]);
    assert s == s[..4] + "-" + [s[5], s[6]] + "-" + [s[8], s[9]];
  }

  lemma YearFieldDigits(s: string)
    requires KeyShaped(s)
    ensures Digits4(YearField(s)) == s[..4]
  {
    var y := YearField(s);
    var a, b, c := DigitValue(s[0]), DigitValue(s[1]), DigitValue(s[2]);
    assert y / 10 == 100 * a + 10 * b + c;
    assert y / 100 == 10 * a + b;
    assert y / 1000 == a;
  }

  lemma TwoDigits(c1: char, c2: char)
    requires IsDigit(c1) && IsDigit(c2)
    ensures Digits2(10 * DigitValue(c1) + DigitValue(c2)) == [c1, c2]
  {
  }

  /** On a valid date the lenient construction agrees with the day number. */
  lemma LenientOnValid(d: Date)
    requires ValidDate(d)
    ensures LenientDayNumber(d.year, d.month - 1, d.day) == DayNumber(d)
  {
    var total := d.year * 12 + d.month - 1;
    assert total / 12 == d.year && total % 12 == d.month - 1;
  }

  /** parseDateKey(toDateKey(n)) == n for the years the constructor reads literally. */
  lemma ParseToDateKey(n: nat)
    requires 100 <= FromDayNumber(n).year <= 9999
    ensures ParseDateKey(ToDateKey(n)) == Some(n)
  {
    var d := FromDayNumber(n);
    ToDateKeyFull(n);
    EncodeDateFields(d);
    LenientOnValid(d);
    var s := ToDateKey(n);
    assert ParseDateKey(s) == Some(LenientDayNumber(d.year, d.month - 1, d.day));
  }

  /** The first day of year 100 and of year 10000 (DaysBeforeYear of each, by KeyRangeBounds). */
  const KeyRangeFirst: nat := 36159
  const KeyRangeEnd: nat := 3652059

  /** The days of the years 100 to 9999, whose keys read back literally. */
  predicate InKeyRange(n: nat) {
    KeyRangeFirst <= n < KeyRangeEnd
  }

  /** Quotients by 4, 100 and 400 grow by one exactly at the multiples. */
  lemma DivSteps(x: int)
    requires x >= 1
    ensures x / 4 - (x - 1) / 4 == if x % 4 == 0 then 1 else 0
    ensures x / 100 - (x - 1) / 100 == if x % 100 == 0 then 1 else 0
    ensures x / 400 - (x - 1) / 400 == if x % 400 == 0 then 1 else 0
    ensures x % 400 == 0 ==> x % 100 == 0
    ensures x % 100 == 0 ==> x % 4 == 0
  {
  }

  /** The Gregorian count of the days before a year in closed form. */
  lemma {:induction false} DaysBeforeYearClosed(y: int)
    requires y >= 1
    ensures DaysBeforeYear(y) == 365 * (y - 1) + (y - 1) / 4 - (y - 1) / 100 + (y - 1) / 400
    decreases y
  {
    if y > 1 {
      DaysBeforeYearClosed(y - 1);
      DivSteps(y - 1);
    }
  }

  lemma KeyRangeBounds()
    ensures DaysBeforeYear(100) == KeyRangeFirst && DaysBeforeYear(10000) == KeyRangeEnd
  {
    DaysBeforeYearClosed(100);
    DaysBeforeYearClosed(10000);
  }

  lemma InKeyRangeYears(n: nat)
    requires InKeyRange(n)
    ensures 100 <= FromDayNumber(n).year <= 9999
  {
    var d := FromDayNumber(n);
    DayNumberWithinYear(d);
    KeyRangeBounds();
    if d.year > 9999 {
      DaysBeforeYearMonotone(10000, d.year);
    } else if d.year < 100 {
      DaysBeforeYearMonotone(d.year, 100);
    }
  }

  /** The key of a day in the key range reads back as that day. */
  lemma KeyRangeRoundTrip(n: nat)
    requires InKeyRange(n)
    ensures ParseDateKey(ToDateKey(n)) == Some(n)
  {
    InKeyRangeYears(n);
    ParseToDateKey(n);
  }

  /** Up to year 9999 the ISO form is exactly ten characters, so the key is all of it. */
  lemma ToDateKeyFull(n: nat)
    requires FromDayNumber(n).year <= 9999
    ensures ToDateKey(n) == EncodeDate(FromDayNumber(n))
  {
  }

  /** toDateKey(parseDateKey(s)) == s for a key naming a real date from year 100 on. */
  lemma ToDateKeyOfParse(s: string)
    requires KeyShaped(s) && YearField(s) >= 100
    requires ValidDate(Date(YearField(s), MonthField(s), DayField(s)))
    ensures ParseDateKey(s).Some? && ToDateKey(ParseDateKey(s).value) == s
  {
    var d := Date(YearField(s), MonthField(s), DayField(s));
    LenientOnValid(d);
    FromDayNumberInverse(d);
    FieldsEncodeDate(s);
    ToDateKeyFull(DayNumber(d));
  }

  /** Distinct days have distinct keys (years up to 9999). */
  lemma ToDateKeyInjective(n1: nat, n2: nat)
    requires FromDayNumber(n1).year <= 9999 && FromDayNumber(n2).year <= 9999
    requires ToDateKey(n1) == ToDateKey(n2)
    ensures n1 == n2
  {
    var d1, d2 := FromDayNumber(n1), FromDayNumber(n2);
    ToDateKeyFull(n1);
    ToDateKeyFull(n2);
    EncodeDateFields(d1);
    EncodeDateFields(d2);
    assert d1 == d2;
    DayNumberInjective(d1, d2);
  }

  /** The store's date parsing reads back what EncodeDate wrote. */
  lemma ParseIsoDateOfEncode(d: Date)
    requires ValidDate(d) && d.year <= 9999
    ensures ParseIsoDate(EncodeDate(d)) == Some(DayNumber(d))
  {
    EncodeDateFields(d);
  }
}
