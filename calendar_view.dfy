/**
 * The month view: the grid of a month (blank cells up to the first
 * weekday, then one `YYYY-MM-DD` cell per day), stepping between months,
 * and the colours of a day.  Months are 0-based, as in the view.
 */
module CalendarView {
  import opened Text
  import Calendar
  import opened Wrappers

  datatype Cell = Blank | Day(dateText: string)

  /** The year a `Date` is built in: 0 to 99 read as 1900 to 1999. */
  function BuiltYear(year: nat): int {
    Calendar.ConstructorYear(year)
  }

  /** `new Date(year, month + 1, 0).getDate()`. */
  function DaysInShownMonth(year: nat, month: int): nat
    requires 0 <= month <= 11
  {
    Calendar.DaysInMonth(BuiltYear(year), month + 1)
  }

  /** `new Date(year, month, 1).getDay()`, 0 for Sunday; day 0 of the count, 0001-01-01, is a Monday. */
  function StartDayOfWeek(year: nat, month: int): int
    requires 0 <= month <= 11
  {
    (Calendar.DayNumber(Calendar.Date(BuiltYear(year), month + 1, 1)) + 1) % 7
  }

  /** `${year}-${String(month + 1).padStart(2, '0')}-${String(d).padStart(2, '0')}`. */
  function DayText(year: nat, month: int, d: nat): string
    requires 0 <= month <= 11
  {
    NatToString(year) + "-" + PadZero(NatToString(month + 1), 2) + "-" + PadZero(NatToString(d), 2)
  }

  /** The grid of a month. */
  function Grid(year: nat, month: int): seq<Cell>
    requires 0 <= month <= 11
  {
    seq(StartDayOfWeek(year, month), _ => Blank)
    + seq(DaysInShownMonth(year, month), i requires 0 <= i => Day(DayText(year, month, i + 1)))
  }

  /** The two loops that build the grid. */
  method BuildGrid(year: nat, month: int) returns (cells: seq<Cell>)
    requires 0 <= month <= 11
    ensures cells == Grid(year, month)
  {
    var startDayOfWeek := StartDayOfWeek(year, month);
    var daysInMonth := DaysInShownMonth(year, month);
    cells := [];
    for i := 0 to startDayOfWeek
      invariant cells == seq(i, _ => Blank)
    {
      cells := cells + [Blank];
    }
    var d := 1;
    while d <= daysInMonth
      invariant 1 <= d <= daysInMonth + 1
      invariant cells == seq(startDayOfWeek, _ => Blank) + seq(d - 1, i requires 0 <= i => Day(DayText(year, month, i + 1)))
    {
      cells := cells + [Day(DayText(year, month, d))];
      d := d + 1;
    }
  }

  /**
   * The grid is the weekday of the first day's worth of blanks followed by
   * the days 1 to the month's length in order; a week never needs more
   * than six blanks and a month has 28 to 31 days.
   */
  lemma GridSpec(year: nat, month: int)
    requires 0 <= month <= 11
    ensures var g := Grid(year, month);
      var start := StartDayOfWeek(year, month);
      && 0 <= start < 7
      && 28 <= DaysInShownMonth(year, month) <= 31
      && |g| == start + DaysInShownMonth(year, month)
      && (forall i :: 0 <= i < |g| ==> (g[i] == Blank <==> i < start))
      && (forall d :: 1 <= d <= DaysInShownMonth(year, month) ==> g[start + d - 1] == Day(DayText(year, month, d)))
  {
  }

  lemma PadTwo(n: nat)
    requires n < 100
    ensures PadZero(NatToString(n), 2) == Calendar.Digits2(n)
  {
    if n >= 10 {
      assert NatToString(n) == NatToString(n / 10) + [DigitChar(n % 10)];
    }
  }

  lemma FourDigits(n: nat)
    requires 1000 <= n <= 9999
    ensures NatToString(n) == Calendar.Digits4(n)
  {
    assert n / 10 / 10 == n / 100 && n / 100 / 10 == n / 1000;
    assert NatToString(n / 1000) == [DigitChar(n / 1000)];
    assert NatToString(n / 100) == [DigitChar(n / 1000), DigitChar(n / 100 % 10)];
    assert NatToString(n / 10) == [DigitChar(n / 1000), DigitChar(n / 100 % 10), DigitChar(n / 10 % 10)];
  }

  /**
   * From year 1000 to 9999 each day cell is the date key of its day, the
   * key the colour map and the entries use, and reads back as that day.
   */
  lemma DayTextIsDateKey(year: nat, month: int, d: nat)
    requires 1000 <= year <= 9999 && 0 <= month <= 11 && 1 <= d <= DaysInShownMonth(year, month)
    ensures var date := Calendar.Date(year, month + 1, d);
      && Calendar.ValidDate(date)
      && DayText(year, month, d) == Calendar.ToDateKey(Calendar.DayNumber(date))
      && Calendar.ParseDateKey(DayText(year, month, d)) == Some(Calendar.DayNumber(date))
  {
    var date := Calendar.Date(year, month + 1, d);
    FourDigits(year);
    PadTwo(month + 1);
    PadTwo(d);
    Calendar.FromDayNumberInverse(date);
    Calendar.ToDateKeyFull(Calendar.DayNumber(date));
    Calendar.ParseToDateKey(Calendar.DayNumber(date));
  }

  // ---- month navigation ----

  datatype MonthCursor = MonthCursor(year: int, month: int)

  predicate ValidCursor(c: MonthCursor) {
    0 <= c.month <= 11
  }

  /** handlePrevMonth. */
  function PrevMonth(c: MonthCursor): MonthCursor {
    if c.month == 0 then MonthCursor(c.year - 1, 11) else MonthCursor(c.year, c.month - 1)
  }

  /** handleNextMonth. */
  function NextMonth(c: MonthCursor): MonthCursor {
    if c.month == 11 then MonthCursor(c.year + 1, 0) else MonthCursor(c.year, c.month + 1)
  }

  /** Months counted from year 0. */
  function MonthIndex(c: MonthCursor): int {
    12 * c.year + c.month
  }

  /**
   * Both steps keep the month in 0..11, move by exactly one month, and
   * undo each other.
   */
  lemma NavigationSpec(c: MonthCursor)
    requires ValidCursor(c)
    ensures ValidCursor(PrevMonth(c)) && ValidCursor(NextMonth(c))
    ensures MonthIndex(NextMonth(c)) == MonthIndex(c) + 1
    ensures MonthIndex(PrevMonth(c)) == MonthIndex(c) - 1
    ensures PrevMonth(NextMonth(c)) == c && NextMonth(PrevMonth(c)) == c
  {
  }

  /** Stepping n months forward, then n back, returns to the start. */
  lemma {:induction false} NavigationRoundTrip(c: MonthCursor, n: nat)
    requires ValidCursor(c)
    ensures ValidCursor(Forward(c, n)) && MonthIndex(Forward(c, n)) == MonthIndex(c) + n
    ensures Back(Forward(c, n), n) == c
    decreases n
  {
    if n > 0 {
      NavigationRoundTrip(c, n - 1);
      NavigationSpec(Forward(c, n - 1));
      assert Back(Forward(c, n), n) == Back(PrevMonth(NextMonth(Forward(c, n - 1))), n - 1);
    }
  }

  function Forward(c: MonthCursor, n: nat): MonthCursor
    decreases n
  {
    if n == 0 then c else NextMonth(Forward(c, n - 1))
  }

  function Back(c: MonthCursor, n: nat): MonthCursor
    decreases n
  {
    if n == 0 then c else Back(PrevMonth(c), n - 1)
  }

  // ---- colours ----

  datatype Tag = Observation | Symptom | Both

  const ObservationColor := "#2563eb"
  const SymptomColor := "#dc2626"
  const BothColor := "#9333ea"
  const DefaultColor := "#f1f5f9"
  const TaggedText := "#fff"
  const DefaultText := "#22223b"

  /** getDateColor. */
  function DateColor(colorMap: map<string, Tag>, date: string): string {
    if date !in colorMap then DefaultColor
    else match colorMap[date]
      case Observation => ObservationColor
      case Symptom => SymptomColor
      case Both => BothColor
  }

  /** getTextColor. */
  function TextColor(colorMap: map<string, Tag>, date: string): string {
    if date !in colorMap then DefaultText
    else match colorMap[date]
      case Observation => TaggedText
      case Symptom => TaggedText
      case Both => TaggedText
  }

  /**
   * A tagged day is coloured by its tag, each tag with its own colour,
   * and its text is white; an untagged day keeps the default colours.
   */
  lemma ColorSpec(colorMap: map<string, Tag>, date: string, other: string)
    ensures DateColor(colorMap, date) == DefaultColor <==> date !in colorMap
    ensures TextColor(colorMap, date) == TaggedText <==> date in colorMap
    ensures date in colorMap && other in colorMap ==>
      (DateColor(colorMap, date) == DateColor(colorMap, other) <==> colorMap[date] == colorMap[other])
  {
  }
}
