/** Proleptic Gregorian calendar arithmetic as Python's `datetime.date`
    performs it, weekday names as `strftime("%a")` prints them in the C
    locale, and the `%H:%M:%S` / `%Y-%m-%d` text forms of times and dates. */
module Calendar {
  import opened Wrappers
  import opened Text

  datatype Date = Date(year: int, month: int, day: int)

  predicate IsLeap(y: int)
  {
    y % 4 == 0 && (y % 100 != 0 || y % 400 == 0)
  }

  function DaysInMonth(y: int, m: int): (n: int)
    requires 1 <= m <= 12
    ensures 28 <= n <= 31
  {
    if m == 2 then (if IsLeap(y) then 29 else 28)
    else if m == 4 || m == 6 || m == 9 || m == 11 then 30
    else 31
  }

  /** Days of year `y` before the first of month `m`. */
  function DaysBeforeMonth(y: int, m: int): int
    requires 1 <= m <= 12
    decreases m
  {
    if m == 1 then 0 else DaysBeforeMonth(y, m - 1) + DaysInMonth(y, m - 1)
  }

  /** A date Python's `datetime.date` can represent (years 1 to 9999). */
  predicate ValidDate(d: Date)
  {
    && 1 <= d.year <= 9999
    && 1 <= d.month <= 12
    && 1 <= d.day <= DaysInMonth(d.year, d.month)
  }

  /** Python's `date.toordinal()`: 0001-01-01 is day 1. */
  function Ordinal(d: Date): int
    requires ValidDate(d)
  {
    var y := d.year - 1;
    y * 365 + y / 4 - y / 100 + y / 400 + DaysBeforeMonth(d.year, d.month) + d.day
  }

  /** The calendar day after `d`. */
  function NextDay(d: Date): Date
    requires ValidDate(d)
  {
    if d.day < DaysInMonth(d.year, d.month) then Date(d.year, d.month, d.day + 1)
    else if d.month < 12 then Date(d.year, d.month + 1, 1)
    else Date(d.year + 1, 1, 1)
  }

  lemma LeapDays(y: int)
    requires y >= 1
    ensures y / 4 - (y - 1) / 4 == (if y % 4 == 0 then 1 else 0)
    ensures y / 100 - (y - 1) / 100 == (if y % 100 == 0 then 1 else 0)
    ensures y / 400 - (y - 1) / 400 == (if y % 400 == 0 then 1 else 0)
  {
  }

  lemma DaysInYear(y: int)
    ensures DaysBeforeMonth(y, 12) + 31 == if IsLeap(y) then 366 else 365
  {
  }

  /** New Year's Eve is followed by the next ordinal. */
  lemma YearEndOrdinal(y: int)
    requires 1 <= y < 9999
    ensures ValidDate(Date(y, 12, 31)) && ValidDate(Date(y + 1, 1, 1))
    ensures Ordinal(Date(y + 1, 1, 1)) == Ordinal(Date(y, 12, 31)) + 1
  {
    DaysInYear(y);
    YearEndArith(y, DaysBeforeMonth(y, 12));
    var x := y - 1;
    assert Ordinal(Date(y, 12, 31)) == x * 365 + x / 4 - x / 100 + x / 400 + DaysBeforeMonth(y, 12) + 31;
    assert Ordinal(Date(y + 1, 1, 1)) == y * 365 + y / 4 - y / 100 + y / 400 + 1;
  }

  /** The leap-day count grows by one exactly over a leap year. */
  lemma YearEndArith(y: int, before: int)
    requires y >= 1 && before + 31 == if IsLeap(y) then 366 else 365
    ensures y * 365 + y / 4 - y / 100 + y / 400 + 1
         == (y - 1) * 365 + (y - 1) / 4 - (y - 1) / 100 + (y - 1) / 400 + before + 31 + 1
  {
    LeapDays(y);
    LeapDivisors(y);
  }

  lemma LeapDivisors(y: int)
    ensures y % 400 == 0 ==> y % 100 == 0
    ensures y % 100 == 0 ==> y % 4 == 0
  {
    if y % 400 == 0 {
      var q := y / 400;
      assert y == 400 * q;
      assert y / 100 == 4 * q;
    }
    if y % 100 == 0 {
      var q := y / 100;
      assert y == 100 * q;
      assert y / 4 == 25 * q;
    }
  }

  /** The last day of a month before December is followed by the next ordinal. */
  lemma MonthEndOrdinal(d: Date)
    requires ValidDate(d) && d.month < 12 && d.day == DaysInMonth(d.year, d.month)
    ensures ValidDate(Date(d.year, d.month + 1, 1))
    ensures Ordinal(Date(d.year, d.month + 1, 1)) == Ordinal(d) + 1
  {
    assert DaysBeforeMonth(d.year, d.month + 1)
        == DaysBeforeMonth(d.year, d.month) + DaysInMonth(d.year, d.month);
  }

  /** `Ordinal` counts days: the day after `d` has the next ordinal. */
  lemma NextDayHasNextOrdinal(d: Date)
    requires ValidDate(d) && d != Date(9999, 12, 31)
    ensures ValidDate(NextDay(d))
    ensures Ordinal(NextDay(d)) == Ordinal(d) + 1
  {
    if d.day < DaysInMonth(d.year, d.month) {
    } else if d.month < 12 {
      MonthEndOrdinal(d);
    } else {
      YearEndOrdinal(d.year);
    }
  }

  /** Python's `date.weekday()`: Monday is 0 and Sunday is 6. */
  function Weekday(d: Date): (w: int)
    requires ValidDate(d)
    ensures 0 <= w < 7
  {
    (Ordinal(d) + 6) % 7
  }

  /** Moving `k` days forward inside one month moves the weekday by `k`. */
  lemma WeekdayWithinMonth(d: Date, k: nat)
    requires ValidDate(d) && d.day + k <= DaysInMonth(d.year, d.month)
    ensures ValidDate(Date(d.year, d.month, d.day + k))
    ensures Weekday(Date(d.year, d.month, d.day + k)) == (Weekday(d) + k) % 7
  {
    var e := Date(d.year, d.month, d.day + k);
    assert Ordinal(e) == Ordinal(d) + k;
    ModAdd(Ordinal(d) + 6, k);
  }

  /** The weekday advances by one from each day to the next, across month
      and year ends too. */
  lemma WeekdayOfNextDay(d: Date)
    requires ValidDate(d) && d != Date(9999, 12, 31)
    ensures ValidDate(NextDay(d))
    ensures Weekday(NextDay(d)) == (Weekday(d) + 1) % 7
  {
    NextDayHasNextOrdinal(d);
    ModAdd(Ordinal(d) + 6, 1);
  }

  lemma ModAdd(a: int, k: int)
    ensures (a + k) % 7 == (a % 7 + k) % 7
  {
    var q := a / 7;
    assert a == 7 * q + a % 7;
    assert a + k == 7 * q + (a % 7 + k);
  }

  /** Weekday names as `strftime("%a")` prints them in the C locale. */
  datatype DayName = Mon | Tue | Wed | Thu | Fri | Sat | Sun

  function Abbrev(w: DayName): (s: string)
    ensures |s| == 3 && Capitalize(s) == s
  {
    match w
    case Mon => "Mon"
    case Tue => "Tue"
    case Wed => "Wed"
    case Thu => "Thu"
    case Fri => "Fri"
    case Sat => "Sat"
    case Sun => "Sun"
  }

  /** The name of a `date.weekday()` number. */
  function NameOf(w: int): DayName
    requires 0 <= w < 7
  {
    [Mon, Tue, Wed, Thu, Fri, Sat, Sun][w]
  }

  function DayNameOf(d: Date): DayName
    requires ValidDate(d)
  {
    NameOf(Weekday(d))
  }

  /** Two known dates: 2026-10-05 is a Monday and 2026-10-10 a Saturday. */
  lemma KnownWeekdays()
    ensures DayNameOf(Date(2026, 10, 5)) == Mon
    ensures DayNameOf(Date(2026, 10, 10)) == Sat
  {
    assert !IsLeap(2026);
    assert DaysBeforeMonth(2026, 4) == 90;
    assert DaysBeforeMonth(2026, 7) == 181;
    assert DaysBeforeMonth(2026, 10) == 273;
    assert Ordinal(Date(2026, 10, 5)) == 739894;
    WeekdayWithinMonth(Date(2026, 10, 5), 5);
  }

  /** A time of day with whole seconds. */
  datatype Time = Time(hour: int, minute: int, second: int)

  predicate ValidTime(t: Time)
  {
    0 <= t.hour < 24 && 0 <= t.minute < 60 && 0 <= t.second < 60
  }

  /** Seconds since midnight; orders times the way `datetime` compares them. */
  function SecondOfDay(t: Time): int
  {
    t.hour * 3600 + t.minute * 60 + t.second
  }

  function Digit(n: int): char
    requires 0 <= n < 10
  {
    ('0' as int + n) as char
  }

  /** Zero-padded decimal text of `n` in `width` characters. */
  function Pad(n: nat, width: nat): (s: string)
    ensures |s| == width && AllDigits(s)
    decreases width
  {
    if width == 0 then "" else Pad(n / 10, width - 1) + [Digit(n % 10)]
  }

  function Power10(k: nat): (p: nat)
    ensures p >= 1
  {
    if k == 0 then 1 else 10 * Power10(k - 1)
  }

  /** Reading back a zero-padded number that fits in its width gives the
      number. */
  lemma {:induction false} PadValue(n: nat, width: nat)
    requires n < Power10(width)
    ensures DigitsValue(Pad(n, width)) == n
    decreases width
  {
    if width > 0 {
      var s := Pad(n, width);
      assert s[..|s| - 1] == Pad(n / 10, width - 1);
      assert n / 10 < Power10(width - 1);
      PadValue(n / 10, width - 1);
    }
  }

  /** Zero-padding the value of a run of digits to its own length gives the
      run back. */
  lemma {:induction false} PadOfDigits(d: string)
    requires AllDigits(d)
    ensures Pad(DigitsValue(d), |d|) == d
    decreases |d|
  {
    if |d| > 0 {
      var init := d[..|d| - 1];
      assert AllDigits(init);
      PadOfDigits(init);
      var v := DigitsValue(d);
      assert v / 10 == DigitsValue(init) && v % 10 == d[|d| - 1] as int - '0' as int;
      assert d == init + [d[|d| - 1]];
    }
  }

  /** The three fields of `a + [sep] + b + [sep] + c` sit at fixed offsets. */
  lemma Fields(a: string, b: string, c: string, sep: char)
    ensures var s := a + [sep] + b + [sep] + c;
      && |s| == |a| + |b| + |c| + 2
      && s[..|a|] == a && s[|a|] == sep
      && s[|a| + 1..|a| + 1 + |b|] == b && s[|a| + 1 + |b|] == sep
      && s[|a| + |b| + 2..] == c
  {
    var s := a + [sep] + b + [sep] + c;
    assert s[..|a|] == a;
    assert s[|a| + 1..|a| + 1 + |b|] == b;
    assert s[|a| + |b| + 2..] == c;
  }

  /** Text of three digit fields of widths `wa`, 2 and 2, joined by `sep`,
      is the zero-padded form of the three values it holds. */
  lemma PaddedFields(s: string, sep: char, wa: nat)
    requires |s| == wa + 6 && s[wa] == sep && s[wa + 3] == sep
    requires AllDigits(s[0..wa]) && AllDigits(s[wa + 1..wa + 3]) && AllDigits(s[wa + 4..wa + 6])
    ensures s == Pad(DigitsValue(s[0..wa]), wa) + [sep]
               + Pad(DigitsValue(s[wa + 1..wa + 3]), 2) + [sep]
               + Pad(DigitsValue(s[wa + 4..wa + 6]), 2)
  {
    PadOfDigits(s[0..wa]);
    PadOfDigits(s[wa + 1..wa + 3]);
    PadOfDigits(s[wa + 4..wa + 6]);
    assert s == s[0..wa] + [sep] + s[wa + 1..wa + 3] + [sep] + s[wa + 4..wa + 6];
  }

  /** Python's `strptime(s, "%H:%M:%S")` on the zero-padded form that
      `strftime` writes; anything else raises (`None`). Text that parses is
      exactly the formatted form of the time read. */
  function ParseTime(s: string): (r: Option<Time>)
    ensures r.Some? ==> ValidTime(r.value)
    ensures r.Some? ==> s == FormatTime(r.value)
  {
    if |s| == 8 && s[2] == ':' && s[5] == ':'
      && AllDigits(s[0..2]) && AllDigits(s[3..5]) && AllDigits(s[6..8])
    then
      var t := Time(DigitsValue(s[0..2]), DigitsValue(s[3..5]), DigitsValue(s[6..8]));
      if ValidTime(t) then
        PaddedFields(s, ':', 2);
        Some(t)
      else None
    else None
  }

  /** `strftime("%H:%M:%S")`. */
  function FormatTime(t: Time): (s: string)
    requires ValidTime(t)
    ensures |s| == 8
  {
    Pad(t.hour, 2) + ":" + Pad(t.minute, 2) + ":" + Pad(t.second, 2)
  }

  /** Every time `strftime` writes is read back unchanged by `strptime`. */
  lemma ParseFormattedTime(t: Time)
    requires ValidTime(t)
    ensures ParseTime(FormatTime(t)) == Some(t)
  {
    var s := FormatTime(t);
    Fields(Pad(t.hour, 2), Pad(t.minute, 2), Pad(t.second, 2), ':');
    assert s == Pad(t.hour, 2) + [':'] + Pad(t.minute, 2) + [':'] + Pad(t.second, 2);
    assert s[0..2] == Pad(t.hour, 2) && s[3..5] == Pad(t.minute, 2) && s[6..8] == Pad(t.second, 2);
    PadValue(t.hour, 2);
    PadValue(t.minute, 2);
    PadValue(t.second, 2);
    assert Time(DigitsValue(s[0..2]), DigitsValue(s[3..5]), DigitsValue(s[6..8])) == t;
  }

  /** Python's `strptime(s, "%Y-%m-%d")` on the zero-padded form. Text that
      parses is exactly the formatted form of the date read. */
  function ParseDate(s: string): (r: Option<Date>)
    ensures r.Some? ==> ValidDate(r.value)
    ensures r.Some? ==> s == FormatDate(r.value)
  {
    if |s| == 10 && s[4] == '-' && s[7] == '-'
      && AllDigits(s[0..4]) && AllDigits(s[5..7]) && AllDigits(s[8..10])
    then
      var d := Date(DigitsValue(s[0..4]), DigitsValue(s[5..7]), DigitsValue(s[8..10]));
      if ValidDate(d) then
        PaddedFields(s, '-', 4);
        Some(d)
      else None
    else None
  }

  /** `strftime("%Y-%m-%d")`. */
  function FormatDate(d: Date): (s: string)
    requires ValidDate(d)
    ensures |s| == 10
  {
    Pad(d.year, 4) + "-" + Pad(d.month, 2) + "-" + Pad(d.day, 2)
  }

  /** Every date `strftime` writes is read back unchanged by `strptime`. */
  lemma ParseFormattedDate(d: Date)
    requires ValidDate(d)
    ensures ParseDate(FormatDate(d)) == Some(d)
  {
    var s := FormatDate(d);
    Fields(Pad(d.year, 4), Pad(d.month, 2), Pad(d.day, 2), '-');
    assert s == Pad(d.year, 4) + ['-'] + Pad(d.month, 2) + ['-'] + Pad(d.day, 2);
    assert s[0..4] == Pad(d.year, 4) && s[5..7] == Pad(d.month, 2) && s[8..10] == Pad(d.day, 2);
    PadValue(d.year, 4);
    PadValue(d.month, 2);
    PadValue(d.day, 2);
    assert Date(DigitsValue(s[0..4]), DigitsValue(s[5..7]), DigitsValue(s[8..10])) == d;
  }
}
