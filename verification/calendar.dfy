/** Python's `datetime.date` as far as the application uses it: the proleptic
    Gregorian calendar, day ordinals (`date.toordinal`), `date.weekday` and the
    strict `YYYY-MM-DD` form of `date.fromisoformat`. A date in arithmetic is
    its ordinal; 0001-01-01 is day 1. */
module Calendar {
  import opened Wrappers
  import opened Numerals
  import opened Lex

  const MinYear := 1
  const MaxYear := 9999
  /** The ordinal of 9999-12-31, `date.max.toordinal()`. */
  const MaxOrdinal := 3652059

  datatype CivilDate = CivilDate(year: int, month: int, day: int)

  predicate IsLeap(y: int) {
    y % 4 == 0 && (y % 100 != 0 || y % 400 == 0)
  }

  function DaysInYear(y: int): (n: int)
    ensures n == 365 || n == 366
    ensures n == 366 <==> IsLeap(y)
  {
    if IsLeap(y) then 366 else 365
  }

  function DaysInMonth(y: int, m: int): (n: int)
    requires 1 <= m <= 12
    ensures 28 <= n <= 31
    ensures m == 2 ==> (n == 29 <==> IsLeap(y))
  {
    if m == 2 then (if IsLeap(y) then 29 else 28)
    else if m == 4 || m == 6 || m == 9 || m == 11 then 30
    else 31
  }

  /** What the `date(y, m, d)` constructor accepts. */
  predicate Valid(c: CivilDate) {
    MinYear <= c.year <= MaxYear && 1 <= c.month <= 12 && 1 <= c.day <= DaysInMonth(c.year, c.month)
  }

  /** Days in the years before `y`. */
  function DaysBeforeYear(y: int): int
    requires y >= 1
  {
    var p := y - 1;
    365 * p + p / 4 - p / 100 + p / 400
  }

  /** Days in the months of year `y` before month `m`. */
  function DaysBeforeMonth(y: int, m: int): (n: int)
    requires 1 <= m <= 13
    ensures 0 <= n <= 31 * (m - 1)
    decreases m
  {
    if m == 1 then 0 else DaysBeforeMonth(y, m - 1) + DaysInMonth(y, m - 1)
  }

  /** `date.toordinal()`. */
  function ToOrdinal(c: CivilDate): int
    requires Valid(c)
  {
    DaysBeforeYear(c.year) + DaysBeforeMonth(c.year, c.month) + c.day
  }

  /** The calendar day after `c`. */
  function NextDay(c: CivilDate): (r: CivilDate)
    requires Valid(c) && c != CivilDate(MaxYear, 12, 31)
    ensures Valid(r)
  {
    if c.day < DaysInMonth(c.year, c.month) then CivilDate(c.year, c.month, c.day + 1)
    else if c.month < 12 then CivilDate(c.year, c.month + 1, 1)
    else CivilDate(c.year + 1, 1, 1)
  }

  /** A whole year of months is the year's length. */
  lemma MonthsMakeYear(y: int)
    ensures DaysBeforeMonth(y, 13) == DaysInYear(y)
  {
    assert DaysBeforeMonth(y, 3) == 31 + DaysInMonth(y, 2);
  }

  /** Consecutive years' first days are a year's length apart. */
  lemma YearStep(y: int)
    requires y >= 1
    ensures DaysBeforeYear(y + 1) == DaysBeforeYear(y) + DaysInYear(y)
  {
    var p := y - 1;
    assert y / 4 == p / 4 + (if y % 4 == 0 then 1 else 0);
    assert y / 100 == p / 100 + (if y % 100 == 0 then 1 else 0);
    assert y / 400 == p / 400 + (if y % 400 == 0 then 1 else 0);
    if y % 100 == 0 {
      assert y % 4 == 0;
    }
    if y % 400 == 0 {
      assert y % 100 == 0;
    }
  }

  /** Ordinals count days: the day after `c` has the next ordinal. */
  lemma NextDayOrdinal(c: CivilDate)
    requires Valid(c) && c != CivilDate(MaxYear, 12, 31)
    ensures ToOrdinal(NextDay(c)) == ToOrdinal(c) + 1
  {
    var y, m := c.year, c.month;
    if c.day < DaysInMonth(y, m) {
      assert NextDay(c) == CivilDate(y, m, c.day + 1);
    } else if m < 12 {
      assert NextDay(c) == CivilDate(y, m + 1, 1);
      assert DaysBeforeMonth(y, m + 1) == DaysBeforeMonth(y, m) + DaysInMonth(y, m);
    } else {
      assert NextDay(c) == CivilDate(y + 1, 1, 1);
      YearStep(y);
      MonthsMakeYear(y);
      assert DaysBeforeMonth(y, 13) == DaysBeforeMonth(y, 12) + 31;
    }
  }

  /** The first representable date, 0001-01-01, is day 1. */
  lemma FirstOrdinal()
    ensures ToOrdinal(CivilDate(MinYear, 1, 1)) == 1
  {
  }

  /** The last representable date, 9999-12-31, is day `MaxOrdinal`. */
  lemma LastOrdinal(c: CivilDate)
    requires c == CivilDate(MaxYear, 12, 31)
    ensures ToOrdinal(c) == MaxOrdinal
  {
    YearEnd(c.year);
    var p := c.year;
    assert p / 4 == 2499 && p / 100 == 99 && p / 400 == 24;
  }

  /** December 31st of `y` is the last day before year `y + 1` starts. */
  lemma YearEnd(y: int)
    requires MinYear <= y <= MaxYear
    ensures ToOrdinal(CivilDate(y, 12, 31)) == DaysBeforeYear(y + 1)
  {
    LastDayOfYear(y);
    YearStep(y);
  }

  /** December 31st is the year's last day: its day of year is the year's length. */
  lemma LastDayOfYear(y: int)
    ensures DaysBeforeMonth(y, 12) + 31 == DaysInYear(y)
  {
    MonthsMakeYear(y);
    assert DaysBeforeMonth(y, 13) == DaysBeforeMonth(y, 12) + DaysInMonth(y, 12);
  }

  /** Every valid date has an ordinal in `1..MaxOrdinal`. */
  lemma OrdinalInRange(c: CivilDate)
    requires Valid(c)
    ensures 1 <= ToOrdinal(c) <= MaxOrdinal
  {
    DayWithinYear(c.year, c.month, c.day);
    YearsBefore(c.year, MaxYear);
    YearStep(MaxYear);
  }

  lemma DayWithinYear(y: int, m: int, d: int)
    requires 1 <= m <= 12 && 1 <= d <= DaysInMonth(y, m)
    ensures DaysBeforeMonth(y, m) + d <= DaysInYear(y)
  {
    MonthsBefore(y, m + 1, 13);
    MonthsMakeYear(y);
  }

  lemma {:induction false} MonthsBefore(y: int, m: int, n: int)
    requires 1 <= m <= n <= 13
    ensures DaysBeforeMonth(y, m) <= DaysBeforeMonth(y, n)
    decreases n - m
  {
    if m < n {
      MonthsBefore(y, m, n - 1);
    }
  }

  lemma {:induction false} YearsBefore(y: int, z: int)
    requires 1 <= y <= z
    ensures DaysBeforeYear(y) <= DaysBeforeYear(z)
    decreases z - y
  {
    if y < z {
      YearsBefore(y, z - 1);
      YearStep(z - 1);
    }
  }

  /** `date.weekday()` of the date with ordinal `d`: Monday is 0, Sunday 6. */
  function Weekday(d: int): (w: int)
    ensures 0 <= w < 7
  {
    (d + 6) % 7
  }

  /** 0001-01-01 was a Monday, and each day's weekday follows the previous one's. */
  lemma WeekdayFollows(d: int)
    ensures Weekday(1) == 0
    ensures Weekday(d + 1) == (Weekday(d) + 1) % 7
  {
  }

  /** `d - timedelta(days=d.weekday())`: the Monday starting `d`'s week. */
  function WeekStart(d: int): (m: int)
    ensures Weekday(m) == 0
    ensures d - 6 <= m <= d
  {
    d - Weekday(d)
  }

  /** Two days share a week start exactly when they lie in the same Monday-to-
      Sunday week, i.e. the later is at most six days past the earlier's Monday. */
  lemma SameWeek(m: int, d: int)
    requires Weekday(m) == 0
    ensures WeekStart(d) == m <==> m <= d <= m + 6
  {
  }

  /** `date.isoformat()`: four-digit year, two-digit month and day. */
  function IsoFormat(c: CivilDate): (s: string)
    requires Valid(c)
    ensures |s| == 10 && s[4] == '-' && s[7] == '-'
  {
    IsoWidths(c);
    IsoJoin(FormatPadded(c.year, 4), FormatPadded(c.month, 2), FormatPadded(c.day, 2))
  }

  /** The fields of a valid date fill their widths exactly. */
  lemma IsoWidths(c: CivilDate)
    requires Valid(c)
    ensures |FormatPadded(c.year, 4)| == 4 && |FormatPadded(c.month, 2)| == 2 && |FormatPadded(c.day, 2)| == 2
  {
    Pow10Small();
    FormatPaddedWidth(c.year, 4);
    FormatPaddedWidth(c.month, 2);
    FormatPaddedWidth(c.day, 2);
  }

  /** `YYYY-MM-DD` from its three fields. */
  function IsoJoin(y: string, m: string, d: string): (s: string)
    requires |y| == 4 && |m| == 2 && |d| == 2
    ensures |s| == 10 && s[4] == '-' && s[7] == '-'
    ensures s[..4] == y && s[5..7] == m && s[8..] == d
  {
    var s := y + "-" + m + "-" + d;
    assert s[..4] == y;
    assert s[5..7] == m;
    assert s[8..] == d;
    s
  }

  /** `date.fromisoformat(s)`: exactly ten characters `YYYY-MM-DD` of ASCII digits
      naming a real date; anything else is a `ValueError`, here `None`. */
  function ParseIso(s: string): Option<CivilDate> {
    if |s| == 10 && s[4] == '-' && s[7] == '-'
       && AllDigits(s[..4]) && AllDigits(s[5..7]) && AllDigits(s[8..])
    then
      var c := CivilDate(Value(s[..4]), Value(s[5..7]), Value(s[8..]));
      if Valid(c) then Some(c) else None
    else None
  }

  /** Parsing and formatting are inverse: a string parses to `c` exactly when it
      is the ISO text of the valid date `c`. */
  lemma ParseIsoIff(s: string, c: CivilDate)
    ensures ParseIso(s) == Some(c) <==> Valid(c) && s == IsoFormat(c)
  {
    if ParseIso(s) == Some(c) {
      ParsedIsFormatted(s);
    }
    if Valid(c) && s == IsoFormat(c) {
      FormattedParses(c);
    }
  }

  lemma ParsedIsFormatted(s: string)
    requires ParseIso(s).Some?
    ensures Valid(ParseIso(s).value) && IsoFormat(ParseIso(s).value) == s
  {
    var c := ParseIso(s).value;
    var y, m, d := s[..4], s[5..7], s[8..];
    assert c == CivilDate(Value(y), Value(m), Value(d));
    PaddedDigitsCanonical(y);
    PaddedDigitsCanonical(m);
    PaddedDigitsCanonical(d);
    IsoJoinSplit(s);
  }

  /** An ISO-shaped text is the join of its three fields. */
  lemma IsoJoinSplit(s: string)
    requires |s| == 10 && s[4] == '-' && s[7] == '-'
    ensures IsoJoin(s[..4], s[5..7], s[8..]) == s
  {
    var t := IsoJoin(s[..4], s[5..7], s[8..]);
    forall i | 0 <= i < 10
      ensures t[i] == s[i]
    {
      if i < 4 {
        assert t[..4][i] == t[i];
      } else if 5 <= i < 7 {
        assert t[5..7][i - 5] == t[i];
      } else if 8 <= i {
        assert t[8..][i - 8] == t[i];
      }
    }
  }

  lemma FormattedParses(c: CivilDate)
    requires Valid(c)
    ensures ParseIso(IsoFormat(c)) == Some(c)
  {
    IsoWidths(c);
  }

  /** `_parse_date`: a missing or empty parameter, or one `fromisoformat`
      rejects, falls back to today's date. */
  function ParseDate(s: Option<string>, today: CivilDate): (r: CivilDate)
    ensures s.Some? && ParseIso(s.value).Some? ==> r == ParseIso(s.value).value
    ensures s.None? || ParseIso(s.value).None? ==> r == today
    ensures Valid(today) ==> Valid(r)
  {
    if s.None? || s.value == "" then today
    else match ParseIso(s.value)
      case Some(c) => c
      case None => today
  }

  /** The date parameter of a page is today's unless it is a valid ISO date. */
  lemma ParseDateFormatted(c: CivilDate, today: CivilDate)
    requires Valid(c)
    ensures ParseDate(Some(IsoFormat(c)), today) == c
  {
    ParseIsoIff(IsoFormat(c), c);
  }

  /** 2025-01-06 has ordinal 739257 and was a Monday. */
  lemma KnownMonday()
    ensures ToOrdinal(CivilDate(2025, 1, 6)) == 739257
    ensures Weekday(739257) == 0
  {
  }
}
