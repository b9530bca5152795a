/**
 * Calendar dates of the proleptic Gregorian calendar, in the range Python's
 * `datetime.date` supports (years 1 to 9999), with the operations the contact
 * book uses: day counts (`toordinal`), `weekday`, adding days (`+ timedelta`),
 * and the `"%d.%m.%Y"` format in both directions (`strptime` and `strftime`).
 */
module Dates {
  import opened Outcomes
  import Seqs

  datatype Date = Date(year: int, month: int, day: int)

  const MinYear := 1
  const MaxYear := 9999
  /** The day number of 31 December 9999, the last date Python can represent. */
  const MaxOrdinal := 3652059

  predicate IsLeap(y: int) {
    y % 4 == 0 && (y % 100 != 0 || y % 400 == 0)
  }

  function DaysInMonth(y: int, m: int): (n: int)
    requires 1 <= m <= 12
    ensures 28 <= n <= 31
    ensures n == 29 <==> m == 2 && IsLeap(y)
  {
    if m == 2 then (if IsLeap(y) then 29 else 28)
    else if m == 4 || m == 6 || m == 9 || m == 11 then 30
    else 31
  }

  /** A date Python's `date(year, month, day)` accepts. */
  predicate Valid(d: Date) {
    MinYear <= d.year <= MaxYear && 1 <= d.month <= 12 && 1 <= d.day <= DaysInMonth(d.year, d.month)
  }

  function YearLength(y: int): int {
    if IsLeap(y) then 366 else 365
  }

  /** Days in the years before year `y`. */
  function DaysBeforeYear(y: int): int
    requires y >= 1
  {
    var p := y - 1;
    p * 365 + p / 4 - p / 100 + p / 400
  }

  /** Days in the months of year `y` before month `m`. */
  function DaysBeforeMonth(y: int, m: int): int
    requires 1 <= m <= 12
  {
    var table := [0, 31, 59, 90, 120, 151, 181, 212, 243, 273, 304, 334];
    table[m - 1] + (if m > 2 && IsLeap(y) then 1 else 0)
  }

  /** Python's `date.toordinal()`: 1 January of year 1 is day 1. */
  function Ordinal(d: Date): int
    requires Valid(d)
  {
    DaysBeforeYear(d.year) + DaysBeforeMonth(d.year, d.month) + d.day
  }

  /** Python's `date.weekday()`: Monday is 0 and Sunday is 6. */
  function Weekday(d: Date): (w: int)
    requires Valid(d)
    ensures 0 <= w < 7
  {
    (Ordinal(d) + 6) % 7
  }

  /** A year adds its own length to the day count. */
  lemma YearStep(y: int)
    requires y >= 1
    ensures DaysBeforeYear(y + 1) == DaysBeforeYear(y) + YearLength(y)
  {
    var p := y - 1;
    assert (p + 1) / 4 - p / 4 == if y % 4 == 0 then 1 else 0;
    assert (p + 1) / 100 - p / 100 == if y % 100 == 0 then 1 else 0;
    assert (p + 1) / 400 - p / 400 == if y % 400 == 0 then 1 else 0;
  }

  /** Each month adds its own length, and the twelve months add up to the year. */
  lemma MonthStep(y: int, m: int)
    requires 1 <= m <= 12
    ensures m < 12 ==> DaysBeforeMonth(y, m + 1) == DaysBeforeMonth(y, m) + DaysInMonth(y, m)
    ensures m == 12 ==> DaysBeforeMonth(y, m) + DaysInMonth(y, m) == YearLength(y)
  {
  }

  /** Later years start later. */
  lemma {:induction false} DaysBeforeYearMonotone(a: int, b: int)
    requires 1 <= a <= b
    ensures DaysBeforeYear(a) <= DaysBeforeYear(b)
    decreases b - a
  {
    if a < b {
      YearStep(a);
      DaysBeforeYearMonotone(a + 1, b);
    }
  }

  /** Every valid date has a day number between 1 and that of 31 December 9999. */
  lemma OrdinalBounds(d: Date)
    requires Valid(d)
    ensures 1 <= Ordinal(d) <= MaxOrdinal
  {
    DaysBeforeYearMonotone(1, d.year);
    DaysBeforeYearMonotone(d.year + 1, MaxYear + 1);
    YearStep(d.year);
    var m := d.month;
    assert DaysBeforeMonth(d.year, m) + DaysInMonth(d.year, m) <= YearLength(d.year) by {
      if m < 12 {
        MonthFits(d.year, m);
      } else {
        MonthStep(d.year, m);
      }
    }
  }

  lemma MonthFits(y: int, m: int)
    requires 1 <= m <= 12
    ensures DaysBeforeMonth(y, m) + DaysInMonth(y, m) <= YearLength(y)
  {
  }

  /** The calendar day after `d`. */
  function NextDay(d: Date): (r: Date)
    requires Valid(d) && d != Date(MaxYear, 12, 31)
    ensures Valid(r) && Ordinal(r) == Ordinal(d) + 1
  {
    if d.day < DaysInMonth(d.year, d.month) then
      Date(d.year, d.month, d.day + 1)
    else if d.month < 12 then
      MonthStep(d.year, d.month);
      Date(d.year, d.month + 1, 1)
    else
      MonthStep(d.year, 12);
      YearStep(d.year);
      Date(d.year + 1, 1, 1)
  }

  /** Python's `d + timedelta(days=n)`, which raises unless the sum is a representable date. */
  function AddDays(d: Date, n: nat): (r: Date)
    requires Valid(d) && Ordinal(d) + n <= MaxOrdinal
    ensures Valid(r) && Ordinal(r) == Ordinal(d) + n
    decreases n
  {
    if n == 0 then d else AddDays(NextDay(d), n - 1)
  }

  /** Day numbers identify dates: two valid dates with the same day number are equal. */
  lemma {:induction false} OrdinalInjective(a: Date, b: Date)
    requires Valid(a) && Valid(b) && Ordinal(a) == Ordinal(b)
    ensures a == b
  {
    if a.year < b.year {
      YearBeforeOrdinal(a, b);
    } else if b.year < a.year {
      YearBeforeOrdinal(b, a);
    } else if a.month < b.month {
      MonthBeforeOrdinal(a, b);
    } else if b.month < a.month {
      MonthBeforeOrdinal(b, a);
    }
  }

  lemma YearBeforeOrdinal(a: Date, b: Date)
    requires Valid(a) && Valid(b) && a.year < b.year
    ensures Ordinal(a) < Ordinal(b)
  {
    MonthFits(a.year, a.month);
    YearStep(a.year);
    DaysBeforeYearMonotone(a.year + 1, b.year);
  }

  lemma {:induction false} MonthBeforeOrdinal(a: Date, b: Date)
    requires Valid(a) && Valid(b) && a.year == b.year && a.month < b.month
    ensures Ordinal(a) < Ordinal(b)
    decreases b.month - a.month
  {
    MonthStep(a.year, a.month);
    if a.month + 1 < b.month {
      MonthBeforeOrdinal(Date(a.year, a.month + 1, 1), b);
    }
  }

  // ---------------------------------------------------------------------------
  // The "%d.%m.%Y" format

  predicate IsDigit(c: char) {
    '0' <= c <= '9'
  }

  function DigitValue(c: char): (v: int)
    requires IsDigit(c)
    ensures 0 <= v <= 9
  {
    c as int - '0' as int
  }

  function DigitChar(n: int): (c: char)
    requires 0 <= n <= 9
    ensures IsDigit(c) && DigitValue(c) == n
  {
    ('0' as int + n) as char
  }

  /** `n` in two decimal digits with a leading zero, as `%d` and `%m` print it. */
  function Pad2(n: int): string
    requires 0 <= n <= 99
  {
    [DigitChar(n / 10), DigitChar(n % 10)]
  }

  /** `n` in four decimal digits with leading zeros, as `%Y` prints it. */
  function Pad4(n: int): string
    requires 0 <= n <= 9999
  {
    [DigitChar(n / 1000), DigitChar(n / 100 % 10), DigitChar(n / 10 % 10), DigitChar(n % 10)]
  }

  /** `strftime("%d.%m.%Y")`: the canonical text of a date. */
  function Format(d: Date): (s: string)
    requires Valid(d)
    ensures |s| == 10 && s[2] == '.' && s[5] == '.'
  {
    Pad2(d.day) + "." + Pad2(d.month) + "." + Pad4(d.year)
  }

  /** The spellings `%d` accepts for day `v`: two digits, or for a day below 10 also one digit or a space and one digit. */
  predicate DaySpelling(t: string, v: int)
    requires 0 <= v <= 99
  {
    t == Pad2(v) || (v < 10 && (t == [DigitChar(v)] || t == [' ', DigitChar(v)]))
  }

  /** The spellings `%m` accepts for month `v`: two digits, or for a month below 10 also one digit. */
  predicate MonthSpelling(t: string, v: int)
    requires 0 <= v <= 99
  {
    t == Pad2(v) || (v < 10 && t == [DigitChar(v)])
  }

  function InRange(v: int, lo: int, hi: int): (r: Option<int>)
    ensures r.Some? <==> lo <= v <= hi
    ensures r.Some? ==> r.value == v
  {
    if lo <= v <= hi then Some(v) else None
  }

  /**
   * The field `%d` matches: the pattern `3[01]|[12]\d|0[1-9]|[1-9]| [1-9]`,
   * that is one or two digits for a day from 1 to 31, or a space and a digit.
   */
  function DayField(t: string): (r: Option<int>)
    ensures r.Some? ==> 1 <= r.value <= 31
  {
    if |t| == 1 && IsDigit(t[0]) then InRange(DigitValue(t[0]), 1, 9)
    else if |t| == 2 && IsDigit(t[0]) && IsDigit(t[1]) then InRange(10 * DigitValue(t[0]) + DigitValue(t[1]), 1, 31)
    else if |t| == 2 && t[0] == ' ' && IsDigit(t[1]) then InRange(DigitValue(t[1]), 1, 9)
    else None
  }

  /** The field `%m` matches: the pattern `1[0-2]|0[1-9]|[1-9]`, one or two digits for a month from 1 to 12. */
  function MonthField(t: string): (r: Option<int>)
    ensures r.Some? ==> 1 <= r.value <= 12
  {
    if |t| == 1 && IsDigit(t[0]) then InRange(DigitValue(t[0]), 1, 9)
    else if |t| == 2 && IsDigit(t[0]) && IsDigit(t[1]) then InRange(10 * DigitValue(t[0]) + DigitValue(t[1]), 1, 12)
    else None
  }

  /** The field `%Y` matches: the pattern `\d\d\d\d`, exactly four digits. */
  function YearField(t: string): (r: Option<int>)
    ensures r.Some? ==> 0 <= r.value <= 9999
  {
    if |t| == 4 && IsDigit(t[0]) && IsDigit(t[1]) && IsDigit(t[2]) && IsDigit(t[3]) then
      Some(1000 * DigitValue(t[0]) + 100 * DigitValue(t[1]) + 10 * DigitValue(t[2]) + DigitValue(t[3]))
    else None
  }

  /**
   * The three fields of `s` around its first two dots. The fields `strptime`
   * reads contain no dot, so a match of `"%d.%m.%Y"` splits `s` there.
   */
  function SplitFields(s: string): (r: Option<(string, string, string)>)
    ensures r.Some? ==> s == r.value.0 + "." + r.value.1 + "." + r.value.2 && '.' !in r.value.0 && '.' !in r.value.1
  {
    match Seqs.IndexOf(s, '.')
    case None => None
    case Some(i) =>
      var rest := s[i + 1..];
      match Seqs.IndexOf(rest, '.')
      case None => None
      case Some(j) =>
        CutAtDot(s, i);
        CutAtDot(rest, j);
        JoinAtDots(s, s[..i], rest, rest[..j], rest[j + 1..]);
        Some((s[..i], rest[..j], rest[j + 1..]))
  }

  lemma CutAtDot(s: string, i: nat)
    requires i < |s| && s[i] == '.' && forall j :: 0 <= j < i ==> s[j] != '.'
    ensures s == s[..i] + "." + s[i + 1..] && '.' !in s[..i]
  {
    assert s == s[..i] + [s[i]] + s[i + 1..];
  }

  /**
   * `datetime.strptime(s, "%d.%m.%Y").date()`, with `None` for the `ValueError`
   * it raises: the whole of `s` must match the pattern and the date must exist.
   */
  function Parse(s: string): (r: Option<Date>)
    ensures r.Some? ==> Valid(r.value)
  {
    match SplitFields(s)
    case None => None
    case Some((dt, mt, yt)) =>
      var day, month, year := DayField(dt), MonthField(mt), YearField(yt);
      if day.Some? && month.Some? && year.Some? && Valid(Date(year.value, month.value, day.value)) then
        Some(Date(year.value, month.value, day.value))
      else
        None
  }

  lemma DayFieldSpelling(t: string, v: int)
    requires 0 <= v <= 99
    ensures DayField(t) == Some(v) <==> 1 <= v <= 31 && DaySpelling(t, v)
  {
    if DayField(t) == Some(v) && |t| == 2 && IsDigit(t[0]) {
      assert t == [t[0], t[1]];
    }
  }

  lemma MonthFieldSpelling(t: string, v: int)
    requires 0 <= v <= 99
    ensures MonthField(t) == Some(v) <==> 1 <= v <= 12 && MonthSpelling(t, v)
  {
    if MonthField(t) == Some(v) && |t| == 2 {
      assert t == [t[0], t[1]];
    }
  }

  lemma YearFieldSpelling(t: string, v: int)
    requires 0 <= v <= 9999
    ensures YearField(t) == Some(v) <==> t == Pad4(v)
  {
    if YearField(t) == Some(v) {
      DigitsOfYear(DigitValue(t[0]), DigitValue(t[1]), DigitValue(t[2]), DigitValue(t[3]));
      assert t == [t[0], t[1], t[2], t[3]];
    }
    if t == Pad4(v) {
      YearOfDigits(v);
    }
  }

  lemma DigitsOfYear(a: int, b: int, c: int, e: int)
    requires 0 <= a <= 9 && 0 <= b <= 9 && 0 <= c <= 9 && 0 <= e <= 9
    ensures var v := 1000 * a + 100 * b + 10 * c + e;
      v / 1000 == a && v / 100 % 10 == b && v / 10 % 10 == c && v % 10 == e
  {
    var v := 1000 * a + 100 * b + 10 * c + e;
    assert v / 10 == 100 * a + 10 * b + c;
    assert v / 100 == 10 * a + b;
    assert v / 1000 == a;
  }

  lemma YearOfDigits(v: int)
    requires 0 <= v <= 9999
    ensures 1000 * (v / 1000) + 100 * (v / 100 % 10) + 10 * (v / 10 % 10) + v % 10 == v
  {
    assert v == 10 * (v / 10) + v % 10;
    assert v / 10 == 10 * (v / 100) + v / 10 % 10;
    assert v / 100 == 10 * (v / 1000) + v / 100 % 10;
  }

  /** None of the spellings of a field contains a dot. */
  lemma SpellingsHaveNoDot(t: string, v: int)
    requires 0 <= v <= 99
    requires DaySpelling(t, v) || MonthSpelling(t, v)
    ensures '.' !in t
  {
  }

  lemma JoinAtDots(s: string, a: string, rest: string, b: string, c: string)
    requires s == a + "." + rest && rest == b + "." + c
    ensures s == a + "." + b + "." + c
  {
  }

  /** The first dot of `a + "." + rest`, when `a` has none, is the one after `a`. */
  lemma FirstDot(a: string, rest: string)
    requires '.' !in a
    ensures Seqs.IndexOf(a + "." + rest, '.') == Some(|a|)
    ensures (a + "." + rest)[..|a|] == a && (a + "." + rest)[|a| + 1..] == rest
  {
    var s := a + "." + rest;
    assert forall j :: 0 <= j < |a| ==> s[j] == a[j];
    Seqs.IndexOfAt(s, '.', |a|);
  }

  /** Text with dots only between its fields splits into those fields. */
  lemma SplitAtDots(dt: string, mt: string, yt: string)
    requires '.' !in dt && '.' !in mt
    ensures SplitFields(dt + "." + mt + "." + yt) == Some((dt, mt, yt))
  {
    var s, rest := dt + "." + mt + "." + yt, mt + "." + yt;
    assert s == dt + "." + rest;
    FirstDot(dt, rest);
    assert Seqs.IndexOf(s, '.') == Some(|dt|) && s[..|dt|] == dt && s[|dt| + 1..] == rest;
    FirstDot(mt, yt);
    assert Seqs.IndexOf(rest, '.') == Some(|mt|) && rest[..|mt|] == mt && rest[|mt| + 1..] == yt;
  }

  /** What `strptime` accepts is a day spelling, a dot, a month spelling, a dot and a four-digit year. */
  lemma ParseSound(s: string, d: Date)
    requires Parse(s) == Some(d)
    ensures exists dt, mt :: DaySpelling(dt, d.day) && MonthSpelling(mt, d.month) && s == dt + "." + mt + "." + Pad4(d.year)
  {
    var (dt, mt, yt) := SplitFields(s).value;
    DayFieldSpelling(dt, d.day);
    MonthFieldSpelling(mt, d.month);
    YearFieldSpelling(yt, d.year);
    assert DaySpelling(dt, d.day) && MonthSpelling(mt, d.month) && s == dt + "." + mt + "." + Pad4(d.year);
  }

  /** Every spelling of every valid date is accepted, and parses to that date. */
  lemma ParseComplete(s: string, dt: string, mt: string, d: Date)
    requires Valid(d) && DaySpelling(dt, d.day) && MonthSpelling(mt, d.month)
    requires s == dt + "." + mt + "." + Pad4(d.year)
    ensures Parse(s) == Some(d)
  {
    SpellingsHaveNoDot(dt, d.day);
    SpellingsHaveNoDot(mt, d.month);
    SplitAtDots(dt, mt, Pad4(d.year));
    DayFieldSpelling(dt, d.day);
    MonthFieldSpelling(mt, d.month);
    YearFieldSpelling(Pad4(d.year), d.year);
  }

  /** The canonical text of a date parses back to that date. */
  lemma ParseFormat(d: Date)
    requires Valid(d)
    ensures Parse(Format(d)) == Some(d)
  {
    ParseComplete(Format(d), Pad2(d.day), Pad2(d.month), d);
  }

  /** Formatting is one-to-one on valid dates. */
  lemma FormatInjective(a: Date, b: Date)
    requires Valid(a) && Valid(b) && Format(a) == Format(b)
    ensures a == b
  {
    ParseFormat(a);
    ParseFormat(b);
  }
}
