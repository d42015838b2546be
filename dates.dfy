/**
 * Calendar dates as the task store writes them: `YYYY-MM-DD` strings (the
 * full-date form of section 5.6 of RFC 3339), and the JavaScript `Date`
 * instants they are read from and written back to.
 *
 * A date is turned into a day number (days since 0000-01-01 in the proleptic
 * Gregorian calendar), moved by adding days, and turned back into a date. An
 * instant is a count of milliseconds since 1970-01-01T00:00:00Z, as in
 * JavaScript; `toISOString` renders it in UTC.
 */
module Dates {
  import opened Wrappers

  const MsPerDay := 86400000

  /** The day number of 1970-01-01, the JavaScript epoch. */
  const EpochDay := 719528

  /** The day number of 10000-01-01: every four-digit date lies below it. */
  const DayLimit := 3652425

  datatype Date = Date(year: int, month: int, day: int)

  /** Why a due date could not be moved. */
  datatype DateError =
    | InvalidDate      // the stored text is not a `YYYY-MM-DD` date: `new Date(...)` is invalid
    | YearOutOfRange   // the moved date leaves the years 0000 to 9999

  // ---------------------------------------------------------------------------
  // The Gregorian calendar
  // ---------------------------------------------------------------------------

  predicate IsLeapYear(y: int) {
    y % 4 == 0 && (y % 100 != 0 || y % 400 == 0)
  }

  function DaysInYear(y: int): int {
    if IsLeapYear(y) then 366 else 365
  }

  function DaysInMonth(y: int, m: int): int
    requires 1 <= m <= 12
  {
    if m == 2 then (if IsLeapYear(y) then 29 else 28)
    else if m == 4 || m == 6 || m == 9 || m == 11 then 30
    else 31
  }

  /** A date that exists in the calendar and has a four-digit year. */
  predicate ValidDate(d: Date) {
    0 <= d.year <= 9999 && 1 <= d.month <= 12 && 1 <= d.day <= DaysInMonth(d.year, d.month)
  }

  /** Days from 0000-01-01 to the first day of year `y`. */
  function DaysBeforeYear(y: int): int {
    365 * y + (y + 3) / 4 - (y + 99) / 100 + (y + 399) / 400
  }

  /** Days from the first of January to the first day of month `m` (13 stands for the next year). */
  function DaysBeforeMonth(y: int, m: int): int
    requires 1 <= m <= 13
  {
    var common :=
      if m == 1 then 0 else if m == 2 then 31 else if m == 3 then 59
      else if m == 4 then 90 else if m == 5 then 120 else if m == 6 then 151
      else if m == 7 then 181 else if m == 8 then 212 else if m == 9 then 243
      else if m == 10 then 273 else if m == 11 then 304 else if m == 12 then 334
      else 365;
    common + (if 2 < m && IsLeapYear(y) then 1 else 0)
  }

  /** Days from 0000-01-01 to `d`. */
  function DayNumber(d: Date): int
    requires ValidDate(d)
  {
    DaysBeforeYear(d.year) + DaysBeforeMonth(d.year, d.month) + d.day - 1
  }

  lemma DaysBeforeYearStep(y: int)
    ensures DaysBeforeYear(y + 1) == DaysBeforeYear(y) + DaysInYear(y)
  {
    assert (y + 4) / 4 - (y + 3) / 4 == if y % 4 == 0 then 1 else 0;
    assert (y + 100) / 100 - (y + 99) / 100 == if y % 100 == 0 then 1 else 0;
    assert (y + 400) / 400 - (y + 399) / 400 == if y % 400 == 0 then 1 else 0;
  }

  lemma DaysBeforeMonthStep(y: int, m: int)
    requires 1 <= m <= 12
    ensures DaysBeforeMonth(y, m + 1) == DaysBeforeMonth(y, m) + DaysInMonth(y, m)
    ensures DaysBeforeMonth(y, 13) == DaysInYear(y)
  {
  }

  /** Later years start at least 365 days later per year. */
  lemma {:induction false} DaysBeforeYearMonotone(a: int, b: int)
    requires a <= b
    ensures DaysBeforeYear(a) + 365 * (b - a) <= DaysBeforeYear(b)
    decreases b - a
  {
    if a < b {
      DaysBeforeYearStep(b - 1);
      DaysBeforeYearMonotone(a, b - 1);
    }
  }

  /** Earlier months of a year start earlier. */
  lemma {:induction false} DaysBeforeMonthMonotone(y: int, a: int, b: int)
    requires 1 <= a <= b <= 13
    ensures DaysBeforeMonth(y, a) + 28 * (b - a) <= DaysBeforeMonth(y, b)
    decreases b - a
  {
    if a < b {
      DaysBeforeMonthStep(y, b - 1);
      DaysBeforeMonthMonotone(y, a, b - 1);
    }
  }

  /** A valid date lies within its own year, and within the four-digit day range. */
  lemma DayNumberBounds(d: Date)
    requires ValidDate(d)
    ensures DaysBeforeYear(d.year) <= DayNumber(d) < DaysBeforeYear(d.year + 1)
    ensures 0 <= DayNumber(d) < DayLimit
  {
    DaysBeforeMonthStep(d.year, d.month);
    DaysBeforeMonthMonotone(d.year, d.month + 1, 13);
    DaysBeforeYearStep(d.year);
    DaysBeforeYearMonotone(0, d.year);
    DaysBeforeYearMonotone(d.year + 1, 10000);
  }

  /** The year that contains day number `n`, searched for upward from year `y`. */
  function YearContaining(y: int, n: int): (r: int)
    requires 0 <= y <= 9999 && DaysBeforeYear(y) <= n < DayLimit
    ensures y <= r <= 9999 && DaysBeforeYear(r) <= n < DaysBeforeYear(r + 1)
    decreases 10000 - y
  {
    if n < DaysBeforeYear(y + 1) then y
    else YearContaining(y + 1, n)
  }

  /** The month of year `y` that contains its day `k` (counted from 0), searched for upward from month `m`. */
  function MonthContaining(y: int, m: int, k: int): (r: int)
    requires 1 <= m <= 12 && DaysBeforeMonth(y, m) <= k < DaysInYear(y)
    ensures m <= r <= 12 && DaysBeforeMonth(y, r) <= k < DaysBeforeMonth(y, r + 1)
    decreases 12 - m
  {
    if k < DaysBeforeMonth(y, m + 1) then m
    else MonthContaining(y, m + 1, k)
  }

  /** The date with day number `n`: the inverse of DayNumber on the four-digit range. */
  function FromDayNumber(n: int): (d: Date)
    requires 0 <= n < DayLimit
    ensures ValidDate(d) && DayNumber(d) == n
  {
    var y := YearContaining(0, n);
    DaysBeforeYearStep(y);
    var m := MonthContaining(y, 1, n - DaysBeforeYear(y));
    DaysBeforeMonthStep(y, m);
    Date(y, m, n - DaysBeforeYear(y) - DaysBeforeMonth(y, m) + 1)
  }

  /** Chronological order on dates: by year, then month, then day. */
  predicate DateLe(a: Date, b: Date) {
    a.year < b.year ||
    (a.year == b.year && (a.month < b.month || (a.month == b.month && a.day <= b.day)))
  }

  /** A date earlier in the calendar has a smaller day number. */
  lemma DayNumberIncreasing(a: Date, b: Date)
    requires ValidDate(a) && ValidDate(b) && DateLe(a, b) && a != b
    ensures DayNumber(a) < DayNumber(b)
  {
    DayNumberBounds(a);
    DayNumberBounds(b);
    if a.year < b.year {
      DaysBeforeYearMonotone(a.year + 1, b.year);
    } else if a.month < b.month {
      DaysBeforeMonthStep(a.year, a.month);
      DaysBeforeMonthMonotone(a.year, a.month + 1, b.month);
    }
  }

  /** Day numbers order valid dates exactly as the calendar does. */
  lemma DayNumberOrder(a: Date, b: Date)
    requires ValidDate(a) && ValidDate(b)
    ensures DayNumber(a) <= DayNumber(b) <==> DateLe(a, b)
    ensures DayNumber(a) == DayNumber(b) <==> a == b
  {
    if a != b {
      if DateLe(a, b) {
        DayNumberIncreasing(a, b);
      } else {
        DayNumberIncreasing(b, a);
      }
    }
  }

  /** Round trip: reading a date's day number back gives the date. */
  lemma FromDayNumberOfDayNumber(d: Date)
    requires ValidDate(d)
    ensures 0 <= DayNumber(d) < DayLimit
    ensures FromDayNumber(DayNumber(d)) == d
  {
    DayNumberBounds(d);
    DayNumberOrder(d, FromDayNumber(DayNumber(d)));
  }

  // ---------------------------------------------------------------------------
  // Zero-padded decimal text
  // ---------------------------------------------------------------------------

  predicate IsDigit(c: char) {
    '0' <= c <= '9'
  }

  predicate AllDigits(s: string) {
    forall i :: 0 <= i < |s| ==> IsDigit(s[i])
  }

  function DigitChar(k: int): (c: char)
    requires 0 <= k <= 9
    ensures IsDigit(c)
  {
    ('0' as int + k) as char
  }

  function Pow10(w: nat): (p: nat)
    ensures 1 <= p
  {
    if w == 0 then 1 else 10 * Pow10(w - 1)
  }

  /** The last `w` decimal digits of `n`, padded with leading zeros. */
  function Pad(n: nat, w: nat): (s: string)
    ensures |s| == w && AllDigits(s)
  {
    if w == 0 then [] else Pad(n / 10, w - 1) + [DigitChar(n % 10)]
  }

  /** The number a string of decimal digits spells. */
  function DigitsValue(s: string): nat
    requires AllDigits(s)
  {
    if s == [] then 0
    else 10 * DigitsValue(s[..|s| - 1]) + (s[|s| - 1] as int - '0' as int)
  }

  /** Padding a number that fits in `w` digits loses nothing. */
  lemma {:induction false} PadValue(n: nat, w: nat)
    requires n < Pow10(w)
    ensures DigitsValue(Pad(n, w)) == n
  {
    if w != 0 {
      var s := Pad(n, w);
      assert s[..|s| - 1] == Pad(n / 10, w - 1);
      PadValue(n / 10, w - 1);
    }
  }

  /** A digit string is the padded rendering of its own value. */
  lemma {:induction false} ValuePad(s: string)
    requires AllDigits(s)
    ensures DigitsValue(s) < Pow10(|s|)
    ensures Pad(DigitsValue(s), |s|) == s
  {
    if s != [] {
      var init := s[..|s| - 1];
      ValuePad(init);
      var v := DigitsValue(s);
      assert v / 10 == DigitsValue(init) && v % 10 == s[|s| - 1] as int - '0' as int;
      assert s == init + [s[|s| - 1]];
    }
  }

  // ---------------------------------------------------------------------------
  // Full-date text: YYYY-MM-DD
  // ---------------------------------------------------------------------------

  function FormatDate(d: Date): (s: string)
    requires ValidDate(d)
    ensures |s| == 10
  {
    Pad(d.year, 4) + ("-" + (Pad(d.month, 2) + ("-" + Pad(d.day, 2))))
  }

  /** Reads a `YYYY-MM-DD` full-date; anything else, or a day the calendar lacks, is None. */
  function ParseDate(s: string): (r: Option<Date>)
    ensures r.Some? ==> ValidDate(r.value)
  {
    if |s| == 10 && s[4] == '-' && s[7] == '-'
       && AllDigits(s[..4]) && AllDigits(s[5..7]) && AllDigits(s[8..])
    then
      var d := Date(DigitsValue(s[..4]), DigitsValue(s[5..7]), DigitsValue(s[8..]));
      if ValidDate(d) then Some(d) else None
    else None
  }

  /** A well-formed `YYYY-MM-DD` due date: the only kind `defer` can read. */
  predicate IsFullDate(s: string) {
    ParseDate(s).Some?
  }

  lemma FormatDateParts(d: Date)
    requires ValidDate(d)
    ensures var s := FormatDate(d);
      s[..4] == Pad(d.year, 4) && s[4] == '-' && s[5..7] == Pad(d.month, 2)
      && s[7] == '-' && s[8..] == Pad(d.day, 2)
  {
    var s := FormatDate(d);
    assert s[..4] == Pad(d.year, 4);
    assert s[5..7] == Pad(d.month, 2);
    assert s[8..] == Pad(d.day, 2);
  }

  /** Round trip: every valid date is read back from its own text. */
  lemma ParseFormatDate(d: Date)
    requires ValidDate(d)
    ensures ParseDate(FormatDate(d)) == Some(d)
  {
    FormatDateParts(d);
    PadValue(d.year, 4);
    PadValue(d.month, 2);
    PadValue(d.day, 2);
  }

  /** Round trip: formatting a parsed full-date gives back the original text. */
  lemma FormatParseDate(s: string)
    requires IsFullDate(s)
    ensures FormatDate(ParseDate(s).value) == s
  {
    ValuePad(s[..4]);
    ValuePad(s[5..7]);
    ValuePad(s[8..]);
    var t := FormatDate(ParseDate(s).value);
    FormatDateParts(ParseDate(s).value);
    assert s == s[..4] + ("-" + (s[5..7] + ("-" + s[8..])));
  }

  /** Full-date text contains digits and dashes only, so never the letter T. */
  lemma FormatDateHasNoT(d: Date)
    requires ValidDate(d)
    ensures 'T' !in FormatDate(d)
  {
    FormatDateParts(d);
    var s := FormatDate(d);
    forall i | 0 <= i < |s| ensures s[i] != 'T' {
      if i < 4 { assert s[i] == s[..4][i]; }
      else if 5 <= i < 7 { assert s[i] == s[5..7][i - 5]; }
      else if 8 <= i { assert s[i] == s[8..][i - 8]; }
    }
  }

  // ---------------------------------------------------------------------------
  // Text order
  // ---------------------------------------------------------------------------

  /**
   * `a <= b` on text as SQLite's default (binary) collation compares it:
   * character by character, a proper prefix first. On UTF-8 bytes this agrees
   * with comparing code points, which is what is done here.
   */
  function LexLe(a: string, b: string): (r: bool)
    ensures a <= b ==> r
    decreases |a|
  {
    if a == [] then true
    else if b == [] then false
    else if a[0] != b[0] then a[0] < b[0]
    else LexLe(a[1..], b[1..])
  }

  /** Text order is total: of two strings, one is at most the other. */
  lemma {:induction false} LexLeTotal(a: string, b: string)
    ensures LexLe(a, b) || LexLe(b, a)
    decreases |a|
  {
    if a != [] && b != [] && a[0] == b[0] {
      LexLeTotal(a[1..], b[1..]);
    }
  }

  /** Behind a common-length head, text order is decided by the heads unless they are equal. */
  lemma {:induction false} LexLeAppend(x: string, y: string, r1: string, r2: string)
    requires |x| == |y|
    ensures LexLe(x + r1, y + r2) == if x == y then LexLe(r1, r2) else LexLe(x, y)
    decreases |x|
  {
    if x == [] {
      assert x + r1 == r1 && y + r2 == r2;
    } else {
      var a, b := x + r1, y + r2;
      assert a[0] == x[0] && b[0] == y[0] && a != [] && b != [];
      if x[0] != y[0] {
        assert x != y;
        assert LexLe(a, b) == (x[0] < y[0]);
      } else {
        assert a[1..] == x[1..] + r1 && b[1..] == y[1..] + r2;
        LexLeAppend(x[1..], y[1..], r1, r2);
        assert LexLe(a, b) == LexLe(a[1..], b[1..]);
        assert LexLe(x, y) == LexLe(x[1..], y[1..]);
        assert x == y <==> x[1..] == y[1..] by {
          assert x == [x[0]] + x[1..] && y == [y[0]] + y[1..];
        }
      }
    }
  }

  /** On zero-padded numbers of one width, text order is numeric order. */
  lemma {:induction false} PadOrder(a: nat, b: nat, w: nat)
    requires a < Pow10(w) && b < Pow10(w)
    ensures LexLe(Pad(a, w), Pad(b, w)) == (a <= b)
    ensures Pad(a, w) == Pad(b, w) <==> a == b
  {
    PadValue(a, w);
    PadValue(b, w);
    if w != 0 {
      var x, y := Pad(a / 10, w - 1), Pad(b / 10, w - 1);
      var da, db := [DigitChar(a % 10)], [DigitChar(b % 10)];
      PadOrder(a / 10, b / 10, w - 1);
      LexLeAppend(x, y, da, db);
      assert da[1..] == [] && db[1..] == [];
    }
  }

  /** Text order of full-dates is calendar order. */
  lemma FormatDateOrder(a: Date, b: Date)
    requires ValidDate(a) && ValidDate(b)
    ensures LexLe(FormatDate(a), FormatDate(b)) == DateLe(a, b)
  {
    var ma, mb := Pad(a.month, 2) + ("-" + Pad(a.day, 2)), Pad(b.month, 2) + ("-" + Pad(b.day, 2));
    PadOrder(a.year, b.year, 4);
    PadOrder(a.month, b.month, 2);
    PadOrder(a.day, b.day, 2);
    LexLeAppend(Pad(a.year, 4), Pad(b.year, 4), "-" + ma, "-" + mb);
    LexLeAppend("-", "-", ma, mb);
    LexLeAppend(Pad(a.month, 2), Pad(b.month, 2), "-" + Pad(a.day, 2), "-" + Pad(b.day, 2));
    LexLeAppend("-", "-", Pad(a.day, 2), Pad(b.day, 2));
    assert Pad(a.day, 2) == Pad(a.day, 2) + [] && Pad(b.day, 2) == Pad(b.day, 2) + [];
    LexLeAppend(Pad(a.day, 2), Pad(b.day, 2), [], []);
  }

  /**
   * For well-formed full-dates, comparing the text agrees with comparing the
   * days: the property the "due today" query relies on.
   */
  lemma FullDateTextOrder(s: string, t: string)
    requires IsFullDate(s) && IsFullDate(t)
    ensures LexLe(s, t) <==> DayNumber(ParseDate(s).value) <= DayNumber(ParseDate(t).value)
  {
    FormatParseDate(s);
    FormatParseDate(t);
    FormatDateOrder(ParseDate(s).value, ParseDate(t).value);
    DayNumberOrder(ParseDate(s).value, ParseDate(t).value);
  }

  // ---------------------------------------------------------------------------
  // JavaScript instants and toISOString
  // ---------------------------------------------------------------------------

  /**
   * The time value of a JavaScript `Date`, split as ECMAScript splits it: the
   * day it falls on (here as a day number) and the milliseconds into that day.
   */
  datatype Instant = Instant(day: int, msOfDay: int)

  /** `new Date(t)` for `t` milliseconds since 1970-01-01T00:00:00Z. */
  function FromEpochMs(t: int): (i: Instant)
    ensures 0 <= i.msOfDay < MsPerDay
    ensures (i.day - EpochDay) * MsPerDay + i.msOfDay == t
  {
    Instant(EpochDay + t / MsPerDay, t % MsPerDay)
  }

  /** Instants whose `toISOString` has a four-digit year. */
  predicate InIsoRange(i: Instant) {
    0 <= i.day < DayLimit && 0 <= i.msOfDay < MsPerDay
  }

  /** `HH:mm:ss.sssZ` for a millisecond offset into a UTC day. */
  function FormatTime(ms: int): (s: string)
    requires 0 <= ms < MsPerDay
    ensures |s| == 13 && s[2] == ':' && s[5] == ':' && s[8] == '.' && s[12] == 'Z'
  {
    Pad(ms / 3600000, 2) + ":" + Pad(ms / 60000 % 60, 2) + ":" + Pad(ms / 1000 % 60, 2)
    + "." + Pad(ms % 1000, 3) + "Z"
  }

  /** A positive multiple of a positive number is at least that number. */
  lemma {:induction false} MulAtLeast(k: int, d: int)
    requires 0 < k && 1 <= d
    ensures k <= k * d
    decreases d
  {
    if d > 1 {
      MulAtLeast(k, d - 1);
      assert k * d == k * (d - 1) + k;
    }
  }

  /** Euclidean division is determined by quotient and remainder. */
  lemma DivModUnique(n: int, k: int, q: int, r: int)
    requires 0 < k && 0 <= r < k && n == k * q + r
    ensures n / k == q && n % k == r
  {
    var q', r' := n / k, n % k;
    assert k * q' + r' == k * q + r;
    if q < q' {
      assert k * (q' - q) == k * q' - k * q;
      MulAtLeast(k, q' - q);
    } else if q' < q {
      assert k * (q - q') == k * q - k * q';
      MulAtLeast(k, q - q');
    }
  }

  /** The hour, minute, second and millisecond fields of a time of day add back up to it. */
  lemma TimeFields(ms: int)
    requires 0 <= ms < MsPerDay
    ensures ms / 3600000 < 24 && ms / 60000 % 60 < 60 && ms / 1000 % 60 < 60
    ensures (ms / 3600000) * 3600000 + (ms / 60000 % 60) * 60000 + (ms / 1000 % 60) * 1000 + ms % 1000 == ms
  {
    var h, rh := ms / 3600000, ms % 3600000;
    var m, rm := rh / 60000, rh % 60000;
    var sec, milli := rm / 1000, rm % 1000;
    assert m < 60 && sec < 60;
    DivModUnique(ms, 60000, 60 * h + m, rm);
    DivModUnique(ms / 60000, 60, h, m);
    DivModUnique(ms, 1000, 3600 * h + 60 * m + sec, milli);
    DivModUnique(ms / 1000, 60, 60 * h + m, sec);
  }

  /**
   * The time text reads back: its hour, minute, second and millisecond
   * fields are digits within their ranges and spell out `ms`.
   */
  lemma FormatTimeReadsBack(ms: int)
    requires 0 <= ms < MsPerDay
    ensures var s := FormatTime(ms);
      AllDigits(s[..2]) && AllDigits(s[3..5]) && AllDigits(s[6..8]) && AllDigits(s[9..12])
      && DigitsValue(s[..2]) < 24 && DigitsValue(s[3..5]) < 60 && DigitsValue(s[6..8]) < 60
      && DigitsValue(s[..2]) * 3600000 + DigitsValue(s[3..5]) * 60000
         + DigitsValue(s[6..8]) * 1000 + DigitsValue(s[9..12]) == ms
  {
    var s := FormatTime(ms);
    var h, m, sec, milli := ms / 3600000, ms / 60000 % 60, ms / 1000 % 60, ms % 1000;
    TimeFields(ms);
    assert Pow10(2) == 100 && Pow10(3) == 1000;
    assert s[..2] == Pad(h, 2) && s[3..5] == Pad(m, 2);
    assert s[6..8] == Pad(sec, 2) && s[9..12] == Pad(milli, 3);
    PadValue(h, 2);
    PadValue(m, 2);
    PadValue(sec, 2);
    PadValue(milli, 3);
  }

  /** `toISOString()`: `YYYY-MM-DDTHH:mm:ss.sssZ` in UTC. */
  function ToIsoString(i: Instant): (s: string)
    requires InIsoRange(i)
    ensures |s| == 24 && s[4] == '-' && s[7] == '-' && s[10] == 'T' && s[23] == 'Z'
  {
    FormatDate(FromDayNumber(i.day)) + ("T" + FormatTime(i.msOfDay))
  }

  /**
   * `x.setDate(x.getDate() + days)` read in UTC: the day of the month is
   * moved, overflowing into later months and years, and the time of day kept.
   */
  function PlusDays(i: Instant, days: int): (r: Instant)
    ensures r.day == i.day + days && r.msOfDay == i.msOfDay
  {
    i.(day := i.day + days)
  }

  /** `s.split('T')[0]`: the text before the first `T`, or all of it. */
  function DatePart(s: string): (r: string)
    ensures 'T' !in r
    ensures r <= s
    ensures |r| < |s| ==> s[|r|] == 'T'
  {
    if s == [] || s[0] == 'T' then [] else [s[0]] + DatePart(s[1..])
  }

  lemma {:induction false} DatePartStopsAtT(x: string, rest: string)
    requires 'T' !in x
    ensures DatePart(x + ("T" + rest)) == x
  {
    if x != [] {
      assert (x + ("T" + rest))[1..] == x[1..] + ("T" + rest);
      assert x[0] in x;
      assert 'T' !in x[1..] by {
        forall i | 0 <= i < |x[1..]| ensures x[1..][i] != 'T' { assert x[1..][i] == x[i + 1]; }
      }
      DatePartStopsAtT(x[1..], rest);
    } else {
      assert x + ("T" + rest) == "T" + rest;
    }
  }

  /** The date part of an ISO timestamp is the full-date of its UTC day. */
  lemma IsoDatePart(i: Instant)
    requires InIsoRange(i)
    ensures DatePart(ToIsoString(i)) == FormatDate(FromDayNumber(i.day))
  {
    var d := FromDayNumber(i.day);
    FormatDateHasNoT(d);
    DatePartStopsAtT(FormatDate(d), FormatTime(i.msOfDay));
  }

  /** The clock readings whose UTC date has a four-digit year. */
  predicate ClockInRange(now: int) {
    InIsoRange(FromEpochMs(now))
  }

  /** `new Date().toISOString().split('T')[0]`, with the clock reading `now`. */
  function DateToday(now: int): (r: string)
    requires ClockInRange(now)
    ensures r == FormatDate(FromDayNumber(FromEpochMs(now).day))
  {
    IsoDatePart(FromEpochMs(now));
    DatePart(ToIsoString(FromEpochMs(now)))
  }

  /** Today's date is a well-formed full-date naming the UTC day of `now`. */
  lemma DateTodayIsUtcDay(now: int)
    requires ClockInRange(now)
    ensures IsFullDate(DateToday(now))
    ensures DayNumber(ParseDate(DateToday(now)).value) == FromEpochMs(now).day
  {
    IsoDatePart(FromEpochMs(now));
    ParseFormatDate(FromDayNumber(FromEpochMs(now).day));
  }

  /** `new Date("YYYY-MM-DD")`: a date-only string is read as UTC midnight of that day. */
  function MidnightOf(d: Date): (i: Instant)
    requires ValidDate(d)
    ensures i.day == DayNumber(d) && i.msOfDay == 0
  {
    Instant(DayNumber(d), 0)
  }

  /**
   * The due date `defer` writes: the date read from `due`, moved by `days`
   * calendar days with `setDate(getDate() + days)`, and written back with
   * `toISOString().split('T')[0]`.
   */
  function DeferredDate(due: string, days: int): (r: Result<string, DateError>)
    ensures r == Err(InvalidDate) <==> ParseDate(due).None?
    ensures ParseDate(due).Some? ==>
              (r.Ok? <==> 0 <= DayNumber(ParseDate(due).value) + days < DayLimit)
    ensures r.Ok? ==> 'T' !in r.value
  {
    match ParseDate(due)
    case None => Err(InvalidDate)
    case Some(d) =>
      var i := PlusDays(MidnightOf(d), days);
      if InIsoRange(i) then Ok(DatePart(ToIsoString(i))) else Err(YearOutOfRange)
  }

  /** Calendar arithmetic on full-date text: parse, add `days` to the day number, format. */
  function AddDays(due: string, days: int): (r: Result<string, DateError>)
    ensures r == Err(InvalidDate) <==> ParseDate(due).None?
    ensures r.Ok? ==> |r.value| == 10
  {
    match ParseDate(due)
    case None => Err(InvalidDate)
    case Some(d) =>
      var n := DayNumber(d) + days;
      if 0 <= n < DayLimit then Ok(FormatDate(FromDayNumber(n))) else Err(YearOutOfRange)
  }

  /** Moving a due date through a JavaScript instant is plain day arithmetic. */
  lemma DeferredDateIsAddDays(due: string, days: int)
    ensures DeferredDate(due, days) == AddDays(due, days)
  {
    if ParseDate(due).Some? {
      var i := PlusDays(MidnightOf(ParseDate(due).value), days);
      if InIsoRange(i) {
        IsoDatePart(i);
      }
    }
  }

  /** A moved date is again a well-formed full-date, `days` days after the old one. */
  lemma AddDaysIsFullDate(due: string, days: int)
    requires AddDays(due, days).Ok?
    ensures IsFullDate(AddDays(due, days).value)
    ensures DayNumber(ParseDate(AddDays(due, days).value).value)
            == DayNumber(ParseDate(due).value) + days
  {
    var d := ParseDate(due).value;
    var n := DayNumber(d) + days;
    assert 0 <= n < DayLimit;
    var e := FromDayNumber(n);
    assert AddDays(due, days).value == FormatDate(e);
    ParseFormatDate(e);
  }

  /** Adding zero days rewrites a well-formed full-date unchanged. */
  lemma AddZeroDays(due: string)
    requires IsFullDate(due)
    ensures AddDays(due, 0) == Ok(due)
  {
    FromDayNumberOfDayNumber(ParseDate(due).value);
    FormatParseDate(due);
  }

  /** Adding `a` and then `b` days is adding `a + b` days. */
  lemma AddDaysAdditive(due: string, a: int, b: int)
    requires AddDays(due, a).Ok?
    ensures AddDays(AddDays(due, a).value, b) == AddDays(due, a + b)
  {
    AddDaysIsFullDate(due, a);
  }

  /** Adding a positive number of days moves the date strictly later in text order too. */
  lemma AddDaysMovesLater(due: string, days: int)
    requires AddDays(due, days).Ok? && 0 < days
    ensures LexLe(due, AddDays(due, days).value)
    ensures !LexLe(AddDays(due, days).value, due)
  {
    AddDaysIsFullDate(due, days);
    FullDateTextOrder(due, AddDays(due, days).value);
    FullDateTextOrder(AddDays(due, days).value, due);
  }

  /** Text order is reflexive. */
  lemma {:induction false} LexLeReflexive(s: string)
    ensures LexLe(s, s)
    decreases |s|
  {
    if s != [] {
      LexLeReflexive(s[1..]);
    }
  }
}
