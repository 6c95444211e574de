/**
 * Day identifiers in the fixed UTC+9 zone: `yyyymmdd` strings, the proleptic Gregorian
 * calendar behind them, and the day arithmetic the scheduler and the streak rule use.
 *
 * The source turns a `yyyymmdd` string into the instant of JST midnight and subtracts or adds
 * whole days in milliseconds. The +9 h offsets on the way in and on the way out cancel, so the
 * model works on day numbers: `DayNumber` counts days from 0001-01-01, `AddDaysToDate` steps
 * from day to day, and the string functions parse and format the eight-digit form.
 */
module Calendar {

  // ---------------------------------------------------------------------------------------
  // Dates and day numbers
  // ---------------------------------------------------------------------------------------

  datatype Date = Date(year: int, month: int, day: int)

  predicate IsLeapYear(y: int) {
    y % 4 == 0 && (y % 100 != 0 || y % 400 == 0)
  }

  function DaysInMonth(y: int, m: int): int {
    if m == 2 then (if IsLeapYear(y) then 29 else 28)
    else if m == 4 || m == 6 || m == 9 || m == 11 then 30
    else 31
  }

  function DaysInYear(y: int): int {
    if IsLeapYear(y) then 366 else 365
  }

  predicate ValidDate(x: Date) {
    1 <= x.month <= 12 && 1 <= x.day <= DaysInMonth(x.year, x.month)
  }

  /** Days from 0001-01-01 to January 1st of year `y` (negative before year 1). */
  function DaysBeforeYear(y: int): int {
    var p := y - 1;
    365 * p + p / 4 - p / 100 + p / 400
  }

  /** Days from January 1st of year `y` to the first day of month `m`. */
  function DaysBeforeMonth(y: int, m: int): int {
    var leap := if IsLeapYear(y) then 1 else 0;
    if m <= 1 then 0
    else if m == 2 then 31
    else if m == 3 then 59 + leap
    else if m == 4 then 90 + leap
    else if m == 5 then 120 + leap
    else if m == 6 then 151 + leap
    else if m == 7 then 181 + leap
    else if m == 8 then 212 + leap
    else if m == 9 then 243 + leap
    else if m == 10 then 273 + leap
    else if m == 11 then 304 + leap
    else 334 + leap
  }

  /** The number of days from 0001-01-01 to `x`. */
  function DayNumber(x: Date): int {
    DaysBeforeYear(x.year) + DaysBeforeMonth(x.year, x.month) + x.day - 1
  }

  lemma YearStep(y: int)
    ensures DaysBeforeYear(y + 1) == DaysBeforeYear(y) + DaysInYear(y)
  {
    DivStep(y, 4);
    DivStep(y, 100);
    DivStep(y, 400);
  }

  /** Stepping `y` by one raises `y / k` exactly when `y` is a multiple of `k`. */
  lemma DivStep(y: int, k: int)
    requires k == 4 || k == 100 || k == 400
    ensures y / k - (y - 1) / k == if y % k == 0 then 1 else 0
  {
    if k == 4 {
      assert y / 4 - (y - 1) / 4 == if y % 4 == 0 then 1 else 0;
    } else if k == 100 {
      assert y / 100 - (y - 1) / 100 == if y % 100 == 0 then 1 else 0;
    } else {
      assert y / 400 - (y - 1) / 400 == if y % 400 == 0 then 1 else 0;
    }
  }

  lemma MonthsOrdered(y: int, m: int, m': int)
    requires 1 <= m < m' <= 12
    ensures DaysBeforeMonth(y, m) + DaysInMonth(y, m) <= DaysBeforeMonth(y, m')
  {
  }

  lemma LastMonthEndsYear(y: int)
    ensures DaysBeforeMonth(y, 12) + DaysInMonth(y, 12) == DaysInYear(y)
  {
  }

  lemma {:induction false} YearsOrdered(y: int, y': int)
    requires y < y'
    ensures DaysBeforeYear(y) + DaysInYear(y) <= DaysBeforeYear(y')
    decreases y' - y
  {
    YearStep(y);
    if y + 1 < y' {
      YearsOrdered(y + 1, y');
    }
  }

  /** A valid date lies inside its own year's range of day numbers. */
  lemma DayNumberInYear(x: Date)
    requires ValidDate(x)
    ensures DaysBeforeYear(x.year) <= DayNumber(x) < DaysBeforeYear(x.year) + DaysInYear(x.year)
  {
    if x.month < 12 {
      MonthsOrdered(x.year, x.month, 12);
    }
    LastMonthEndsYear(x.year);
  }

  /** Day numbers order valid dates lexicographically by (year, month, day). */
  lemma DayNumberOrder(x: Date, z: Date)
    requires ValidDate(x) && ValidDate(z)
    ensures DayNumber(x) <= DayNumber(z) <==>
      (x.year < z.year || (x.year == z.year && (x.month < z.month || (x.month == z.month && x.day <= z.day))))
  {
    DayNumberInYear(x);
    DayNumberInYear(z);
    if x.year < z.year {
      YearsOrdered(x.year, z.year);
    } else if z.year < x.year {
      YearsOrdered(z.year, x.year);
    } else if x.month < z.month {
      MonthsOrdered(x.year, x.month, z.month);
    } else if z.month < x.month {
      MonthsOrdered(x.year, z.month, x.month);
    }
  }

  /** Distinct valid dates have distinct day numbers. */
  lemma DayNumberInjective(x: Date, z: Date)
    requires ValidDate(x) && ValidDate(z) && DayNumber(x) == DayNumber(z)
    ensures x == z
  {
    DayNumberOrder(x, z);
    DayNumberOrder(z, x);
  }

  // ---------------------------------------------------------------------------------------
  // Stepping through the calendar
  // ---------------------------------------------------------------------------------------

  function NextDay(x: Date): Date {
    if x.day < DaysInMonth(x.year, x.month) then Date(x.year, x.month, x.day + 1)
    else if x.month < 12 then Date(x.year, x.month + 1, 1)
    else Date(x.year + 1, 1, 1)
  }

  function PrevDay(x: Date): Date {
    if x.day > 1 then Date(x.year, x.month, x.day - 1)
    else if x.month > 1 then Date(x.year, x.month - 1, DaysInMonth(x.year, x.month - 1))
    else Date(x.year - 1, 12, 31)
  }

  lemma NextDayStep(x: Date)
    requires ValidDate(x)
    ensures ValidDate(NextDay(x)) && DayNumber(NextDay(x)) == DayNumber(x) + 1
  {
    if x.day < DaysInMonth(x.year, x.month) {
    } else if x.month < 12 {
      MonthStep(x.year, x.month);
    } else {
      YearStep(x.year);
    }
  }

  lemma PrevDayStep(x: Date)
    requires ValidDate(x)
    ensures ValidDate(PrevDay(x)) && DayNumber(PrevDay(x)) == DayNumber(x) - 1
  {
    if x.day > 1 {
    } else if x.month > 1 {
      MonthStep(x.year, x.month - 1);
    } else {
      YearStep(x.year - 1);
    }
  }

  /** A month starts right after the previous one ends. */
  lemma MonthStep(y: int, m: int)
    requires 1 <= m < 12
    ensures DaysBeforeMonth(y, m + 1) == DaysBeforeMonth(y, m) + DaysInMonth(y, m)
  {
  }

  /** The date `n` days after `x` (before it when `n` is negative). */
  function AddDaysToDate(x: Date, n: int): Date
    decreases if n < 0 then -n else n
  {
    if n == 0 then x
    else if n > 0 then AddDaysToDate(NextDay(x), n - 1)
    else AddDaysToDate(PrevDay(x), n + 1)
  }

  lemma {:induction false} AddDaysToDateCorrect(x: Date, n: int)
    requires ValidDate(x)
    ensures ValidDate(AddDaysToDate(x, n))
    ensures DayNumber(AddDaysToDate(x, n)) == DayNumber(x) + n
    decreases if n < 0 then -n else n
  {
    if n > 0 {
      NextDayStep(x);
      AddDaysToDateCorrect(NextDay(x), n - 1);
    } else if n < 0 {
      PrevDayStep(x);
      AddDaysToDateCorrect(PrevDay(x), n + 1);
    }
  }

  // ---------------------------------------------------------------------------------------
  // Decimal digits
  // ---------------------------------------------------------------------------------------

  predicate IsDigit(c: char) {
    '0' <= c <= '9'
  }

  predicate AllDigits(s: string) {
    forall i :: 0 <= i < |s| ==> IsDigit(s[i])
  }

  function DigitValue(c: char): int {
    c as int - '0' as int
  }

  function DigitChar(v: int): char
    requires 0 <= v <= 9
  {
    ('0' as int + v) as char
  }

  function Pow10(k: nat): (p: nat)
    ensures p >= 1
  {
    if k == 0 then 1 else 10 * Pow10(k - 1)
  }

  /** The number a string of decimal digits denotes, as JavaScript's `Number` reads it. */
  function Value(s: string): int {
    if s == [] then 0 else 10 * Value(s[..|s| - 1]) + DigitValue(s[|s| - 1])
  }

  /** `String(n)` for an integer. */
  function Decimal(n: int): string
    decreases if n < 0 then 1 - n else n
  {
    if n < 0 then "-" + Decimal(-n)
    else if n < 10 then [DigitChar(n)]
    else Decimal(n / 10) + [DigitChar(n % 10)]
  }

  /** `String(n).padStart(2, '0')`. */
  function Pad2(n: int): string {
    if 0 <= n < 10 then "0" + Decimal(n) else Decimal(n)
  }

  lemma {:induction false} ValueBounds(s: string)
    requires AllDigits(s)
    ensures 0 <= Value(s) < Pow10(|s|)
  {
    if s != [] {
      ValueBounds(s[..|s| - 1]);
    }
  }

  lemma ShiftDigit(va: int, p: int, vb: int, d: int)
    ensures 10 * (va * p + vb) + d == va * (10 * p) + (10 * vb + d)
  {
  }

  lemma {:induction false} ValueConcat(a: string, b: string)
    ensures Value(a + b) == Value(a) * Pow10(|b|) + Value(b)
    decreases |b|
  {
    if b != [] {
      var b' := b[..|b| - 1];
      assert (a + b)[..|a + b| - 1] == a + b';
      ValueConcat(a, b');
      ShiftDigit(Value(a), Pow10(|b'|), Value(b'), DigitValue(b[|b| - 1]));
    } else {
      assert a + b == a;
    }
  }

  lemma {:induction false} DecimalDigits(n: int)
    requires n >= 0
    ensures AllDigits(Decimal(n)) && Value(Decimal(n)) == n
    decreases n
  {
    var d := Decimal(n);
    if n < 10 {
      assert d == [DigitChar(n)] && d[..0] == [];
    } else {
      DecimalDigits(n / 10);
      assert d == Decimal(n / 10) + [DigitChar(n % 10)];
      assert d[..|d| - 1] == Decimal(n / 10);
      assert DigitValue(d[|d| - 1]) == n % 10;
    }
  }

  /** `String(n)` has k digits or fewer exactly when n < 10^k. */
  lemma {:induction false} DecimalLength(n: int, k: nat)
    requires n >= 0 && k >= 1
    ensures |Decimal(n)| <= k <==> n < Pow10(k)
    decreases n
  {
    if n < 10 {
      assert Pow10(k) == 10 * Pow10(k - 1);
    } else {
      if k == 1 {
        DecimalLengthPositive(n / 10);
      } else {
        DecimalLength(n / 10, k - 1);
      }
    }
  }

  lemma DecimalLengthPositive(n: int)
    requires n >= 0
    ensures |Decimal(n)| >= 1
  {
  }

  /** `String(n)` starts with a minus sign exactly when `n` is negative. */
  lemma DecimalSign(n: int)
    ensures |Decimal(n)| >= 1 && (Decimal(n)[0] == '-' <==> n < 0)
  {
    if n >= 0 {
      DecimalDigits(n);
      DecimalLengthPositive(n);
    }
  }

  /** Writing a digit string out without a superfluous leading zero gives it back. */
  lemma {:induction false} DecimalOfValue(t: string)
    requires |t| >= 1 && AllDigits(t) && (|t| == 1 || t[0] != '0')
    ensures Decimal(Value(t)) == t
    decreases |t|
  {
    var t' := t[..|t| - 1];
    var c := t[|t| - 1];
    if |t| == 1 {
      assert t == [c];
    } else {
      LeadingDigitPositive(t');
      ValueBounds(t');
      DecimalOfValue(t');
      assert Value(t) / 10 == Value(t') && Value(t) % 10 == DigitValue(c);
      assert t == t' + [c];
    }
  }

  lemma {:induction false} LeadingDigitPositive(t: string)
    requires |t| >= 1 && AllDigits(t) && t[0] != '0'
    ensures Value(t) >= 1
    decreases |t|
  {
    if |t| > 1 {
      var t' := t[..|t| - 1];
      ValueBounds(t);
      LeadingDigitPositive(t');
    }
  }

  lemma Pad2OfValue(t: string)
    requires |t| == 2 && AllDigits(t)
    ensures Pad2(Value(t)) == t
  {
    assert t[..1] == [t[0]] && t[..1][..0] == [];
    if t[0] == '0' {
      assert Value(t[..1]) == 0;
      assert Value(t) == DigitValue(t[1]);
      DecimalOfValue([t[1]]);
      assert t == "0" + [t[1]];
    } else {
      DecimalOfValue(t);
    }
  }

  lemma Pad2Digits(n: int)
    requires 0 <= n <= 99
    ensures |Pad2(n)| == 2 && AllDigits(Pad2(n)) && Value(Pad2(n)) == n
  {
    DecimalDigits(n);
    DecimalLength(n, 2);
    DecimalLength(n, 1);
    if n < 10 {
      ValueConcat("0", Decimal(n));
    }
  }

  // ---------------------------------------------------------------------------------------
  // Day identifiers (`yyyymmdd`)
  // ---------------------------------------------------------------------------------------

  /** `s.slice(i, j)`: indices past the end are clamped. */
  function Slice(s: string, i: nat, j: nat): string {
    var hi := if j <= |s| then j else |s|;
    var lo := if i <= hi then i else hi;
    s[lo..hi]
  }

  /** What `ymdToJstDate` reads from a day identifier: year, month and day fields. */
  function DateOf(s: string): Date {
    Date(Value(Slice(s, 0, 4)), Value(Slice(s, 4, 6)), Value(Slice(s, 6, 8)))
  }

  /** The day identifier `getJstYmd` formats for a calendar date. */
  function FormatDate(x: Date): string {
    Decimal(x.year) + Pad2(x.month) + Pad2(x.day)
  }

  /**
   * A well-formed day identifier: eight digits naming a real date with a four-digit year.
   * (Years below 1000 are excluded because `getJstYmd` would format them with fewer digits.)
   */
  predicate IsYmd(s: string) {
    |s| == 8 && AllDigits(s) && ValidDate(DateOf(s)) && DateOf(s).year >= 1000
  }

  /** `ymdDiff(a, b)`: whole days from `b` to `a`. */
  function YmdDiff(a: string, b: string): int {
    DayNumber(DateOf(a)) - DayNumber(DateOf(b))
  }

  /** `addDaysToYmd(ymd, n)`. */
  function AddDaysToYmd(s: string, n: int): string {
    FormatDate(AddDaysToDate(DateOf(s), n))
  }

  const DayMs: int := 24 * 3600 * 1000
  const JstOffsetMs: int := 9 * 3600 * 1000

  /** `getJstYmd(date)` for the instant `epochMs` milliseconds after 1970-01-01T00:00Z. */
  function JstYmd(epochMs: int): string {
    FormatDate(AddDaysToDate(Date(1970, 1, 1), (epochMs + JstOffsetMs) / DayMs))
  }

  /** JavaScript's `a <= b` on strings: lexicographic by character, a prefix first. */
  predicate LexLe(a: string, b: string)
    decreases |a|
  {
    if a == [] then true
    else if b == [] then false
    else if a[0] != b[0] then a[0] < b[0]
    else LexLe(a[1..], b[1..])
  }

  // ---------------------------------------------------------------------------------------
  // Properties of day identifiers
  // ---------------------------------------------------------------------------------------

  /** The numeric value of an identifier is year·10000 + month·100 + day. */
  lemma YmdValue(s: string)
    requires |s| == 8
    ensures Value(s) == DateOf(s).year * 10000 + DateOf(s).month * 100 + DateOf(s).day
  {
    var ys, ms, ds := s[..4], s[4..6], s[6..8];
    assert Slice(s, 0, 4) == ys && Slice(s, 4, 6) == ms && Slice(s, 6, 8) == ds;
    assert s == ys + ms + ds;
    var y, m, d := Value(ys), Value(ms), Value(ds);
    assert Pow10(2) == 100;
    ValueConcat(ys, ms);
    assert Value(ys + ms) == y * 100 + m;
    ValueConcat(ys + ms, ds);
    assert Value(s) == (y * 100 + m) * 100 + d;
  }

  /** Parsing a well-formed identifier and formatting it back gives the same string. */
  lemma FormatOfDateOf(s: string)
    requires IsYmd(s)
    ensures FormatDate(DateOf(s)) == s
  {
    var y, m, d := s[..4], s[4..6], s[6..8];
    assert s == y + m + d;
    assert AllDigits(y) && AllDigits(m) && AllDigits(d);
    assert Slice(s, 0, 4) == y && Slice(s, 4, 6) == m && Slice(s, 6, 8) == d;
    ValueBounds(y[1..]);
    assert y == y[..1] + y[1..] && y[..1] == [y[0]] && y[..1][..0] == [];
    ValueConcat(y[..1], y[1..]);
    assert Pow10(3) == 1000;
    assert Value(y) == DigitValue(y[0]) * 1000 + Value(y[1..]);
    DecimalOfValue(y);
    Pad2OfValue(m);
    Pad2OfValue(d);
  }

  /** Formatting a date with a four-digit year gives an identifier that parses back to it. */
  lemma DateOfFormat(x: Date)
    requires ValidDate(x) && 1000 <= x.year <= 9999
    ensures IsYmd(FormatDate(x)) && DateOf(FormatDate(x)) == x
  {
    DecimalDigits(x.year);
    DecimalLength(x.year, 4);
    DecimalLength(x.year, 3);
    Pad2Digits(x.month);
    Pad2Digits(x.day);
    var s := FormatDate(x);
    assert s[..4] == Decimal(x.year);
    assert s[4..6] == Pad2(x.month);
    assert s[6..8] == Pad2(x.day);
    assert DateOf(s) == x;
    assert forall i :: 0 <= i < 8 ==> IsDigit(s[i]) by {
      forall i | 0 <= i < 8 ensures IsDigit(s[i]) {
        if i < 4 { assert s[i] == s[..4][i]; }
        else if i < 6 { assert s[i] == s[4..6][i - 4]; }
        else { assert s[i] == s[6..8][i - 6]; }
      }
    }
  }

  /** A formatted date is a well-formed identifier only when its year has four digits. */
  lemma FormatYearRange(x: Date)
    requires ValidDate(x) && IsYmd(FormatDate(x))
    ensures 1000 <= x.year <= 9999
  {
    var s := FormatDate(x);
    DecimalSign(x.year);
    assert s[0] == Decimal(x.year)[0];
    Pad2Digits(x.month);
    Pad2Digits(x.day);
    DecimalLength(x.year, 4);
    DecimalLength(x.year, 3);
  }

  /** A day identifier differs from itself by zero days. */
  lemma YmdDiffSelf(a: string)
    ensures YmdDiff(a, a) == 0
  {
  }

  /** `ymdDiff(a, b) == -ymdDiff(b, a)`. */
  lemma YmdDiffAntisymmetric(a: string, b: string)
    ensures YmdDiff(a, b) == -YmdDiff(b, a)
  {
  }

  /** Adding zero days to a well-formed identifier returns it unchanged. */
  lemma AddZeroDays(s: string)
    requires IsYmd(s)
    ensures AddDaysToYmd(s, 0) == s
  {
    FormatOfDateOf(s);
  }

  /**
   * Adding `n` days and measuring the difference back gives `n`, whenever the result is
   * still a well-formed identifier.
   */
  lemma AddDaysThenDiff(s: string, n: int)
    requires IsYmd(s) && IsYmd(AddDaysToYmd(s, n))
    ensures YmdDiff(AddDaysToYmd(s, n), s) == n
  {
    var x := AddDaysToDate(DateOf(s), n);
    AddDaysToDateCorrect(DateOf(s), n);
    FormatYearRange(x);
    DateOfFormat(x);
  }

  /** On dates, adding days twice is adding their sum. */
  lemma AddDaysToDateCompose(x: Date, n: int, k: int)
    requires ValidDate(x)
    ensures AddDaysToDate(AddDaysToDate(x, n), k) == AddDaysToDate(x, n + k)
  {
    AddDaysToDateCorrect(x, n);
    AddDaysToDateCorrect(AddDaysToDate(x, n), k);
    AddDaysToDateCorrect(x, n + k);
    DayNumberInjective(AddDaysToDate(AddDaysToDate(x, n), k), AddDaysToDate(x, n + k));
  }

  /** Adding days twice is adding their sum. */
  lemma AddDaysCompose(s: string, n: int, k: int)
    requires IsYmd(s) && IsYmd(AddDaysToYmd(s, n))
    ensures AddDaysToYmd(AddDaysToYmd(s, n), k) == AddDaysToYmd(s, n + k)
  {
    var x := AddDaysToDate(DateOf(s), n);
    AddDaysToDateCorrect(DateOf(s), n);
    FormatYearRange(x);
    DateOfFormat(x);
    AddDaysToDateCompose(DateOf(s), n, k);
  }

  /** Two well-formed identifiers zero days apart are the same string. */
  /** Adding to `b` the days from `b` to `a` gives back `a`. */
  lemma DiffThenAddDays(a: string, b: string)
    requires IsYmd(a) && IsYmd(b)
    ensures AddDaysToYmd(b, YmdDiff(a, b)) == a
  {
    var x := AddDaysToDate(DateOf(b), YmdDiff(a, b));
    AddDaysToDateCorrect(DateOf(b), YmdDiff(a, b));
    DayNumberInjective(x, DateOf(a));
    FormatOfDateOf(a);
  }

  lemma ZeroDiffSameYmd(a: string, b: string)
    requires IsYmd(a) && IsYmd(b) && YmdDiff(a, b) == 0
    ensures a == b
  {
    DayNumberInjective(DateOf(a), DateOf(b));
    FormatOfDateOf(a);
    FormatOfDateOf(b);
  }

  /** For equal-length digit strings, string order is numeric order. */
  lemma {:induction false} LexLeDigits(a: string, b: string)
    requires |a| == |b| && AllDigits(a) && AllDigits(b)
    ensures LexLe(a, b) <==> Value(a) <= Value(b)
    decreases |a|
  {
    if a != [] {
      var n := |a| - 1;
      var a', b' := a[1..], b[1..];
      assert a == [a[0]] + a' && b == [b[0]] + b';
      ValueConcat([a[0]], a');
      ValueConcat([b[0]], b');
      assert Value([a[0]]) == DigitValue(a[0]) && Value([b[0]]) == DigitValue(b[0]);
      ValueBounds(a');
      ValueBounds(b');
      if a[0] < b[0] {
        LeadingDigitDecides(DigitValue(a[0]), Value(a'), DigitValue(b[0]), Value(b'), Pow10(n));
      } else if a[0] > b[0] {
        LeadingDigitDecides(DigitValue(b[0]), Value(b'), DigitValue(a[0]), Value(a'), Pow10(n));
      } else {
        LexLeDigits(a', b');
      }
    }
  }

  lemma LeadingDigitDecides(da: int, ra: int, db: int, rb: int, p: int)
    requires da < db && 0 <= ra < p && 0 <= rb
    ensures da * p + ra < db * p + rb
  {
    MultiplyAtLeastOnce(db - da, p);
    assert db * p == da * p + (db - da) * p;
  }

  lemma {:induction false} MultiplyAtLeastOnce(k: int, p: int)
    requires k >= 1 && p >= 0
    ensures k * p >= p
    decreases k
  {
    if k > 1 {
      MultiplyAtLeastOnce(k - 1, p);
      assert k * p == (k - 1) * p + p;
    }
  }

  /**
   * The string comparison the due filter uses (`nextDueYmd <= today`) is the calendar order:
   * for well-formed identifiers, `a <= b` exactly when `a` is not after `b`.
   */
  lemma LexLeIsChronological(a: string, b: string)
    requires IsYmd(a) && IsYmd(b)
    ensures LexLe(a, b) <==> YmdDiff(a, b) <= 0
  {
    LexLeDigits(a, b);
    YmdValue(a);
    YmdValue(b);
    DayNumberOrder(DateOf(a), DateOf(b));
  }

  /** The JST day of an instant is the number of whole days since the epoch, shifted by +9 h. */
  lemma JstYmdDayNumber(epochMs: int)
    requires IsYmd(JstYmd(epochMs))
    ensures DayNumber(DateOf(JstYmd(epochMs))) == DayNumber(Date(1970, 1, 1)) + (epochMs + JstOffsetMs) / DayMs
  {
    var x := AddDaysToDate(Date(1970, 1, 1), (epochMs + JstOffsetMs) / DayMs);
    AddDaysToDateCorrect(Date(1970, 1, 1), (epochMs + JstOffsetMs) / DayMs);
    FormatYearRange(x);
    DateOfFormat(x);
  }

  /** Twenty-four hours later falls on the next day of the epoch count. */
  lemma DayIndexNext(epochMs: int)
    ensures (epochMs + DayMs + JstOffsetMs) / DayMs == (epochMs + JstOffsetMs) / DayMs + 1
  {
  }

  /** Twenty-four hours later is the next day identifier. */
  lemma JstYmdNextDay(epochMs: int)
    requires IsYmd(JstYmd(epochMs))
    ensures JstYmd(epochMs + DayMs) == AddDaysToYmd(JstYmd(epochMs), 1)
  {
    var k := (epochMs + JstOffsetMs) / DayMs;
    DayIndexNext(epochMs);
    var e := Date(1970, 1, 1);
    var x := AddDaysToDate(e, k);
    AddDaysToDateCorrect(e, k);
    FormatYearRange(x);
    DateOfFormat(x);
    AddDaysToDateCompose(e, k, 1);
  }
}
