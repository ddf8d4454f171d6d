/**
 * Local calendar dates as integer day numbers (day 0 is 1970-01-01), the proleptic
 * Gregorian calendar used by JavaScript's `Date`, and the conversions between a day number
 * and a (year, month, day) triple.
 */
module Calendar {
  import opened Text

  predicate IsLeap(y: int) {
    y % 4 == 0 && (y % 100 != 0 || y % 400 == 0)
  }

  function DaysInYear(y: int): int {
    if IsLeap(y) then 366 else 365
  }

  function DaysInMonth(y: int, m: int): int
    requires 1 <= m <= 12
  {
    if m == 2 then (if IsLeap(y) then 29 else 28)
    else if m == 4 || m == 6 || m == 9 || m == 11 then 30
    else 31
  }

  /** The number of days of year `y` that precede month `m` (month 13 stands for the year's end). */
  function DaysBeforeMonth(y: int, m: int): int
    requires 1 <= m <= 13
  {
    var base :=
      if m == 1 then 0 else if m == 2 then 31 else if m == 3 then 59 else if m == 4 then 90
      else if m == 5 then 120 else if m == 6 then 151 else if m == 7 then 181
      else if m == 8 then 212 else if m == 9 then 243 else if m == 10 then 273
      else if m == 11 then 304 else if m == 12 then 334 else 365;
    base + (if m > 2 && IsLeap(y) then 1 else 0)
  }

  lemma MonthStep(y: int, m: int)
    requires 1 <= m <= 12
    ensures DaysBeforeMonth(y, m + 1) == DaysBeforeMonth(y, m) + DaysInMonth(y, m)
    ensures DaysBeforeMonth(y, 13) == DaysInYear(y)
  {
  }

  /** Leap years before year `y`, counted from a fixed origin (floor division). */
  function LeapsBefore(y: int): int {
    (y - 1) / 4 - (y - 1) / 100 + (y - 1) / 400
  }

  /** The day number of January 1st of year `y`. */
  function DaysBeforeYear(y: int): int {
    365 * (y - 1970) + LeapsBefore(y) - LeapsBefore(1970)
  }

  lemma DivStep(y: int, k: int)
    requires k == 4 || k == 100 || k == 400
    ensures y / k - (y - 1) / k == if y % k == 0 then 1 else 0
  {
    var q, r := (y - 1) / k, (y - 1) % k;
    assert y - 1 == k * q + r && 0 <= r < k;
    if r == k - 1 {
      assert y == k * (q + 1);
      assert y / k == q + 1 && y % k == 0;
    } else {
      assert y == k * q + (r + 1) && 0 <= r + 1 < k;
      assert y / k == q && y % k == r + 1;
    }
  }

  lemma LeapDivisors(y: int)
    ensures y % 100 == 0 ==> y % 4 == 0
    ensures y % 400 == 0 ==> y % 100 == 0
  {
    if y % 100 == 0 {
      var q := y / 100;
      assert y == 4 * (25 * q);
    }
    if y % 400 == 0 {
      var q := y / 400;
      assert y == 100 * (4 * q);
    }
  }

  lemma YearStep(y: int)
    ensures DaysBeforeYear(y + 1) == DaysBeforeYear(y) + DaysInYear(y)
  {
    DivStep(y, 4);
    DivStep(y, 100);
    DivStep(y, 400);
    LeapDivisors(y);
    var step := (y / 4 - (y - 1) / 4) - (y / 100 - (y - 1) / 100) + (y / 400 - (y - 1) / 400);
    assert LeapsBefore(y + 1) - LeapsBefore(y) == step;
    assert step == if IsLeap(y) then 1 else 0;
  }

  lemma {:induction false} YearsMonotone(a: int, b: int)
    requires a < b
    ensures DaysBeforeYear(a + 1) <= DaysBeforeYear(b)
    decreases b - a
  {
    YearStep(a);
    if a + 1 < b {
      YearsMonotone(a + 1, b);
      YearStep(a + 1);
    }
  }

  /** A day number lies in exactly one year. */
  lemma YearUnique(y1: int, y2: int, n: int)
    requires DaysBeforeYear(y1) <= n < DaysBeforeYear(y1 + 1)
    requires DaysBeforeYear(y2) <= n < DaysBeforeYear(y2 + 1)
    ensures y1 == y2
  {
    if y1 < y2 {
      YearsMonotone(y1, y2);
    } else if y2 < y1 {
      YearsMonotone(y2, y1);
    }
  }

  function YearUp(n: int, y: int): (r: int)
    requires DaysBeforeYear(y) <= n
    ensures DaysBeforeYear(r) <= n < DaysBeforeYear(r + 1)
    decreases n - DaysBeforeYear(y)
  {
    YearStep(y);
    if n < DaysBeforeYear(y + 1) then y else YearUp(n, y + 1)
  }

  function YearDown(n: int, y: int): (r: int)
    requires n < DaysBeforeYear(y + 1)
    ensures DaysBeforeYear(r) <= n < DaysBeforeYear(r + 1)
    decreases DaysBeforeYear(y + 1) - n
  {
    YearStep(y - 1);
    if DaysBeforeYear(y) <= n then y else YearDown(n, y - 1)
  }

  /** The year containing day `n`. */
  function YearOf(n: int): (y: int)
    ensures DaysBeforeYear(y) <= n < DaysBeforeYear(y + 1)
  {
    if n >= 0 then YearUp(n, 1970) else YearDown(n, 1969)
  }

  function MonthFrom(y: int, r: int, m: int): (k: int)
    requires 1 <= m <= 12 && DaysBeforeMonth(y, m) <= r < DaysBeforeMonth(y, 13)
    ensures m <= k <= 12 && DaysBeforeMonth(y, k) <= r < DaysBeforeMonth(y, k + 1)
    decreases 12 - m
  {
    if r < DaysBeforeMonth(y, m + 1) then m else MonthFrom(y, r, m + 1)
  }

  lemma MonthUnique(y: int, r: int, k: int, m: int)
    requires 1 <= k <= 12 && 1 <= m <= 12
    requires DaysBeforeMonth(y, k) <= r < DaysBeforeMonth(y, k + 1)
    requires DaysBeforeMonth(y, m) <= r < DaysBeforeMonth(y, m + 1)
    ensures k == m
  {
  }

  datatype Civil = Civil(year: int, month: int, day: int)

  /** A real calendar date: a month 1..12 and a day that exists in that month. */
  predicate ValidCivil(c: Civil) {
    1 <= c.month <= 12 && 1 <= c.day <= DaysInMonth(c.year, c.month)
  }

  /** The day number of a calendar date. */
  function DaysFromCivil(c: Civil): int
    requires 1 <= c.month <= 12
  {
    DaysBeforeYear(c.year) + DaysBeforeMonth(c.year, c.month) + c.day - 1
  }

  /** The calendar date of a day number. */
  function CivilFromDays(n: int): (c: Civil)
    ensures ValidCivil(c) && DaysFromCivil(c) == n
  {
    var y := YearOf(n);
    YearStep(y);
    MonthStep(y, 1);
    var r := n - DaysBeforeYear(y);
    var m := MonthFrom(y, r, 1);
    MonthStep(y, m);
    Civil(y, m, r - DaysBeforeMonth(y, m) + 1)
  }

  /** Each calendar date has one day number and is recovered from it. */
  lemma CivilRoundTrip(c: Civil)
    requires ValidCivil(c)
    ensures CivilFromDays(DaysFromCivil(c)) == c
  {
    CivilUnique(c, CivilFromDays(DaysFromCivil(c)));
  }

  /** Two real dates with the same day number are the same date. */
  lemma CivilUnique(c: Civil, d: Civil)
    requires ValidCivil(c) && ValidCivil(d) && DaysFromCivil(c) == DaysFromCivil(d)
    ensures c == d
  {
    var n := DaysFromCivil(c);
    DateInYear(c);
    DateInYear(d);
    YearUnique(c.year, d.year, n);
    MonthUnique(c.year, n - DaysBeforeYear(c.year), c.month, d.month);
  }

  /** A real date's day number lies in its year, and within the year in its month. */
  lemma DateInYear(c: Civil)
    requires ValidCivil(c)
    ensures DaysBeforeYear(c.year) <= DaysFromCivil(c) < DaysBeforeYear(c.year + 1)
    ensures DaysBeforeMonth(c.year, c.month) <= DaysFromCivil(c) - DaysBeforeYear(c.year) < DaysBeforeMonth(c.year, c.month + 1)
  {
    MonthStep(c.year, c.month);
    YearStep(c.year);
    assert DaysBeforeMonth(c.year, c.month + 1) <= DaysBeforeMonth(c.year, 13);
  }

  /**
   * The day number of JavaScript's local `new Date(year, monthIndex, day)`:
   * a year 0..99 means 1900..1999, a month index outside 0..11 carries into the
   * year, and a day outside the month carries into the neighbouring months.
   */
  function MakeDay(year: int, monthIndex: int, day: int): int {
    var y := if 0 <= year <= 99 then 1900 + year else year;
    var ym := y + monthIndex / 12;
    DaysBeforeYear(ym) + DaysBeforeMonth(ym, monthIndex % 12 + 1) + day - 1
  }

  /** On a real date with a year outside 0..99, `new Date(y, m - 1, d)` is that very date. */
  lemma MakeDayOfValid(c: Civil)
    requires ValidCivil(c) && !(0 <= c.year <= 99)
    ensures MakeDay(c.year, c.month - 1, c.day) == DaysFromCivil(c)
  {
  }

  /** JavaScript's `Date` covers 100,000,000 days either side of the epoch; beyond that it is Invalid Date. */
  const MaxDay := 100_000_000

  /** A day number that a `Date` can hold; any other stands for an Invalid Date. */
  predicate ValidDay(d: int) {
    -MaxDay <= d <= MaxDay
  }

  /** The day of a valid `Date`. */
  type DateDay = d: int | -MaxDay <= d <= MaxDay

  /**
   * The current moment: today's day number and whether any time has passed since
   * today's midnight. `new Date()` is always a valid date.
   */
  datatype Now = Now(today: DateDay, pastMidnight: bool)

  /** The midnight that starts day `d` is strictly before the moment `now`. */
  predicate MidnightBefore(d: int, now: Now) {
    d < now.today || (d == now.today && now.pastMidnight)
  }

  /** `new Date().getFullYear()` */
  function CurrentYear(now: Now): int {
    CivilFromDays(now.today).year
  }

  /** `${year}/${month padded to 2}/${day padded to 2}` of a day number. */
  function FormatSlashDate(n: int): string {
    FormatCivil(CivilFromDays(n))
  }

  /** What `${getFullYear()}/${month}/${day}` prints for an Invalid Date: `NaN` in all three places. */
  const InvalidDateText := "NaN/NaN/NaN"

  /** The `YYYY/MM/DD` text of a `Date` that may be invalid. */
  function DateText(d: int): string {
    if ValidDay(d) then FormatSlashDate(d) else InvalidDateText
  }

  /** The text is the `NaN` one exactly for an Invalid Date; a valid date prints its `YYYY/MM/DD`. */
  lemma DateTextMarksInvalid(d: int)
    ensures DateText(d) == InvalidDateText <==> !ValidDay(d)
    ensures ValidDay(d) ==> DateText(d) == FormatSlashDate(d)
    ensures DateText(d) != ""
  {
    if ValidDay(d) {
      var c := CivilFromDays(d);
      var y := IntToString(c.year);
      assert FormatSlashDate(d)[0] == y[0];
      if c.year >= 0 {
        assert IsDigit(NatToString(c.year)[0]);
      }
      assert y[0] != 'N';
    }
  }

  /** A calendar date as `YYYY/MM/DD` (the year unpadded). */
  function FormatCivil(c: Civil): string
    requires ValidCivil(c)
  {
    IntToString(c.year) + "/" + PadStart2(NatToString(c.month)) + "/" + PadStart2(NatToString(c.day))
  }

  lemma SplitSlashDate(ya: string, ma: string, da: string, yb: string, mb: string, db: string)
    requires |ma| == 2 && |mb| == 2 && |da| == 2 && |db| == 2
    requires ya + "/" + ma + "/" + da == yb + "/" + mb + "/" + db
    ensures ya == yb && ma == mb && da == db
  {
    var f := ya + "/" + ma + "/" + da;
    assert |ya| == |yb|;
    assert ya == f[..|ya|] == yb;
    assert ma == f[|ya| + 1..|ya| + 3] == mb;
    assert da == f[|ya| + 4..] == db;
  }

  lemma PaddedInjective(m: nat, k: nat)
    requires PadStart2(NatToString(m)) == PadStart2(NatToString(k))
    ensures m == k
  {
    DigitsValuePadded(NatToString(m));
    DigitsValuePadded(NatToString(k));
  }

  /** Distinct days print differently. */
  lemma FormatSlashDateInjective(a: int, b: int)
    requires FormatSlashDate(a) == FormatSlashDate(b)
    ensures a == b
  {
    CivilTextInjective(CivilFromDays(a), CivilFromDays(b));
  }

  /** The printed form of a valid date determines the date. */
  lemma CivilTextInjective(ca: Civil, cb: Civil)
    requires ValidCivil(ca) && ValidCivil(cb)
    requires FormatCivil(ca) == FormatCivil(cb)
    ensures ca == cb
  {
    ValidCivilBounds(ca);
    ValidCivilBounds(cb);
    PartsInjective(ca.year, ca.month, ca.day, cb.year, cb.month, cb.day);
  }

  lemma ValidCivilBounds(c: Civil)
    requires ValidCivil(c)
    ensures 1 <= c.month <= 12 && 1 <= c.day <= 31
  {
  }

  lemma PartsInjective(y1: int, m1: int, d1: int, y2: int, m2: int, d2: int)
    requires 1 <= m1 < 100 && 1 <= d1 < 100 && 1 <= m2 < 100 && 1 <= d2 < 100
    requires IntToString(y1) + "/" + PadStart2(NatToString(m1)) + "/" + PadStart2(NatToString(d1))
      == IntToString(y2) + "/" + PadStart2(NatToString(m2)) + "/" + PadStart2(NatToString(d2))
    ensures y1 == y2 && m1 == m2 && d1 == d2
  {
    PaddedPart(m1);
    PaddedPart(m2);
    PaddedPart(d1);
    PaddedPart(d2);
    SplitSlashDate(IntToString(y1), PadStart2(NatToString(m1)), PadStart2(NatToString(d1)),
      IntToString(y2), PadStart2(NatToString(m2)), PadStart2(NatToString(d2)));
    IntToStringInjective(y1, y2);
  }

  lemma IntToStringInjective(a: int, b: int)
    requires IntToString(a) == IntToString(b)
    ensures a == b
  {
    if a < 0 && b < 0 {
      assert NatToString(-a) == IntToString(a)[1..] == NatToString(-b);
    }
  }

  /** Dates whose year has four digits lie well inside the range of JavaScript's `Date`. */
  lemma FourDigitYearInRange(c: Civil)
    requires ValidCivil(c) && 1000 <= c.year <= 9999
    ensures -MaxDay <= DaysFromCivil(c) <= MaxDay
  {
    DateInYear(c);
    YearsMonotone(c.year, 10000);
    if c.year > 1000 {
      YearsMonotone(999, c.year);
    }
  }

  /** A month or day number printed with `padStart(2, "0")`: two digits that read back as it. */
  lemma PaddedPart(k: int)
    requires 1 <= k < 100
    ensures |PadStart2(NatToString(k))| == 2 && AllDigits(PadStart2(NatToString(k)))
    ensures DigitsValue(PadStart2(NatToString(k))) == k
  {
    NatToStringLength(k);
    DigitsValuePadded(NatToString(k));
  }

  /**
   * The pieces of the `YYYY/MM/DD` text of a date with a four-digit year: digits that read
   * back as its year, month and day; the date is in range, and `new Date(y, m - 1, d)` is it.
   */
  lemma FourDigitCivil(c: Civil) returns (ys: string, ms: string, ds: string)
    requires ValidCivil(c) && 1000 <= c.year <= 9999
    ensures FormatCivil(c) == ys + "/" + ms + "/" + ds
    ensures |ys| == 4 && |ms| == 2 && |ds| == 2 && AllDigits(ys) && AllDigits(ms) && AllDigits(ds)
    ensures DigitsValue(ys) == c.year && DigitsValue(ms) == c.month && DigitsValue(ds) == c.day
    ensures 1 <= c.month && 1 <= c.day
    ensures -MaxDay <= DaysFromCivil(c) <= MaxDay
    ensures MakeDay(c.year, c.month - 1, c.day) == DaysFromCivil(c)
  {
    ValidCivilBounds(c);
    PaddedPart(c.month);
    PaddedPart(c.day);
    FourDigitYearInRange(c);
    NatToStringLength(c.year);
    MakeDayOfValid(c);
    ys, ms, ds := NatToString(c.year), PadStart2(NatToString(c.month)), PadStart2(NatToString(c.day));
  }

  /** The pieces of a `YYYY/MM/DD` text of a day with a four-digit year. */
  lemma FourDigitSlashDate(n: int) returns (ys: string, ms: string, ds: string)
    requires 1000 <= CivilFromDays(n).year <= 9999
    ensures FormatSlashDate(n) == ys + "/" + ms + "/" + ds
    ensures |ys| == 4 && |ms| == 2 && |ds| == 2 && AllDigits(ys) && AllDigits(ms) && AllDigits(ds)
    ensures DigitsValue(ys) == CivilFromDays(n).year
    ensures DigitsValue(ms) == CivilFromDays(n).month && DigitsValue(ds) == CivilFromDays(n).day
    ensures -MaxDay <= n <= MaxDay
  {
    ys, ms, ds := FourDigitCivil(CivilFromDays(n));
  }
}
