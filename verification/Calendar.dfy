/** The proleptic Gregorian calendar behind the source's UTC datetimes: date fields against seconds counted
    from the start of year 1. */
module Calendar {

  datatype DateTime = DateTime(year: nat, month: nat, day: nat, hour: nat, minute: nat, second: nat) {
    predicate Valid() {
      1 <= year <= 9999 && 1 <= month <= 12 && 1 <= day <= DaysInMonth(year, month) &&
      hour < 24 && minute < 60 && second < 60
    }
  }

  predicate IsLeap(year: nat) {
    year % 4 == 0 && (year % 100 != 0 || year % 400 == 0)
  }

  function DaysInMonth(year: nat, month: nat): nat {
    if month == 2 then (if IsLeap(year) then 29 else 28)
    else if month == 4 || month == 6 || month == 9 || month == 11 then 30
    else 31
  }

  function DaysBeforeYear(year: nat): int {
    var y := year - 1;
    y * 365 + y / 4 - y / 100 + y / 400
  }

  function DaysBeforeMonth(year: nat, month: nat): nat {
    if month <= 1 then 0 else DaysBeforeMonth(year, month - 1) + DaysInMonth(year, month - 1)
  }

  function Days(date: DateTime): int {
    DaysBeforeYear(date.year) + DaysBeforeMonth(date.year, date.month) + date.day - 1
  }

  /** The instant a datetime names, in seconds. */
  function Seconds(date: DateTime): int {
    ((Days(date) * 24 + date.hour) * 60 + date.minute) * 60 + date.second
  }

  /** The last representable second is the one before year 10000. */
  const END_OF_TIME: int := DaysBeforeYear(10000) * 86400

  /** A few dates and their instants, leap and common centuries among them; each is what the source's datetimes give. */
  lemma KnownInstants()
    ensures Seconds(DateTime(1970, 1, 1, 0, 0, 0)) == 62135596800
    ensures DateTime(2000, 2, 29, 23, 59, 59).Valid() && Seconds(DateTime(2000, 2, 29, 23, 59, 59)) == 63087465599
    ensures !DateTime(1900, 2, 29, 0, 0, 0).Valid() && Seconds(DateTime(1900, 3, 1, 0, 0, 0)) == 59931705600
    ensures Seconds(DateTime(9999, 12, 31, 23, 59, 59)) == END_OF_TIME - 1 == 315537897599
  {
  }

  type Instant = t: int | 0 <= t < END_OF_TIME witness 0

  lemma NextFourth(n: nat)
    requires 1 <= n
    ensures n / 4 == (n - 1) / 4 + if n % 4 == 0 then 1 else 0
  {
  }

  lemma NextHundredth(n: nat)
    requires 1 <= n
    ensures n / 100 == (n - 1) / 100 + if n % 100 == 0 then 1 else 0
  {
  }

  lemma NextFourHundredth(n: nat)
    requires 1 <= n
    ensures n / 400 == (n - 1) / 400 + if n % 400 == 0 then 1 else 0
  {
  }

  lemma MultipleOf(d: int, k: int)
    requires 0 < d
    ensures d * k % d == 0
  {
    var q, r := d * k / d, d * k % d;
    assert d * (k - q) == r;
    MultiplesAreApart(d, k - q);
  }

  lemma MultiplesAreApart(d: int, m: int)
    requires 0 < d
    ensures m >= 1 ==> d * m >= d
    ensures m <= -1 ==> d * m <= -d
  {
    assert m >= 1 ==> d * (m - 1) >= 0;
    assert m <= -1 ==> d * (m + 1) <= 0;
  }

  lemma CenturiesAreFourths(n: nat)
    ensures n % 400 == 0 ==> n % 100 == 0
    ensures n % 100 == 0 ==> n % 4 == 0
  {
    if n % 400 == 0 {
      MultipleOf(100, n / 400 * 4);
      assert n == 100 * (n / 400 * 4);
    }
    if n % 100 == 0 {
      MultipleOf(4, n / 100 * 25);
      assert n == 4 * (n / 100 * 25);
    }
  }

  /** Each year is 365 days, or 366 when it is a leap year. */
  lemma YearLength(year: nat)
    requires 1 <= year
    ensures DaysBeforeYear(year + 1) == DaysBeforeYear(year) + if IsLeap(year) then 366 else 365
  {
    NextFourth(year);
    NextHundredth(year);
    NextFourHundredth(year);
    CenturiesAreFourths(year);
    assert year + 1 - 1 == year;
  }

  lemma MonthsFillTheYear(year: nat)
    ensures DaysBeforeMonth(year, 13) == if IsLeap(year) then 366 else 365
  {
    assert DaysBeforeMonth(year, 2) == 31;
    assert DaysBeforeMonth(year, 3) == 59 + if IsLeap(year) then 1 else 0;
    assert DaysBeforeMonth(year, 5) == DaysBeforeMonth(year, 3) + 61;
    assert DaysBeforeMonth(year, 7) == DaysBeforeMonth(year, 5) + 61;
    assert DaysBeforeMonth(year, 9) == DaysBeforeMonth(year, 7) + 62;
    assert DaysBeforeMonth(year, 11) == DaysBeforeMonth(year, 9) + 61;
  }

  lemma {:induction false} EarlierYear(year: nat, later: nat)
    requires 1 <= year < later
    ensures DaysBeforeYear(year) + DaysBeforeMonth(year, 13) <= DaysBeforeYear(later)
    decreases later
  {
    YearLength(later - 1);
    MonthsFillTheYear(later - 1);
    MonthsFillTheYear(year);
    if year < later - 1 {
      EarlierYear(year, later - 1);
    }
  }

  lemma {:induction false} EarlierMonth(year: nat, month: nat, later: nat)
    requires 1 <= month < later
    ensures DaysBeforeMonth(year, month) + DaysInMonth(year, month) <= DaysBeforeMonth(year, later)
    decreases later
  {
    if month < later - 1 {
      EarlierMonth(year, month, later - 1);
    }
  }

  /** Field by field, largest unit first. */
  predicate Before(d: DateTime, e: DateTime) {
    d.year < e.year || (d.year == e.year && (
    d.month < e.month || (d.month == e.month && (
    d.day < e.day || (d.day == e.day && (
    d.hour < e.hour || (d.hour == e.hour && (
    d.minute < e.minute || (d.minute == e.minute && d.second < e.second)))))))))
  }

  lemma BeforeMeansEarlier(d: DateTime, e: DateTime)
    requires d.Valid() && e.Valid() && Before(d, e)
    ensures Seconds(d) < Seconds(e)
  {
    if d.year < e.year {
      EarlierMonth(d.year, d.month, 13);
      EarlierYear(d.year, e.year);
    } else if d.month < e.month {
      EarlierMonth(d.year, d.month, e.month);
    }
  }

  /** Reading fields left to right is reading time: fields and instants are in the same order. */
  lemma FieldOrderIsTimeOrder(d: DateTime, e: DateTime)
    requires d.Valid() && e.Valid()
    ensures Before(d, e) <==> Seconds(d) < Seconds(e)
    ensures d == e <==> Seconds(d) == Seconds(e)
  {
    if Before(d, e) {
      BeforeMeansEarlier(d, e);
    } else if Before(e, d) {
      BeforeMeansEarlier(e, d);
    } else {
      assert d == e;
    }
  }

  // --- From an instant back to its fields ---

  function YearFrom(days: nat, year: nat): (r: nat)
    requires 1 <= year && DaysBeforeYear(year) <= days < DaysBeforeYear(10000)
    ensures year <= r <= 9999 && DaysBeforeYear(r) <= days < DaysBeforeYear(r + 1)
    decreases 10000 - year
  {
    assert year < 10000 by {
      if year > 10000 {
        EarlierYear(10000, year);
      }
    }
    if days < DaysBeforeYear(year + 1) then year else YearFrom(days, year + 1)
  }

  function MonthFrom(days: nat, year: nat, month: nat): (r: nat)
    requires 1 <= month <= 12 && DaysBeforeMonth(year, month) <= days < DaysBeforeMonth(year, 13)
    ensures month <= r <= 12 && DaysBeforeMonth(year, r) <= days < DaysBeforeMonth(year, r) + DaysInMonth(year, r)
    decreases 12 - month
  {
    if days < DaysBeforeMonth(year, month) + DaysInMonth(year, month) then month
    else MonthFrom(days, year, month + 1)
  }

  /** The date of a day. */
  function DateOf(days: nat): (ymd: (nat, nat, nat))
    requires days < DaysBeforeYear(10000)
    ensures 1 <= ymd.0 <= 9999 && 1 <= ymd.1 <= 12 && 1 <= ymd.2 <= DaysInMonth(ymd.0, ymd.1)
    ensures DaysBeforeYear(ymd.0) + DaysBeforeMonth(ymd.0, ymd.1) + ymd.2 - 1 == days
  {
    var year := YearFrom(days, 1);
    YearLength(year);
    MonthsFillTheYear(year);
    var inYear := days - DaysBeforeYear(year);
    var month := MonthFrom(inYear, year, 1);
    (year, month, inYear - DaysBeforeMonth(year, month) + 1)
  }

  /** The fields of an instant. */
  function At(t: Instant): (date: DateTime)
    ensures date.Valid() && Seconds(date) == t
  {
    var ymd, rest := DateOf(t / 86400), t % 86400;
    DateTime(ymd.0, ymd.1, ymd.2, rest / 3600, rest / 60 % 60, rest % 60)
  }

  /** Every valid datetime is the fields of the instant it names. */
  lemma InstantRoundTrip(date: DateTime)
    requires date.Valid()
    ensures 0 <= Seconds(date) < END_OF_TIME && At(Seconds(date)) == date
  {
    EarlierMonth(date.year, date.month, 13);
    EarlierYear(date.year, 10000);
    assert 0 <= DaysBeforeYear(date.year) by {
      if 1 < date.year {
        EarlierYear(1, date.year);
      }
    }
    FieldOrderIsTimeOrder(At(Seconds(date)), date);
  }
}
