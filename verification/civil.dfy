/**
 Dates and times: days from 1970-01-01 to a civil date and back, and the
 RFC 3339 text of an instant, printed and read (civil.rs).
 */
module Civil {
  import opened Arith

  datatype Date = Date(year: int, month: int, day: int)

  // ---------------------------------------------------------------------
  // The proleptic Gregorian calendar, as a reference
  // ---------------------------------------------------------------------

  predicate Leap(year: int) {
    year % 4 == 0 && (year % 100 != 0 || year % 400 == 0)
  }

  function DaysInMonth(year: int, month: int): int {
    if month == 2 then (if Leap(year) then 29 else 28)
    else if month == 4 || month == 6 || month == 9 || month == 11 then 30
    else 31
  }

  predicate Valid(d: Date) {
    1 <= d.month <= 12 && 1 <= d.day <= DaysInMonth(d.year, d.month)
  }

  /** The date after `d`, as a calendar on the wall shows it. */
  function NextDay(d: Date): Date {
    if d.day < DaysInMonth(d.year, d.month) then Date(d.year, d.month, d.day + 1)
    else if d.month < 12 then Date(d.year, d.month + 1, 1)
    else Date(d.year + 1, 1, 1)
  }

  // ---------------------------------------------------------------------
  // Hinnant's algorithms
  // ---------------------------------------------------------------------

  function DaysFromCivil(year: int, month: int, day: int): int
    requires 1 <= month <= 12
  {
    var y := if month <= 2 then year - 1 else year;
    var era := y / 400;
    var ofEra := y - era * 400;
    var ofYear := (153 * (month + if month > 2 then -3 else 9) + 2) / 5 + day - 1;
    var ofCycle := ofEra * 365 + ofEra / 4 - ofEra / 100 + ofYear;
    era * 146_097 + ofCycle - 719_468
  }

  /** The March-based year of a day of a 400-year era. */
  function YearOfEra(ofEra: int): int
  {
    (ofEra - ofEra / 1460 + ofEra / 36_524 - ofEra / 146_096) / 365
  }

  function CivilFromDays(days0: int): Date {
    var days := days0 + 719_468;
    var era := days / 146_097;
    var ofEra := days - era * 146_097;
    var ofCycle := YearOfEra(ofEra);
    var ofYear := ofEra - (365 * ofCycle + ofCycle / 4 - ofCycle / 100);
    var shifted := (5 * ofYear + 2) / 153;
    var day := ofYear - (153 * shifted + 2) / 5 + 1;
    var month := if shifted < 10 then shifted + 3 else shifted - 9;
    var year := ofCycle + era * 400 + (if month <= 2 then 1 else 0);
    Date(year, month, day)
  }

  /** A day of an era, as centuries, four-year cycles, years and days. */
  ghost predicate Splits(ofEra: int, c: int, q: int, y: int, d: int) {
    && 0 <= c < 4 && 0 <= q < 25 && 0 <= y < 4 && 0 <= d <= 365
    && (d == 365 ==> y == 3 && (q < 24 || c == 3))
    && ofEra == 36_524 * c + 1461 * q + 365 * y + d
  }

  lemma Split(ofEra: int) returns (c: int, q: int, y: int, d: int)
    requires 0 <= ofEra < 146_097
    ensures Splits(ofEra, c, q, y, d)
  {
    c := if ofEra == 146_096 then 3 else ofEra / 36_524;
    var r := ofEra - 36_524 * c;
    q := r / 1461;
    var s := r - 1461 * q;
    y := if s == 1460 then 3 else s / 365;
    d := s - 365 * y;
  }

  lemma SplitYear(ofEra: int, c: int, q: int, y: int, d: int)
    requires Splits(ofEra, c, q, y, d)
    ensures 0 <= ofEra < 146_097
    ensures YearOfEra(ofEra) == 100 * c + 4 * q + y
    ensures var n := 100 * c + 4 * q + y; ofEra - (365 * n + n / 4 - n / 100) == d
  {
    assert ofEra / 36_524 == if ofEra == 146_096 then 4 else c;
    assert ofEra / 146_096 == if ofEra == 146_096 then 1 else 0;
    var t := 24 * c + q;
    assert ofEra == 1460 * (25 * c + q) + (24 * c + q + 365 * y + d);
    var k := ofEra / 1460;
    assert k == 25 * c + q || k == 25 * c + q + 1;
  }

  /** The February that ends a March-based year is leap as `Splits` allows. */
  lemma EraLeap(e: int, c: int, q: int, y: int)
    requires 0 <= c < 4 && 0 <= q < 25 && 0 <= y < 4
    ensures Leap(400 * e + 100 * c + 4 * q + y + 1) <==> (y == 3 && (q < 24 || c == 3))
  {
    var n := 400 * e + 100 * c + 4 * q + y + 1;
    if y < 3 {
      Euclid(n, 4, 100 * e + 25 * c + q, y + 1);
    } else {
      Euclid(n, 4, 100 * e + 25 * c + q + 1, 0);
      if q < 24 {
        Euclid(n, 100, 4 * e + c, 4 * q + 4);
      } else {
        Euclid(n, 100, 4 * e + c + 1, 0);
        if c == 3 { Euclid(n, 400, e + 1, 0); } else { Euclid(n, 400, e, 100 * (c + 1)); }
      }
    }
  }

  /** The months from March, by the day of the March-based year. */
  function MonthOf(d: int): int { (5 * d + 2) / 153 }

  lemma MonthBounds(d: int)
    requires 0 <= d <= 365
    ensures 0 <= MonthOf(d) <= 11
    ensures var m := MonthOf(d); (153 * m + 2) / 5 <= d < (153 * (m + 1) + 2) / 5 && (m == 11 ==> d - 337 <= 28)
  {
  }

  lemma MonthUnique(m: int, d: int)
    requires 0 <= m <= 11
    requires (153 * m + 2) / 5 <= d < (153 * (m + 1) + 2) / 5
    ensures MonthOf(d) == m
  {
  }

  /** What `CivilFromDays` gives for day `d` of year `n` of an era. */
  lemma FromEra(e: int, ofEra: int, n: int, d: int)
    requires 0 <= ofEra < 146_097 && YearOfEra(ofEra) == n && ofEra - (365 * n + n / 4 - n / 100) == d
    ensures var m := MonthOf(d);
            var month := if m < 10 then m + 3 else m - 9;
            CivilFromDays(e * 146_097 + ofEra - 719_468) ==
              Date(n + e * 400 + (if month <= 2 then 1 else 0), month, d - (153 * m + 2) / 5 + 1)
  {
    hide YearOfEra;
    Euclid(e * 146_097 + ofEra, 146_097, e, ofEra);
  }

  lemma FromSplit(e: int, c: int, q: int, y: int, d: int)
    requires Splits(36_524 * c + 1461 * q + 365 * y + d, c, q, y, d)
    ensures var days := e * 146_097 + 36_524 * c + 1461 * q + 365 * y + d - 719_468;
            var m := MonthOf(d);
            var month := if m < 10 then m + 3 else m - 9;
            CivilFromDays(days) ==
              Date(400 * e + 100 * c + 4 * q + y + (if month <= 2 then 1 else 0), month, d - (153 * m + 2) / 5 + 1)
  {
    hide CivilFromDays, YearOfEra, Splits, MonthOf;
    var ofEra := 36_524 * c + 1461 * q + 365 * y + d;
    SplitYear(ofEra, c, q, y, d);
    FromEra(e, ofEra, 100 * c + 4 * q + y, d);
    assert e * 146_097 + ofEra - 719_468 == e * 146_097 + 36_524 * c + 1461 * q + 365 * y + d - 719_468;
  }

  /** The count of days of a date given by its March-based year and month. */
  lemma ToSplit(e: int, c: int, q: int, y: int, m: int, day: int)
    requires 0 <= c < 4 && 0 <= q < 25 && 0 <= y < 4 && 0 <= m <= 11
    ensures var month := if m < 10 then m + 3 else m - 9;
            var year := 400 * e + 100 * c + 4 * q + y + (if month <= 2 then 1 else 0);
            DaysFromCivil(year, month, day)
              == e * 146_097 + 36_524 * c + 1461 * q + 365 * y + (153 * m + 2) / 5 + day - 1 - 719_468
  {
    var n := 100 * c + 4 * q + y;
    Euclid(400 * e + n, 400, e, n);
    Euclid(n, 4, 25 * c + q, y);
    Euclid(n, 100, c, 4 * q + y);
  }

  lemma SplitIsValid(e: int, c: int, q: int, y: int, d: int)
    requires Splits(36_524 * c + 1461 * q + 365 * y + d, c, q, y, d)
    ensures var m := MonthOf(d);
            var month := if m < 10 then m + 3 else m - 9;
            Valid(Date(400 * e + 100 * c + 4 * q + y + (if month <= 2 then 1 else 0), month, d - (153 * m + 2) / 5 + 1))
  {
    MonthBounds(d);
    EraLeap(e, c, q, y);
  }

  /** Every count of days is a valid date's, and the date's count is it. */
  lemma DaysRoundTrip(days: int)
    ensures Valid(CivilFromDays(days))
    ensures var d := CivilFromDays(days); DaysFromCivil(d.year, d.month, d.day) == days
  {
    var e := (days + 719_468) / 146_097;
    var c, q, y, d := Split(days + 719_468 - e * 146_097);
    SplitRoundTrip(e, c, q, y, d);
  }

  lemma SplitRoundTrip(e: int, c: int, q: int, y: int, d: int)
    requires Splits(36_524 * c + 1461 * q + 365 * y + d, c, q, y, d)
    ensures var days := e * 146_097 + 36_524 * c + 1461 * q + 365 * y + d - 719_468;
            var date := CivilFromDays(days);
            Valid(date) && DaysFromCivil(date.year, date.month, date.day) == days
  {
    hide CivilFromDays, DaysFromCivil, Valid;
    FromSplit(e, c, q, y, d);
    SplitIsValid(e, c, q, y, d);
    MonthBounds(d);
    ToSplit(e, c, q, y, MonthOf(d), d - (153 * MonthOf(d) + 2) / 5 + 1);
  }

  /** The March-based year, month and day a valid date is made of. */
  lemma DateSplit(date: Date) returns (e: int, c: int, q: int, y: int, m: int)
    requires Valid(date)
    ensures 0 <= c < 4 && 0 <= q < 25 && 0 <= y < 4 && 0 <= m <= 11
    ensures date.month == (if m < 10 then m + 3 else m - 9)
    ensures date.year == 400 * e + 100 * c + 4 * q + y + (if date.month <= 2 then 1 else 0)
    ensures var d := (153 * m + 2) / 5 + date.day - 1;
            d < (153 * (m + 1) + 2) / 5 && Splits(36_524 * c + 1461 * q + 365 * y + d, c, q, y, d)
  {
    m := if date.month > 2 then date.month - 3 else date.month + 9;
    var year := if date.month <= 2 then date.year - 1 else date.year;
    e := year / 400;
    var n := year - e * 400;
    c := n / 100;
    q := (n - 100 * c) / 4;
    y := n - 100 * c - 4 * q;
    EraLeap(e, c, q, y);
  }

  /** Every valid date comes back from its count of days. */
  lemma DateRoundTrip(date: Date)
    requires Valid(date)
    ensures CivilFromDays(DaysFromCivil(date.year, date.month, date.day)) == date
  {
    hide CivilFromDays, DaysFromCivil;
    var e, c, q, y, m := DateSplit(date);
    var d := (153 * m + 2) / 5 + date.day - 1;
    ToSplit(e, c, q, y, m, date.day);
    MonthUnique(m, d);
    FromSplit(e, c, q, y, d);
  }

  /** The leap days up to a year. */
  function LeapCount(y: int): int { y / 4 - y / 100 + y / 400 }

  /** The count of days as leap days counted over all March-based years. */
  lemma Counts(date: Date)
    requires Valid(date)
    ensures var y := if date.month <= 2 then date.year - 1 else date.year;
            var m := if date.month > 2 then date.month - 3 else date.month + 9;
            DaysFromCivil(date.year, date.month, date.day)
              == 365 * y + LeapCount(y) + (153 * m + 2) / 5 + date.day - 1 - 719_468
  {
    hide Valid;
    var y := if date.month <= 2 then date.year - 1 else date.year;
    var era := y / 400;
    var ofEra := y - era * 400;
    Euclid(y, 4, 100 * era + ofEra / 4, ofEra % 4);
    Euclid(y, 100, 4 * era + ofEra / 100, ofEra % 100);
  }

  lemma LeapDays(y: int)
    ensures LeapCount(y + 1) == LeapCount(y) + (if Leap(y + 1) then 1 else 0)
  {
    assert (y + 1) / 4 == y / 4 + (if (y + 1) % 4 == 0 then 1 else 0);
    assert (y + 1) / 100 == y / 100 + (if (y + 1) % 100 == 0 then 1 else 0);
    assert (y + 1) / 400 == y / 400 + (if (y + 1) % 400 == 0 then 1 else 0);
  }

  lemma NextValid(d: Date)
    requires Valid(d)
    ensures Valid(NextDay(d))
  {
    hide Leap;
  }

  /** The count of days of the next date is one more. */
  lemma NextCounts(d: Date)
    requires Valid(d)
    ensures Valid(NextDay(d))
    ensures var n := NextDay(d); DaysFromCivil(n.year, n.month, n.day) == DaysFromCivil(d.year, d.month, d.day) + 1
  {
    hide DaysFromCivil, Leap, LeapCount;
    NextValid(d);
    Counts(d);
    Counts(NextDay(d));
    LeapDays(d.year - 1);
  }

  lemma Epoch()
    ensures CivilFromDays(0) == Date(1970, 1, 1)
  {
    var ofEra := 719_468 - 4 * 146_097;
    assert 719_468 / 146_097 == 4 && ofEra == 135_080;
    assert ofEra / 1460 == 92 && ofEra / 36_524 == 3 && ofEra / 146_096 == 0;
    assert YearOfEra(ofEra) == 369;
    assert 369 / 4 == 92 && 369 / 100 == 3 && ofEra - (365 * 369 + 92 - 3) == 306;
    assert (5 * 306 + 2) / 153 == 10 && (153 * 10 + 2) / 5 == 306;
  }

  /** Day 0 is the epoch, and each day is followed by the calendar's next. */
  lemma IsTheCalendar(days: int)
    ensures CivilFromDays(0) == Date(1970, 1, 1)
    ensures CivilFromDays(days + 1) == NextDay(CivilFromDays(days))
  {
    hide CivilFromDays, DaysFromCivil, Valid, NextDay;
    Epoch();
    DaysRoundTrip(days);
    var d := CivilFromDays(days);
    NextCounts(d);
    DateRoundTrip(NextDay(d));
  }
}
