/** Dates and day numbers. */
module Calendar {
  import opened Base

  datatype Date = Date(year: int, month: int, day: int)

  // ---- The proleptic Gregorian calendar ----

  predicate Leap(year: int) { year % 4 == 0 && (year % 100 != 0 || year % 400 == 0) }

  function DaysIn(year: int, month: int): int
  {
    if month == 2 then (if Leap(year) then 29 else 28)
    else if month in {4, 6, 9, 11} then 30 else 31
  }

  predicate Real(d: Date)
  {
    1 <= d.month <= 12 && 1 <= d.day <= DaysIn(d.year, d.month)
  }

  function DayAfter(d: Date): Date
  {
    if d.day < DaysIn(d.year, d.month) then d.(day := d.day + 1)
    else if d.month < 12 then Date(d.year, d.month + 1, 1)
    else Date(d.year + 1, 1, 1)
  }

  // ---- The conversions ----

  /** Division that rounds toward zero. */
  function Trunc(a: int, b: int): int
    requires b > 0
  {
    if a >= 0 then a / b else -((-a) / b)
  }

  function DaysFromCivil(d: Date): int
  {
    var adjusted := d.year - if d.month <= 2 then 1 else 0;
    var era := Trunc(if adjusted >= 0 then adjusted else adjusted - 399, 400);
    var monthPrime := d.month + if d.month > 2 then -3 else 9;
    era * 146097 + DayOfEra(adjusted - era * 400, monthPrime, d.day) - 719468
  }

  function DayOfEra(yearOfEra: int, monthPrime: int, day: int): int
  {
    yearOfEra * 365 + Trunc(yearOfEra, 4) - Trunc(yearOfEra, 100) + (Trunc(153 * monthPrime + 2, 5) + day - 1)
  }

  function CivilFromDays(days: int): Date
  {
    var shifted := days + 719468;
    var era := Trunc(if shifted >= 0 then shifted else shifted - 146096, 146097);
    CivilInEra(era, shifted - era * 146097)
  }

  function CivilInEra(era: int, dayOfEra: int): Date
  {
    var yearOfEra := YearOfEra(dayOfEra);
    var dayOfYear := dayOfEra - (365 * yearOfEra + Trunc(yearOfEra, 4) - Trunc(yearOfEra, 100));
    var monthPrime := Trunc(5 * dayOfYear + 2, 153);
    var day := dayOfYear - Trunc(153 * monthPrime + 2, 5) + 1;
    var month := monthPrime + if monthPrime < 10 then 3 else -9;
    Date(yearOfEra + era * 400 + (if month <= 2 then 1 else 0), month, day)
  }

  function YearOfEra(dayOfEra: int): int
  {
    Trunc(dayOfEra - Trunc(dayOfEra, 1460) + Trunc(dayOfEra, 36524) - Trunc(dayOfEra, 146096), 365)
  }

  // ---- Days, years and centuries of an era ----

  /** A day of an era by century, four-year cycle, year and day; years begin in March. */
  datatype Place = Place(c: int, b: int, a: int, day: int)

  predicate Proper(p: Place)
  {
    0 <= p.c <= 3 && 0 <= p.b <= 24 && 0 <= p.a <= 3 &&
    0 <= p.day <= (if p.a == 3 && (p.b != 24 || p.c == 3) then 365 else 364)
  }

  function YearAt(p: Place): int { 100 * p.c + 4 * p.b + p.a }
  function DayAt(p: Place): int { 36524 * p.c + 1461 * p.b + 365 * p.a + p.day }

  function PlaceOf(dayOfEra: int): Place
  {
    var c := Min(dayOfEra / 36524, 3);
    var inCentury := dayOfEra - 36524 * c;
    var b := Min(inCentury / 1461, 24);
    var inCycle := inCentury - 1461 * b;
    var a := Min(inCycle / 365, 3);
    Place(c, b, a, inCycle - 365 * a)
  }

  lemma PlaceOfDay(dayOfEra: int)
    requires 0 <= dayOfEra < 146097
    ensures Proper(PlaceOf(dayOfEra)) && DayAt(PlaceOf(dayOfEra)) == dayOfEra
  {
  }

  lemma YearAtParts(p: Place)
    requires Proper(p)
    ensures 0 <= YearAt(p) < 400 && YearAt(p) / 4 == 25 * p.c + p.b && YearAt(p) / 100 == p.c
  {
  }

  lemma TruncPlain(a: int, b: int)
    requires a >= 0 && b > 0
    ensures Trunc(a, b) == a / b
  {
  }

  lemma By365(x: int, q: int, r: int)
    requires x == 365 * q + r && 0 <= r < 365
    ensures x / 365 == q
  {
  }

  lemma By400(x: int, q: int, r: int)
    requires x == 400 * q + r && 0 <= r < 400
    ensures x / 400 == q && x % 400 == r
  {
  }

  lemma By146097(x: int, q: int, r: int)
    requires x == 146097 * q + r && 0 <= r < 146097
    ensures x / 146097 == q
  {
  }

  lemma By4(x: int, q: int, r: int)
    requires x == 4 * q + r && 0 <= r < 4
    ensures x % 4 == r
  {
  }

  lemma By100(x: int, q: int, r: int)
    requires x == 100 * q + r && 0 <= r < 100
    ensures x % 100 == r
  {
  }

  /** Whether the days past the cycles fill one more group of 1460. */
  function Extra(p: Place): int { if 24 * p.c + p.b + 365 * p.a + p.day >= 1460 then 1 else 0 }

  lemma CycleQuotient(p: Place)
    requires Proper(p)
    ensures DayAt(p) / 1460 == 25 * p.c + p.b + Extra(p)
  {
    var rest := 24 * p.c + p.b + 365 * p.a + p.day - 1460 * Extra(p);
    assert DayAt(p) == 1460 * (25 * p.c + p.b + Extra(p)) + rest && 0 <= rest < 1460;
  }

  lemma CenturyQuotient(p: Place)
    requires Proper(p)
    ensures DayAt(p) / 36524 - DayAt(p) / 146096 == p.c
  {
    var rest := DayAt(p) - 36524 * p.c;
    if DayAt(p) < 146096 {
      assert 0 <= rest < 36524;
    } else {
      assert DayAt(p) == 146096;
    }
  }

  lemma EraQuotients(p: Place)
    requires Proper(p)
    ensures Trunc(DayAt(p), 1460) == 25 * p.c + p.b + Extra(p)
    ensures Trunc(DayAt(p), 36524) - Trunc(DayAt(p), 146096) == p.c
  {
    hide Extra;
    CycleQuotient(p);
    CenturyQuotient(p);
  }

  lemma PlaceBounds(p: Place)
    requires Proper(p)
    ensures 0 <= DayAt(p) < 146097 && 0 <= p.day - Extra(p) < 365 && YearAt(p) >= 0
  {
  }

  lemma YearOfEraExact(p: Place)
    requires Proper(p)
    ensures 0 <= DayAt(p) < 146097 && YearOfEra(DayAt(p)) == YearAt(p)
  {
    hide Trunc, Proper, Extra;
    var d := DayAt(p);
    EraQuotients(p);
    PlaceBounds(p);
    var n := d - Trunc(d, 1460) + Trunc(d, 36524) - Trunc(d, 146096);
    assert n == 365 * YearAt(p) + (p.day - Extra(p));
    TruncPlain(n, 365);
    By365(n, YearAt(p), p.day - Extra(p));
  }

  // ---- Months of a year that begins in March ----

  function MonthStart(monthPrime: int): int { (153 * monthPrime + 2) / 5 }

  function CivilMonth(monthPrime: int): int { monthPrime + if monthPrime < 10 then 3 else -9 }

  /** The longest that a month can be. */
  function Longest(monthPrime: int): int { DaysIn(0, CivilMonth(monthPrime)) }

  lemma MonthOfDay(dayOfYear: int)
    requires 0 <= dayOfYear <= 365
    ensures var m := (5 * dayOfYear + 2) / 153;
            0 <= m <= 11 && MonthStart(m) <= dayOfYear < MonthStart(m) + Longest(m) &&
            (dayOfYear == 365 <==> m == 11 && dayOfYear - MonthStart(m) + 1 == 29)
  {
    var m := (5 * dayOfYear + 2) / 153;
    assert 0 <= m <= 11;
  }

  lemma DayOfMonth(m: int, day: int)
    requires 0 <= m <= 11 && 1 <= day <= Longest(m)
    ensures var d := MonthStart(m) + day - 1;
      0 <= d <= 365 && (5 * d + 2) / 153 == m && (d == 365 <==> m == 11 && day == 29)
  {
  }

  /** The two divisions that find an era round down. */
  lemma EraOfDay(era: int, rest: int)
    requires 0 <= rest < 146097
    ensures var x := 146097 * era + rest; Trunc(if x >= 0 then x else x - 146096, 146097) == era
  {
    var x := 146097 * era + rest;
    if x >= 0 {
      By146097(x, era, rest);
    } else {
      By146097(146096 - x, -era, 146096 - rest);
    }
  }

  lemma EraOfYear(era: int, rest: int)
    requires 0 <= rest < 400
    ensures var x := 400 * era + rest; Trunc(if x >= 0 then x else x - 399, 400) == era
  {
    var x := 400 * era + rest;
    if x >= 0 {
      By400(x, era, rest);
    } else {
      By400(399 - x, -era, 399 - rest);
    }
  }

  // ---- Both directions at once ----

  function DaysOf(era: int, p: Place): int { 146097 * era + DayAt(p) - 719468 }

  function DateOf(era: int, p: Place): Date
  {
    var m := (5 * p.day + 2) / 153;
    Date(400 * era + YearAt(p) + (if CivilMonth(m) <= 2 then 1 else 0), CivilMonth(m), p.day - MonthStart(m) + 1)
  }

  lemma LeapInEra(era: int, p: Place)
    requires Proper(p)
    ensures Leap(400 * era + YearAt(p) + 1) <==> p.a == 3 && (p.b != 24 || p.c == 3)
  {
    var y := 400 * era + YearAt(p) + 1;
    if p.a != 3 {
      By4(y, 100 * era + 25 * p.c + p.b, p.a + 1);
    } else {
      By4(y, 100 * era + 25 * p.c + p.b + 1, 0);
      if p.b != 24 {
        By100(y, 4 * era + p.c, 4 * (p.b + 1));
      } else {
        By100(y, 4 * era + p.c + 1, 0);
        By400(y, if p.c == 3 then era + 1 else era, if p.c == 3 then 0 else 100 * (p.c + 1));
      }
    }
  }

  lemma DateOfIsReal(era: int, p: Place)
    requires Proper(p)
    ensures Real(DateOf(era, p))
  {
    hide Leap, YearAt;
    MonthOfDay(p.day);
    LeapInEra(era, p);
  }

  lemma YearDays(p: Place)
    requires Proper(p)
    ensures DayAt(p) == 365 * YearAt(p) + YearAt(p) / 4 - YearAt(p) / 100 + p.day
  {
    YearAtParts(p);
  }

  lemma CivilOfPlace(era: int, p: Place)
    requires Proper(p)
    ensures CivilFromDays(DaysOf(era, p)) == DateOf(era, p)
  {
    hide YearOfEra, YearAt, DayAt, CivilInEra;
    YearOfEraExact(p);
    EraOfDay(era, DayAt(p));
    CivilInEraExact(era, p);
  }

  lemma CivilInEraExact(era: int, p: Place)
    requires Proper(p)
    ensures CivilInEra(era, DayAt(p)) == DateOf(era, p)
  {
    hide YearOfEra, YearAt, DayAt;
    YearOfEraExact(p);
    YearAtParts(p);
    YearDays(p);
    MonthOfDay(p.day);
  }

  lemma DayOfEraExact(p: Place)
    requires Proper(p)
    ensures var m := (5 * p.day + 2) / 153; DayOfEra(YearAt(p), m, p.day - MonthStart(m) + 1) == DayAt(p)
  {
    hide YearAt, DayAt;
    YearAtParts(p);
    YearDays(p);
    MonthOfDay(p.day);
  }

  lemma DaysOfDate(era: int, p: Place)
    requires Proper(p)
    ensures DaysFromCivil(DateOf(era, p)) == DaysOf(era, p)
  {
    hide YearAt, DayAt, DayOfEra, Trunc, MonthStart;
    YearAtParts(p);
    DayOfEraExact(p);
    MonthOfDay(p.day);
    EraOfYear(era, YearAt(p));
  }

  /** Every day number names a real date, and the date leads back to it. */
  lemma CivilOfDays(days: int)
    ensures Real(CivilFromDays(days)) && DaysFromCivil(CivilFromDays(days)) == days
  {
    var era, dayOfEra := (days + 719468) / 146097, (days + 719468) % 146097;
    PlaceOfDay(dayOfEra);
    var p := PlaceOf(dayOfEra);
    assert DaysOf(era, p) == days;
    CivilOfPlace(era, p);
    DaysOfDate(era, p);
    DateOfIsReal(era, p);
  }

  /** The era and place of a real date. */
  function EraOf(d: Date): int { (d.year - if d.month <= 2 then 1 else 0) / 400 }

  function PlaceOfDate(d: Date): Place
  {
    var y := (d.year - if d.month <= 2 then 1 else 0) % 400;
    var m := d.month + if d.month > 2 then -3 else 9;
    Place(y / 100, y % 100 / 4, y % 4, MonthStart(m) + d.day - 1)
  }

  lemma YearSplit(y: int)
    requires 0 <= y < 400
    ensures 100 * (y / 100) + 4 * (y % 100 / 4) + y % 4 == y && y / 100 <= 3 && y % 100 / 4 <= 24
  {
  }

  lemma PlaceOfRealDate(d: Date)
    requires Real(d)
    ensures Proper(PlaceOfDate(d)) && DateOf(EraOf(d), PlaceOfDate(d)) == d
  {
    hide Leap;
    var y := (d.year - if d.month <= 2 then 1 else 0) % 400;
    var m := d.month + if d.month > 2 then -3 else 9;
    var p := PlaceOfDate(d);
    YearSplit(y);
    LeapYearZero();
    DayOfMonth(m, d.day);
    if p.day == 365 {
      assert d.month == 2 && d.day == 29 && d.year == 400 * EraOf(d) + y + 1;
      LeapInEra(EraOf(d), p.(day := 0));
    }
  }

  lemma LeapYearZero()
    ensures Leap(0)
  {
  }

  /** A real date leads to a day number that leads back to it; what is not real never does. */
  lemma DaysOfCivil(d: Date)
    ensures CivilFromDays(DaysFromCivil(d)) == d <==> Real(d)
  {
    hide CivilFromDays, DaysFromCivil, Real;
    if Real(d) {
      PlaceOfRealDate(d);
      CivilOfPlace(EraOf(d), PlaceOfDate(d));
      DaysOfDate(EraOf(d), PlaceOfDate(d));
    } else {
      CivilOfDays(DaysFromCivil(d));
    }
  }

  // ---- The calendar itself ----

  /** The number of days before a year that begins in March. */
  function YearStart(adjusted: int): int { 146097 * (adjusted / 400) + InEra(adjusted % 400) }

  function InEra(y: int): int { 365 * y + y / 4 - y / 100 }

  lemma DaysByYear(d: Date)
    requires 1 <= d.month <= 12
    ensures var m := d.month + if d.month > 2 then -3 else 9;
            DaysFromCivil(d) == YearStart(d.year - if d.month <= 2 then 1 else 0) + MonthStart(m) + d.day - 1 - 719468
  {
    var adjusted := d.year - if d.month <= 2 then 1 else 0;
    EraOfYear(adjusted / 400, adjusted % 400);
  }

  /** Whether the year of an era has a leap day at its end, in February. */
  predicate LongYear(y: int) { y % 4 == 3 && (y % 100 / 4 != 24 || y / 100 == 3) }

  lemma YearStartAt(era: int, y: int)
    requires 0 <= y < 400
    ensures YearStart(400 * era + y) == 146097 * era + InEra(y)
  {
    hide InEra;
    By400(400 * era + y, era, y);
  }

  lemma LeapAt(era: int, y: int)
    requires 0 <= y < 400
    ensures Leap(400 * era + y + 1) <==> LongYear(y)
  {
    hide Leap;
    YearSplit(y);
    LeapInEra(era, Place(y / 100, y % 100 / 4, y % 4, 0));
  }

  lemma InEraNext(y: int)
    requires 0 <= y < 400
    ensures InEra(0) == 0
    ensures (if y == 399 then 146097 else InEra(y + 1)) == InEra(y) + if LongYear(y) then 366 else 365
  {
    if y < 399 {
      YearStep(y);
    }
  }

  lemma YearStep(y: int)
    requires 0 <= y < 399
    ensures (y + 1) / 4 - y / 4 == (if y % 4 == 3 then 1 else 0)
    ensures (y + 1) / 100 - y / 100 == (if y % 4 == 3 && y % 100 / 4 == 24 then 1 else 0)
    ensures y / 100 == 3 ==> !(y % 4 == 3 && y % 100 / 4 == 24)
  {
  }

  lemma YearStartNext(era: int, y: int)
    requires 0 <= y < 400
    ensures YearStart(400 * era + y + 1) == YearStart(400 * era + y) + if Leap(400 * era + y + 1) then 366 else 365
  {
    hide Leap, InEra, YearStart, LongYear;
    YearStartAt(era, y);
    LeapAt(era, y);
    InEraNext(y);
    if y == 399 {
      YearStartAt(era + 1, 0);
    } else {
      YearStartAt(era, y + 1);
    }
  }

  lemma EpochIsZero()
    ensures DaysFromCivil(Date(1970, 1, 1)) == 0
  {
  }

  /** Consecutive dates have consecutive day numbers; with the epoch at zero this is the calendar. */
  lemma DayAfterIsNext(d: Date)
    requires Real(d)
    ensures DaysFromCivil(DayAfter(d)) == DaysFromCivil(d) + 1
  {
    hide Leap, YearStart, DaysFromCivil;
    DaysByYear(d);
    DaysByYear(DayAfter(d));
    YearStartNext((d.year - 1) / 400, (d.year - 1) % 400);
  }
}
