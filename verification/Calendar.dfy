/** Day numbers of the proleptic Gregorian calendar (section 3.2.1 of ISO 8601:2004), years of either sign. */
module Calendar {

  /** Integer division as Rust does it: the quotient is rounded towards zero. */
  function DivTrunc(a: int, b: int): int
    requires b > 0
  {
    if a >= 0 then a / b else -((-a) / b)
  }

  function DaysFromCivil(year: int, month: int, day: int): int {
    var y := year - if month <= 2 then 1 else 0;
    var era := DivTrunc(if y >= 0 then y else y - 399, 400);
    var yoe := y - era * 400;
    var doy := DivTrunc(153 * (month + if month > 2 then -3 else 9) + 2, 5) + day - 1;
    var doe := yoe * 365 + DivTrunc(yoe, 4) - DivTrunc(yoe, 100) + doy;
    era * 146_097 + doe - 719_468
  }

  function CivilFromDays(days: int): (int, int, int) {
    var z := days + 719_468;
    var era := DivTrunc(if z >= 0 then z else z - 146_096, 146_097);
    CivilFromDayOfEra(era, z - era * 146_097)
  }

  /** The rest of `civil_from_days`, once the era and the day of the era are known. */
  function CivilFromDayOfEra(era: int, doe: int): (int, int, int) {
    var yoe := DivTrunc(doe - DivTrunc(doe, 1_460) + DivTrunc(doe, 36_524) - DivTrunc(doe, 146_096), 365);
    var y := yoe + era * 400;
    var doy := doe - (365 * yoe + DivTrunc(yoe, 4) - DivTrunc(yoe, 100));
    var mp := DivTrunc(5 * doy + 2, 153);
    var d := doy - DivTrunc(153 * mp + 2, 5) + 1;
    var m := mp + if mp < 10 then 3 else -9;
    (y + if m <= 2 then 1 else 0, m, d)
  }

  predicate LeapYear(year: int) {
    (year % 4 == 0 && year % 100 != 0) || year % 400 == 0
  }

  function DaysInMonth(year: int, month: int): int {
    if month in {1, 3, 5, 7, 8, 10, 12} then 31
    else if month in {4, 6, 9, 11} then 30
    else if month == 2 then if LeapYear(year) then 29 else 28
    else 30
  }

  datatype Date = Date(year: int, month: int, day: int)

  predicate Valid(d: Date) {
    1 <= d.month <= 12 && 1 <= d.day <= DaysInMonth(d.year, d.month)
  }

  function DayNumber(d: Date): int {
    DaysFromCivil(d.year, d.month, d.day)
  }

  /** The calendar's own successor: the next day of the month, else the first of the next month. */
  function NextDay(d: Date): (r: Date)
    requires Valid(d)
    ensures Valid(r)
  {
    if d.day < DaysInMonth(d.year, d.month) then d.(day := d.day + 1)
    else if d.month < 12 then Date(d.year, d.month + 1, 1)
    else Date(d.year + 1, 1, 1)
  }

  predicate Before(a: Date, b: Date) {
    || a.year < b.year
    || (a.year == b.year && (a.month < b.month || (a.month == b.month && a.day < b.day)))
  }

  /** Division by 400 written with a floor instead of the adjusted truncation of the code. */
  lemma EraIsFloor(y: int)
    ensures DivTrunc(if y >= 0 then y else y - 399, 400) == y / 400
  {
  }

  lemma EraOfDaysIsFloor(z: int)
    ensures DivTrunc(if z >= 0 then z else z - 146_096, 146_097) == z / 146_097
  {
  }

  /** Days before the first of March of year `y`, written with floor divisions of `y` itself. */
  function MarchYearStart(y: int): int {
    365 * y + y / 4 - y / 100 + y / 400
  }

  /** Days from the first of March to the first of the month with index `mp` (March is 0). */
  function MonthStart(mp: int): int {
    (153 * mp + 2) / 5
  }

  lemma EraSplit(y: int, e: int, r: int)
    requires y == 400 * e + r && 0 <= r < 400
    ensures y / 400 == e && y / 100 == 4 * e + r / 100 && y / 4 == 100 * e + r / 4
    ensures e * 146_097 + r * 365 + r / 4 - r / 100 == MarchYearStart(y)
  {
    assert y / 400 == e;
    assert y / 100 == 4 * e + r / 100;
    assert y / 4 == 100 * e + r / 4;
  }

  lemma NextQuotient(y: int)
    ensures (y + 1) / 4 == y / 4 + if (y + 1) % 4 == 0 then 1 else 0
    ensures (y + 1) / 100 == y / 100 + if (y + 1) % 100 == 0 then 1 else 0
    ensures (y + 1) / 400 == y / 400 + if (y + 1) % 400 == 0 then 1 else 0
  {
  }

  lemma YearLength(y: int)
    ensures MarchYearStart(y + 1) == MarchYearStart(y) + 365 + if LeapYear(y + 1) then 1 else 0
  {
    NextQuotient(y);
    Multiples(y + 1);
  }

  lemma Multiples(y: int)
    ensures y % 400 == 0 ==> y % 100 == 0
    ensures y % 100 == 0 ==> y % 4 == 0
  {
    if y % 400 == 0 {
      Multiple100(y, 4 * (y / 400));
    }
    if y % 100 == 0 {
      Multiple4(y, 25 * (y / 100));
    }
  }

  lemma Multiple100(y: int, q: int)
    requires y == 100 * q
    ensures y % 100 == 0
  {
  }

  lemma Multiple4(y: int, q: int)
    requires y == 4 * q
    ensures y % 4 == 0
  {
  }

  /** The code's era arithmetic is a plain sum of year, month and day counts. */
  lemma DayNumberIsSum(d: Date)
    requires Valid(d)
    ensures var january := d.month <= 2;
      DayNumber(d) == MarchYearStart(d.year - if january then 1 else 0)
        + MonthStart(d.month + if january then 9 else -3) + d.day - 1 - 719_468
  {
    var y := d.year - if d.month <= 2 then 1 else 0;
    EraIsFloor(y);
    EraSplit(y, y / 400, y % 400);
  }

  lemma MonthStarts()
    ensures MonthStart(0) == 0 && MonthStart(1) == 31 && MonthStart(2) == 61 && MonthStart(3) == 92
    ensures MonthStart(4) == 122 && MonthStart(5) == 153 && MonthStart(6) == 184 && MonthStart(7) == 214
    ensures MonthStart(8) == 245 && MonthStart(9) == 275 && MonthStart(10) == 306 && MonthStart(11) == 337
  {
  }

  /** Every next day has the next number, in every year. */
  lemma DayNumberStep(d: Date)
    requires Valid(d)
    ensures DayNumber(NextDay(d)) == DayNumber(d) + 1
  {
    DayNumberIsSum(d);
    DayNumberIsSum(NextDay(d));
    MonthStarts();
    if d.month == 2 {
      YearLength(d.year - 1);
    }
  }

  lemma EpochIsDayZero()
    ensures DayNumber(Date(1970, 1, 1)) == 0
  {
    DayNumberIsSum(Date(1970, 1, 1));
  }

  /** The first of any month, and of any later year, comes after every earlier day. */
  lemma {:induction false} MonthOrder(year: int, month: int, later: int)
    requires 1 <= month < later <= 12
    ensures DayNumber(Date(year, month, DaysInMonth(year, month))) < DayNumber(Date(year, later, 1))
    decreases later - month
  {
    DayNumberStep(Date(year, month, DaysInMonth(year, month)));
    if month + 1 < later {
      MonthOrder(year, month + 1, later);
      DayNumberWithinMonth(year, month + 1, 1, DaysInMonth(year, month + 1));
    }
  }

  lemma DayNumberWithinMonth(year: int, month: int, a: int, b: int)
    ensures DayNumber(Date(year, month, b)) - DayNumber(Date(year, month, a)) == b - a
  {
  }

  lemma {:induction false} YearOrder(year: int, later: int)
    requires year < later
    ensures DayNumber(Date(year, 12, 31)) < DayNumber(Date(later, 1, 1))
    decreases later - year
  {
    DayNumberStep(Date(year, 12, 31));
    if year + 1 < later {
      MonthOrder(year + 1, 1, 12);
      DayNumberWithinMonth(year + 1, 1, 1, 31);
      DayNumberWithinMonth(year + 1, 12, 1, 31);
      YearOrder(year + 1, later);
    }
  }

  /** Day numbers are strictly monotone in the date, so no two dates share one. */
  lemma DayNumberMonotone(a: Date, b: Date)
    requires Valid(a) && Valid(b)
    ensures DayNumber(a) < DayNumber(b) <==> Before(a, b)
    ensures DayNumber(a) == DayNumber(b) <==> a == b
  {
    if Before(a, b) {
      BeforeIsSmaller(a, b);
    } else if Before(b, a) {
      BeforeIsSmaller(b, a);
    }
  }

  lemma BeforeIsSmaller(a: Date, b: Date)
    requires Valid(a) && Valid(b) && Before(a, b)
    ensures DayNumber(a) < DayNumber(b)
  {
    if a.year == b.year && a.month == b.month {
      DayNumberWithinMonth(a.year, a.month, a.day, b.day);
    } else {
      DayNumberWithinMonth(a.year, a.month, a.day, DaysInMonth(a.year, a.month));
      DayNumberWithinMonth(b.year, b.month, 1, b.day);
      if a.year == b.year {
        MonthOrder(a.year, a.month, b.month);
      } else {
        if a.month < 12 {
          MonthOrder(a.year, a.month, 12);
          DayNumberWithinMonth(a.year, 12, 1, 31);
        }
        YearOrder(a.year, b.year);
        if b.month > 1 {
          MonthOrder(b.year, 1, b.month);
          DayNumberWithinMonth(b.year, 1, 1, 31);
        }
      }
    }
  }

  /** The year of the era, recovered from the day of the era: c centuries, q leap cycles, t years. */
  lemma YearOfEra(c: int, q: int, t: int, doy: int)
    requires 0 <= c < 4 && 0 <= q < 25 && 0 <= t < 4 && 0 <= doy <= 365
    requires doy == 365 ==> t == 3 && (q < 24 || c == 3)
    ensures var doe := 36_524 * c + 1_461 * q + 365 * t + doy;
      0 <= doe < 146_097 && (doe - doe / 1_460 + doe / 36_524 - doe / 146_096) / 365 == 100 * c + 4 * q + t
  {
    var doe := 36_524 * c + 1_461 * q + 365 * t + doy;
    assert doe / 36_524 - doe / 146_096 == c;
    var rest := 24 * c + q + 365 * t + doy;
    assert doe == 1_460 * (25 * c + q) + rest;
    assert doe / 1_460 == 25 * c + q + rest / 1_460;
    assert 0 <= doy - rest / 1_460 < 365;
  }

  /** The month and the day, recovered from the day of the March year. */
  lemma MonthOfYear(mp: int, day: int)
    requires 0 <= mp <= 11 && 1 <= day <= 31
    requires MonthStart(mp) + day <= if mp == 11 then 366 else MonthStart(mp + 1)
    ensures (5 * (MonthStart(mp) + day - 1) + 2) / 153 == mp
  {
    MonthStarts();
  }

  lemma CivilRoundTripSteps(days: int, e: int, r: int, mp: int, day: int)
    requires 0 <= r < 400 && 0 <= mp <= 11 && 1 <= day <= 31
    requires MonthStart(mp) + day <= if mp == 11 then (if LeapYear(r + 1) then 366 else 365) else MonthStart(mp + 1)
    requires days == e * 146_097 + 365 * r + r / 4 - r / 100 + MonthStart(mp) + day - 1 - 719_468
    ensures var m := mp + if mp < 10 then 3 else -9;
      CivilFromDays(days) == (400 * e + r + if m <= 2 then 1 else 0, m, day)
  {
    MonthStarts();
    var doy := MonthStart(mp) + day - 1;
    var doe := 365 * r + r / 4 - r / 100 + doy;
    DayOfEra(r, doy);
    MonthOfYear(mp, day);
    EraOfDaysIsFloor(days + 719_468);
    DivideEra(e, doe);
    CivilOfDayOfEra(e, r, mp, day, doe);
  }

  lemma CivilOfDayOfEra(e: int, r: int, mp: int, day: int, doe: int)
    requires 0 <= r < 400 && 0 <= mp <= 11 && 1 <= day <= 31
    requires doe == 365 * r + r / 4 - r / 100 + MonthStart(mp) + day - 1 && doe >= 0
    requires (doe - doe / 1_460 + doe / 36_524 - doe / 146_096) / 365 == r
    requires (5 * (MonthStart(mp) + day - 1) + 2) / 153 == mp
    ensures var m := mp + if mp < 10 then 3 else -9;
      CivilFromDayOfEra(e, doe) == (400 * e + r + if m <= 2 then 1 else 0, m, day)
  {
    assert doe - doe / 1_460 + doe / 36_524 - doe / 146_096 >= 0;
  }

  lemma DivideEra(e: int, doe: int)
    requires 0 <= doe < 146_097
    ensures (e * 146_097 + doe) / 146_097 == e
  {
  }

  lemma DayOfEra(r: int, doy: int)
    requires 0 <= r < 400 && 0 <= doy <= 365 && (doy == 365 ==> LeapYear(r + 1))
    ensures var doe := 365 * r + r / 4 - r / 100 + doy;
      0 <= doe < 146_097 && (doe - doe / 1_460 + doe / 36_524 - doe / 146_096) / 365 == r
  {
    var c, s := r / 100, r % 100;
    var q, t := s / 4, s % 4;
    assert r / 4 == 25 * c + q;
    if doy == 365 {
      Multiples(r + 1);
      assert (r + 1) % 4 == 0;
      assert t == 3;
      assert q < 24 || c == 3;
    }
    YearOfEra(c, q, t, doy);
  }

  /** `civil_from_days` undoes `days_from_civil` on every valid date. */
  lemma CivilRoundTrip(d: Date)
    requires Valid(d)
    ensures CivilFromDays(DayNumber(d)) == (d.year, d.month, d.day)
  {
    var january := d.month <= 2;
    var y := d.year - if january then 1 else 0;
    var mp := d.month + if january then 9 else -3;
    DayNumberIsSum(d);
    EraSplit(y, y / 400, y % 400);
    MonthStarts();
    assert LeapYear(y + 1) == LeapYear(y % 400 + 1) by { LeapYearPeriod(y, y / 400); }
    CivilRoundTripSteps(DayNumber(d), y / 400, y % 400, mp, d.day);
  }

  lemma LeapYearPeriod(y: int, e: int)
    ensures LeapYear(y + 1) == LeapYear(y - 400 * e + 1)
  {
    var k := y + 1;
    Remainder4(k, k / 4 - 100 * e, k % 4, e);
    Remainder100(k, k / 100 - 4 * e, k % 100, e);
    Remainder400(k, k / 400 - e, k % 400, e);
  }

  lemma Remainder4(k: int, q: int, r: int, e: int)
    requires k - 400 * e == 4 * q + r && 0 <= r < 4
    ensures (k - 400 * e) % 4 == r
  {
  }

  lemma Remainder100(k: int, q: int, r: int, e: int)
    requires k - 400 * e == 100 * q + r && 0 <= r < 100
    ensures (k - 400 * e) % 100 == r
  {
  }

  lemma Remainder400(k: int, q: int, r: int, e: int)
    requires k - 400 * e == 400 * q + r && 0 <= r < 400
    ensures (k - 400 * e) % 400 == r
  {
  }

  function PreviousDay(d: Date): (r: Date)
    requires Valid(d)
    ensures Valid(r) && NextDay(r) == d
  {
    if d.day > 1 then d.(day := d.day - 1)
    else if d.month > 1 then Date(d.year, d.month - 1, DaysInMonth(d.year, d.month - 1))
    else Date(d.year - 1, 12, 31)
  }

  /** Every integer is the number of a day. */
  lemma {:induction false} EveryDayHasDate(n: int) returns (d: Date)
    ensures Valid(d) && DayNumber(d) == n
    decreases if n < 0 then -n else n
  {
    if n == 0 {
      EpochIsDayZero();
      d := Date(1970, 1, 1);
    } else if n > 0 {
      var before := EveryDayHasDate(n - 1);
      DayNumberStep(before);
      d := NextDay(before);
    } else {
      var after := EveryDayHasDate(n + 1);
      d := PreviousDay(after);
      DayNumberStep(d);
    }
  }

  /** `days_from_civil` undoes `civil_from_days` on every day number, and the date is a real one. */
  lemma DaysRoundTrip(n: int)
    ensures var (y, m, d) := CivilFromDays(n); Valid(Date(y, m, d)) && DaysFromCivil(y, m, d) == n
  {
    var d := EveryDayHasDate(n);
    CivilRoundTrip(d);
  }
}
