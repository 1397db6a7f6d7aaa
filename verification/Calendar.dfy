/**
 Times as the index header writes them: `time_format`'s arithmetic against a calendar
 that only knows leap years and the next day, and `time_parse` as its inverse.
 */
module Calendar {

  // ---- the calendar ----

  datatype Date = Date(y: int, m: int, d: int)

  /** The rule of the proleptic Gregorian calendar. */
  predicate Leap(y: int) {
    (y % 4 == 0 && y % 100 != 0) || y % 400 == 0
  }

  function MonthLength(y: int, m: int): int {
    if m == 2 then (if Leap(y) then 29 else 28)
    else if m == 4 || m == 6 || m == 9 || m == 11 then 30
    else 31
  }

  predicate Valid(a: Date) {
    1 <= a.m <= 12 && 1 <= a.d <= MonthLength(a.y, a.m)
  }

  function NextDay(a: Date): Date {
    if a.d < MonthLength(a.y, a.m) then a.(d := a.d + 1)
    else if a.m < 12 then Date(a.y, a.m + 1, 1)
    else Date(a.y + 1, 1, 1)
  }

  function DayBefore(a: Date): Date {
    if a.d > 1 then a.(d := a.d - 1)
    else if a.m > 1 then Date(a.y, a.m - 1, MonthLength(a.y, a.m - 1))
    else Date(a.y - 1, 12, 31)
  }

  lemma DayBeforeNext(a: Date)
    requires Valid(a)
    ensures Valid(NextDay(a)) && Valid(DayBefore(a)) && NextDay(DayBefore(a)) == a
  {
  }

  // ---- time_format ----

  /** C's division. */
  function Quot(a: int, b: int): int
    requires b > 0
  {
    if a >= 0 then a / b else -((-a) / b)
  }

  /** The division of `time_format`: towards minus infinity, by C's. */
  function FloorQuot(a: int, b: int): int
    requires b > 0
  {
    Quot(if a >= 0 then a else a - (b - 1), b)
  }

  lemma FloorQuotIsFloor(a: int, b: int)
    requires b > 0
    ensures FloorQuot(a, b) == a / b
  {
    var q, r := a / b, a % b;
    assert a == q * b + r && 0 <= r < b;
    if a < 0 {
      var c := -(a - (b - 1));
      assert c == (-q) * b + (b - 1 - r);
      QuotUnique(c, b, -q, b - 1 - r);
    }
  }

  lemma QuotUnique(x: int, b: int, q: int, r: int)
    requires b > 0 && 0 <= r < b && x == q * b + r
    ensures x / b == q
  {
    var d, e := x / b, x % b;
    assert x == d * b + e && 0 <= e < b;
    if d < q {
      Apart(d, q, b);
    } else if q < d {
      Apart(q, d, b);
    }
  }

  lemma FloorQuotIs(x: int, b: int, q: int, r: int)
    requires b > 0 && 0 <= r < b && x == q * b + r
    ensures FloorQuot(x, b) == q
  {
    FloorQuotIsFloor(x, b);
    QuotUnique(x, b, q, r);
  }

  lemma Apart(a: int, c: int, b: int)
    requires a < c && b > 0
    ensures a * b + b <= c * b
  {
    assert c * b == a * b + b + (c - a - 1) * b;
    assert (c - a - 1) * b >= 0;
  }

  function YearOfEra(doe: int): int {
    (doe - doe / 1460 + doe / 36524 - doe / 146096) / 365
  }

  /** The date of day `doe` of an era of 400 years. */
  function FromEra(era: int, doe: int): Date {
    var yoe := YearOfEra(doe);
    var doy := doe - (365 * yoe + yoe / 4 - yoe / 100);
    var mp := (5 * doy + 2) / 153;
    var d := doy - (153 * mp + 2) / 5 + 1;
    var m := if mp < 10 then mp + 3 else mp - 9;
    Date(yoe + era * 400 + (if m <= 2 then 1 else 0), m, d)
  }

  /** civil_from_days: the date of day `n`, day 0 being the epoch. */
  function Civil(n: int): Date {
    var days := n + 719468;
    var era := FloorQuot(days, 146097);
    FromEra(era, days - era * 146097)
  }

  // ---- time_parse's inverse of it ----

  /** Day of the year that begins on 1 March. */
  function DayOfYear(m: int, d: int): int {
    (153 * (if m > 2 then m - 3 else m + 9) + 2) / 5 + d - 1
  }

  function DayOfEra(yoe: int, doy: int): int {
    yoe * 365 + yoe / 4 - yoe / 100 + doy
  }

  /** The year, counted from 1 March, that a date falls in. */
  function MarchYear(a: Date): int {
    if a.m <= 2 then a.y - 1 else a.y
  }

  function YearStart(y: int): int {
    var era := y / 400;
    era * 146097 + DayOfEra(y - era * 400, 0)
  }

  /** days_from_civil. The source computes it unsigned, from 1970 on; here over all
      years. */
  function Days(a: Date): int {
    YearStart(MarchYear(a)) + DayOfYear(a.m, a.d) - 719468
  }

  /** The year that begins on 1 March of year `yoe` of an era has a 366th day. */
  predicate LongYear(yoe: int) {
    Leap(yoe + 1)
  }

  /** Centuries, four-year groups and years of an era. */
  lemma Decompose(yoe: int) returns (c: int, b: int, a: int)
    requires 0 <= yoe < 400
    ensures 0 <= c <= 3 && 0 <= b <= 24 && 0 <= a <= 3 && yoe == 100 * c + 4 * b + a
    ensures yoe / 100 == c && yoe / 4 == 25 * c + b
    ensures LongYear(yoe) <==> a == 3 && (b < 24 || c == 3)
  {
    c, b, a := yoe / 100, yoe % 100 / 4, yoe % 4;
    var r := yoe % 100;
    assert r == 4 * b + r % 4;
    assert r % 4 == a by {
      QuotUnique(yoe, 4, 25 * c + b, r % 4);
    }
    QuotUnique(yoe, 4, 25 * c + b, a);
    if b == 24 && a == 3 {
      assert yoe + 1 == 100 * (c + 1);
    } else {
      QuotUnique(yoe + 1, 100, c, 4 * b + a + 1);
    }
    if a == 3 {
      assert yoe + 1 == 4 * (25 * c + b + 1);
    } else {
      QuotUnique(yoe + 1, 4, 25 * c + b, a + 1);
    }
  }

  /** The heart of civil_from_days: the year is found back from the day of the era. */
  lemma YearFoundBack(yoe: int, doy: int)
    requires 0 <= yoe < 400 && 0 <= doy <= (if LongYear(yoe) then 365 else 364)
    ensures var doe := DayOfEra(yoe, doy); 0 <= doe < 146097 && YearOfEra(doe) == yoe
  {
    var c, b, a := Decompose(yoe);
    Quotients(c, b, a, doy);
  }

  lemma Quotients(c: int, b: int, a: int, doy: int)
    requires 0 <= c <= 3 && 0 <= b <= 24 && 0 <= a <= 3
    requires 0 <= doy <= (if a == 3 && (b < 24 || c == 3) then 365 else 364)
    ensures var doe := 36524 * c + 1461 * b + 365 * a + doy;
      0 <= doe < 146097 && YearOfEra(doe) == 100 * c + 4 * b + a
  {
    var doe := 36524 * c + 1461 * b + 365 * a + doy;
    var rest := 24 * c + b + 365 * a + doy;
    var delta := if rest >= 1460 then 1 else 0;
    var last := if doe == 146096 then 1 else 0;
    QuotUnique(doe, 1460, 25 * c + b + delta, rest - 1460 * delta);
    QuotUnique(doe, 146096, last, doe - 146096 * last);
    QuotUnique(doe, 36524, c + last, doe - 36524 * (c + last));
    QuotUnique(doe - doe / 1460 + doe / 36524 - doe / 146096, 365, 100 * c + 4 * b + a, doy - delta);
  }

  lemma MonthFoundBack(m: int, d: int)
    requires 1 <= m <= 12 && 1 <= d <= MonthLength(2000, m)
    ensures var doy := DayOfYear(m, d);
      var mp := (5 * doy + 2) / 153;
      && 0 <= doy <= 365 && mp == (if m > 2 then m - 3 else m + 9)
      && doy - (153 * mp + 2) / 5 + 1 == d
      && (doy == 365 <==> m == 2 && d == 29)
  {
    var mp := if m > 2 then m - 3 else m + 9;
    assert 0 <= mp <= 11;
    var start := (153 * mp + 2) / 5;
    assert DayOfYear(m, d) == start + d - 1;
  }

  lemma LeapPeriod(y: int)
    ensures Leap(y) <==> Leap(y % 400)
  {
    var k, r := y / 400, y % 400;
    assert y == 400 * k + r;
    assert y == 4 * (100 * k + r / 4) + r % 4;
    QuotUnique(y, 4, 100 * k + r / 4, r % 4);
    assert y == 100 * (4 * k + r / 100) + r % 100;
    QuotUnique(y, 100, 4 * k + r / 100, r % 100);
  }

  lemma FromEraFindsBack(era: int, yoe: int, m: int, d: int)
    requires 0 <= yoe < 400 && 1 <= m <= 12 && 1 <= d <= MonthLength(2000, m)
    requires m == 2 && d == 29 ==> LongYear(yoe)
    ensures var doe := DayOfEra(yoe, DayOfYear(m, d));
      0 <= doe < 146097 && FromEra(era, doe) == Date(yoe + era * 400 + (if m <= 2 then 1 else 0), m, d)
  {
    MonthFoundBack(m, d);
    YearFoundBack(yoe, DayOfYear(m, d));
  }

  lemma CivilOfDays(a: Date)
    requires Valid(a)
    ensures Civil(Days(a)) == a
  {
    var y := MarchYear(a);
    var era, yoe := y / 400, y % 400;
    LongYearIs(y);
    FromEraFindsBack(era, yoe, a.m, a.d);
    CivilSplits(Days(a), era, DayOfEra(yoe, DayOfYear(a.m, a.d)));
  }

  lemma YearAfter(y: int)
    ensures (y % 400 + 1) % 400 == (y + 1) % 400
  {
    var k, r := y / 400, y % 400;
    if r == 399 {
      QuotUnique(y + 1, 400, k + 1, 0);
    } else {
      QuotUnique(y + 1, 400, k, r + 1);
    }
  }

  lemma CivilSplits(n: int, era: int, doe: int)
    requires 0 <= doe < 146097 && n + 719468 == era * 146097 + doe
    ensures Civil(n) == FromEra(era, doe)
  {
    FloorQuotIs(n + 719468, 146097, era, doe);
  }

  lemma YearOfEraNext(r: int)
    requires 0 <= r < 400
    ensures DayOfEra(r + 1, 0) == DayOfEra(r, 0) + if r == 399 then 365 else if LongYear(r) then 366 else 365
    ensures r == 399 ==> DayOfEra(r, 0) == 145731 && LongYear(r)
  {
    var c, b, a := Decompose(r);
    if a == 3 {
      QuotUnique(r + 1, 4, 25 * c + b + 1, 0);
    } else {
      QuotUnique(r + 1, 4, 25 * c + b, a + 1);
    }
    if a == 3 && b == 24 {
      QuotUnique(r + 1, 100, c + 1, 0);
    } else {
      QuotUnique(r + 1, 100, c, 4 * b + a + 1);
    }
  }

  lemma YearStartIs(y: int, k: int, r: int)
    requires 0 <= r < 400 && y == k * 400 + r
    ensures YearStart(y) == k * 146097 + DayOfEra(r, 0)
  {
    QuotUnique(y, 400, k, r);
  }

  lemma LongYearIs(y: int)
    ensures LongYear(y % 400) <==> Leap(y + 1)
  {
    LeapPeriod(y + 1);
    LeapPeriod(y % 400 + 1);
    YearAfter(y);
  }

  lemma YearStartNext(y: int)
    ensures YearStart(y + 1) == YearStart(y) + if Leap(y + 1) then 366 else 365
  {
    var k, r := y / 400, y % 400;
    YearOfEraNext(r);
    LongYearIs(y);
    YearStartIs(y, k, r);
    if r == 399 {
      YearStartIs(y + 1, k + 1, 0);
    } else {
      YearStartIs(y + 1, k, r + 1);
    }
  }

  lemma DaysOfNext(a: Date)
    requires Valid(a)
    ensures Days(NextDay(a)) == Days(a) + 1
  {
    MonthStarts(a.m);
    if a.m == 2 && a.d == MonthLength(a.y, 2) {
      YearStartNext(a.y - 1);
    }
  }

  /** March to February: each month begins where the one before it ends. */
  lemma MonthStarts(m: int)
    requires 1 <= m <= 12
    ensures m != 2 ==> DayOfYear(if m == 12 then 1 else m + 1, 1) == DayOfYear(m, MonthLength(2000, m)) + 1
    ensures DayOfYear(2, 28) == 364 && DayOfYear(2, 29) == 365 && DayOfYear(3, 1) == 0
  {
  }

  /** What walking a calendar takes: a numbering of the days that the next day raises by
      one, and that `civil` finds back. */
  ghost predicate Numbers<D(!new)>(civil: int -> D, days: D -> int, valid: D -> bool, next: D -> D, before: D -> D,
                                   origin: D)
  {
    && valid(origin) && days(origin) == 0
    && (forall a {:trigger next(a)} :: valid(a) ==> valid(next(a)) && days(next(a)) == days(a) + 1)
    && (forall a {:trigger before(a)} :: valid(a) ==> valid(before(a)) && next(before(a)) == a)
    && (forall a {:trigger days(a)} :: valid(a) ==> civil(days(a)) == a)
  }

  lemma {:induction false} Walk<D(!new)>(civil: int -> D, days: D -> int, valid: D -> bool, next: D -> D,
                                         before: D -> D, origin: D, n: int)
    requires Numbers(civil, days, valid, next, before, origin)
    ensures civil(0) == origin && valid(civil(n)) && days(civil(n)) == n && civil(n + 1) == next(civil(n))
    decreases if n >= 0 then n else -n
  {
    if n == 0 {
      assert civil(days(origin)) == origin;
    } else {
      var near := if n > 0 then n - 1 else n + 1;
      Walk(civil, days, valid, next, before, origin, near);
      var a := if n > 0 then next(civil(near)) else before(civil(near));
      assert next(a) == civil(near) || a == next(civil(near));
      assert civil(days(a)) == a;
    }
    assert civil(days(next(civil(n)))) == next(civil(n));
  }

  lemma Epoch()
    ensures Days(Date(1970, 1, 1)) == 0
  {
    assert YearStart(1969) == 4 * 146097 + DayOfEra(369, 0);
  }

  lemma CivilNumbers()
    ensures Numbers(Civil, Days, Valid, NextDay, DayBefore, Date(1970, 1, 1))
  {
    Epoch();
    forall a: Date | Valid(a)
      ensures Valid(NextDay(a)) && Days(NextDay(a)) == Days(a) + 1
    {
      DayBeforeNext(a);
      DaysOfNext(a);
    }
    forall a: Date | Valid(a)
      ensures Valid(DayBefore(a)) && NextDay(DayBefore(a)) == a
    {
      DayBeforeNext(a);
    }
    forall a: Date | Valid(a)
      ensures Civil(Days(a)) == a
    {
      CivilOfDays(a);
    }
  }

  /** `time_format` walks the calendar, both ways, from 1 January 1970: every day number
      is a valid date, and its date has that number. */
  lemma CivilIsCalendar(n: int)
    ensures Civil(0) == Date(1970, 1, 1)
    ensures Civil(n + 1) == NextDay(Civil(n))
    ensures Valid(Civil(n)) && Days(Civil(n)) == n
  {
    CivilNumbers();
    Walk(Civil, Days, Valid, NextDay, DayBefore, Date(1970, 1, 1), n);
  }
}
