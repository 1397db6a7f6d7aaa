/**
 YYYY-MM-DDTHH:MM:SSZ: `time_format` and `time_parse` as texts, each the other's inverse
 on exactly the years 1970 to 9999.
 */
module Timestamps {
  import opened Calendar

  datatype Time = Time(date: Date, h: int, mi: int, s: int)

  datatype Parsed = Refused | Seconds(t: int)

  /** The first second of the year 10000. */
  const END: int := 253402300800

  // ---- the fields ----

  function Fields(t: int): Time {
    var days := FloorQuot(t, 86400);
    var secs := t - days * 86400;
    Time(Civil(days), secs / 3600, secs / 60 % 60, secs % 60)
  }

  function SecondsOf(a: Time): int {
    Days(a.date) * 86400 + (a.h * 3600 + a.mi * 60 + a.s)
  }

  ghost predicate ValidTime(a: Time) {
    Valid(a.date) && 0 <= a.h < 24 && 0 <= a.mi < 60 && 0 <= a.s < 60
  }

  lemma DayTime(secs: int)
    requires 0 <= secs < 86400
    ensures secs == secs / 3600 * 3600 + secs / 60 % 60 * 60 + secs % 60
    ensures 0 <= secs / 3600 < 24
  {
    var minutes := secs / 60;
    assert secs / 3600 == minutes / 60 by {
      QuotUnique(secs, 3600, minutes / 60, minutes % 60 * 60 + secs % 60);
    }
  }

  /** The fields are a valid date and time, and they determine the second. */
  lemma FieldsDetermine(t: int)
    ensures ValidTime(Fields(t)) && SecondsOf(Fields(t)) == t
  {
    var days := FloorQuot(t, 86400);
    FloorQuotIsFloor(t, 86400);
    CivilIsCalendar(days);
    DayTime(t - days * 86400);
  }

  lemma SecondsDetermine(a: Time)
    requires ValidTime(a)
    ensures Fields(SecondsOf(a)) == a
  {
    var secs := a.h * 3600 + a.mi * 60 + a.s;
    FloorQuotIs(SecondsOf(a), 86400, Days(a.date), secs);
    CivilOfDays(a.date);
    QuotUnique(secs, 3600, a.h, a.mi * 60 + a.s);
    QuotUnique(secs, 60, a.h * 60 + a.mi, a.s);
    QuotUnique(a.h * 60 + a.mi, 60, a.h, a.mi);
  }

  // ---- years ----

  lemma {:induction false} YearStartRises(y: int, z: int)
    requires y <= z
    ensures YearStart(y) <= YearStart(z)
    decreases z - y
  {
    if y < z {
      YearStartNext(y);
      YearStartRises(y + 1, z);
    }
  }

  /** The days of a year are those from its first to the next year's. */
  lemma YearSpan(a: Date)
    requires Valid(a)
    ensures YearStart(a.y - 1) + 306 <= Days(a) + 719468 < YearStart(a.y) + 306
  {
    MonthFoundBack(a.m, a.d);
    YearStartNext(a.y - 1);
    MonthSpan(a.m, a.d);
  }

  lemma MonthSpan(m: int, d: int)
    requires 1 <= m <= 12 && 1 <= d <= MonthLength(2000, m)
    ensures m <= 2 <==> DayOfYear(m, d) >= 306
  {
  }

  /** The year, from the second alone. */
  lemma YearByRange(t: int)
    ensures Fields(t).date.y >= 1970 <==> t >= 0
    ensures Fields(t).date.y <= 9999 <==> t < END
  {
    FromEpoch(t);
    BeforeEnd(t);
  }

  lemma FromEpoch(t: int)
    ensures Fields(t).date.y >= 1970 <==> t >= 0
  {
    var y := Fields(t).date.y;
    FieldsDetermine(t);
    YearSpan(Fields(t).date);
    Landmarks();
    if y >= 1970 {
      YearStartRises(1969, y - 1);
    } else {
      YearStartRises(y, 1969);
    }
  }

  lemma BeforeEnd(t: int)
    ensures Fields(t).date.y <= 9999 <==> t < END
  {
    var y := Fields(t).date.y;
    FieldsDetermine(t);
    YearSpan(Fields(t).date);
    Landmarks();
    if y <= 9999 {
      YearStartRises(y, 9999);
    } else {
      YearStartRises(9999, y - 1);
    }
  }

  lemma Landmarks()
    ensures YearStart(1969) + 306 == 719468
    ensures YearStart(9999) + 306 == 719468 + END / 86400 && END % 86400 == 0
  {
    YearStartIs(1969, 4, 369);
    YearStartIs(9999, 24, 399);
  }

  // ---- the text ----

  function DigitChar(n: int): char
    requires 0 <= n <= 9
  {
    '0' + n as char
  }

  /** A digit's value, or more than 9. */
  function DigitValue(c: char): int {
    if '0' <= c <= '9' then (c - '0') as int else 255
  }

  lemma DigitRoundTrip(n: int, c: char)
    ensures 0 <= n <= 9 ==> DigitValue(DigitChar(n)) == n && DigitChar(n) != '-'
    ensures DigitValue(c) <= 9 ==> DigitValue(c) >= 0 && DigitChar(DigitValue(c)) == c
  {
  }

  /** `n` in decimal, padded with zeros to `w`. */
  function Decimal(n: nat, w: nat): string
    decreases n + w
  {
    if n < 10 && w <= 1 then [DigitChar(n)]
    else Decimal(n / 10, if w == 0 then 0 else w - 1) + [DigitChar(n % 10)]
  }

  function Pair(n: int): string {
    if 0 <= n < 100 then [DigitChar(n / 10), DigitChar(n % 10)] else "??"
  }

  /** "%04lld": the sign, if any, counts in the width. */
  function YearText(y: int): string {
    if y < 0 then "-" + Decimal(-y, 3) else Decimal(y, 4)
  }

  /** What snprintf leaves in the 21 bytes it is given. */
  function Render(a: Time): string {
    var text := YearText(a.date.y) + "-" + Pair(a.date.m) + "-" + Pair(a.date.d) + "T" +
      Pair(a.h) + ":" + Pair(a.mi) + ":" + Pair(a.s) + "Z";
    if |text| <= 20 then text else text[..20]
  }

  function TimeFormat(t: int): string {
    Render(Fields(t))
  }

  /** The text of a time whose year has four digits. */
  function Text(a: Time): string
    requires ValidTime(a) && 0 <= a.date.y <= 9999
  {
    var y := a.date.y;
    [DigitChar(y / 1000), DigitChar(y / 100 % 10), DigitChar(y / 10 % 10), DigitChar(y % 10), '-',
     DigitChar(a.date.m / 10), DigitChar(a.date.m % 10), '-',
     DigitChar(a.date.d / 10), DigitChar(a.date.d % 10), 'T',
     DigitChar(a.h / 10), DigitChar(a.h % 10), ':',
     DigitChar(a.mi / 10), DigitChar(a.mi % 10), ':',
     DigitChar(a.s / 10), DigitChar(a.s % 10), 'Z']
  }

  /** `time_parse`. */
  function TimeParse(s: string): Parsed {
    if |s| != 20 || s[4] != '-' || s[7] != '-' || s[10] != 'T' || s[13] != ':' || s[16] != ':' || s[19] != 'Z' then
      Refused
    else if !AllDigits(s) then
      Refused
    else
      var y := Number(s, 0) * 100 + Number(s, 2);
      var a := Time(Date(y, Number(s, 5), Number(s, 8)), Number(s, 11), Number(s, 14), Number(s, 17));
      if y < 1970 || a.date.m < 1 || a.date.m > 12 || a.date.d < 1 || a.date.d > MonthLength(2000, a.date.m) ||
         a.h > 23 || a.mi > 59 || a.s > 59 then
        Refused
      else if a.date.m == 2 && a.date.d == 29 && !Leap(y) then
        Refused
      else
        Seconds(SecondsOf(a))
  }

  /** The places of the digits: two of every three from 5 on, and the first four. */
  predicate DigitPlace(i: int) {
    0 <= i < 4 || i == 5 || i == 6 || i == 8 || i == 9 || i == 11 || i == 12 || i == 14 || i == 15 || i == 17 || i == 18
  }

  predicate AllDigits(s: string)
    requires |s| == 20
  {
    forall i | 0 <= i < 20 :: DigitPlace(i) ==> DigitValue(s[i]) <= 9
  }

  function Number(s: string, i: nat): int
    requires i + 1 < |s|
  {
    DigitValue(s[i]) * 10 + DigitValue(s[i + 1])
  }

  lemma FourDigits(y: int)
    requires 0 <= y <= 9999
    ensures Decimal(y, 4) == [DigitChar(y / 1000), DigitChar(y / 100 % 10), DigitChar(y / 10 % 10), DigitChar(y % 10)]
  {
    var a, b, c := y / 10, y / 100, y / 1000;
    QuotUnique(a, 10, b, a % 10);
    assert a / 10 == b && b / 10 == c;
    assert Decimal(c, 1) == [DigitChar(c)];
    assert Decimal(b, 2) == [DigitChar(c), DigitChar(b % 10)];
    assert Decimal(a, 3) == [DigitChar(c), DigitChar(b % 10), DigitChar(a % 10)];
  }

  lemma {:induction false} DecimalLong(n: nat, w: nat)
    ensures |Decimal(n, w)| >= 1 && |Decimal(n, w)| >= w
    ensures forall i :: 0 <= i < |Decimal(n, w)| ==> Decimal(n, w)[i] != '-'
    ensures n >= 10 ==> |Decimal(n, w)| >= 2
    decreases n + w
  {
    if !(n < 10 && w <= 1) {
      DecimalLong(n / 10, if w == 0 then 0 else w - 1);
      DigitRoundTrip(n % 10, '0');
    } else {
      DigitRoundTrip(n, '0');
    }
  }

  lemma FiveDigits(y: int)
    requires y >= 10000
    ensures |Decimal(y, 4)| >= 5 && Decimal(y, 4)[4] != '-'
  {
    DecimalLong(y, 4);
    DecimalLong(y / 1000, 1);
    assert Decimal(y / 100, 2) == Decimal(y / 100 / 10, 1) + [DigitChar(y / 100 % 10)];
    assert Decimal(y / 10, 3) == Decimal(y / 10 / 10, 2) + [DigitChar(y / 10 % 10)];
    assert y / 10 / 10 == y / 100 && y / 100 / 10 == y / 1000;
  }

  lemma RenderIsText(a: Time)
    requires ValidTime(a) && 0 <= a.date.y <= 9999
    ensures Render(a) == Text(a)
  {
    FourDigits(a.date.y);
  }

  // ---- there and back ----

  lemma TwoDigits(n: int)
    requires 0 <= n < 100
    ensures DigitValue(DigitChar(n / 10)) * 10 + DigitValue(DigitChar(n % 10)) == n
    ensures DigitValue(DigitChar(n / 10)) <= 9 && DigitValue(DigitChar(n % 10)) <= 9
  {
    DigitRoundTrip(n / 10, '0');
    DigitRoundTrip(n % 10, '0');
  }

  lemma YearHalves(y: int)
    requires 0 <= y <= 9999
    ensures y / 1000 == y / 100 / 10 && y / 10 % 10 == y % 100 / 10 && y % 10 == y % 100 % 10
  {
    var a, b := y / 100, y % 100;
    QuotUnique(y, 1000, a / 10, a % 10 * 100 + b);
    QuotUnique(y, 10, a * 10 + b / 10, b % 10);
    QuotUnique(a * 10 + b / 10, 10, a, b / 10);
  }

  lemma TextYear(a: Time)
    requires ValidTime(a) && 0 <= a.date.y <= 9999
    ensures var s := Text(a); Number(s, 0) * 100 + Number(s, 2) == a.date.y
  {
    var y := a.date.y;
    YearHalves(y);
    TwoDigits(y / 100);
    TwoDigits(y % 100);
  }

  lemma TextDay(a: Time)
    requires ValidTime(a) && 0 <= a.date.y <= 9999
    ensures var s := Text(a); Number(s, 5) == a.date.m && Number(s, 8) == a.date.d
  {
    TwoDigits(a.date.m);
    TwoDigits(a.date.d);
  }

  lemma TextClock(a: Time)
    requires ValidTime(a) && 0 <= a.date.y <= 9999
    ensures var s := Text(a); Number(s, 11) == a.h && Number(s, 14) == a.mi && Number(s, 17) == a.s
  {
    TwoDigits(a.h);
    TwoDigits(a.mi);
    TwoDigits(a.s);
  }

  lemma TextDigits(a: Time)
    requires ValidTime(a) && 0 <= a.date.y <= 9999
    ensures AllDigits(Text(a))
  {
    var y := a.date.y;
    YearHalves(y);
    TwoDigits(y / 100);
    TwoDigits(y % 100);
    TwoDigits(a.date.m);
    TwoDigits(a.date.d);
    TwoDigits(a.h);
    TwoDigits(a.mi);
    TwoDigits(a.s);
  }

  lemma TextNumbers(a: Time)
    requires ValidTime(a) && 0 <= a.date.y <= 9999
    ensures var s := Text(a);
      && AllDigits(s)
      && Number(s, 0) * 100 + Number(s, 2) == a.date.y
      && Number(s, 5) == a.date.m && Number(s, 8) == a.date.d
      && Number(s, 11) == a.h && Number(s, 14) == a.mi && Number(s, 17) == a.s
  {
    TextDigits(a);
    TextYear(a);
    TextDay(a);
    TextClock(a);
  }

  lemma ParseText(a: Time)
    requires ValidTime(a) && 0 <= a.date.y <= 9999
    ensures TimeParse(Text(a)) == if a.date.y >= 1970 then Seconds(SecondsOf(a)) else Refused
  {
    TextNumbers(a);
  }

  lemma ParseOther(a: Time)
    requires ValidTime(a) && (a.date.y < 0 || a.date.y > 9999)
    ensures TimeParse(Render(a)) == Refused
  {
    if a.date.y < 0 {
      DecimalLong(-a.date.y, 3);
      assert Render(a)[0] == '-' && DigitPlace(0);
    } else {
      FiveDigits(a.date.y);
    }
  }

  /** Reading back what was written gives the second, on exactly the years 1970 to 9999;
      any other time is refused. */
  lemma ParseOfFormat(t: int)
    ensures TimeParse(TimeFormat(t)) == if 0 <= t < END then Seconds(t) else Refused
  {
    var a := Fields(t);
    FieldsDetermine(t);
    YearByRange(t);
    if 0 <= a.date.y <= 9999 {
      RenderIsText(a);
      ParseText(a);
    } else {
      ParseOther(a);
    }
  }

  lemma DigitsAt(s: string, i: nat)
    requires |s| == 20 && AllDigits(s) && DigitPlace(i) && DigitPlace(i + 1)
    ensures 0 <= Number(s, i) < 100
    ensures DigitChar(Number(s, i) / 10) == s[i] && DigitChar(Number(s, i) % 10) == s[i + 1]
  {
    DigitRoundTrip(0, s[i]);
    DigitRoundTrip(0, s[i + 1]);
    QuotUnique(Number(s, i), 10, DigitValue(s[i]), DigitValue(s[i + 1]));
  }

  lemma TextOfNumbers(s: string, a: Time)
    requires |s| == 20 && AllDigits(s) && ValidTime(a) && 0 <= a.date.y <= 9999
    requires s[4] == '-' && s[7] == '-' && s[10] == 'T' && s[13] == ':' && s[16] == ':' && s[19] == 'Z'
    requires a.date.y == Number(s, 0) * 100 + Number(s, 2)
    requires a.date.m == Number(s, 5) && a.date.d == Number(s, 8)
    requires a.h == Number(s, 11) && a.mi == Number(s, 14) && a.s == Number(s, 17)
    ensures Text(a) == s
  {
    DigitsAt(s, 0);
    DigitsAt(s, 2);
    DigitsAt(s, 5);
    DigitsAt(s, 8);
    DigitsAt(s, 11);
    DigitsAt(s, 14);
    DigitsAt(s, 17);
    YearHalves(a.date.y);
    QuotUnique(a.date.y, 100, Number(s, 0), Number(s, 2));
  }

  /** And what is accepted is written back as it was read. */
  lemma FormatOfParse(s: string)
    requires TimeParse(s).Seconds?
    ensures 0 <= TimeParse(s).t < END && TimeFormat(TimeParse(s).t) == s
  {
    DigitsAt(s, 0);
    DigitsAt(s, 2);
    DigitsAt(s, 11);
    DigitsAt(s, 14);
    DigitsAt(s, 17);
    var a := Time(Date(Number(s, 0) * 100 + Number(s, 2), Number(s, 5), Number(s, 8)), Number(s, 11), Number(s, 14),
                  Number(s, 17));
    TextOfNumbers(s, a);
    RenderIsText(a);
    SecondsDetermine(a);
    YearByRange(SecondsOf(a));
  }

  // ---- the machine's integers ----

  const INT64_MIN: int := -0x8000_0000_0000_0000
  const INT64_MAX: int := 0x7fff_ffff_ffff_ffff

  ghost predicate Int64(x: int) {
    INT64_MIN <= x <= INT64_MAX
  }

  /** Every intermediate value of `time_format`, in the source's order, is in range. */
  ghost predicate NoOverflow(t: int) {
    var n := FloorQuot(t, 86400);
    var days := n + 719468;
    var era := FloorQuot(days, 146097);
    && Int64(if t >= 0 then t else t - 86399)
    && Int64(n * 86400) && Int64(t - n * 86400)
    && Int64(days) && Int64(if days >= 0 then days else days - 146096)
    && Int64(era * 146097) && Int64(era * 400)
    && 0 <= days - era * 146097 < 0x1_0000_0000
  }

  /** The only times whose formatting would overflow are the first 86399 of the type. */
  lemma OverflowExact(t: int)
    requires Int64(t)
    ensures NoOverflow(t) <==> t >= INT64_MIN + 86399
  {
    FloorQuotIsFloor(t, 86400);
    var days := t / 86400 + 719468;
    FloorQuotIsFloor(days, 146097);
  }
}
