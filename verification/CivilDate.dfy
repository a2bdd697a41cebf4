/**
  Civil dates: ds_date of src/log.c and days_from_civil of src/daemon.c, against the
  proleptic Gregorian calendar stated on its own. Division is C's, toward zero.
*/
module CivilDate {
  import opened Division

  datatype Date = Date(y: int, m: int, d: int)

  function Trunc(a: int, b: int): int
    requires b > 0
  {
    if a >= 0 then a / b else -((-a) / b)
  }

  // --------------------------------------------------------- the calendar

  predicate Leap(y: int) {
    y % 4 == 0 && (y % 100 != 0 || y % 400 == 0)
  }

  function MonthLength(y: int, m: int): int {
    if m == 2 then if Leap(y) then 29 else 28
    else if m in {4, 6, 9, 11} then 30
    else 31
  }

  predicate Valid(date: Date) {
    1 <= date.m <= 12 && 1 <= date.d <= MonthLength(date.y, date.m)
  }

  function NextDay(date: Date): Date {
    if date.d < MonthLength(date.y, date.m) then date.(d := date.d + 1)
    else if date.m < 12 then Date(date.y, date.m + 1, 1)
    else Date(date.y + 1, 1, 1)
  }

  // ------------------------------------------------------------- the code

  function MonthOf(mp: int): int {
    if mp < 10 then mp + 3 else mp - 9
  }

  function PlaceOf(m: int): int {
    m + if m > 2 then -3 else 9
  }

  /** The first day of each month of a year that starts in March. */
  function MonthStart(mp: int): int {
    (153 * mp + 2) / 5
  }

  /** days_from_civil */
  function DaysFromCivil(date: Date): int {
    var y := date.y - if date.m <= 2 then 1 else 0;
    var era := Trunc(if y >= 0 then y else y - 399, 400);
    var yoe := y - era * 400;
    var doy := Trunc(153 * (date.m + if date.m > 2 then -3 else 9) + 2, 5) + date.d - 1;
    var doe := yoe * 365 + Trunc(yoe, 4) - Trunc(yoe, 100) + doy;
    era * 146097 + doe - 719468
  }

  /** ds_date, of days since 1978-01-01 */
  function DsDate(days: int): Date {
    var z := days + 2922 + 719468;
    var era := Trunc(if z >= 0 then z else z - 146096, 146097);
    DateOfEra(era, z - era * 146097)
  }

  function DateOfEra(era: int, doe: int): Date {
    var yoe := YearOfEra(doe);
    var doy := doe - (365 * yoe + yoe / 4 - yoe / 100);
    var mp := (5 * doy + 2) / 153;
    var m := MonthOf(mp);
    Date(yoe + era * 400 + if m <= 2 then 1 else 0, m, doy - MonthStart(mp) + 1)
  }

  function YearOfEra(doe: int): int {
    (doe - doe / 1460 + doe / 36524 - doe / 146096) / 365
  }

  // ------------------------------------------------------------ the years

  lemma TruncIsFloor(a: int, b: int)
    requires b > 0
    ensures Trunc(if a >= 0 then a else a - (b - 1), b) == a / b
  {
    if a < 0 {
      var q, r := a / b, a % b;
      assert -(a - (b - 1)) == (-q) * b + (b - 1 - r);
      DivIs(-(a - (b - 1)), -q, b - 1 - r, b);
    }
  }

  /** A day of the 400-year era: century c, group of four years k, year r of it, day j of
      that year, which starts in March. */
  predicate Place(c: int, k: int, r: int, j: int) {
    && 0 <= c <= 3 && 0 <= k <= 24 && 0 <= r <= 3 && 0 <= j <= 365
    && (j == 365 ==> r == 3 && (k == 24 ==> c == 3))
  }

  function DayOfEra(c: int, k: int, r: int, j: int): int {
    36524 * c + 1461 * k + 365 * r + j
  }

  /** The formula of ds_date gives the year back, leap days and all. */
  lemma YearFound(c: int, k: int, r: int, j: int)
    requires Place(c, k, r, j)
    ensures YearOfEra(DayOfEra(c, k, r, j)) == 100 * c + 4 * k + r
    ensures 0 <= DayOfEra(c, k, r, j) <= 146096
  {
    var doe := DayOfEra(c, k, r, j);
    var e := if 24 * c + k + 365 * r + j >= 1460 then 1 else 0;
    DivIs(doe, 25 * c + k + e, 24 * c + k + 365 * r + j - 1460 * e, 1460);
    var h := if k == 24 && r == 3 && j == 365 then 1 else 0;
    DivIs(doe, c + h, 1461 * k + 365 * r + j - 36524 * h, 36524);
    DivIs(doe, h, doe - 146096 * h, 146096);
    var g := doe - doe / 1460 + doe / 36524 - doe / 146096;
    assert g == 365 * (100 * c + 4 * k + r) + (j - e);
    DivIs(g, 100 * c + 4 * k + r, j - e, 365);
  }

  lemma YearStart(c: int, k: int, r: int)
    requires 0 <= c <= 3 && 0 <= k <= 24 && 0 <= r <= 3
    ensures var yoe := 100 * c + 4 * k + r;
            yoe / 4 == 25 * c + k && yoe / 100 == c && 365 * yoe + yoe / 4 - yoe / 100 == DayOfEra(c, k, r, 0)
  {
    var yoe := 100 * c + 4 * k + r;
    DivIs(yoe, 25 * c + k, r, 4);
    DivIs(yoe, c, 4 * k + r, 100);
  }

  /** Every day of the era has its place. */
  lemma Placed(doe: int) returns (c: int, k: int, r: int, j: int)
    requires 0 <= doe <= 146096
    ensures Place(c, k, r, j) && DayOfEra(c, k, r, j) == doe
  {
    c := if doe / 36524 <= 3 then doe / 36524 else 3;
    var a := doe - 36524 * c;
    k := if a / 1461 <= 24 then a / 1461 else 24;
    var b := a - 1461 * k;
    r := if b / 365 <= 3 then b / 365 else 3;
    j := b - 365 * r;
  }

  /** Every year of the era too. */
  lemma YearPlaced(yoe: int) returns (c: int, k: int, r: int)
    requires 0 <= yoe < 400
    ensures 0 <= c <= 3 && 0 <= k <= 24 && 0 <= r <= 3 && yoe == 100 * c + 4 * k + r
  {
    c := yoe / 100;
    k := (yoe - 100 * c) / 4;
    r := yoe - 100 * c - 4 * k;
  }

  // ----------------------------------------------------------- the months

  lemma MonthFound(m: int, d: int, y: int)
    requires Valid(Date(y, m, d))
    ensures var doy := MonthStart(PlaceOf(m)) + d - 1;
            0 <= doy <= 365 && (5 * doy + 2) / 153 == PlaceOf(m) && MonthOf(PlaceOf(m)) == m
            && (doy == 365 ==> m == 2 && Leap(y))
  {
    var mp := PlaceOf(m);
    assert MonthStart(0) == 0 && MonthStart(1) == 31 && MonthStart(2) == 61 && MonthStart(3) == 92 && MonthStart(4) == 122;
    assert MonthStart(5) == 153 && MonthStart(6) == 184 && MonthStart(7) == 214 && MonthStart(8) == 245;
    assert MonthStart(9) == 275 && MonthStart(10) == 306 && MonthStart(11) == 337;
    var doy := MonthStart(mp) + d - 1;
    DivIs(5 * doy + 2, mp, 5 * doy + 2 - 153 * mp, 153);
  }

  lemma MonthPlaced(doy: int, y: int)
    requires 0 <= doy <= 365
    requires doy == 365 ==> Leap(y)
    ensures var mp := (5 * doy + 2) / 153;
            0 <= mp <= 11 && PlaceOf(MonthOf(mp)) == mp &&
            Valid(Date(y, MonthOf(mp), doy - MonthStart(mp) + 1))
  {
    var mp := (5 * doy + 2) / 153;
    assert MonthStart(0) == 0 && MonthStart(1) == 31 && MonthStart(2) == 61 && MonthStart(3) == 92 && MonthStart(4) == 122;
    assert MonthStart(5) == 153 && MonthStart(6) == 184 && MonthStart(7) == 214 && MonthStart(8) == 245;
    assert MonthStart(9) == 275 && MonthStart(10) == 306 && MonthStart(11) == 337;
  }

  // ------------------------------------------------------------- the laws

  /** The leap day closes a year that starts in March. */
  lemma LeapPlace(era: int, c: int, k: int, r: int)
    requires 0 <= c <= 3 && 0 <= k <= 24 && 0 <= r <= 3
    ensures Leap(400 * era + 100 * c + 4 * k + r + 1) <==> r == 3 && (k == 24 ==> c == 3)
  {
    var y := 400 * era + 100 * c + 4 * k + r + 1;
    if r < 3 {
      DivIs(y, 100 * era + 25 * c + k, r + 1, 4);
    } else {
      DivIs(y, 100 * era + 25 * c + k + 1, 0, 4);
      if k < 24 {
        DivIs(y, 4 * era + c, 4 * k + 4, 100);
      } else {
        DivIs(y, 4 * era + c + 1, 0, 100);
        if c < 3 {
          DivIs(y, era, 100 * c + 100, 400);
        } else {
          DivIs(y, era + 1, 0, 400);
        }
      }
    }
  }

  lemma DaysInParts(date: Date) returns (era: int, c: int, k: int, r: int)
    requires 1 <= date.m <= 12
    ensures 0 <= c <= 3 && 0 <= k <= 24 && 0 <= r <= 3
    ensures date.y - (if date.m <= 2 then 1 else 0) == 400 * era + 100 * c + 4 * k + r
    ensures DaysFromCivil(date) == 146097 * era + DayOfEra(c, k, r, MonthStart(PlaceOf(date.m)) + date.d - 1) - 719468
  {
    var y := date.y - if date.m <= 2 then 1 else 0;
    TruncIsFloor(y, 400);
    era := y / 400;
    c, k, r := YearPlaced(y % 400);
    YearStart(c, k, r);
  }

  lemma EraFound(era: int, doe: int)
    requires 0 <= doe <= 146096
    ensures DsDate(146097 * era + doe - 719468 - 2922) == DateOfEra(era, doe)
  {
    hide Trunc, DateOfEra;
    var z := 146097 * era + doe;
    TruncIsFloor(z, 146097);
    DivIs(z, era, doe, 146097);
  }

  lemma DateInParts(era: int, c: int, k: int, r: int, j: int)
    requires Place(c, k, r, j)
    ensures var mp, y := (5 * j + 2) / 153, 400 * era + 100 * c + 4 * k + r;
            DsDate(146097 * era + DayOfEra(c, k, r, j) - 719468 - 2922) ==
            Date(y + if MonthOf(mp) <= 2 then 1 else 0, MonthOf(mp), j - MonthStart(mp) + 1)
  {
    hide YearOfEra, MonthOf, MonthStart, DsDate;
    YearFound(c, k, r, j);
    YearStart(c, k, r);
    EraFound(era, DayOfEra(c, k, r, j));
  }

  /** Counting a date and turning the count back gives the date. */
  lemma DateRoundTrip(date: Date)
    requires Valid(date)
    ensures DsDate(DaysFromCivil(date) - 2922) == date
  {
    hide DsDate, DaysFromCivil;
    var era, c, k, r := DaysInParts(date);
    MonthFound(date.m, date.d, date.y);
    var j := MonthStart(PlaceOf(date.m)) + date.d - 1;
    LeapPlace(era, c, k, r);
    assert Place(c, k, r, j);
    DateInParts(era, c, k, r, j);
  }

  /** Every day number is a valid date, whose count it is. */
  lemma DayRoundTrip(days: int)
    ensures Valid(DsDate(days)) && DaysFromCivil(DsDate(days)) == days + 2922
  {
    hide DsDate, DaysFromCivil, Trunc, DateOfEra;
    var z := days + 2922 + 719468;
    var era := z / 146097;
    var c, k, r, j := Placed(z % 146097);
    DateInParts(era, c, k, r, j);
    var date, mp := DsDate(days), (5 * j + 2) / 153;
    LeapPlace(era, c, k, r);
    MonthPlaced(j, 400 * era + 100 * c + 4 * k + r + 1);
    assert Valid(date) by {
      ValidEitherYear(j, 400 * era + 100 * c + 4 * k + r);
    }
    var era', c', k', r' := DaysInParts(date);
    SameYear(era, c, k, r, era', c', k', r');
  }

  lemma ValidEitherYear(j: int, y: int)
    requires 0 <= j <= 365 && (j == 365 ==> Leap(y + 1))
    ensures var mp := (5 * j + 2) / 153;
            Valid(Date(y + if MonthOf(mp) <= 2 then 1 else 0, MonthOf(mp), j - MonthStart(mp) + 1))
  {
    MonthPlaced(j, y + 1);
  }

  lemma SameYear(era: int, c: int, k: int, r: int, era': int, c': int, k': int, r': int)
    requires 0 <= c <= 3 && 0 <= k <= 24 && 0 <= r <= 3 && 0 <= c' <= 3 && 0 <= k' <= 24 && 0 <= r' <= 3
    requires 400 * era + 100 * c + 4 * k + r == 400 * era' + 100 * c' + 4 * k' + r'
    ensures era == era' && c == c' && k == k' && r == r'
  {
  }

  /** The count is the calendar's: the epoch is day 0, and each next day counts one more. */
  lemma CountsDays(date: Date)
    requires Valid(date)
    ensures Valid(NextDay(date)) && DaysFromCivil(NextDay(date)) == DaysFromCivil(date) + 1
    ensures DaysFromCivil(Date(1970, 1, 1)) == 0 && DsDate(0) == Date(1978, 1, 1)
  {
    hide DsDate;
    NextIsLater(date);
    Epochs();
  }

  lemma Epochs()
    ensures DaysFromCivil(Date(1970, 1, 1)) == 0 && DsDate(0) == Date(1978, 1, 1)
  {
    hide DsDate;
    DateRoundTrip(Date(1978, 1, 1));
  }

  lemma NextIsLater(date: Date)
    requires Valid(date)
    ensures Valid(NextDay(date)) && DaysFromCivil(NextDay(date)) == DaysFromCivil(date) + 1
  {
    hide DaysFromCivil;
    var next := NextDay(date);
    var era, c, k, r := DaysInParts(date);
    var era', c', k', r' := DaysInParts(next);
    LeapPlace(era, c, k, r);
    assert MonthStart(0) == 0 && MonthStart(1) == 31 && MonthStart(2) == 61 && MonthStart(3) == 92 && MonthStart(4) == 122;
    assert MonthStart(5) == 153 && MonthStart(6) == 184 && MonthStart(7) == 214 && MonthStart(8) == 245;
    assert MonthStart(9) == 275 && MonthStart(10) == 306 && MonthStart(11) == 337;
    if !(date.m == 2 && next.m == 3) {
      SameYear(era, c, k, r, era', c', k', r');
    }
  }

  /** The calendar in numbers: the lengths of the months, leap years every four years but
      for centuries not divisible by 400, and days counted accordingly. */
  lemma MonthsCounted(y: int, m: int, d: int)
    requires 1 <= m <= 12
    ensures var leap := y % 4 == 0 && (y % 100 != 0 || y % 400 == 0);
            var n := [31, if leap then 29 else 28, 31, 30, 31, 30, 31, 31, 30, 31, 30, 31][m - 1];
            && (Valid(Date(y, m, d)) <==> 1 <= d <= n)
            && DaysFromCivil(Date(y, m, d)) == DaysFromCivil(Date(y, m, 1)) + d - 1
            && DaysFromCivil(if m == 12 then Date(y + 1, 1, 1) else Date(y, m + 1, 1)) == DaysFromCivil(Date(y, m, 1)) + n
  {
    hide DaysFromCivil, MonthLength;
    MonthLengthIs(y, m);
    DayCounted(y, m, d);
    DayCounted(y, m, MonthLength(y, m));
    CountsDays(Date(y, m, MonthLength(y, m)));
  }

  lemma MonthLengthIs(y: int, m: int)
    requires 1 <= m <= 12
    ensures var leap := y % 4 == 0 && (y % 100 != 0 || y % 400 == 0);
            MonthLength(y, m) == [31, if leap then 29 else 28, 31, 30, 31, 30, 31, 31, 30, 31, 30, 31][m - 1]
  {
    assert m in {1, 2, 3, 4, 5, 6, 7, 8, 9, 10, 11, 12};
  }

  lemma DayCounted(y: int, m: int, d: int)
    ensures DaysFromCivil(Date(y, m, d)) == DaysFromCivil(Date(y, m, 1)) + d - 1
  {
    hide Trunc;
  }
}
