/** The proleptic Gregorian calendar, and the two conversions between dates and Julian day numbers.

    The floating-point quotients of the code are exact rationals here, which truncate alike. The operands of
    (Z + 32044.75) / 36524.25 are exact in binary, so that it is exact where it is an integer; the other quotients are
    never integers; and where a quotient is not an integer, it is further from one than double precision errs. */
module Calendar {

  datatype Date = Date(Y: int, M: int, D: int)

  predicate IsLeap(Y: int) {
    Y % 4 == 0 && (Y % 100 != 0 || Y % 400 == 0)
  }

  function DaysInMonth(Y: int, M: int): (n: int)
    ensures 28 <= n <= 31
  {
    if M == 2 then (if IsLeap(Y) then 29 else 28)
    else if M == 4 || M == 6 || M == 9 || M == 11 then 30
    else 31
  }

  predicate Legal(d: Date) {
    1 <= d.M <= 12 && 1 <= d.D <= DaysInMonth(d.Y, d.M)
  }

  /** The next day of the calendar. */
  function Successor(d: Date): Date {
    if d.D < DaysInMonth(d.Y, d.M) then d.(D := d.D + 1)
    else if d.M < 12 then Date(d.Y, d.M + 1, 1)
    else Date(d.Y + 1, 1, 1)
  }

  const FIRST_YEAR := -4713
  const LAST_YEAR := 9999
  /** The day number of 9999-12-31. */
  const LAST_DAY := 5373484

  /** The day number of `computeJD`: the Julian day that begins at noon of the date. All quotients have
      positive operands. The day of the month is only added. */
  function DayNo(Y: int, M: int, D: int): int
    requires FIRST_YEAR <= Y && 1 <= M <= 12
  {
    var y := if M <= 2 then Y - 1 else Y;
    var m := if M <= 2 then M + 12 else M;
    var A := (y + 4800) / 100;
    var B := 38 - A + A / 4;
    var X1 := 36525 * (y + 4716) / 100;
    var X2 := 306001 * (m + 1) / 10000;
    X1 + X2 + D + B - 1524
  }

  /** The date of `computeYMD`. */
  function DateOf(Z: int): Date
    requires 0 <= Z <= LAST_DAY
  {
    var alpha := (4 * Z + 128179) / 146097 - 52;
    var A := Z + 1 + alpha - (alpha + 100) / 4 + 25;
    DateOfB(A + 1524)
  }

  /** The part of `computeYMD` that follows from `B`, the day in the Julian calendar. */
  function DateOfB(B: int): Date {
    var C := (20 * B - 2442) / 7305;
    var D := 36525 * (C % 32768) / 100;
    var E := (B - D) * 10000 / 306001;
    var X1 := 306001 * E / 10000;
    var M := if E < 14 then E - 1 else E - 13;
    Date(if M > 2 then C - 4716 else C - 4715, M, B - D - X1)
  }

  // -------------------- day numbers --------------------

  /** The days of a year that begins in March, before the first of each month. */
  function MarchDays(m: int): int {
    306001 * (m + 1) / 10000
  }

  /** The day number by centuries, years and months from a first of March. */
  lemma DayNoParts(Y: int, M: int, D: int)
    requires FIRST_YEAR <= Y && 1 <= M <= 12
    ensures var y := if M <= 2 then Y - 1 else Y;
            var m := if M <= 2 then M + 12 else M;
            var c, r := (y + 4800) / 100, (y + 4800) % 100;
            DayNo(Y, M, D) == 36524 * c + c / 4 + 365 * r + r / 4 + MarchDays(m) + D - 32167
  {
    var y := if M <= 2 then Y - 1 else Y;
    var c, r := (y + 4800) / 100, (y + 4800) % 100;
    assert 36525 * (y + 4716) == 100 * (36525 * c - 30681 + 365 * r) + 25 * r;
    assert 25 * r / 100 == r / 4;
  }

  lemma MarchTable(m: int)
    requires 3 <= m <= 14
    ensures MarchDays(m) == match m
      case 3 => 122 case 4 => 153 case 5 => 183 case 6 => 214 case 7 => 244 case 8 => 275
      case 9 => 306 case 10 => 336 case 11 => 367 case 12 => 397 case 13 => 428 case _ => 459
  {
  }

  /** Leap years by centuries and years. */
  lemma LeapParts(Y: int, c: int, r: int)
    requires Y + 4800 == 100 * c + r && 0 <= r < 100
    ensures IsLeap(Y) <==> (r % 4 == 0 && (r != 0 || c % 4 == 0))
  {
    assert Y % 4 == r % 4 by { assert Y == 4 * (25 * c - 1200) + r; }
    assert Y % 100 == r by { assert Y == 100 * (c - 48) + r; }
    if r == 0 {
      var q, s := c / 4, c % 4;
      assert Y == 400 * (q - 12) + 100 * s;
      assert Y % 400 == 100 * s;
    }
  }

  lemma FebruaryLength(Y: int)
    requires FIRST_YEAR <= Y
    ensures DayNo(Y, 3, 1) == DayNo(Y, 2, 1) + DaysInMonth(Y, 2)
  {
    var c, r := (Y + 4800) / 100, (Y + 4800) % 100;
    DayNoParts(Y, 3, 1);
    DayNoParts(Y, 2, 1);
    MarchTable(3);
    MarchTable(14);
    LeapParts(Y, c, r);
    var c', r' := (Y + 4799) / 100, (Y + 4799) % 100;
    if r > 0 {
      assert c' == c && r' == r - 1;
      assert r / 4 - r' / 4 == if r % 4 == 0 then 1 else 0;
    } else {
      assert c' == c - 1 && r' == 99;
      assert c / 4 - c' / 4 == if c % 4 == 0 then 1 else 0;
    }
  }

  /** The first of the next month is as many days away as the month is long. */
  lemma MonthLength(Y: int, M: int)
    requires FIRST_YEAR <= Y && 1 <= M <= 12
    ensures var n := Successor(Date(Y, M, DaysInMonth(Y, M)));
            DayNo(n.Y, n.M, 1) == DayNo(Y, M, 1) + DaysInMonth(Y, M)
  {
    if M == 2 {
      FebruaryLength(Y);
    } else {
      OtherMonthLength(Y, M);
    }
  }

  lemma OtherMonthLength(Y: int, M: int)
    requires FIRST_YEAR <= Y && 1 <= M <= 12 && M != 2
    ensures var n := Successor(Date(Y, M, DaysInMonth(Y, M)));
            DayNo(n.Y, n.M, 1) == DayNo(Y, M, 1) + DaysInMonth(Y, M)
  {
    var n := Successor(Date(Y, M, DaysInMonth(Y, M)));
    hide DayNo;
    DayNoParts(Y, M, 1);
    DayNoParts(n.Y, n.M, 1);
    MarchTable(if M <= 2 then M + 12 else M);
    MarchTable(if n.M <= 2 then n.M + 12 else n.M);
    hide MarchDays, IsLeap;
  }

  lemma DayNoLinear(Y: int, M: int, D: int)
    requires FIRST_YEAR <= Y && 1 <= M <= 12
    ensures DayNo(Y, M, D) == DayNo(Y, M, 1) + D - 1
  {
  }

  /** The calendar successor has the next day number. */
  lemma SuccessorDayNo(d: Date)
    requires FIRST_YEAR <= d.Y && Legal(d)
    ensures Legal(Successor(d)) && DayNo(Successor(d).Y, Successor(d).M, Successor(d).D) == DayNo(d.Y, d.M, d.D) + 1
  {
    hide DayNo;
    DayNoLinear(d.Y, d.M, d.D);
    DayNoLinear(d.Y, d.M, d.D + 1);
    MonthLength(d.Y, d.M);
  }

  // -------------------- computeYMD undoes computeJD --------------------

  lemma CenturyQuotient(Y: int, M: int, D: int)
    requires FIRST_YEAR <= Y && Legal(Date(Y, M, D))
    ensures var y := if M <= 2 then Y - 1 else Y;
            (4 * DayNo(Y, M, D) + 128179) / 146097 == (y + 4800) / 100
  {
    var y := if M <= 2 then Y - 1 else Y;
    var m := if M <= 2 then M + 12 else M;
    var c, r := (y + 4800) / 100, (y + 4800) % 100;
    DayNoParts(Y, M, D);
    MarchTable(m);
    hide DayNo;
    var W := 365 * r + r / 4 + MarchDays(m) + D;
    assert 4 * DayNo(Y, M, D) + 128179 == 146097 * c + (4 * W - 489 - c % 4);
    assert 4 * W - 489 - c % 4 < 146097 by {
      if r == 99 && M == 2 {
        LeapParts(Y, c + 1, 0);
      }
    }
  }

  lemma YearQuotient(y: int, m: int, D: int)
    requires 0 <= y + 4716 && 3 <= m <= 14 && 1 <= D <= 31
    requires m == 14 ==> D <= if (y + 1) % 4 == 0 then 29 else 28
    ensures (20 * (36525 * (y + 4716) / 100 + MarchDays(m) + D) - 2442) / 7305 == y + 4716
  {
    var k := y + 4716;
    MarchTable(m);
    assert 36525 * k / 100 == 365 * k + k / 4 by {
      assert 36525 * k == 100 * (365 * k) + 25 * k;
      assert 25 * k / 100 == k / 4;
    }
    var q, s := k / 4, k % 4;
    assert k == 4 * q + s;
    var rest := 20 * (MarchDays(m) + D) - 2442 - 5 * s;
    assert 20 * (365 * k + q + MarchDays(m) + D) - 2442 == 7305 * k + rest;
    assert 0 <= rest < 7305;
  }

  lemma MonthQuotient(m: int, D: int)
    requires 3 <= m <= 14 && 1 <= D <= 31
    requires m == 4 || m == 6 || m == 9 || m == 11 ==> D <= 30
    requires m == 14 ==> D <= 29
    ensures (MarchDays(m) + D) * 10000 / 306001 == m + 1
  {
    MarchTable(m);
  }

  lemma DateOfBIs(B: int, k: int, m: int, D: int)
    requires 0 <= k < 32768 && 3 <= m <= 14 && B == 36525 * k / 100 + MarchDays(m) + D
    requires (20 * B - 2442) / 7305 == k
    requires (MarchDays(m) + D) * 10000 / 306001 == m + 1
    ensures DateOfB(B) == Date(if m < 13 then k - 4716 else k - 4715, if m < 13 then m else m - 12, D)
  {
    assert k % 32768 == k;
    assert B - 36525 * k / 100 == MarchDays(m) + D;
  }

  lemma DateFromParts(Z: int, y: int, m: int, D: int)
    requires 0 <= Z <= LAST_DAY && FIRST_YEAR - 1 <= y <= LAST_YEAR && 3 <= m <= 14
    requires (4 * Z + 128179) / 146097 == (y + 4800) / 100
    requires var X1, c := 36525 * (y + 4716) / 100, (y + 4800) / 100;
             Z == X1 + MarchDays(m) + D + 38 - c + c / 4 - 1524 &&
             (20 * (X1 + MarchDays(m) + D) - 2442) / 7305 == y + 4716
    requires (MarchDays(m) + D) * 10000 / 306001 == m + 1
    ensures DateOf(Z) == Date(if m < 13 then y else y + 1, if m < 13 then m else m - 12, D)
  {
    hide MarchDays, DateOfB;
    var X1, c := 36525 * (y + 4716) / 100, (y + 4800) / 100;
    assert (c - 52 + 100) / 4 == c / 4 + 12;
    DateOfBIs(X1 + MarchDays(m) + D, y + 4716, m, D);
  }

  lemma DayNoFormula(Y: int, M: int, D: int)
    requires FIRST_YEAR <= Y && 1 <= M <= 12
    ensures var y, m := if M <= 2 then Y - 1 else Y, if M <= 2 then M + 12 else M;
            var c := (y + 4800) / 100;
            DayNo(Y, M, D) == 36525 * (y + 4716) / 100 + MarchDays(m) + D + 38 - c + c / 4 - 1524
  {
  }

  /** `computeYMD` undoes `computeJD` on every legal date in range. */
  lemma DateOfDayNo(d: Date)
    requires FIRST_YEAR <= d.Y <= LAST_YEAR && Legal(d) && 0 <= DayNo(d.Y, d.M, d.D) <= LAST_DAY
    ensures DateOf(DayNo(d.Y, d.M, d.D)) == d
  {
    var y := if d.M <= 2 then d.Y - 1 else d.Y;
    var m := if d.M <= 2 then d.M + 12 else d.M;
    hide DayNo, DateOf;
    CenturyQuotient(d.Y, d.M, d.D);
    assert m == 14 ==> d.D <= if (y + 1) % 4 == 0 then 29 else 28;
    YearQuotient(y, m, d.D);
    MonthQuotient(m, d.D);
    DayNoFormula(d.Y, d.M, d.D);
    hide MarchDays;
    DateFromParts(DayNo(d.Y, d.M, d.D), y, m, d.D);
  }

  // -------------------- every day has a date --------------------

  /** A later year has later days. */
  lemma YearsIncrease(Y: int, Z: int)
    requires FIRST_YEAR <= Y <= Z
    ensures DayNo(Y, 1, 1) + 365 * (Z - Y) <= DayNo(Z, 1, 1)
  {
    DayNoParts(Y, 1, 1);
    DayNoParts(Z, 1, 1);
    hide DayNo;
    var c, r := (Y - 1 + 4800) / 100, (Y - 1 + 4800) % 100;
    var c', r' := (Z - 1 + 4800) / 100, (Z - 1 + 4800) % 100;
    assert Z - Y == 100 * (c' - c) + (r' - r);
    assert c <= c' && (c == c' ==> r <= r');
    assert 36524 * (c' - c) - 36500 * (c' - c) == 24 * (c' - c);
    assert r / 4 <= 24 && 0 <= r' / 4;
  }

  lemma MonthsIncrease(Y: int, M: int, N: int)
    requires FIRST_YEAR <= Y && 1 <= M <= N <= 12
    ensures DayNo(Y, M, 1) + 28 * (N - M) <= DayNo(Y, N, 1)
    decreases N - M
  {
    if M < N {
      MonthLength(Y, M);
      MonthsIncrease(Y, M + 1, N);
    }
  }

  /** A date whose day is in range has its year in range. */
  lemma YearInRange(d: Date)
    requires FIRST_YEAR <= d.Y && Legal(d) && DayNo(d.Y, d.M, d.D) <= LAST_DAY
    ensures d.Y <= LAST_YEAR
  {
    assert DayNo(10000, 1, 1) == LAST_DAY + 1;
    hide DayNo;
    MonthsIncrease(d.Y, 1, d.M);
    DayNoLinear(d.Y, d.M, d.D);
    if d.Y > LAST_YEAR {
      YearsIncrease(10000, d.Y);
    }
  }

  /** A date whose year is in range has its day in range. */
  lemma DayInRange(d: Date)
    requires FIRST_YEAR <= d.Y <= LAST_YEAR && Legal(d)
    ensures DayNo(d.Y, d.M, d.D) <= LAST_DAY
  {
    assert DayNo(10000, 1, 1) == LAST_DAY + 1;
    hide DayNo;
    DayNoLinear(d.Y, d.M, d.D);
    MonthsIncrease(d.Y, d.M, 12);
    MonthLength(d.Y, d.M);
    MonthLength(d.Y, 12);
    YearsIncrease(d.Y + 1, 10000);
    if d.M < 12 {
      MonthsIncrease(d.Y, d.M + 1, 12);
    }
  }

  /** The date that the calendar reaches after `Z` days. */
  ghost function Walk(Z: nat): (d: Date)
    requires Z <= LAST_DAY
    ensures FIRST_YEAR <= d.Y <= LAST_YEAR && Legal(d) && DayNo(d.Y, d.M, d.D) == Z
  {
    if Z == 0 then
      assert DayNo(-4713, 11, 24) == 0;
      Date(-4713, 11, 24)
    else
      var d := Walk(Z - 1);
      SuccessorDayNo(d);
      YearInRange(Successor(d));
      Successor(d)
  }

  /** On every day number, `computeYMD` gives a legal date, `computeJD` maps it back to the same day, and
      the date of the next day is the calendar successor. */
  lemma DateOfIsCalendar(Z: int)
    requires 0 <= Z <= LAST_DAY
    ensures var d := DateOf(Z);
            FIRST_YEAR <= d.Y <= LAST_YEAR && Legal(d) && DayNo(d.Y, d.M, d.D) == Z
    ensures Z < LAST_DAY ==> DateOf(Z + 1) == Successor(DateOf(Z))
  {
    hide DateOf, DayNo;
    DateOfDayNo(Walk(Z));
    if Z < LAST_DAY {
      DateOfDayNo(Walk(Z + 1));
    }
  }

  // -------------------- months --------------------

  /** Month number `t` counts from January of the year 0. */
  function MonthIndex(Y: int, M: int): int { 12 * Y + M - 1 }

  const FIRST_MONTH := 12 * FIRST_YEAR

  /** The day number of the first of month `t`. */
  function MonthDay(t: int): int
    requires FIRST_MONTH <= t
  {
    DayNo(t / 12, t % 12 + 1, 1)
  }

  function MonthDays(t: int): (n: int)
    ensures 28 <= n <= 31
  {
    DaysInMonth(t / 12, t % 12 + 1)
  }

  lemma MonthIndexOf(Y: int, M: int)
    requires 1 <= M <= 12
    ensures MonthIndex(Y, M) / 12 == Y && MonthIndex(Y, M) % 12 + 1 == M
  {
  }

  lemma MonthDayStep(t: int)
    requires FIRST_MONTH <= t
    ensures MonthDay(t + 1) == MonthDay(t) + MonthDays(t)
  {
    hide DayNo, DaysInMonth;
    MonthLength(t / 12, t % 12 + 1);
    if t % 12 < 11 {
      MonthIndexOf(t / 12, t % 12 + 2);
    } else {
      MonthIndexOf(t / 12 + 1, 1);
    }
  }

  lemma MonthDayIncreases(t: int, u: int)
    requires FIRST_MONTH <= t <= u
    ensures MonthDay(t) + 28 * (u - t) <= MonthDay(u)
    decreases u - t
  {
    if t < u {
      hide MonthDay;
      MonthDayStep(t);
      MonthDayIncreases(t + 1, u);
    }
  }

  /** A date by its month. */
  lemma DayNoByMonth(Y: int, M: int, D: int)
    requires FIRST_YEAR <= Y && 1 <= M <= 12
    ensures FIRST_MONTH <= MonthIndex(Y, M) && DayNo(Y, M, D) == MonthDay(MonthIndex(Y, M)) + D - 1
    ensures MonthDays(MonthIndex(Y, M)) == DaysInMonth(Y, M)
  {
    MonthIndexOf(Y, M);
    DayNoLinear(Y, M, D);
  }

  lemma YearLength(Y: int)
    requires FIRST_YEAR <= Y
    ensures DayNo(Y + 1, 1, 1) <= DayNo(Y, 1, 1) + 366
  {
    DayNoParts(Y, 1, 1);
    DayNoParts(Y + 1, 1, 1);
    hide DayNo;
    var c, r := (Y + 4799) / 100, (Y + 4799) % 100;
    var c', r' := (Y + 4800) / 100, (Y + 4800) % 100;
    assert if r < 99 then c' == c && r' == r + 1 else c' == c + 1 && r' == 0;
    assert r' / 4 <= r / 4 + 1 && c' / 4 <= c / 4 + 1;
  }

  /** The day of the year. */
  lemma DayOfYear(d: Date)
    requires FIRST_YEAR <= d.Y && Legal(d)
    ensures 0 <= DayNo(d.Y, d.M, d.D) - DayNo(d.Y, 1, 1) <= 365
    ensures DayNo(d.Y, 1, 1) <= DayNo(d.Y, d.M, d.D) < DayNo(d.Y + 1, 1, 1)
  {
    hide DayNo, MonthDay;
    DayNoByMonth(d.Y, d.M, d.D);
    DayNoByMonth(d.Y, 1, 1);
    DayNoByMonth(d.Y + 1, 1, 1);
    MonthDayIncreases(MonthIndex(d.Y, 1), MonthIndex(d.Y, d.M));
    MonthDayStep(MonthIndex(d.Y, d.M));
    MonthDayIncreases(MonthIndex(d.Y, d.M) + 1, MonthIndex(d.Y + 1, 1));
    YearLength(d.Y);
  }

  // -------------------- weeks --------------------

  /** The Thursday of the week of day `Z`. Day 0 is a Monday. */
  function Thursday(Z: int): int { Z - Z % 7 + 3 }

  /** The year and the number of a week, by its Thursday: section 4.1.4 of ISO 8601:2004. */
  function IsoYear(Z: int): int
    requires 0 <= Thursday(Z) <= LAST_DAY
  {
    DateOf(Thursday(Z)).Y
  }

  function IsoWeek(Z: int): int
    requires 0 <= Thursday(Z) <= LAST_DAY
    requires FIRST_YEAR <= IsoYear(Z)
  {
    (Thursday(Z) - DayNo(IsoYear(Z), 1, 1)) / 7 + 1
  }

  lemma IsoWeekRange(Z: int)
    requires 0 <= Thursday(Z) <= LAST_DAY
    ensures FIRST_YEAR <= IsoYear(Z) <= LAST_YEAR && 1 <= IsoWeek(Z) <= 53
  {
    hide DateOf, DayNo;
    DateOfIsCalendar(Thursday(Z));
    DayOfYear(DateOf(Thursday(Z)));
  }

  /** Two days have the same ISO year and week exactly when they lie in the same Monday-to-Sunday week. */
  lemma IsoWeekIdentifies(Z1: int, Z2: int)
    requires 0 <= Thursday(Z1) <= LAST_DAY && 0 <= Thursday(Z2) <= LAST_DAY
    ensures FIRST_YEAR <= IsoYear(Z1) && FIRST_YEAR <= IsoYear(Z2)
    ensures IsoYear(Z1) == IsoYear(Z2) && IsoWeek(Z1) == IsoWeek(Z2) <==> Z1 / 7 == Z2 / 7
  {
    hide DateOf, DayNo;
    IsoWeekRange(Z1);
    IsoWeekRange(Z2);
    assert Thursday(Z1) == 7 * (Z1 / 7) + 3 && Thursday(Z2) == 7 * (Z2 / 7) + 3;
    if IsoYear(Z1) == IsoYear(Z2) && IsoWeek(Z1) == IsoWeek(Z2) {
      var J := DayNo(IsoYear(Z1), 1, 1);
      assert (Thursday(Z1) - J) / 7 == (Thursday(Z2) - J) / 7;
    }
  }

  /** A later year begins later. */
  lemma YearStarts(Y1: int, Y2: int)
    requires FIRST_YEAR <= Y1 < Y2
    ensures DayNo(Y1, 1, 1) + 28 <= DayNo(Y1 + 1, 1, 1) <= DayNo(Y2, 1, 1)
  {
    hide DayNo, MonthDay;
    DayNoByMonth(Y1, 1, 1);
    DayNoByMonth(Y1 + 1, 1, 1);
    DayNoByMonth(Y2, 1, 1);
    MonthDayIncreases(MonthIndex(Y1, 1), MonthIndex(Y1 + 1, 1));
    MonthDayIncreases(MonthIndex(Y1 + 1, 1), MonthIndex(Y2, 1));
  }

  /** What a week is: week `V` of year `Y` is the one of the `V`-th Thursday of that year. */
  ghost predicate IsWeek(Z: int, Y: int, V: int) {
    FIRST_YEAR <= Y && DayNo(Y, 1, 1) <= Thursday(Z) < DayNo(Y + 1, 1, 1) &&
    7 * (V - 1) <= Thursday(Z) - DayNo(Y, 1, 1) < 7 * V
  }

  lemma IsoWeekIs(Z: int)
    requires 0 <= Thursday(Z) <= LAST_DAY
    ensures FIRST_YEAR <= IsoYear(Z) && IsWeek(Z, IsoYear(Z), IsoWeek(Z))
  {
    hide DateOf, DayNo;
    DateOfIsCalendar(Thursday(Z));
    DayOfYear(DateOf(Thursday(Z)));
  }

  /** Week 1 is the week of the fourth of January. */
  lemma WeekOne(Y: int)
    requires FIRST_YEAR <= Y
    ensures IsWeek(DayNo(Y, 1, 4), Y, 1)
  {
    DayNoLinear(Y, 1, 4);
    hide DayNo;
    YearStarts(Y, Y + 1);
  }

  /** The next Monday-to-Sunday week has the next number, or is the first of the next year. */
  lemma NextWeek(Z: int, Y: int, V: int, Y': int, V': int)
    requires IsWeek(Z, Y, V) && IsWeek(Z + 7, Y', V')
    ensures (Y' == Y && V' == V + 1) || (Y' == Y + 1 && V' == 1)
  {
    hide DayNo;
    if Y' < Y {
      YearStarts(Y', Y);
    } else if Y < Y' {
      YearStarts(Y, Y');
      YearStarts(Y + 1, Y + 2);
      if Y + 1 < Y' { YearStarts(Y + 1, Y'); }
    }
  }
}
