/** The `DateTime` structure and the functions that update it in place. Seconds are real numbers; an instant `iJD` is
    in whole milliseconds since noon of Julian day 0. */
module DateTimes {
  import opened Calendar

  const DAY := 86400000
  const HALF_DAY := 43200000
  const MAX_JD := 464269060799999

  /** Division and remainder of C: the quotient is truncated. */
  function CDiv(a: int, b: int): int
    requires b > 0
  {
    if a >= 0 then a / b else -(-a / b)
  }

  function CMod(a: int, b: int): int
    requires b > 0
  {
    a - b * CDiv(a, b)
  }

  predicate ValidJulianDay(iJD: int) {
    0 <= iJD <= MAX_JD
  }

  /** The instant of a date and a time of day. */
  function Instant(Y: int, M: int, D: int, ms: int): int
    requires FIRST_YEAR <= Y && 1 <= M <= 12
  {
    DayNo(Y, M, D) * DAY - HALF_DAY + ms
  }

  /** The Julian day number of an instant, and the time of day. */
  function DayOf(iJD: int): int { (iJD + HALF_DAY) / DAY }
  function TimeOf(iJD: int): int { (iJD + HALF_DAY) % DAY }

  /** The first second of Unix time is Julian day 2440587.5. */
  lemma UnixEpoch()
    ensures Instant(1970, 1, 1, 0) == 2440587 * DAY + DAY / 2 == 210866760000000
  {
  }

  /** The arithmetic of `computeJD`: the instant at which a date begins. */
  method MidnightOf(Y: int, M: int, D: int) returns (iJD: int)
    requires FIRST_YEAR <= Y && 1 <= M <= 12
    ensures iJD == Instant(Y, M, D, 0)
  {
    var Y', M' := Y, M;
    if M' <= 2 {
      Y' := Y' - 1;
      M' := M' + 12;
    }
    var A := (Y' + 4800) / 100;
    var B := 38 - A + A / 4;
    var X1 := 36525 * (Y' + 4716) / 100;
    var X2 := 306001 * (M' + 1) / 10000;
    iJD := (X1 + X2 + D + B - 1524) * DAY - HALF_DAY;    // (X1 + X2 + D + B - 1524.5) * 86400000
  }

  /** The arithmetic of `computeYMD`. */
  method CivilDate(Z: int) returns (d: Date)
    requires 0 <= Z <= LAST_DAY
    ensures FIRST_YEAR <= d.Y <= LAST_YEAR && Legal(d) && DayNo(d.Y, d.M, d.D) == Z
  {
    var alpha := (4 * Z + 128179) / 146097 - 52;    // (Z + 32044.75) / 36524.25 - 52
    var A := Z + 1 + alpha - (alpha + 100) / 4 + 25;
    var B := A + 1524;
    var C := (20 * B - 2442) / 7305;                // (B - 122.1) / 365.25
    var D := 36525 * (C % 32768) / 100;
    var E := (B - D) * 10000 / 306001;              // (B - D) / 30.6001
    var X1 := 306001 * E / 10000;                   // 30.6001 * E
    var M := if E < 14 then E - 1 else E - 13;
    d := Date(if M > 2 then C - 4716 else C - 4715, M, B - D - X1);
    assert d == DateOf(Z);
    hide *;
    DateOfIsCalendar(Z);
  }

  class DateTime {
    var iJD: int
    var Y: int
    var M: int
    var D: int
    var h: int
    var m: int
    var tz: int
    var s: real
    var validJD: bool
    var validYMD: bool
    var validHMS: bool
    var nFloor: int
    var rawS: bool
    var isError: bool
    var isUtc: bool
    var isLocal: bool

    /** Month numbers are normalised before anything is computed from them. */
    predicate MonthOk()
      reads this
    {
      validYMD ==> 1 <= M <= 12
    }

    ghost predicate Errored()
      reads this
    {
      isError && !isUtc && !isLocal && !validJD && !validYMD && !validHMS && !rawS && iJD == 0 &&
      Y == 0 && M == 0 && D == 0 && h == 0 && m == 0 && s == 0.0 && tz == 0 && nFloor == 0
    }

    function TimeMs(): int
      reads this
    {
      h * 3600000 + m * 60000 + Ms(s)
    }

    /** All fields describe the same instant, which is in range. */
    ghost predicate Complete()
      reads this
    {
      validJD && validYMD && validHMS && !isError && tz == 0 && ValidJulianDay(iJD) &&
      FIRST_YEAR <= Y <= LAST_YEAR && Legal(Date(Y, M, D)) &&
      DayNo(Y, M, D) == DayOf(iJD) && TimeMs() == TimeOf(iJD) && 0 <= h < 24 && 0 <= m < 60 && 0 <= Ms(s) < 60000
    }

    constructor FromJD(iJD: int)
      ensures validJD && this.iJD == iJD && !validYMD && !validHMS && tz == 0 && !rawS && !isError && nFloor == 0 &&
              !isUtc && !isLocal
    {
      this.iJD, validJD := iJD, true;
      Y, M, D, h, m, tz, s, nFloor := 0, 0, 0, 0, 0, 0, 0.0, 0;
      validYMD, validHMS, rawS, isError, isUtc, isLocal := false, false, false, false, false, false;
    }

    constructor FromHMS(h: int, m: int, s: real, tz: int)
      ensures !validJD && !validYMD && validHMS && this.h == h && this.m == m && this.s == s && this.tz == tz
      ensures !rawS && !isError && nFloor == 0 && !isUtc && !isLocal
    {
      this.h, this.m, this.s, this.tz, validHMS := h, m, s, tz, true;
      iJD, Y, M, D, nFloor := 0, 0, 0, 0, 0;
      validJD, validYMD, rawS, isError, isUtc, isLocal := false, false, false, false, false, false;
    }

    method ClearNumbers()
      modifies this`iJD, this`Y, this`M, this`D, this`h, this`m, this`s, this`tz, this`nFloor
      ensures iJD == 0 && Y == 0 && M == 0 && D == 0 && h == 0 && m == 0 && s == 0.0 && tz == 0 && nFloor == 0
    {
      iJD, Y, M, D, nFloor := 0, 0, 0, 0, 0;
      h, m, s, tz := 0, 0, 0.0, 0;
    }

    method DatetimeError()
      modifies this
      ensures Errored()
    {
      ClearNumbers();
      validJD, validYMD, validHMS, rawS := false, false, false, false;
      isUtc, isLocal, isError := false, false, true;
    }

    function TheDate(): Date
      reads this
    {
      if validYMD then Date(Y, M, D) else Date(2000, 1, 1)
    }

    predicate Computable()
      reads this
    {
      FIRST_YEAR <= TheDate().Y <= LAST_YEAR && !rawS
    }

    /** The instant of the fields. */
    function TheInstant(): int
      requires MonthOk() && Computable()
      reads this
    {
      var d := TheDate();
      Instant(d.Y, d.M, d.D, if validHMS then TimeMs() - tz * 60000 else 0)
    }

    method ComputeJD()
      requires !validJD ==> MonthOk()
      modifies this
      ensures old(validJD) ==> unchanged(this)
      ensures !old(validJD) && !old(Computable()) ==> Errored()
      ensures !old(validJD) && old(Computable()) ==>
                validJD && iJD == old(TheInstant()) && !rawS &&
                Y == old(Y) && M == old(M) && D == old(D) && h == old(h) && m == old(m) && s == old(s) &&
                nFloor == old(nFloor) && isError == old(isError) &&
                var zoned := old(validHMS && tz != 0);
                validYMD == (old(validYMD) && !zoned) && validHMS == (old(validHMS) && !zoned) &&
                (tz == if zoned then 0 else old(tz)) &&
                isUtc == (old(isUtc) || zoned) && isLocal == (old(isLocal) && !zoned)
    {
      hide DayNo;
      if validJD { return; }
      var Y', M', D' := 2000, 1, 1;
      if validYMD {
        Y', M', D' := Y, M, D;
      }
      if Y' < FIRST_YEAR || Y' > LAST_YEAR || rawS {
        DatetimeError();
        return;
      }
      iJD := MidnightOf(Y', M', D');
      validJD := true;
      if validHMS {
        iJD := iJD + h * 3600000 + m * 60000 + Ms(s);
        if tz != 0 {
          iJD := iJD - tz * 60000;
          validYMD, validHMS, tz := false, false, 0;
          isUtc, isLocal := true, false;
        }
      }
    }

    /** The number of days by which the day of the month overflows. */
    method ComputeFloor()
      requires 1 <= M <= 12 && 0 <= D <= 31
      modifies this`nFloor
      ensures nFloor == if D <= DaysInMonth(Y, M) then 0 else D - DaysInMonth(Y, M)
    {
      if D <= 28 {
        nFloor := 0;
      } else if LongMonth(M) {
        nFloor := 0;
      } else if M != 2 {
        nFloor := if D == 31 then 1 else 0;
      } else if Y % 4 != 0 || (Y % 100 == 0 && Y % 400 != 0) {
        nFloor := D - 28;
      } else {
        nFloor := D - 29;
      }
    }

    method ClearYMD_HMS_TZ()
      modifies this`validYMD, this`validHMS, this`tz
      ensures !validYMD && !validHMS && tz == 0
    {
      validYMD, validHMS, tz := false, false, 0;
    }

    /** The date of the instant. */
    method ComputeYMD()
      modifies this
      ensures old(validYMD) ==> unchanged(this)
      ensures !old(validYMD) && !old(validJD) ==> validYMD && Y == 2000 && M == 1 && D == 1
      ensures !old(validYMD) && old(validJD) && ValidJulianDay(old(iJD)) ==>
                validYMD && Date(Y, M, D) == DateOf(DayOf(old(iJD)))
      ensures !old(validYMD) && old(validJD) && !ValidJulianDay(old(iJD)) ==> Errored()
      ensures old(validYMD || !validJD || ValidJulianDay(iJD)) ==>
                iJD == old(iJD) && validJD == old(validJD) && validHMS == old(validHMS) && h == old(h) && m == old(m) &&
                s == old(s) && tz == old(tz) && nFloor == old(nFloor) && rawS == old(rawS) && isError == old(isError) &&
                isUtc == old(isUtc) && isLocal == old(isLocal)
    {
      hide DateOf, DayNo;
      if validYMD { return; }
      if !validJD {
        Y, M, D := 2000, 1, 1;
      } else if !ValidJulianDay(iJD) {
        DatetimeError();
        return;
      } else {
        var Z := (iJD + HALF_DAY) / DAY;
        var d := CivilDate(Z);
        DateOfDayNo(d);
        Y, M, D := d.Y, d.M, d.D;
      }
      validYMD := true;
    }

    /** The time of day of the instant. */
    method ComputeHMS()
      requires !validJD ==> MonthOk()
      modifies this
      ensures old(validHMS) ==> unchanged(this)
      ensures !old(validHMS) ==> validHMS && Seconds(h * 3600000 + m * 60000) + s == Seconds(CMod(iJD + HALF_DAY, DAY))
      ensures !old(validHMS) && iJD >= 0 ==>
                0 <= h < 24 && 0 <= m < 60 && 0 <= Ms(s) < 60000 && TimeMs() == CMod(iJD + HALF_DAY, DAY)
      ensures !old(validHMS) && old(validJD) ==>
                iJD == old(iJD) && validJD && validYMD == old(validYMD) && Y == old(Y) && M == old(M) && D == old(D) &&
                tz == old(tz) && nFloor == old(nFloor) && isError == old(isError) && !rawS &&
                isUtc == old(isUtc) && isLocal == old(isLocal)
    {
      if validHMS { return; }
      ComputeJD();
      var day_ms := CMod(iJD + HALF_DAY, DAY);
      s := Seconds(CMod(day_ms, 60000));
      if iJD >= 0 { MsOfSeconds(CMod(day_ms, 60000)); }
      var day_min := CDiv(day_ms, 60000);
      m := CMod(day_min, 60);
      h := CDiv(day_min, 60);
      rawS := false;
      validHMS := true;
    }

    /** From an instant in range, all fields. */
    method ComputeYMD_HMS()
      requires validJD && ValidJulianDay(iJD) && !isError && tz == 0
      requires validYMD || validHMS ==> Complete()
      modifies this
      ensures Complete() && iJD == old(iJD) && nFloor == old(nFloor)
      ensures if old(validHMS) then rawS == old(rawS) else !rawS
    {
      ComputeYMD();
      DateOfIsCalendar(DayOf(iJD));
      ComputeHMS();
    }

    /** Bring the month back to 1..12, with the year to match. */
    method NormaliseMonth()
      modifies this`Y, this`M
      ensures 1 <= M <= 12 && MonthIndex(Y, M) == old(MonthIndex(Y, M))
    {
      var x := if M > 0 then CDiv(M - 1, 12) else CDiv(M - 12, 12);
      Y := Y + x;
      M := M - x * 12;
    }

    /** The fields of an instant in range, with months added. A year outside the range is an error. */
    method MoveMonths(years: int, months: int)
      requires validJD && ValidJulianDay(iJD) && !isError && tz == 0 && (validYMD || validHMS ==> Complete() && !rawS)
      modifies this
      ensures var t := old(MonthOf(iJD)) + 12 * years + months;
              if InYears(t) then
                validJD && !isError && !rawS && tz == 0 && iJD == Moved(old(iJD), t) && nFloor == Overflow(old(iJD), t)
              else Errored()
    {
      hide DateOf, DayNo, MonthDay, MonthDays;
      ghost var b := iJD;
      ComputeYMD_HMS();
      MonthOfInstant(b);
      DateOfDayNo(Date(Y, M, D));
      assert MonthIndex(Y, M) == MonthOf(b);
      Y := Y + years;
      M := M + months;
      NormaliseMonth();
      validJD := false;
      ComputeFloor();
      MonthIndexOf(Y, M);
      ghost var t := MonthIndex(Y, M);
      assert t == old(MonthOf(iJD)) + 12 * years + months;
      if FIRST_YEAR <= Y {
        DayNoByMonth(Y, M, D);
      }
      ComputeJD();
    }

    /** What every modifier "NNN units" leaves: an instant, and no fields. */
    ghost predicate OnlyJD()
      reads this
    {
      validJD && !isError && !validYMD && !validHMS && tz == 0
    }

    /** Modifier "NNN months". The fraction of a month counts as that fraction of 30 days. */
    method AddMonths(r: real) returns (ok: bool)
      requires validJD && ValidJulianDay(iJD) && !isError && tz == 0 && (validYMD || validHMS ==> Complete() && !rawS)
      modifies this
      ensures ok == (-176546.0 < r < 176546.0)
      ensures !ok ==> OnlyJD() && iJD == old(iJD) && nFloor == 0
      ensures ok ==>
                var t := old(MonthOf(iJD)) + Trunc(r);
                if InYears(t) then
                  OnlyJD() && iJD == Moved(old(iJD), t) + Fraction(r, MONTH_SECONDS) && nFloor == Overflow(old(iJD), t)
                else isError && !validJD && !validYMD && !validHMS && !rawS && tz == 0 && nFloor == 0
    {
      hide MonthOf, Moved, Overflow, DayNo, Legal;
      nFloor := 0;
      ok := -176546.0 < r < 176546.0;
      if ok {
        MoveMonths(0, Trunc(r));
        iJD := iJD + Fraction(r, MONTH_SECONDS);
      }
      ClearYMD_HMS_TZ();
    }

    /** Modifier "NNN years". The fraction of a year counts as that fraction of 365 days. */
    method AddYears(r: real) returns (ok: bool)
      requires validJD && ValidJulianDay(iJD) && !isError && tz == 0 && (validYMD || validHMS ==> Complete() && !rawS)
      modifies this
      ensures ok == (-14713.0 < r < 14713.0)
      ensures !ok ==> OnlyJD() && iJD == old(iJD) && nFloor == 0
      ensures ok ==>
                var t := old(MonthOf(iJD)) + 12 * Trunc(r);
                if InYears(t) then
                  OnlyJD() && iJD == Moved(old(iJD), t) + Fraction(r, YEAR_SECONDS) && nFloor == Overflow(old(iJD), t)
                else isError && !validJD && !validYMD && !validHMS && !rawS && tz == 0 && nFloor == 0
    {
      hide MonthOf, Moved, Overflow, DayNo, Legal;
      nFloor := 0;
      ok := -14713.0 < r < 14713.0;
      if ok {
        MoveMonths(Trunc(r), 0);
        iJD := iJD + Fraction(r, YEAR_SECONDS);
      }
      ClearYMD_HMS_TZ();
    }

    /** Modifier "floor", after a modifier that left the instant and its overflow, or an error. */
    method FloorDay()
      requires !validJD ==> isError && !validYMD && !rawS
      modifies this
      ensures validJD && !validYMD && !validHMS && isError == old(isError)
      ensures old(validJD) ==> iJD == old(iJD) - old(nFloor) * DAY
    {
      ComputeJD();
      iJD := iJD - nFloor * DAY;
      ClearYMD_HMS_TZ();
    }

    /** Modifier "(+|-)YYYY-MM-DD": the months and days of a difference. */
    method AddDate(d: Diff) returns (ok: bool)
      requires validJD && ValidJulianDay(iJD) && !isError && tz == 0 && (validYMD || validHMS ==> Complete() && !rawS)
      modifies this
      ensures ok == ParsedDate(d)
      ensures !ok ==> unchanged(this)
      ensures ok ==>
                var t := old(MonthOf(iJD)) + Signed(d.sign, d.Months());
                if InYears(t) then
                  OnlyJD() && !rawS && iJD == Moved(old(iJD), t) + Signed(d.sign, d.D * DAY) &&
                  nFloor == Overflow(old(iJD), t)
                else isError && !validJD && !validYMD && !validHMS && !rawS && tz == 0
    {
      hide MonthOf, Moved, Overflow, Complete, DayNo;
      if !ParsedDate(d) { return false; }
      ok := true;
      var days := d.D;
      if d.sign == '-' {
        MoveMonths(-d.Y, -d.M);
        days := -days;
      } else {
        MoveMonths(d.Y, d.M);
      }
      validHMS := false;
      validYMD := false;
      iJD := iJD + days * DAY;
    }

    /** Modifier "(+|-)HH:MM:SS.SSS", with the time of day that was read. */
    method AddTime(sign: char, c: Clock)
      requires ValidClock(c) && (!validJD ==> MonthOk())
      modifies this
      ensures !validYMD && !validHMS && tz == 0
      ensures old(validJD) ==>
                validJD && iJD == old(iJD) + Signed(sign, ClockMs(c) % DAY) && nFloor == old(nFloor)
      ensures old(validJD || isError) ==> isError == old(isError)
    {
      hide DayNo, ClockMs;
      var ms := TimeOnly(c);
      if sign == '-' {
        ms := -ms;
      }
      ComputeJD();
      ClearYMD_HMS_TZ();
      iJD := iJD + ms;
    }

    /** Modifier "(+|-)YYYY-MM-DD HH:MM:SS.SSS", by its fields. A time of day that is not one fails after the date was
        added. */
    method AddDiff(d: Diff) returns (ok: bool)
      requires validJD && ValidJulianDay(iJD) && !isError && tz == 0 && (validYMD || validHMS ==> Complete() && !rawS)
      modifies this
      ensures ok == Parsed(d)
      ensures !ParsedDate(d) ==> unchanged(this)
      ensures ParsedDate(d) ==>
                var t := old(MonthOf(iJD)) + Signed(d.sign, d.Months());
                if InYears(t) then
                  OnlyJD() &&
                  iJD == Moved(old(iJD), t) + Signed(d.sign, d.D * DAY + if ok then DiffMs(d) % DAY else 0)
                else isError
    {
      hide MonthOf, Moved, Overflow, Complete, DayNo, ClockMs, ValidClock;
      ok := AddDate(d);
      if ok {
        if !ParsedTime(d) { return false; }
        DiffClock(d);
        AddTime(d.sign, Clock(d.h, d.m, Seconds(d.s), 0));
      }
    }
  }

  /** The milliseconds of a number of seconds, rounded as computeJD() does, and back. */
  function Ms(s: real): int { Trunc(s * 1000.0 + 0.5) }
  function Seconds(ms: int): real { ms as real / 1000.0 }

  lemma MsOfSeconds(ms: nat)
    ensures Ms(Seconds(ms)) == ms && 0.0 <= Seconds(ms) && (ms < 60000 ==> Seconds(ms) < 60.0)
  {
  }

  /** Seconds are rounded to the nearest millisecond, half of one up. */
  lemma MsIsNearest(s: real)
    requires 0.0 <= s
    ensures 0 <= Ms(s) && -0.5 < Ms(s) as real - s * 1000.0 <= 0.5
  {
  }

  function Signed(sign: char, x: int): int { if sign == '-' then -x else x }

  /** A time of day that was read, with its time zone in minutes. */
  datatype Clock = Clock(h: int, m: int, s: real, tz: int)

  predicate ValidClock(c: Clock) {
    0 <= c.h <= 24 && 0 <= c.m <= 59 && 0.0 <= c.s < 60.0 && -900 < c.tz < 900
  }

  function ClockMs(c: Clock): int { c.h * 3600000 + c.m * 60000 + Ms(c.s) - c.tz * 60000 }

  lemma DiffClock(d: Diff)
    requires ParsedTime(d)
    ensures var c := Clock(d.h, d.m, Seconds(d.s), 0); ValidClock(c) && ClockMs(c) == DiffMs(d)
  {
    MsOfSeconds(d.s);
    hide Ms;
  }

  /** A time of day in a zone that is hours and minutes ahead is that much earlier. */
  lemma ZoneIsAhead(c: Clock, h: int, m: int)
    requires c.tz == 60 * h + m
    ensures ClockMs(c) == ClockMs(Clock(c.h - h, c.m - m, c.s, 0))
  {
    hide Ms;
  }

  /** The time of day that HH:MM:SS.SSS adds: a parsed hour of 24 is no time at all. */
  method TimeOnly(c: Clock) returns (ms: int)
    requires ValidClock(c)
    ensures ms == ClockMs(c) % DAY
  {
    hide Ms;
    var tx := new DateTime.FromHMS(c.h, c.m, c.s, c.tz);
    tx.ComputeJD();
    assert DayNo(2000, 1, 1) == 2451545;
    hide DayNo;
    ms := tx.iJD - HALF_DAY;
    ClockBound(c);
    DropDays(ms, 2451544, ClockMs(c));
    ms := ms - CDiv(ms, DAY) * DAY;
  }

  lemma ClockBound(c: Clock)
    requires ValidClock(c)
    ensures -DAY < ClockMs(c)
  {
  }

  /** What is left without the whole days. */
  lemma DropDays(x: nat, Z: int, ms: int)
    requires x == Z * DAY + ms
    ensures x - CDiv(x, DAY) * DAY == ms % DAY
  {
  }

  /** The year of month `t` can be stored. */
  predicate InYears(t: int) {
    FIRST_YEAR <= t / 12 <= LAST_YEAR
  }

  /** By how many days the day of the month overflows in month `t`. */
  function Overflow(iJD: int, t: int): (n: nat)
    requires ValidJulianDay(iJD)
  {
    var D := DateOf(DayOf(iJD)).D;
    if D <= MonthDays(t) then 0 else D - MonthDays(t)
  }

  /** The digits of a difference that the parser takes: a year of four or five digits that is a number within the
      limits, at most 11 months and 30 days. */
  predicate ParsedDate(d: Diff) {
    (d.sign == '+' || d.sign == '-') && 0 <= d.Y <= 14712 && 0 <= d.M < 12 && 0 <= d.D < 31
  }

  predicate ParsedTime(d: Diff) {
    0 <= d.h <= 24 && 0 <= d.m <= 59 && 0 <= d.s <= 59999
  }

  predicate Parsed(d: Diff) {
    ParsedDate(d) && ParsedTime(d)
  }

  const MONTH_SECONDS := 2592000.0
  const YEAR_SECONDS := 31536000.0

  /** The conversion of C to an integer: what follows the decimal point is dropped. */
  function Trunc(r: real): int {
    if r >= 0.0 then r.Floor else -(-r).Floor
  }

  /** A number of units of `seconds` seconds, in milliseconds. */
  function Milliseconds(f: real, seconds: real): real { f * 1000.0 * seconds }

  /** The nearest integer, by adding or taking off a half before the conversion. */
  function Rounded(x: real, negative: bool): int { Trunc(x + if negative then -0.5 else 0.5) }

  /** The milliseconds that the fraction of a number of units adds. */
  function Fraction(r: real, seconds: real): int {
    Rounded(Milliseconds(r - Trunc(r) as real, seconds), r < 0.0)
  }

  lemma RoundedIsNearest(x: real, negative: bool)
    requires if negative then x <= 0.0 else x >= 0.0
    ensures var n := Rounded(x, negative);
            -0.5 <= n as real - x <= 0.5 && (if negative then n <= 0 else 0 <= n) && (x == 0.0 ==> n == 0)
  {
  }

  lemma MillisecondsSign(f: real, seconds: real)
    requires 0.0 < seconds
    ensures var x := Milliseconds(f, seconds); (f <= 0.0 ==> x <= 0.0) && (f >= 0.0 ==> x >= 0.0)
  {
    Product(f * 1000.0, seconds);
  }

  lemma Product(f: real, u: real)
    requires 0.0 < u
    ensures (f <= 0.0 ==> f * u <= 0.0) && (f >= 0.0 ==> f * u >= 0.0)
  {
  }

  /** A month counts as 30 days and a year as 365. */
  lemma UnitsAreDays(r: real)
    ensures Milliseconds(r, MONTH_SECONDS) == r * (30 * DAY) as real
    ensures Milliseconds(r, YEAR_SECONDS) == r * (365 * DAY) as real
  {
  }

  /** The fraction is rounded to the nearest millisecond, has the sign of the number, and is nothing for a whole
      number. */
  lemma FractionRounds(r: real, seconds: real)
    requires 0.0 < seconds
    ensures -0.5 <= Fraction(r, seconds) as real - Milliseconds(r - Trunc(r) as real, seconds) <= 0.5
    ensures if r < 0.0 then Fraction(r, seconds) <= 0 else 0 <= Fraction(r, seconds)
    ensures r == Trunc(r) as real ==> Fraction(r, seconds) == 0
  {
    var f := r - Trunc(r) as real;
    assert if r < 0.0 then f <= 0.0 else f >= 0.0;
    hide Trunc, Milliseconds, Rounded;
    MillisecondsSign(f, seconds);
    RoundedIsNearest(Milliseconds(f, seconds), r < 0.0);
  }

  lemma WholeNumber(n: int)
    ensures Trunc(n as real) == n
  {
  }

  /** The months that a bit mask marks as long. */
  predicate LongMonth(M: int)
    requires 0 <= M <= 12
  {
    ((1 as bv16) << M) & 0x15aa != 0
  }

  // -------------------- timediff --------------------

  /** The text that timediff() renders: sign, years, months, days and a time of day. */
  datatype Diff = Diff(sign: char, Y: int, M: int, D: int, h: int, m: int, s: int) {
    function Months(): int { 12 * Y + M }
    function Rest(): int { D * DAY + h * 3600000 + m * 60000 + s }
  }

  /** The time of day of a difference. */
  function DiffMs(d: Diff): int { d.h * 3600000 + d.m * 60000 + d.s }

  /** What the modifier parser accepts: at most 14712 years, 0-11 months, 0-30 days, a time of day. */
  predicate Acceptable(d: Diff) {
    (d.sign == '+' || d.sign == '-') && 0 <= d.Y <= 14712 && 0 <= d.M <= 11 && 0 <= d.D <= 30 &&
    0 <= d.h < 24 && 0 <= d.m < 60 && 0 <= d.s < 60000
  }

  /** The month of an instant. */
  function MonthOf(iJD: int): int
    requires ValidJulianDay(iJD)
  {
    var d := DateOf(DayOf(iJD));
    MonthIndex(d.Y, d.M)
  }

  /** The instant `iJD`, moved to month `t`: the day of the month and the time of day stay, and a day that
      month `t` does not have runs over into the next month. */
  function Moved(iJD: int, t: int): int
    requires ValidJulianDay(iJD) && FIRST_MONTH <= t
  {
    (MonthDay(t) + DateOf(DayOf(iJD)).D - 1) * DAY - HALF_DAY + TimeOf(iJD)
  }

  /** Month `t` is reached from `b` by whole months towards `a`: back from the month of `a` to the first month
      that does not overshoot. `rest` takes the instant from there to `a`. */
  ghost predicate Reaches(a: int, b: int, t: int, rest: int)
    requires ValidJulianDay(a) && ValidJulianDay(b)
  {
    FIRST_MONTH < MonthOf(a) && FIRST_MONTH <= t && 0 <= rest &&
    if a >= b then
      t <= MonthOf(a) && Moved(b, t) + rest == a && (t < MonthOf(a) ==> a < Moved(b, t + 1))
    else
      MonthOf(a) <= t && Moved(b, t) - rest == a && (MonthOf(a) < t ==> Moved(b, t - 1) < a)
  }

  /** The month that a difference leads to. */
  function Target(b: int, d: Diff): int
    requires ValidJulianDay(b)
  {
    MonthOf(b) + Signed(d.sign, d.Months())
  }

  /** The difference that takes `b` to `a`, in the form that the modifier parser accepts. */
  ghost predicate IsTimeDiff(a: int, b: int, d: Diff)
    requires ValidJulianDay(a) && ValidJulianDay(b)
  {
    Acceptable(d) && d.sign == (if a >= b then '+' else '-') && Reaches(a, b, Target(b, d), d.Rest())
  }

  lemma MonthOfInstant(iJD: int)
    requires ValidJulianDay(iJD)
    ensures FIRST_MONTH < MonthOf(iJD) <= MonthIndex(LAST_YEAR, 12) && Moved(iJD, MonthOf(iJD)) == iJD
    ensures MonthDay(MonthOf(iJD)) <= DayOf(iJD) < MonthDay(MonthOf(iJD) + 1)
    ensures 1 <= DateOf(DayOf(iJD)).D <= 31
  {
    var Z := DayOf(iJD);
    hide DateOf, DayNo, MonthDay, MonthDays;
    DateOfIsCalendar(Z);
    var d := DateOf(Z);
    DayNoByMonth(d.Y, d.M, d.D);
    MonthDayStep(MonthOf(iJD));
    FirstMonthIsLate(d);
  }

  /** Day 0 lies in November of the first year. */
  lemma FirstMonthIsLate(d: Date)
    requires FIRST_YEAR <= d.Y && Legal(d) && 0 <= DayNo(d.Y, d.M, d.D)
    ensures FIRST_MONTH + 10 <= MonthIndex(d.Y, d.M)
  {
    var t := MonthIndex(d.Y, d.M);
    assert MonthDay(FIRST_MONTH + 10) == -23;
    DayNoByMonth(d.Y, d.M, d.D);
    if t < FIRST_MONTH + 10 {
      MonthDayStep(t);
      MonthDayIncreases(t + 1, FIRST_MONTH + 10);
    }
  }

  /** Moving by one month moves by the length of the month. */
  lemma MovedStep(iJD: int, t: int)
    requires ValidJulianDay(iJD) && FIRST_MONTH <= t
    ensures Moved(iJD, t + 1) == Moved(iJD, t) + MonthDays(t) * DAY
  {
    hide MonthDay, DateOf;
    MonthDayStep(t);
  }

  /** `d` is `b` moved to another month, with all fields in place. */
  ghost predicate IsMoved(d: DateTime, b: int)
    requires ValidJulianDay(b)
    reads d
  {
    d.validJD && d.validYMD && d.validHMS && d.tz == 0 && !d.rawS && !d.isError && d.nFloor == 0 &&
    1 <= d.M <= 12 && FIRST_YEAR <= d.Y <= LAST_YEAR && d.D == DateOf(DayOf(b)).D && d.TimeMs() == TimeOf(b) &&
    d.iJD == Moved(b, MonthIndex(d.Y, d.M))
  }

  lemma CompleteIsMoved(d: DateTime)
    requires d.Complete() && !d.rawS && d.nFloor == 0
    ensures IsMoved(d, d.iJD) && MonthIndex(d.Y, d.M) == MonthOf(d.iJD)
  {
    var Z := DayOf(d.iJD);
    MonthOfInstant(d.iJD);
    hide DateOf, DayNo, MonthDay;
    DateOfDayNo(Date(d.Y, d.M, d.D));
  }

  /** Set the month of `d`, and compute the instant anew. */
  method SetMonth(d: DateTime, Y: int, M: int, ghost b: int)
    requires ValidJulianDay(b) && IsMoved(d, b) && FIRST_YEAR <= Y <= LAST_YEAR && 1 <= M <= 12
    modifies d
    ensures IsMoved(d, b) && d.Y == Y && d.M == M
  {
    hide DateOf, DayNo, MonthDay;
    d.Y, d.M, d.validJD := Y, M, false;
    d.ComputeJD();
    DayNoByMonth(Y, M, d.D);
  }

  /** Less than 31 days, as a date in January of the year 0. */
  lemma DaysOfYearZero(rest: int)
    requires 0 <= rest < 31 * DAY
    ensures var x := rest + 1486995408 * 100000;
            ValidJulianDay(x) && DateOf(DayOf(x)) == Date(0, 1, rest / DAY + 1) && TimeOf(x) == rest % DAY
  {
    var k := rest / DAY;
    assert DayNo(0, 1, k + 1) == 1721060 + k;
    hide DateOf, DayNo;
    DateOfDayNo(Date(0, 1, k + 1));
  }

  /** The rest of a difference, rendered through the calendar. */
  method RenderRest(sign: char, Y: int, M: int, rest: int) returns (d: Diff)
    requires 0 <= rest < 31 * DAY
    ensures d.sign == sign && d.Y == Y && d.M == M && d.Rest() == rest
    ensures 0 <= d.D <= 30 && 0 <= d.h < 24 && 0 <= d.m < 60 && 0 <= d.s < 60000
  {
    hide DateOf, DayNo;
    DaysOfYearZero(rest);
    var d1 := new DateTime.FromJD(rest + 1486995408 * 100000);
    d1.ComputeYMD_HMS();
    DateOfDayNo(Date(d1.Y, d1.M, d1.D));
    d := Diff(sign, Y, M, d1.D - 1, d1.h, d1.m, Ms(d1.s));
  }

  /** The months of the forward difference. */
  lemma ForwardDone(a: int, b: int, t: int, d: Diff)
    requires ValidJulianDay(a) && ValidJulianDay(b) && b <= a
    requires FIRST_MONTH < MonthOf(b) <= t <= MonthOf(a) <= MonthIndex(LAST_YEAR, 12)
    requires Moved(b, t) <= a && (t < MonthOf(a) ==> a < Moved(b, t + 1))
    requires d.sign == '+' && 0 <= d.M <= 11 && d.Months() == t - MonthOf(b) && d.Rest() == a - Moved(b, t)
    requires 0 <= d.D <= 30 && 0 <= d.h < 24 && 0 <= d.m < 60 && 0 <= d.s < 60000
    ensures IsTimeDiff(a, b, d)
  {
    hide MonthOf, Moved;
  }

  /** What is left after whole months is less than 31 days. */
  lemma ForwardRest(a: int, b: int, t: int)
    requires ValidJulianDay(a) && ValidJulianDay(b) && FIRST_MONTH <= t <= MonthOf(a)
    requires t < MonthOf(a) ==> a < Moved(b, t + 1)
    ensures a - Moved(b, t) < 31 * DAY
  {
    hide MonthDay, DateOf, MonthOf;
    if t == MonthOf(a) {
      MonthOfInstant(a);
      MonthOfInstant(b);
    } else {
      hide Moved;
      MovedStep(b, t);
    }
  }

  lemma BackwardRest(a: int, b: int, t: int)
    requires ValidJulianDay(a) && ValidJulianDay(b) && FIRST_MONTH < MonthOf(a) <= t
    requires MonthOf(a) < t ==> Moved(b, t - 1) < a
    ensures Moved(b, t) - a < 31 * DAY
  {
    hide MonthDay, DateOf, MonthOf;
    if t == MonthOf(a) {
      MonthOfInstant(a);
      MonthOfInstant(b);
    } else {
      hide Moved;
      MovedStep(b, t - 1);
    }
  }

  lemma BackwardDone(a: int, b: int, t: int, d: Diff)
    requires ValidJulianDay(a) && ValidJulianDay(b) && a < b
    requires FIRST_MONTH < MonthOf(a) <= t <= MonthOf(b) <= MonthIndex(LAST_YEAR, 12)
    requires a <= Moved(b, t) && (MonthOf(a) < t ==> Moved(b, t - 1) < a)
    requires d.sign == '-' && 0 <= d.M <= 11 && d.Months() == MonthOf(b) - t && d.Rest() == Moved(b, t) - a
    requires 0 <= d.D <= 30 && 0 <= d.h < 24 && 0 <= d.m < 60 && 0 <= d.s < 60000
    ensures IsTimeDiff(a, b, d)
  {
    hide MonthOf, Moved;
  }

  lemma MonthOfMonotone(a: int, b: int)
    requires ValidJulianDay(a) && ValidJulianDay(b) && b <= a
    ensures MonthOf(b) <= MonthOf(a)
  {
    MonthOfInstant(a);
    MonthOfInstant(b);
    hide MonthDay, MonthOf;
    if MonthOf(a) < MonthOf(b) {
      MonthDayIncreases(MonthOf(a) + 1, MonthOf(b));
    }
  }

  method TimeDiffForward(d1: DateTime, d2: DateTime, a: int, b: int) returns (d: Diff)
    requires ValidJulianDay(a) && ValidJulianDay(b) && b <= a && d1 != d2
    requires IsMoved(d1, a) && d1.iJD == a && MonthIndex(d1.Y, d1.M) == MonthOf(a)
    requires IsMoved(d2, b) && d2.iJD == b && MonthIndex(d2.Y, d2.M) == MonthOf(b)
    modifies d2
    ensures IsTimeDiff(a, b, d)
  {
    hide DateOf, DayNo, MonthDay, MonthOf, Moved, MonthDays;
    MonthOfMonotone(a, b);
    MonthOfInstant(b);
    var Y := d1.Y - d2.Y;
    if Y != 0 {
      SetMonth(d2, d1.Y, d2.M, b);
    }
    var M := d1.M - d2.M;
    if M < 0 {
      Y := Y - 1;
      M := M + 12;
    }
    if M != 0 {
      SetMonth(d2, d2.Y, d1.M, b);
    }
    while d1.iJD < d2.iJD
      invariant IsMoved(d2, b) && 0 <= M <= 11
      invariant 12 * Y + M == MonthIndex(d2.Y, d2.M) - MonthOf(b)
      invariant FIRST_MONTH < MonthOf(b) <= MonthIndex(d2.Y, d2.M) <= MonthOf(a)
      invariant MonthIndex(d2.Y, d2.M) < MonthOf(a) ==> a < Moved(b, MonthIndex(d2.Y, d2.M) + 1)
      decreases MonthIndex(d2.Y, d2.M) - MonthOf(b)
    {
      M := M - 1;
      if M < 0 {
        M := 11;
        Y := Y - 1;
      }
      var Y', M' := d2.Y, d2.M - 1;
      if M' < 1 {
        M' := 12;
        Y' := Y' - 1;
      }
      SetMonth(d2, Y', M', b);
    }
    ForwardRest(a, b, MonthIndex(d2.Y, d2.M));
    d := RenderRest('+', Y, M, d1.iJD - d2.iJD);
    ForwardDone(a, b, MonthIndex(d2.Y, d2.M), d);
  }

  method TimeDiffBackward(d1: DateTime, d2: DateTime, a: int, b: int) returns (d: Diff)
    requires ValidJulianDay(a) && ValidJulianDay(b) && a < b && d1 != d2
    requires IsMoved(d1, a) && d1.iJD == a && MonthIndex(d1.Y, d1.M) == MonthOf(a)
    requires IsMoved(d2, b) && d2.iJD == b && MonthIndex(d2.Y, d2.M) == MonthOf(b)
    modifies d2
    ensures IsTimeDiff(a, b, d)
  {
    hide DateOf, DayNo, MonthDay, MonthOf, Moved, MonthDays;
    MonthOfMonotone(b, a);
    MonthOfInstant(a);
    MonthOfInstant(b);
    var Y := d2.Y - d1.Y;
    if Y != 0 {
      SetMonth(d2, d1.Y, d2.M, b);
    }
    var M := d2.M - d1.M;
    if M < 0 {
      Y := Y - 1;
      M := M + 12;
    }
    if M != 0 {
      SetMonth(d2, d2.Y, d1.M, b);
    }
    while d1.iJD > d2.iJD
      invariant IsMoved(d2, b) && 0 <= M <= 11
      invariant 12 * Y + M == MonthOf(b) - MonthIndex(d2.Y, d2.M)
      invariant FIRST_MONTH < MonthOf(a) <= MonthIndex(d2.Y, d2.M) <= MonthOf(b) <= MonthIndex(LAST_YEAR, 12)
      invariant MonthOf(a) < MonthIndex(d2.Y, d2.M) ==> Moved(b, MonthIndex(d2.Y, d2.M) - 1) < a
      decreases MonthOf(b) - MonthIndex(d2.Y, d2.M)
    {
      M := M - 1;
      if M < 0 {
        M := 11;
        Y := Y - 1;
      }
      var Y', M' := d2.Y, d2.M + 1;
      if M' > 12 {
        M' := 1;
        Y' := Y' + 1;
      }
      SetMonth(d2, Y', M', b);
    }
    BackwardRest(a, b, MonthIndex(d2.Y, d2.M));
    d := RenderRest('-', Y, M, d2.iJD - d1.iJD);
    BackwardDone(a, b, MonthIndex(d2.Y, d2.M), d);
  }

  /** timediff(A, B) for all instants in range: the loops terminate, and the result takes B to A. */
  method TimeDiff(a: int, b: int) returns (d: Diff)
    requires ValidJulianDay(a) && ValidJulianDay(b)
    ensures IsTimeDiff(a, b, d)
  {
    hide DateOf, DayNo, MonthDay, MonthOf, Moved;
    var d1 := new DateTime.FromJD(a);
    var d2 := new DateTime.FromJD(b);
    d1.ComputeYMD_HMS();
    d2.ComputeYMD_HMS();
    CompleteIsMoved(d1);
    CompleteIsMoved(d2);
    if a >= b {
      d := TimeDiffForward(d1, d2, a, b);
    } else {
      d := TimeDiffBackward(d1, d2, a, b);
    }
  }

  // -------------------- the round trip --------------------

  lemma DiffInRange(a: int, b: int, d: Diff)
    requires ValidJulianDay(a) && ValidJulianDay(b) && IsTimeDiff(a, b, d)
    ensures Parsed(d) && InYears(Target(b, d)) && FIRST_MONTH <= Target(b, d)
  {
    MonthOfInstant(a);
    MonthOfInstant(b);
    hide MonthOf, Moved, MonthDay, DateOf, MonthDays;
    var t := Target(b, d);
    assert FIRST_MONTH <= t <= MonthIndex(LAST_YEAR, 12);
  }

  lemma ClockRest(d: Diff)
    requires Acceptable(d)
    ensures d.D * DAY + DiffMs(d) % DAY == d.Rest()
  {
    assert 0 <= DiffMs(d) < DAY;
  }

  /** A difference determines its instant: adding the rendered text to `b` gives exactly `a`. */
  lemma DiffLeadsBack(a: int, b: int, d: Diff)
    requires ValidJulianDay(a) && ValidJulianDay(b) && IsTimeDiff(a, b, d)
    ensures Parsed(d) && InYears(Target(b, d)) && FIRST_MONTH <= Target(b, d)
    ensures Moved(b, Target(b, d)) + Signed(d.sign, d.D * DAY + DiffMs(d) % DAY) == a
  {
    hide MonthOf, Moved;
    DiffInRange(a, b, d);
    ClockRest(d);
    hide Diff.Rest, Parsed, InYears;
  }

  lemma MovedIncreases(b: int, t: int, u: int)
    requires ValidJulianDay(b) && FIRST_MONTH <= t <= u
    ensures Moved(b, t) <= Moved(b, u)
  {
    hide MonthDay, DateOf;
    MonthDayIncreases(t, u);
  }

  /** A rendered difference is determined by its sign, its months and its rest. */
  lemma DigitsDetermined(d: Diff, e: Diff)
    requires Acceptable(d) && Acceptable(e) && d.sign == e.sign && d.Months() == e.Months() && d.Rest() == e.Rest()
    ensures d == e
  {
    assert d.h * 3600000 + d.m * 60000 + d.s < DAY && e.h * 3600000 + e.m * 60000 + e.s < DAY;
    assert d.D == e.D;
    assert d.m * 60000 + d.s < 3600000 && e.m * 60000 + e.s < 3600000;
  }

  /** There is no other difference. */
  lemma DiffUnique(a: int, b: int, d: Diff, e: Diff)
    requires ValidJulianDay(a) && ValidJulianDay(b) && IsTimeDiff(a, b, d) && IsTimeDiff(a, b, e)
    ensures d == e
  {
    hide MonthOf, Reaches, Diff.Rest, Diff.Months, Acceptable;
    SameTarget(a, b, Target(b, d), Target(b, e), d.Rest(), e.Rest());
    DigitsDetermined(d, e);
  }

  lemma SameTarget(a: int, b: int, t: int, u: int, x: int, y: int)
    requires ValidJulianDay(a) && ValidJulianDay(b) && Reaches(a, b, t, x) && Reaches(a, b, u, y)
    ensures t == u && x == y
  {
    hide MonthOf, Moved;
    if a >= b {
      if t < u { MovedIncreases(b, t + 1, u); } else if u < t { MovedIncreases(b, u + 1, t); }
    } else {
      if t < u { MovedIncreases(b, t, u - 1); } else if u < t { MovedIncreases(b, u, t - 1); }
    }
  }

  /** datetime(A) == datetime(B, timediff(A, B)), for all instants in range. */
  method AddTimeDiff(a: int, b: int) returns (r: int)
    requires ValidJulianDay(a) && ValidJulianDay(b)
    ensures r == a
  {
    hide MonthOf, Moved;
    var d := TimeDiff(a, b);
    DiffLeadsBack(a, b, d);
    var p := new DateTime.FromJD(b);
    var ok := p.AddDiff(d);
    assert ok && p.validJD && !p.isError;
    r := p.iJD;
  }

  // -------------------- months and floor --------------------

  /** Moving to month `t` and taking the overflow away lands in month `t`, on the same day of the month or the
      last one that the month has, at the same time of day. */
  lemma FloorLands(iJD: int, t: int)
    requires ValidJulianDay(iJD) && InYears(t) && FIRST_MONTH <= t
    ensures var x, D := Moved(iJD, t) - Overflow(iJD, t) * DAY, DateOf(DayOf(iJD)).D;
            x <= MAX_JD && TimeOf(x) == TimeOf(iJD) &&
            (0 <= x ==> DateOf(DayOf(x)) == Date(t / 12, t % 12 + 1, if D <= MonthDays(t) then D else MonthDays(t)))
  {
    hide DayNo, MonthDay;
    MonthOfInstant(iJD);
    var D := DateOf(DayOf(iJD)).D;
    var d := Date(t / 12, t % 12 + 1, if D <= MonthDays(t) then D else MonthDays(t));
    var x := Moved(iJD, t) - Overflow(iJD, t) * DAY;
    DayNoByMonth(d.Y, d.M, d.D);
    assert MonthIndex(d.Y, d.M) == t;
    hide DateOf, DayNo, MonthDay, DaysInMonth;
    assert DayOf(x) == DayNo(d.Y, d.M, d.D) && TimeOf(x) == TimeOf(iJD);
    DayInRange(d);
    if 0 <= x {
      DateOfDayNo(d);
    }
  }

  /** Without taking the overflow away, a day that month `t` does not have runs over into the next month. */
  lemma MovedRunsOver(iJD: int, t: int)
    requires ValidJulianDay(iJD) && InYears(t) && FIRST_MONTH <= t && 0 <= Moved(iJD, t) <= MAX_JD
    ensures var D, n := DateOf(DayOf(iJD)).D, MonthDays(t);
            TimeOf(Moved(iJD, t)) == TimeOf(iJD) &&
            DateOf(DayOf(Moved(iJD, t))) ==
            if D <= n then Date(t / 12, t % 12 + 1, D) else Date((t + 1) / 12, (t + 1) % 12 + 1, D - n)
  {
    hide DayNo, MonthDay;
    MonthOfInstant(iJD);
    MonthDayStep(t);
    var D, n := DateOf(DayOf(iJD)).D, MonthDays(t);
    var u, E := if D <= n then t else t + 1, if D <= n then D else D - n;
    var d := Date(u / 12, u % 12 + 1, E);
    DayNoByMonth(d.Y, d.M, d.D);
    assert MonthIndex(d.Y, d.M) == u && Legal(d);
    hide DateOf, DayNo, MonthDay, DaysInMonth;
    assert DayOf(Moved(iJD, t)) == DayNo(d.Y, d.M, d.D);
    YearInRange(d);
    DateOfDayNo(d);
  }

  lemma YearInRange(d: Date)
    requires FIRST_YEAR <= d.Y <= LAST_YEAR + 1 && Legal(d) && DayNo(d.Y, d.M, d.D) <= LAST_DAY
    ensures d.Y <= LAST_YEAR
  {
    assert DayNo(10000, 1, 1) == LAST_DAY + 1;
    hide DayNo;
    if d.Y == LAST_YEAR + 1 {
      DayOfYear(d);
    }
  }

  /** datetime(x, 'n months', 'floor'). */
  method AddMonthsFloor(x: int, n: int) returns (p: DateTime, ok: bool)
    requires ValidJulianDay(x)
    ensures fresh(p) && ok == (-176546 < n < 176546)
    ensures ok ==>
              var t := MonthOf(x) + n;
              if !InYears(t) then p.isError
              else
                var D := DateOf(DayOf(x)).D;
                !p.isError && p.iJD <= MAX_JD && TimeOf(p.iJD) == TimeOf(x) &&
                (0 <= p.iJD ==>
                  DateOf(DayOf(p.iJD)) == Date(t / 12, t % 12 + 1, if D <= MonthDays(t) then D else MonthDays(t)))
  {
    hide MonthOf, Moved, Overflow, DateOf, MonthDays, Trunc, Fraction;
    p := new DateTime.FromJD(x);
    WholeNumber(n);
    FractionRounds(n as real, MONTH_SECONDS);
    ok := p.AddMonths(n as real);
    if !ok { return; }
    p.FloorDay();
    var t := MonthOf(x) + n;
    if InYears(t) {
      FloorLands(x, t);
    }
  }

  // -------------------- weeks --------------------

  /** The days after the most recent Monday. */
  method DaysAfterMonday(x: DateTime) returns (n: int)
    requires x.validJD && ValidJulianDay(x.iJD)
    ensures 0 <= n < 7 && (DayOf(x.iJD) - n) % 7 == 0
  {
    n := (x.iJD + HALF_DAY) / DAY % 7;
  }

  /** The days after the most recent first of January. */
  method DaysAfterJan01(x: DateTime) returns (n: int)
    requires x.Complete()
    ensures n == DayOf(x.iJD) - DayNo(x.Y, 1, 1)
  {
    hide DayNo;
    var jan01 := new DateTime.FromHMS(x.h, x.m, x.s, 0);
    jan01.Y, jan01.M, jan01.D, jan01.validYMD := x.Y, 1, 1, true;
    jan01.ComputeJD();
    n := CDiv(x.iJD - jan01.iJD + HALF_DAY, DAY);
    DayOfYear(Date(x.Y, x.M, x.D));
    WholeDays(x.iJD, DayNo(x.Y, 1, 1));
  }

  /** Two instants at the same time of day are whole days apart. */
  lemma WholeDays(iJD: int, Z: int)
    requires Z <= DayOf(iJD)
    ensures CDiv(iJD - (Z * DAY - HALF_DAY + TimeOf(iJD)) + HALF_DAY, DAY) == DayOf(iJD) - Z
  {
  }

  /** Day 0 is a Monday and the last day a Friday, so the Thursday of every week is in range. */
  lemma ThursdayInRange(iJD: int, n: int)
    requires ValidJulianDay(iJD) && 0 <= n < 7 && (DayOf(iJD) - n) % 7 == 0
    ensures ValidJulianDay(iJD + (3 - n) * DAY) && 0 <= Thursday(DayOf(iJD)) <= LAST_DAY
    ensures DayOf(iJD + (3 - n) * DAY) == Thursday(DayOf(iJD)) && TimeOf(iJD + (3 - n) * DAY) == TimeOf(iJD)
  {
    var Z := DayOf(iJD);
    assert n == Z % 7 && LAST_DAY % 7 == 4;
    assert Z - n <= LAST_DAY - 4;
  }

  /** The year %G and the week %V of strftime(), by the Thursday of the same week. */
  method WeekOf(x: DateTime) returns (G: int, V: int)
    requires x.Complete()
    ensures 0 <= Thursday(DayOf(x.iJD)) <= LAST_DAY && FIRST_YEAR <= IsoYear(DayOf(x.iJD))
    ensures G == IsoYear(DayOf(x.iJD)) && V == IsoWeek(DayOf(x.iJD)) && 1 <= V <= 53
    ensures IsWeek(DayOf(x.iJD), G, V)
  {
    hide DayNo, DateOf;
    ghost var Z := DayOf(x.iJD);
    var n := DaysAfterMonday(x);
    var y := new DateTime.FromHMS(x.h, x.m, x.s, 0);
    y.iJD, y.validJD := x.iJD + (3 - n) * DAY, true;
    ThursdayInRange(x.iJD, n);
    assert DayOf(y.iJD) == Thursday(Z) && TimeOf(y.iJD) == TimeOf(x.iJD);
    y.ComputeYMD();
    DateOfIsCalendar(Thursday(Z));
    var k := DaysAfterJan01(y);
    IsoWeekRange(Z);
    IsoWeekIs(Z);
    G, V := y.Y, CDiv(k, 7) + 1;
    DayOfYear(Date(y.Y, y.M, y.D));
  }
}
