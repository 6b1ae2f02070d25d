/** The text of date differences: what timediff() writes, and how the modifiers of the form
    (+|-)YYYY-MM-DD HH:MM:SS.SSS are read. */
module DateText {
  import opened Calendar
  import opened DateTimes
  import opened Wrappers

  /** Texts end with a zero. */
  function At(z: string, i: int): char {
    if 0 <= i < |z| then z[i] else '\0'
  }

  predicate IsDigit(c: char) { '0' <= c <= '9' }

  predicate IsSpace(c: char) {
    c == ' ' || '\t' as int <= c as int <= '\r' as int
  }

  function Digit(c: char): (d: int)
    ensures IsDigit(c) ==> 0 <= d <= 9
  {
    c as int - '0' as int
  }

  // -------------------- numbers of a fixed width --------------------

  predicate Digits(z: string, at: int, n: nat) {
    forall i :: at <= i < at + n ==> IsDigit(At(z, i))
  }

  function Number(z: string, at: int, n: nat): int {
    if n == 0 then 0 else Number(z, at, n - 1) * 10 + Digit(At(z, at + n - 1))
  }

  /** One integer of a format: its digits, its limits and the character that follows, if there is one. */
  datatype Field = Field(n: nat, min: int, max: int, next: char)

  predicate FieldAt(z: string, at: int, f: Field) {
    Digits(z, at, f.n) && f.min <= Number(z, at, f.n) <= f.max && (f.next == '\0' || At(z, at + f.n) == f.next)
  }

  /** The integers that a format finds, up to the first one that is not there. */
  function Fields(z: string, at: int, fmt: seq<Field>): (vals: seq<int>)
    ensures |vals| <= |fmt|
    decreases |fmt|
  {
    if fmt == [] || !FieldAt(z, at, fmt[0]) then []
    else [Number(z, at, fmt[0].n)] + Fields(z, at + fmt[0].n + 1, fmt[1..])
  }

  lemma {:induction false} FieldsWithin(z: string, at: int, fmt: seq<Field>)
    ensures forall k :: 0 <= k < |Fields(z, at, fmt)| ==> fmt[k].min <= Fields(z, at, fmt)[k] <= fmt[k].max
    decreases |fmt|
  {
    if fmt != [] && FieldAt(z, at, fmt[0]) {
      FieldsWithin(z, at + fmt[0].n + 1, fmt[1..]);
    }
  }

  /** getDigits(). */
  method GetDigits(z: string, at: int, fmt: seq<Field>) returns (vals: seq<int>)
    ensures vals == Fields(z, at, fmt)
  {
    vals := [];
    var i := at;
    for k := 0 to |fmt|
      invariant Fields(z, at, fmt) == vals + Fields(z, i, fmt[k..])
    {
      var f := fmt[k];
      assert fmt[k..][0] == f && fmt[k..][1..] == fmt[k + 1..];
      var val := 0;
      var n := 0;
      while n < f.n
        invariant 0 <= n <= f.n && Digits(z, i, n) && val == Number(z, i, n)
      {
        if !IsDigit(At(z, i + n)) { return; }
        val := val * 10 + Digit(At(z, i + n));
        n := n + 1;
      }
      if val < f.min || val > f.max || (f.next != '\0' && f.next != At(z, i + n)) { return; }
      vals := vals + [val];
      i := i + f.n + 1;
    }
  }

  // -------------------- the time of day --------------------

  const HHMM := [Field(2, 0, 24, ':'), Field(2, 0, 59, '\0')]
  const ZONE := [Field(2, 0, 14, ':'), Field(2, 0, 59, '\0')]
  const SS := [Field(2, 0, 59, '\0')]

  function SkipSpaces(z: string, at: nat): (i: nat)
    ensures at <= i
    decreases |z| - at
  {
    if IsSpace(At(z, at)) then SkipSpaces(z, at + 1) else at
  }

  method NextWord(z: string, at: nat) returns (i: nat)
    ensures i == SkipSpaces(z, at)
  {
    i := at;
    while IsSpace(At(z, i))
      invariant SkipSpaces(z, i) == SkipSpaces(z, at)
      decreases |z| - i
    {
      i := i + 1;
    }
  }

  /** The minutes of the time zone at the end of a text. */
  function ReadZone(z: string, at: nat): Option<int> {
    var i := SkipSpaces(z, at);
    var c := At(z, i);
    var hm := Fields(z, i + 1, ZONE);
    if c == 'Z' || c == 'z' then
      if At(z, SkipSpaces(z, i + 1)) == '\0' then Some(0) else None
    else if c == '+' || c == '-' then
      if |hm| == 2 && At(z, SkipSpaces(z, i + 6)) == '\0' then Some(Signed(c, hm[1] + hm[0] * 60)) else None
    else if c == '\0' then Some(0)
    else None
  }

  /** parseTimezone(). */
  method ParseTimezone(z: string, at: nat) returns (tz: Option<int>)
    ensures tz == ReadZone(z, at)
    ensures tz.Some? ==> -900 < tz.value < 900
  {
    var i := NextWord(z, at);
    var c := At(z, i);
    var sgn := 0;
    tz := Some(0);
    if c == '-' {
      sgn := -1;
    } else if c == '+' {
      sgn := 1;
    } else if c == 'Z' || c == 'z' {
      i := i + 1;
    } else {
      return if c == '\0' then Some(0) else None;
    }
    if sgn != 0 {
      i := i + 1;
      var hm := GetDigits(z, i, ZONE);
      FieldsWithin(z, i, ZONE);
      if |hm| != 2 { return None; }
      i := i + 5;
      tz := Some(sgn * (hm[1] + hm[0] * 60));
    }
    i := NextWord(z, i);
    if At(z, i) != '\0' { tz := None; }
  }

  /** How many digits follow. */
  function DigitRun(z: string, at: nat): (n: nat)
    ensures Digits(z, at, n) && !IsDigit(At(z, at + n))
    decreases |z| - at
  {
    if IsDigit(At(z, at)) then 1 + DigitRun(z, at + 1) else 0
  }

  function Pow10(n: nat): (p: int)
    ensures 0 < p
  {
    if n == 0 then 1 else 10 * Pow10(n - 1)
  }

  /** The fraction that `n` digits write, cut off after the milliseconds where it would round up to a second. */
  function FractionAt(z: string, at: nat, n: nat): real {
    var ms := Number(z, at, n) as real / Pow10(n) as real;
    if ms > 0.999 then 0.999 else ms
  }

  /** The time of day at a place: hours and minutes, and perhaps seconds with a fraction. */
  function ReadClock(z: string, at: nat): Option<Clock> {
    var hm, ss := Fields(z, at, HHMM), Fields(z, at + 6, SS);
    if |hm| != 2 || (At(z, at + 5) == ':' && ss == []) then None
    else
      var fraction := At(z, at + 5) == ':' && At(z, at + 8) == '.' && IsDigit(At(z, at + 9));
      var n := if fraction then DigitRun(z, at + 9) else 0;
      var s := if At(z, at + 5) != ':' then 0.0 else ss[0] as real + if fraction then FractionAt(z, at + 9, n) else 0.0;
      match ReadZone(z, if fraction then at + 9 + n else if At(z, at + 5) == ':' then at + 8 else at + 5)
      case None => None
      case Some(tz) => Some(Clock(hm[0], hm[1], s, tz))
  }

  lemma {:induction false} NumberBound(z: string, at: int, n: nat)
    requires Digits(z, at, n)
    ensures 0 <= Number(z, at, n) < Pow10(n)
  {
    if n > 0 {
      NumberBound(z, at, n - 1);
    }
  }

  /** The digits after a decimal point. */
  method ParseFraction(z: string, at: nat) returns (ms: real, n: nat)
    ensures n == DigitRun(z, at) && ms == FractionAt(z, at, n) && 0.0 <= ms <= 0.999
  {
    ms, n := 0.0, 0;
    var rScale := 1.0;
    while IsDigit(At(z, at + n))
      invariant n + DigitRun(z, at + n) == DigitRun(z, at) && Digits(z, at, n)
      invariant ms == Number(z, at, n) as real && rScale == Pow10(n) as real
      decreases |z| - (at + n)
    {
      ms := ms * 10.0 + Digit(At(z, at + n)) as real;
      rScale := rScale * 10.0;
      n := n + 1;
    }
    NumberBound(z, at, n);
    ms := ms / rScale;
    if ms > 0.999 { ms := 0.999; }
  }

  /** parseHhMmSs(). */
  method ParseHhMmSs(z: string, at: nat) returns (c: Option<Clock>)
    ensures c == ReadClock(z, at)
    ensures c.Some? ==> ValidClock(c.value)
  {
    hide Fields, FractionAt, DigitRun, ReadZone;
    var hm := GetDigits(z, at, HHMM);
    FieldsWithin(z, at, HHMM);
    if |hm| != 2 { return None; }
    var i := at + 5;
    var s := 0.0;
    if At(z, i) == ':' {
      i := i + 1;
      var ss := GetDigits(z, i, SS);
      FieldsWithin(z, i, SS);
      if |ss| != 1 { return None; }
      s := ss[0] as real;
      i := i + 2;
      if At(z, i) == '.' && IsDigit(At(z, i + 1)) {
        i := i + 1;
        var ms, n := ParseFraction(z, i);
        s := s + ms;
        i := i + n;
      }
    }
    var tz := ParseTimezone(z, i);
    c := match tz case None => None case Some(v) => Some(Clock(hm[0], hm[1], s, v));
  }

  // -------------------- the modifiers --------------------

  /** A modifier that starts with a sign or a digit: text of no known form, a number of units, a time of day, a date,
      or both, where the time of day may be no good. */
  datatype Modifier =
    | Malformed
    | Units
    | Time(sign: char, c: Clock)
    | Days(d: Diff)
    | DaysAndTime(d: Diff, time: Option<Clock>)

  const YEAR4 := [Field(4, 0, 14712, '\0')]
  const YEAR5 := [Field(5, 0, 14712, '\0')]
  const DATE4 := [Field(4, 0, 14712, '-'), Field(2, 0, 12, '-'), Field(2, 0, 31, '\0')]
  const DATE5 := [Field(5, 0, 14712, '-'), Field(2, 0, 12, '-'), Field(2, 0, 31, '\0')]

  /** The number at the start of a modifier ends at place `n`. */
  predicate Stops(z: string, n: nat) {
    var c := At(z, n);
    c == '\0' || c == ':' || IsSpace(c) ||
    (c == '-' && ((n == 5 && |Fields(z, 1, YEAR4)| == 1) || (n == 6 && |Fields(z, 1, YEAR5)| == 1)))
  }

  function StopFrom(z: string, n: nat): (m: nat)
    ensures n <= m && Stops(z, m)
    decreases |z| - n
  {
    if Stops(z, n) then n else StopFrom(z, n + 1)
  }

  method FindStop(z: string) returns (n: nat)
    ensures n == StopFrom(z, 1)
  {
    n := 1;
    while At(z, n) != '\0'
      invariant StopFrom(z, n) == StopFrom(z, 1)
      decreases |z| - n
    {
      if At(z, n) == ':' { break; }
      if IsSpace(At(z, n)) { break; }
      if At(z, n) == '-' {
        if n == 5 {
          var y := GetDigits(z, 1, YEAR4);
          if |y| == 1 { break; }
        }
        if n == 6 {
          var y := GetDigits(z, 1, YEAR5);
          if |y| == 1 { break; }
        }
      }
      n := n + 1;
    }
  }

  /** The years, months and days of a modifier, up to the ranges that getDigits() checks. */
  function DateFields(z: string, n: nat): seq<int> {
    Fields(z, 1, if n == 5 then DATE4 else DATE5)
  }

  function ReadModifier(z: string): Modifier
    requires z != ""
  {
    var n, f := StopFrom(z, 1), DateFields(z, StopFrom(z, 1));
    if At(z, n) == '-' then
      if (z[0] != '+' && z[0] != '-') || |f| != 3 || f[1] >= 12 || f[2] >= 31 then Malformed
      else
        var d := Diff(z[0], f[0], f[1], f[2], 0, 0, 0);
        if At(z, n + 6) == '\0' then Days(d)
        else if IsSpace(At(z, n + 6)) then DaysAndTime(d, ReadClock(z, n + 7))
        else DaysAndTime(d, None)
    else if At(z, n) == ':' then
      match ReadClock(z, if IsDigit(z[0]) then 0 else 1)
      case None => Malformed
      case Some(c) => Time(z[0], c)
    else Units
  }

  lemma NoClock(z: string, at: nat)
    ensures |Fields(z, at, HHMM)| != 2 ==> ReadClock(z, at) == None
  {
  }

  datatype Outcome = Done | Failed | NotThis

  /** Where a modifier of days leads from an instant: to another month, and then by days and a time. */
  ghost predicate Moves(p: DateTime, iJD: int, d: Diff, ms: int)
    requires ValidJulianDay(iJD)
    reads p
  {
    var t := MonthOf(iJD) + Signed(d.sign, d.Months());
    if InYears(t) then p.OnlyJD() && p.iJD == Moved(iJD, t) + Signed(d.sign, d.D * DAY + ms)
    else p.isError
  }

  /** The branch of parseModifier() for signs and digits, up to the numbers of units. */
  method Modify(p: DateTime, z: string) returns (r: Outcome)
    requires z != "" && p.validJD && ValidJulianDay(p.iJD) && !p.isError && p.tz == 0
    requires p.validYMD || p.validHMS ==> p.Complete() && !p.rawS
    modifies p
    ensures match ReadModifier(z)
            case Malformed => r == Failed && unchanged(p)
            case Units => r == NotThis && unchanged(p)
            case Time(sign, c) => r == Done && p.OnlyJD() && p.iJD == old(p.iJD) + Signed(sign, ClockMs(c) % DAY)
            case Days(d) => r == Done && Moves(p, old(p.iJD), d, 0)
            case DaysAndTime(d, None) => r == Failed && Moves(p, old(p.iJD), d, 0)
            case DaysAndTime(d, Some(c)) => r == Done && Moves(p, old(p.iJD), d, ClockMs(c) % DAY)
  {
    hide MonthOf, Moved, Overflow, DateTime.Complete, ClockMs, ReadClock, Fields, StopFrom;
    var n := FindStop(z);
    if At(z, n) == '-' {
      if z[0] != '+' && z[0] != '-' { return Failed; }
      var f := GetDigits(z, 1, if n == 5 then DATE4 else DATE5);
      FieldsWithin(z, 1, if n == 5 then DATE4 else DATE5);
      if |f| != 3 { return Failed; }
      if f[1] >= 12 { return Failed; }
      if f[2] >= 31 { return Failed; }
      var ok := p.AddDate(Diff(z[0], f[0], f[1], f[2], 0, 0, 0));
      if At(z, n + 6) == '\0' { return Done; }
      NoClock(z, n + 7);
      if !IsSpace(At(z, n + 6)) { return Failed; }
      var hm := GetDigits(z, n + 7, HHMM);
      if |hm| != 2 { return Failed; }
      var c := ParseHhMmSs(z, n + 7);
      if c.None? { return Failed; }
      p.AddTime(z[0], c.value);
      return Done;
    }
    if At(z, n) == ':' {
      var c := ParseHhMmSs(z, if IsDigit(z[0]) then 0 else 1);
      if c.None? { return Failed; }
      p.AddTime(z[0], c.value);
      return Done;
    }
    r := NotThis;
  }

  // -------------------- the text of a difference --------------------

  /** A number in `w` digits, as the directives %02d and %04d write it where it has no more. */
  function Fixed(n: nat, w: nat): (t: string)
    ensures |t| == w
  {
    if w == 0 then "" else Fixed(n / 10, w - 1) + [('0' as int + n % 10) as char]
  }

  /** The text that timediff() returns. A year of five digits is written in full. */
  function Render(d: Diff): string
    requires Acceptable(d)
  {
    [d.sign] + Fixed(d.Y, YearWidth(d)) + "-" + Fixed(d.M, 2) + "-" + Fixed(d.D, 2) + " " + RenderTime(d)
  }

  function YearWidth(d: Diff): nat {
    if d.Y < 10000 then 4 else 5
  }

  function RenderTime(d: Diff): (t: string)
    requires Acceptable(d)
    ensures |t| == 12
  {
    Fixed(d.h, 2) + ":" + Fixed(d.m, 2) + ":" + Fixed(d.s / 1000, 2) + "." + Fixed(d.s % 1000, 3)
  }

  /** A text stands at a place of another one. */
  predicate Stands(t: string, z: string, at: nat) {
    at + |t| <= |z| && z[at..at + |t|] == t
  }

  lemma {:induction false} FixedReads(n: nat, w: nat, z: string, at: nat)
    requires n < Pow10(w) && Stands(Fixed(n, w), z, at)
    ensures Digits(z, at, w) && Number(z, at, w) == n
  {
    if w > 0 {
      var t, init := Fixed(n, w), Fixed(n / 10, w - 1);
      assert t[..w - 1] == init && z[at..at + w][..w - 1] == z[at..at + (w - 1)];
      FixedReads(n / 10, w - 1, z, at);
      assert z[at + w - 1] == t[w - 1] == ('0' as int + n % 10) as char;
    }
  }

  lemma TwoReads(n: nat, z: string, at: nat)
    requires n < 100 && Stands(Fixed(n, 2), z, at)
    ensures Digits(z, at, 2) && Number(z, at, 2) == n
  {
    assert Pow10(2) == 10 * Pow10(1) == 100;
    FixedReads(n, 2, z, at);
  }

  /** The parts of the text of a time of day. */
  lemma TimeParts(d: Diff, z: string, at: nat)
    requires Acceptable(d) && Stands(RenderTime(d), z, at)
    ensures Stands(Fixed(d.h, 2), z, at) && Stands(Fixed(d.m, 2), z, at + 3)
    ensures Stands(Fixed(d.s / 1000, 2), z, at + 6) && Stands(Fixed(d.s % 1000, 3), z, at + 9)
    ensures At(z, at + 2) == ':' && At(z, at + 5) == ':' && At(z, at + 8) == '.'
  {
    var t := RenderTime(d);
    assert t[0..2] == Fixed(d.h, 2) && t[3..5] == Fixed(d.m, 2) && t[2] == ':' && t[5] == ':' && t[8] == '.';
    assert t[6..8] == Fixed(d.s / 1000, 2) && t[9..12] == Fixed(d.s % 1000, 3);
    hide *;
    PartStands(t, z, at, 0, 2);
    PartStands(t, z, at, 3, 5);
    PartStands(t, z, at, 6, 8);
    PartStands(t, z, at, 9, 12);
  }

  /** A part of a text that stands somewhere. */
  lemma PartStands(t: string, z: string, at: nat, i: nat, j: nat)
    requires Stands(t, z, at) && i <= j <= |t|
    ensures Stands(t[i..j], z, at + i) && forall k :: 0 <= k < |t| ==> At(z, at + k) == t[k]
  {
    forall k | 0 <= k < |t|
      ensures z[at + k] == t[k]
    {
      assert z[at..at + |t|][k] == z[at + k];
    }
    assert z[at + i..at + i + (j - i)] == t[i..j];
  }

  /** The parts of the text of a difference. */
  lemma DiffParts(d: Diff)
    requires Acceptable(d)
    ensures var z, w := Render(d), YearWidth(d);
            |z| == w + 20 && z[0] == d.sign && Stands(Fixed(d.Y, w), z, 1) && At(z, w + 1) == '-' &&
            Stands(Fixed(d.M, 2), z, w + 2) && At(z, w + 4) == '-' && Stands(Fixed(d.D, 2), z, w + 5) &&
            At(z, w + 7) == ' ' && Stands(RenderTime(d), z, w + 8)
  {
    hide Fixed, Acceptable, RenderTime;
  }

  /** A time of day that was written reads back. */
  lemma ClockReads(d: Diff, z: string, at: nat)
    requires Acceptable(d) && Stands(RenderTime(d), z, at) && |z| == at + 12
    ensures ReadClock(z, at) == Some(Clock(d.h, d.m, Seconds(d.s), 0))
  {
    TimeParts(d, z, at);
    TwoReads(d.h, z, at);
    TwoReads(d.m, z, at + 3);
    TwoReads(d.s / 1000, z, at + 6);
    assert Pow10(3) == 10 * Pow10(2) == 100 * Pow10(1) == 1000;
    FixedReads(d.s % 1000, 3, z, at + 9);
    hide Fixed, Stands, RenderTime, Fields, ReadClock, Number, DigitRun, Pow10;
    FieldsTwo(z, at, HHMM);
    FieldsOne(z, at + 6, SS);
    DigitsRun(z, at + 9, 3);
    NoZone(z, at + 12);
    ClockIs(d, z, at);
  }

  lemma FieldsOne(z: string, at: nat, fmt: seq<Field>)
    requires |fmt| == 1 && FieldAt(z, at, fmt[0])
    ensures Fields(z, at, fmt) == [Number(z, at, fmt[0].n)]
  {
    hide FieldAt, Number;
    assert Fields(z, at + fmt[0].n + 1, fmt[1..]) == [];
  }

  lemma FieldsTwo(z: string, at: nat, fmt: seq<Field>)
    requires |fmt| == 2 && FieldAt(z, at, fmt[0]) && FieldAt(z, at + fmt[0].n + 1, fmt[1])
    ensures Fields(z, at, fmt) == [Number(z, at, fmt[0].n), Number(z, at + fmt[0].n + 1, fmt[1].n)]
  {
    FieldsOne(z, at + fmt[0].n + 1, fmt[1..]);
    hide FieldAt, Number;
  }

  lemma FieldsThree(z: string, at: nat, fmt: seq<Field>)
    requires |fmt| == 3 && FieldAt(z, at, fmt[0]) && FieldAt(z, at + fmt[0].n + 1, fmt[1])
    requires FieldAt(z, at + fmt[0].n + fmt[1].n + 2, fmt[2])
    ensures Fields(z, at, fmt) ==
            [Number(z, at, fmt[0].n), Number(z, at + fmt[0].n + 1, fmt[1].n),
             Number(z, at + fmt[0].n + fmt[1].n + 2, fmt[2].n)]
  {
    FieldsTwo(z, at + fmt[0].n + 1, fmt[1..]);
    hide FieldAt, Number;
  }

  lemma {:induction false} DigitsRun(z: string, at: nat, n: nat)
    requires Digits(z, at, n) && !IsDigit(At(z, at + n))
    ensures DigitRun(z, at) == n
    decreases n
  {
    if n > 0 {
      DigitsRun(z, at + 1, n - 1);
    }
  }

  lemma NoZone(z: string, at: nat)
    requires At(z, at) == '\0'
    ensures ReadZone(z, at) == Some(0)
  {
    hide Fields;
  }

  lemma ClockIs(d: Diff, z: string, at: nat)
    requires Acceptable(d) && Fields(z, at, HHMM) == [d.h, d.m] && Fields(z, at + 6, SS) == [d.s / 1000]
    requires At(z, at + 5) == ':' && At(z, at + 8) == '.' && IsDigit(At(z, at + 9)) && DigitRun(z, at + 9) == 3
    requires Number(z, at + 9, 3) == d.s % 1000 && Pow10(3) == 1000 && ReadZone(z, at + 12) == Some(0)
    ensures ReadClock(z, at) == Some(Clock(d.h, d.m, Seconds(d.s), 0))
  {
    hide Fields, DigitRun, Number, Pow10, ReadZone;
    assert FractionAt(z, at + 9, 3) == (d.s % 1000) as real / 1000.0;
    assert (d.s / 1000) as real + (d.s % 1000) as real / 1000.0 == Seconds(d.s);
  }

  lemma DateReads(z: string, w: nat, Y: nat, M: nat, D: nat)
    requires (w == 4 && Y < 10000) || (w == 5 && Y <= 14712)
    requires M < 12 && D < 31 && Stands(Fixed(Y, w), z, 1) && At(z, w + 1) == '-'
    requires Stands(Fixed(M, 2), z, w + 2) && At(z, w + 4) == '-' && Stands(Fixed(D, 2), z, w + 5)
    ensures StopFrom(z, 1) == w + 1 && DateFields(z, w + 1) == [Y, M, D]
  {
    assert Pow10(5) == 10 * Pow10(4) && Pow10(4) == 10 * Pow10(3) && Pow10(3) == 10 * Pow10(2) && Pow10(2) == 100;
    FixedReads(Y, w, z, 1);
    TwoReads(M, z, w + 2);
    TwoReads(D, z, w + 5);
    hide Fixed, Stands, Fields, Number, StopFrom, Pow10;
    StopsAtYear(z, w, Y);
    FieldsThree(z, 1, if w == 4 then DATE4 else DATE5);
  }

  /** What timediff() writes is read as what it wrote. */
  lemma DiffReads(d: Diff)
    requires Acceptable(d)
    ensures Render(d) != "" &&
            ReadModifier(Render(d)) ==
            DaysAndTime(Diff(d.sign, d.Y, d.M, d.D, 0, 0, 0), Some(Clock(d.h, d.m, Seconds(d.s), 0)))
  {
    var z, w := Render(d), YearWidth(d);
    DiffParts(d);
    hide Fixed, Stands, RenderTime, Render, ReadClock, DateFields, StopFrom;
    DateReads(z, w, d.Y, d.M, d.D);
    ClockReads(d, z, w + 8);
  }

  /** The scan for the end of the number stops behind the year. */
  lemma StopsAtYear(z: string, w: nat, Y: int)
    requires (w == 4 || w == 5) && Digits(z, 1, w) && Number(z, 1, w) == Y && 0 <= Y <= 14712 && At(z, w + 1) == '-'
    ensures StopFrom(z, 1) == w + 1
  {
    FieldsOne(z, 1, if w == 4 then YEAR4 else YEAR5);
    hide Fields, Number;
    assert forall k :: 1 <= k <= w ==> IsDigit(At(z, k)) && !Stops(z, k);
    StopsLater(z, 1, w + 1);
  }

  lemma {:induction false} StopsLater(z: string, n: nat, m: nat)
    requires n <= m && Stops(z, m) && forall k :: n <= k < m ==> !Stops(z, k)
    ensures StopFrom(z, n) == m
    decreases m - n
  {
    hide Stops;
    if n < m {
      StopsLater(z, n + 1, m);
    }
  }

  // -------------------- the other texts of a modifier --------------------

  /** How the seconds of a time of day may be written. */
  datatype SecondsText = NoSeconds | Whole(s: nat) | Decimal(s: nat, f: nat, k: nat)

  predicate ValidSeconds(x: SecondsText) {
    match x
    case NoSeconds => true
    case Whole(s) => s <= 59
    case Decimal(s, f, k) => s <= 59 && 0 < k && f < Pow10(k)
  }

  function RenderSeconds(x: SecondsText): string {
    match x
    case NoSeconds => ""
    case Whole(s) => ":" + Fixed(s, 2)
    case Decimal(s, f, k) => ":" + Fixed(s, 2) + "." + Fixed(f, k)
  }

  /** Fractions are cut off after 999 milliseconds. */
  function SecondsOf(x: SecondsText): real {
    match x
    case NoSeconds => 0.0
    case Whole(s) => s as real
    case Decimal(s, f, k) =>
      var ms := f as real / Pow10(k) as real;
      s as real + if ms > 0.999 then 0.999 else ms
  }

  /** How the time zone may be written: east of Greenwich with a plus. */
  datatype ZoneText = NoZone | Zulu(c: char) | East(h: nat, m: nat) | West(h: nat, m: nat)

  predicate ValidZone(y: ZoneText) {
    match y
    case NoZone => true
    case Zulu(c) => c == 'Z' || c == 'z'
    case East(h, m) => h <= 14 && m <= 59
    case West(h, m) => h <= 14 && m <= 59
  }

  function RenderZone(y: ZoneText): string {
    match y
    case NoZone => ""
    case Zulu(c) => [c]
    case East(h, m) => "+" + Fixed(h, 2) + ":" + Fixed(m, 2)
    case West(h, m) => "-" + Fixed(h, 2) + ":" + Fixed(m, 2)
  }

  function ZoneOf(y: ZoneText): int {
    match y
    case NoZone => 0
    case Zulu(_) => 0
    case East(h, m) => 60 * h + m
    case West(h, m) => -(60 * h + m)
  }

  /** The parts of a text that ends with another one. */
  lemma TailStands(a: string, b: string, z: string, at: nat)
    requires Stands(a + b, z, at)
    ensures Stands(a, z, at) && Stands(b, z, at + |a|)
    ensures forall k :: 0 <= k < |a + b| ==> At(z, at + k) == (a + b)[k]
  {
    assert (a + b)[0..|a|] == a && (a + b)[|a|..|a + b|] == b;
    PartStands(a + b, z, at, 0, |a|);
    PartStands(a + b, z, at, |a|, |a + b|);
  }

  /** Two numbers of two digits with a colon between them. */
  lemma PairReads(h: nat, m: nat, z: string, at: nat, fmt: seq<Field>)
    requires h < 100 && m < 100 && Stands(Fixed(h, 2) + ":" + Fixed(m, 2), z, at)
    requires |fmt| == 2 && fmt[0] == Field(2, 0, fmt[0].max, ':') && fmt[1] == Field(2, 0, fmt[1].max, '\0')
    requires h <= fmt[0].max && m <= fmt[1].max
    ensures Fields(z, at, fmt) == [h, m] && IsDigit(At(z, at)) && IsDigit(At(z, at + 1)) && At(z, at + 2) == ':'
  {
    TailStands(Fixed(h, 2) + ":", Fixed(m, 2), z, at);
    TailStands(Fixed(h, 2), ":", z, at);
    TwoReads(h, z, at);
    TwoReads(m, z, at + 3);
    hide Fixed, Stands, Fields, Number;
    FieldsTwo(z, at, fmt);
  }

  lemma ZoneReads(y: ZoneText, z: string, at: nat)
    requires ValidZone(y) && Stands(RenderZone(y), z, at) && |z| == at + |RenderZone(y)|
    ensures ReadZone(z, at) == Some(ZoneOf(y)) && !IsDigit(At(z, at)) && At(z, at) != ':' && At(z, at) != '.'
  {
    match y
    case NoZone =>
    case Zulu(c) => assert z[at..at + 1] == [c];
    case East(h, m) => OffsetReads('+', h, m, z, at);
    case West(h, m) => OffsetReads('-', h, m, z, at);
  }

  lemma OffsetReads(sign: char, h: nat, m: nat, z: string, at: nat)
    requires (sign == '+' || sign == '-') && h <= 14 && m <= 59
    requires Stands([sign] + Fixed(h, 2) + ":" + Fixed(m, 2), z, at) && |z| == at + 6
    ensures ReadZone(z, at) == Some(Signed(sign, 60 * h + m)) && At(z, at) == sign
  {
    var t := Fixed(h, 2) + ":" + Fixed(m, 2);
    assert [sign] + Fixed(h, 2) + ":" + Fixed(m, 2) == [sign] + t;
    TailStands([sign], t, z, at);
    PairReads(h, m, z, at + 1, ZONE);
    OffsetIs(sign, h, m, z, at);
  }

  lemma OffsetIs(sign: char, h: nat, m: nat, z: string, at: nat)
    requires (sign == '+' || sign == '-') && At(z, at) == sign && |z| == at + 6 && Fields(z, at + 1, ZONE) == [h, m]
    ensures ReadZone(z, at) == Some(Signed(sign, 60 * h + m))
  {
    hide Fields;
    assert SkipSpaces(z, at) == at && SkipSpaces(z, at + 6) == at + 6;
  }

  /** The text of a time of day. */
  function ClockText(h: nat, m: nat, x: SecondsText, y: ZoneText): string {
    Fixed(h, 2) + ":" + Fixed(m, 2) + (RenderSeconds(x) + RenderZone(y))
  }

  /** Every such text is read as the time of day that it writes. */
  lemma ClockTextReads(h: nat, m: nat, x: SecondsText, y: ZoneText, z: string, at: nat)
    requires h <= 24 && m <= 59 && ValidSeconds(x) && ValidZone(y)
    requires Stands(ClockText(h, m, x, y), z, at) && |z| == at + |ClockText(h, m, x, y)|
    ensures ReadClock(z, at) == Some(Clock(h, m, SecondsOf(x), ZoneOf(y)))
    ensures IsDigit(At(z, at)) && IsDigit(At(z, at + 1)) && At(z, at + 2) == ':'
  {
    var i := at + 5 + |RenderSeconds(x)|;
    hide *;
    ClockPieces(h, m, x, y, z, at, i);
    SecondsPieces(x, z, at + 5, i);
    match x
    case NoSeconds => ReadsAtFive(h, m, ZoneOf(y), z, at, i);
    case Whole(s) => ReadsAtEight(h, m, s, ZoneOf(y), z, at, i);
    case Decimal(s, f, k) => ReadsBehind(h, m, s, f, k, ZoneOf(y), z, at, i);
  }

  /** What the text of the seconds consists of. */
  lemma SecondsPieces(x: SecondsText, z: string, at: nat, i: nat)
    requires ValidSeconds(x) && Stands(RenderSeconds(x), z, at) && i == at + |RenderSeconds(x)| && !IsDigit(At(z, i))
    ensures match x
            case NoSeconds => i == at && SecondsOf(x) == 0.0
            case Whole(s) =>
              i == at + 3 && SecondsOf(x) == s as real && At(z, at) == ':' && Fields(z, at + 1, SS) == [s]
            case Decimal(s, f, k) =>
              i == at + 4 + k && At(z, at) == ':' && Fields(z, at + 1, SS) == [s] &&
              At(z, at + 3) == '.' && IsDigit(At(z, at + 4)) && DigitRun(z, at + 4) == k && Number(z, at + 4, k) == f
  {
    hide Stands, Fields, Number, DigitRun, Fixed;
    match x
    case NoSeconds =>
    case Whole(s) => SecondsRead(s, z, at);
    case Decimal(s, f, k) => DecimalReads(s, f, k, z, at);
  }

  lemma ClockPieces(h: nat, m: nat, x: SecondsText, y: ZoneText, z: string, at: nat, i: nat)
    requires h <= 24 && m <= 59 && ValidZone(y) && i == at + 5 + |RenderSeconds(x)|
    requires Stands(ClockText(h, m, x, y), z, at) && |z| == at + |ClockText(h, m, x, y)|
    ensures Fields(z, at, HHMM) == [h, m] && Stands(RenderSeconds(x), z, at + 5)
    ensures IsDigit(At(z, at)) && IsDigit(At(z, at + 1)) && At(z, at + 2) == ':'
    ensures ReadZone(z, i) == Some(ZoneOf(y)) && !IsDigit(At(z, i)) && At(z, i) != ':' && At(z, i) != '.'
  {
    hide RenderSeconds, RenderZone, Fixed, Stands, Fields, ReadZone, ZoneOf, ValidZone;
    TailStands(Fixed(h, 2) + ":" + Fixed(m, 2), RenderSeconds(x) + RenderZone(y), z, at);
    PairReads(h, m, z, at, HHMM);
    TailStands(RenderSeconds(x), RenderZone(y), z, at + 5);
    ZoneReads(y, z, i);
  }

  lemma ReadsAtFive(h: nat, m: nat, tz: int, z: string, at: nat, i: nat)
    requires i == at + 5 && Fields(z, at, HHMM) == [h, m] && At(z, i) != ':' && ReadZone(z, i) == Some(tz)
    ensures ReadClock(z, at) == Some(Clock(h, m, 0.0, tz))
  {
    hide Fields, ReadZone, FractionAt, DigitRun;
  }

  lemma ReadsAtEight(h: nat, m: nat, s: nat, tz: int, z: string, at: nat, i: nat)
    requires Fields(z, at, HHMM) == [h, m] && At(z, at + 5) == ':' && Fields(z, at + 5 + 1, SS) == [s]
    requires i == at + 5 + 3 && At(z, i) != '.' && ReadZone(z, i) == Some(tz)
    ensures ReadClock(z, at) == Some(Clock(h, m, s as real, tz))
  {
    hide Fields, ReadZone, FractionAt, DigitRun;
  }

  lemma ReadsBehind(h: nat, m: nat, s: nat, f: nat, k: nat, tz: int, z: string, at: nat, i: nat)
    requires Fields(z, at, HHMM) == [h, m] && At(z, at + 5) == ':' && Fields(z, at + 5 + 1, SS) == [s]
    requires At(z, at + 5 + 3) == '.' && IsDigit(At(z, at + 5 + 4))
    requires DigitRun(z, at + 5 + 4) == k && Number(z, at + 5 + 4, k) == f
    requires i == at + 5 + 4 + k && ReadZone(z, i) == Some(tz)
    ensures ReadClock(z, at) == Some(Clock(h, m, SecondsOf(Decimal(s, f, k)), tz))
  {
    hide Fields, ReadZone, DigitRun, Number, Pow10;
  }

  lemma SecondsRead(s: nat, z: string, at: nat)
    requires s <= 59 && Stands(":" + Fixed(s, 2), z, at)
    ensures At(z, at) == ':' && Fields(z, at + 1, SS) == [s]
  {
    TailStands(":", Fixed(s, 2), z, at);
    TwoReads(s, z, at + 1);
    hide Fixed, Stands, Fields, Number;
    FieldsOne(z, at + 1, SS);
  }

  lemma DecimalReads(s: nat, f: nat, k: nat, z: string, at: nat)
    requires s <= 59 && 0 < k && f < Pow10(k) && Stands(":" + Fixed(s, 2) + "." + Fixed(f, k), z, at)
    requires !IsDigit(At(z, at + 4 + k))
    ensures At(z, at) == ':' && Fields(z, at + 1, SS) == [s] && At(z, at + 3) == '.' && IsDigit(At(z, at + 4))
    ensures DigitRun(z, at + 4) == k && Number(z, at + 4, k) == f
  {
    TailStands(":" + Fixed(s, 2) + ".", Fixed(f, k), z, at);
    TailStands(":" + Fixed(s, 2), ".", z, at);
    SecondsRead(s, z, at);
    FixedReads(f, k, z, at + 4);
    hide Fixed, Stands, Fields, Number;
    DigitsRun(z, at + 4, k);
  }

  /** A time of day alone, with or without a sign. */
  lemma TimeModifier(sign: string, h: nat, m: nat, x: SecondsText, y: ZoneText)
    requires sign == "" || sign == "+" || sign == "-"
    requires h <= 24 && m <= 59 && ValidSeconds(x) && ValidZone(y)
    ensures var z := sign + ClockText(h, m, x, y);
            z != "" && match ReadModifier(z)
                       case Time(c, t) => (c == '-' <==> sign == "-") && t == Clock(h, m, SecondsOf(x), ZoneOf(y))
                       case _ => false
  {
    var t := ClockText(h, m, x, y);
    var z := sign + t;
    assert sign == "" || !IsDigit(sign[0]);
    hide *;
    AfterSign(sign, t);
    ClockTextReads(h, m, x, y, z, |sign|);
    FirstCharacter(sign, t);
    TimeIs(z, |sign|, Clock(h, m, SecondsOf(x), ZoneOf(y)));
  }

  lemma AfterSign(sign: string, t: string)
    ensures Stands(t, sign + t, |sign|)
  {
  }

  lemma FirstCharacter(sign: string, t: string)
    requires |sign| <= 1 && IsDigit(At(sign + t, |sign|)) && (sign == "" || !IsDigit(sign[0]))
    ensures sign + t != "" && (sign == "" <==> IsDigit((sign + t)[0])) && (sign != "" ==> (sign + t)[0] == sign[0])
    ensures sign == "" ==> (sign + t)[0] != '-'
  {
  }

  lemma TimeIs(z: string, n: nat, c: Clock)
    requires z != "" && n <= 1 && ReadClock(z, n) == Some(c) && (n == 0 <==> IsDigit(z[0]))
    requires IsDigit(At(z, n)) && IsDigit(At(z, n + 1)) && At(z, n + 2) == ':'
    ensures ReadModifier(z) == Time(z[0], c)
  {
    hide ReadClock, Fields;
    assert forall k :: 1 <= k < n + 2 ==> IsDigit(At(z, k)) && !Stops(z, k);
    hide Stops;
    assert Stops(z, n + 2) by { StopsAtColon(z, n + 2); }
    StopsLater(z, 1, n + 2);
  }

  lemma StopsAtColon(z: string, n: nat)
    requires At(z, n) == ':'
    ensures Stops(z, n)
  {
  }

  /** A date alone. */
  lemma DateModifier(sign: char, Y: nat, M: nat, D: nat)
    requires (sign == '+' || sign == '-') && Y <= 14712 && M <= 11 && D <= 30
    ensures var w := if Y < 10000 then 4 else 5;
            var z := [sign] + Fixed(Y, w) + "-" + Fixed(M, 2) + "-" + Fixed(D, 2);
            ReadModifier(z) == Days(Diff(sign, Y, M, D, 0, 0, 0))
  {
    var w := if Y < 10000 then 4 else 5;
    var z := [sign] + Fixed(Y, w) + "-" + Fixed(M, 2) + "-" + Fixed(D, 2);
    assert z[1..1 + w] == Fixed(Y, w) && z[w + 2..w + 4] == Fixed(M, 2) && z[w + 5..w + 7] == Fixed(D, 2);
    assert z[0] == sign && z[w + 1] == '-' && z[w + 4] == '-' && |z| == w + 7;
    hide Fixed, DateFields, StopFrom;
    DateReads(z, w, Y, M, D);
  }

  // -------------------- the round trip in text --------------------

  /** timediff(A, B), as the text that it returns. */
  method TimeDiffText(a: int, b: int) returns (z: string, ghost d: Diff)
    requires ValidJulianDay(a) && ValidJulianDay(b)
    ensures IsTimeDiff(a, b, d) && Acceptable(d) && z == Render(d)
  {
    var e := TimeDiff(a, b);
    d := e;
    z := Render(e);
  }

  /** datetime(A) == datetime(B, timediff(A, B)), for all instants in range, through the text of the difference. */
  method AddTimeDiffText(a: int, b: int) returns (r: int)
    requires ValidJulianDay(a) && ValidJulianDay(b)
    ensures r == a
  {
    hide MonthOf, Moved, Render, ReadModifier, IsTimeDiff, ClockMs, DiffMs;
    var z;
    ghost var d;
    z, d := TimeDiffText(a, b);
    DiffLeadsBack(a, b, d);
    DiffReads(d);
    DiffClock(d);
    var p := new DateTime.FromJD(b);
    var o := Modify(p, z);
    r := p.iJD;
  }
}
