/** Calendar ranges around a moment: hours, days, weeks, months and years as epoch seconds. */
module DateRanges {

  datatype Unit = Hours | Days | Weeks | Months | Years

  datatype WeekStart = Monday | Sunday

  // ---------- The calendar ----------

  /** Days from 0001-01-01 to the first day of `year`. */
  function DaysBeforeYear(year: int): int {
    var y := year - 1;
    365 * y + y / 4 - y / 100 + y / 400
  }

  predicate IsLeap(year: int) {
    year % 4 == 0 && (year % 100 != 0 || year % 400 == 0)
  }

  function MonthLength(year: int, month: int): int {
    if month == 2 then (if IsLeap(year) then 29 else 28)
    else if month == 4 || month == 6 || month == 9 || month == 11 then 30
    else 31
  }

  function DaysBeforeMonth(year: int, month: nat): int
    requires 1 <= month <= 12
  {
    var leapDay := if IsLeap(year) && month > 2 then 1 else 0;
    leapDay + match month
              case 1 => 0 case 2 => 31 case 3 => 59 case 4 => 90 case 5 => 120 case 6 => 151
              case 7 => 181 case 8 => 212 case 9 => 243 case 10 => 273 case 11 => 304 case _ => 334
  }

  const DAYS_TO_1970 := 719162

  /** The day number, counted from 1970-01-01, on which a month begins. */
  function FirstDay(year: int, month: nat): int
    requires 1 <= month <= 12
  {
    DaysBeforeYear(year) + DaysBeforeMonth(year, month) - DAYS_TO_1970
  }

  // Months are numbered 12 * year + (month - 1).
  function YearOf(m: int): int { m / 12 }

  function MonthOf(m: int): (r: nat)
    ensures 1 <= r <= 12
  {
    m % 12 + 1
  }

  function LengthOf(m: int): (r: int)
    ensures 28 <= r <= 31
  {
    MonthLength(YearOf(m), MonthOf(m))
  }

  const JANUARY_1970 := 23640

  /** The day on which month `m` begins: the lengths of all months between it and January 1970. */
  function MonthStart(m: int): int
    decreases if m < JANUARY_1970 then JANUARY_1970 - m else m - JANUARY_1970
  {
    if m == JANUARY_1970 then 0
    else if m > JANUARY_1970 then MonthStart(m - 1) + LengthOf(m - 1)
    else MonthStart(m + 1) - LengthOf(m)
  }

  /** A quotient grows by one exactly at the multiples of the divisor. */
  lemma QuotientStep(y: int, d: int)
    requires d == 4 || d == 100 || d == 400
    ensures y / d - (y - 1) / d == if y % d == 0 then 1 else 0
  {
  }

  lemma Multiples(y: int)
    ensures y % 400 == 0 ==> y % 100 == 0
    ensures y % 100 == 0 ==> y % 4 == 0
  {
    if y % 400 == 0 { var a := y / 400; assert y == 400 * a; assert y / 100 == 4 * a; }
    if y % 100 == 0 { var a := y / 100; assert y == 100 * a; assert y / 4 == 25 * a; }
  }

  lemma YearLength(year: int)
    ensures DaysBeforeYear(year + 1) - DaysBeforeYear(year) == if IsLeap(year) then 366 else 365
    ensures DaysBeforeMonth(year, 12) + MonthLength(year, 12) == if IsLeap(year) then 366 else 365
  {
    QuotientStep(year, 4);
    QuotientStep(year, 100);
    QuotientStep(year, 400);
    Multiples(year);
  }

  /** The calendar formula moves from month to month, and across year ends, by the month's length. */
  lemma FirstDayStep(m: int)
    ensures FirstDay(YearOf(m + 1), MonthOf(m + 1)) == FirstDay(YearOf(m), MonthOf(m)) + LengthOf(m)
  {
    if m % 12 == 11 {
      assert (m + 1) / 12 == m / 12 + 1 && (m + 1) % 12 == 0;
      YearLength(m / 12);
    } else {
      assert (m + 1) / 12 == m / 12 && (m + 1) % 12 == m % 12 + 1;
    }
  }

  lemma EpochIsJanuary1970()
    ensures YearOf(JANUARY_1970) == 1970 && MonthOf(JANUARY_1970) == 1 && FirstDay(1970, 1) == 0
  {
  }

  /** Counting month by month agrees with the calendar formula. */
  lemma {:induction false} MonthStartIsFirstDay(m: int)
    ensures MonthStart(m) == FirstDay(YearOf(m), MonthOf(m))
    decreases if m < JANUARY_1970 then JANUARY_1970 - m else m - JANUARY_1970
  {
    if m > JANUARY_1970 {
      MonthStartIsFirstDay(m - 1);
      FirstDayStep(m - 1);
    } else if m < JANUARY_1970 {
      MonthStartIsFirstDay(m + 1);
      FirstDayStep(m);
    } else {
      EpochIsJanuary1970();
    }
  }

  lemma MonthsAreConsecutive(m: int)
    ensures MonthStart(m + 1) == MonthStart(m) + LengthOf(m)
  {
  }

  lemma {:induction false} MonthsRise(m: int, k: int)
    requires m <= k
    ensures MonthStart(m) <= MonthStart(k)
    decreases k - m
  {
    if k <= m {
    } else {
      MonthsAreConsecutive(m);
      MonthsRise(m + 1, k);
    }
  }

  /** The month in which a day lies, found by stepping forward from month `m`. */
  function FindMonth(m: int, day: int): (r: int)
    requires MonthStart(m) <= day
    ensures m <= r && MonthStart(r) <= day < MonthStart(r + 1)
    decreases day - MonthStart(m)
  {
    MonthsAreConsecutive(m);
    if day < MonthStart(m + 1) then m else FindMonth(m + 1, day)
  }

  lemma {:induction false} EarlyMonths(k: nat)
    ensures MonthStart(JANUARY_1970 - k) <= -28 * k
  {
    if k == 0 {
    } else {
      EarlyMonths(k - 1);
    }
  }

  function DayOf(epoch: int): (d: int)
    ensures d * 86400 <= epoch < (d + 1) * 86400
  {
    epoch / 86400
  }

  /** Some month that has begun by the given day. */
  function EarlyMonth(day: int): (m: int)
    ensures MonthStart(m) <= day
  {
    var back: nat := if day >= 0 then 0 else -day;
    EarlyMonths(back);
    JANUARY_1970 - back
  }

  /** The month of a moment. */
  function MonthAt(epoch: int): (m: int)
    ensures MonthStart(m) <= DayOf(epoch) < MonthStart(m + 1)
  {
    FindMonth(EarlyMonth(DayOf(epoch)), DayOf(epoch))
  }

  /** No other month contains the moment. */
  lemma MonthIsUnique(epoch: int, m: int)
    ensures MonthStart(m) <= DayOf(epoch) < MonthStart(m + 1) <==> m == MonthAt(epoch)
  {
    var k := MonthAt(epoch);
    if m < k { MonthsRise(m + 1, k); } else if k < m { MonthsRise(k + 1, m); }
  }

  // ---------- The source's helpers ----------

  function DigitCount(n: nat): nat {
    if n < 10 then 1 else 1 + DigitCount(n / 10)
  }

  function Pow10(k: nat): (r: nat)
    ensures r >= 1
  {
    if k == 0 then 1 else 10 * Pow10(k - 1)
  }

  /** The length of the decimal form, with the sign. */
  function Width(n: int): nat {
    if n >= 0 then DigitCount(n) else 1 + DigitCount(-n)
  }

  /** Division that truncates toward zero. */
  function Truncated(a: int, b: int): int
    requires b > 0
  {
    if a >= 0 then a / b else -(-a / b)
  }

  /** Values of up to ten characters are seconds; longer ones are scaled down to that. */
  function FixEpoch(epoch: int): int {
    if Width(epoch) <= 10 then epoch
    else if Width(epoch) <= 13 then Truncated(epoch, 1000)
    else Truncated(epoch, Pow10(Width(epoch) - 10))
  }

  lemma {:induction false} DigitCountBound(n: nat, k: nat)
    requires k >= 1
    ensures DigitCount(n) <= k <==> n < Pow10(k)
    decreases k
  {
    if k == 1 {
      assert Pow10(1) == 10 * Pow10(0);
    } else if n >= 10 {
      DigitCountBound(n / 10, k - 1);
    }
  }

  lemma {:induction false} PowSum(a: nat, b: nat)
    ensures Pow10(a + b) == Pow10(a) * Pow10(b)
  {
    if b == 0 {
    } else {
      PowSum(a, b - 1);
      assert Pow10(a + b) == 10 * Pow10(a + b - 1);
      assert Pow10(a) * (10 * Pow10(b - 1)) == 10 * (Pow10(a) * Pow10(b - 1));
    }
  }

  lemma Powers()
    ensures Pow10(3) == 1000 && Pow10(8) == 100000000 && Pow10(9) == 1000000000 && Pow10(10) == 10000000000
    ensures Pow10(12) == 1000000000000 && Pow10(13) == 10000000000000
  {
    assert Pow10(3) == 1000 && Pow10(6) == 1000 * Pow10(3) && Pow10(9) == 1000 * Pow10(6);
    assert Pow10(12) == 1000 * Pow10(9) && Pow10(13) == 10 * Pow10(12);
    assert Pow10(9) == 10 * Pow10(8) && Pow10(10) == 10 * Pow10(9);
  }

  lemma TenCharacters(n: int)
    ensures Width(n) <= 10 <==> -1000000000 < n < 10000000000
  {
    assert Pow10(3) == 1000 && Pow10(6) == 1000 * Pow10(3) && Pow10(9) == 1000 * Pow10(6);
    if n >= 0 { DigitCountBound(n, 10); } else { DigitCountBound(-n, 9); }
  }

  lemma DivisionShrinks(a: int, b: int)
    requires a != 0 && b >= 2
    ensures Truncated(a, b) != a
  {
    var n := if a >= 0 then a else -a;
    assert n / b < n;
  }

  /** `now` stands for the clock, which is read when the epoch is 0. */
  function EffectiveEpoch(epoch: int, now: int): int {
    FixEpoch(if epoch == 0 then now else epoch)
  }

  function Seconds(unit: Unit): int {
    match unit case Hours => 3600 case Days => 86400 case _ => 604800
  }

  /** How many days before `day` the week starts; the first of January 1970 was a Thursday. */
  function DaysIntoWeek(day: int, ws: WeekStart): int {
    (day + 3) % 7 + if ws.Sunday? then 1 else 0
  }

  // ---------- Where ranges start and end ----------

  function StartOf(unit: Unit, ws: WeekStart, epoch: int, from: int): int {
    match unit
    case Hours => epoch / 3600 * 3600 + 3600 * from
    case Days => DayOf(epoch) * 86400 + 86400 * from
    case Weeks => (DayOf(epoch) - DaysIntoWeek(DayOf(epoch), ws)) * 86400 + 604800 * from
    case Months => MonthStart(MonthAt(epoch) + from) * 86400
    case Years => MonthStart(12 * (YearOf(MonthAt(epoch)) + from)) * 86400
  }

  function EndOf(unit: Unit, ws: WeekStart, epoch: int, from: int, to: int, now: int): int {
    var count := to - from + 1;
    match unit
    case Months => MonthStart(MonthAt(epoch) + from + count) * 86400 - 1
    case Years => MonthStart(12 * (YearOf(MonthAt(epoch)) + from + count)) * 86400 - 1
    case _ => EffectiveEpoch(StartOf(unit, ws, epoch, from), now) + Seconds(unit) * count - 1
  }

  /** The start of the range is read back as itself: it is not 0, and has at most ten characters. */
  predicate ReadsBack(unit: Unit, start: int, now: int) {
    unit.Months? || unit.Years? || (if start == 0 then now == 0 else -1000000000 < start < 10000000000)
  }

  lemma FixEpochKeeps(n: int)
    ensures FixEpoch(n) == n <==> -1000000000 < n < 10000000000
  {
    TenCharacters(n);
    if Width(n) > 13 {
      assert Pow10(Width(n) - 10) == 10 * Pow10(Width(n) - 11);
      DivisionShrinks(n, Pow10(Width(n) - 10));
    } else if Width(n) > 10 {
      DivisionShrinks(n, 1000);
    }
  }

  // ---------- What scaling does ----------

  lemma QuotientOf(a: nat, b: nat)
    requires b > 0
    ensures b * (a / b) <= a < b * (a / b + 1)
  {
    var q := a / b;
    assert a == b * q + a % b;
    assert b * (q + 1) == b * q + b;
  }

  lemma Grows(b: nat, x: nat, y: nat)
    requires x <= y
    ensures b * x <= b * y
  {
  }

  lemma QuotientIs(a: nat, b: nat, q: nat)
    requires b > 0 && b * q <= a < b * (q + 1)
    ensures a / b == q
  {
    QuotientOf(a, b);
    var r := a / b;
    if r < q { Grows(b, r + 1, q); }
    if q < r { Grows(b, q + 1, r); }
  }

  lemma WidthBetween(n: int, k: nat)
    requires k >= 2
    ensures n >= 0 ==> (Width(n) <= k <==> n < Pow10(k))
    ensures n < 0 ==> (Width(n) <= k <==> -n < Pow10(k - 1))
  {
    if n >= 0 { DigitCountBound(n, k); } else { DigitCountBound(-n, k - 1); }
  }

  /** Milliseconds are cut down to seconds. */
  lemma MillisecondsToSeconds(s: nat, ms: nat)
    requires 10000000 <= s < 10000000000 && ms < 1000
    ensures FixEpoch(1000 * s + ms) == s
  {
    var n := 1000 * s + ms;
    Powers();
    WidthBetween(n, 10);
    WidthBetween(n, 13);
    QuotientIs(n, 1000, s);
  }

  lemma NegativeMilliseconds(s: int, ms: int)
    requires 1000000 <= s < 1000000000 && 0 <= ms < 1000
    ensures FixEpoch(-(1000 * s + ms)) == -s
  {
    var n := 1000 * s + ms;
    Powers();
    WidthBetween(-n, 10);
    WidthBetween(-n, 13);
    QuotientIs(n, 1000, s);
  }

  /** Finer units are cut down to ten digits, by a power of ten. */
  lemma LongEpochs(n: nat)
    requires n >= 10000000000000
    ensures Width(n) > 13
    ensures var r, p := FixEpoch(n), Pow10(Width(n) - 10);
            1000000000 <= r < 10000000000 && p * r <= n < p * (r + 1)
  {
    var w := Width(n);
    Powers();
    WidthBetween(n, 13);
    var p := Pow10(w - 10);
    QuotientOf(n, p);
    WidthBetween(n, w);
    WidthBetween(n, w - 1);
    PowSum(w - 10, 10);
    PowSum(w - 10, 9);
    TenDigits(n, p, n / p, 1000000000, 10000000000);
  }

  lemma TenDigits(n: nat, p: nat, r: nat, low: nat, high: nat)
    requires p > 0 && p * r <= n < p * (r + 1) && p * low <= n < p * high
    ensures low <= r < high
  {
    if r < low { Grows(p, r + 1, low); }
    if high <= r { Grows(p, high, r); }
  }

  lemma LongNegativeEpochs(n: int)
    requires n <= -1000000000000
    ensures Width(n) > 13
    ensures var r, p := FixEpoch(n), Pow10(Width(n) - 10);
            -1000000000 < r <= -100000000 && p * (r - 1) < n <= p * r
  {
    var w, a := Width(n), -n;
    Powers();
    WidthBetween(n, 13);
    var p := Pow10(w - 10);
    QuotientOf(a, p);
    WidthBetween(n, w);
    WidthBetween(n, w - 1);
    PowSum(w - 10, 9);
    PowSum(w - 10, 8);
    TenDigits(a, p, a / p, 100000000, 1000000000);
    Negated(a, p, a / p);
  }

  lemma Negated(a: int, p: int, q: int)
    requires p * q <= a < p * (q + 1)
    ensures p * (-q - 1) < -a <= p * -q
  {
  }

  /** The clock is read only when no epoch is given. */
  lemma ClockIsReadForZero(epoch: int, now: int)
    ensures EffectiveEpoch(epoch, now) == if epoch == 0 then FixEpoch(now) else FixEpoch(epoch)
  {
  }

  lemma {:induction false} DigitsAreNeeded(n: nat, k: nat)
    requires n > 0 && DigitCount(n) > k
    ensures n / Pow10(k) > 0
  {
    if k > 0 {
      DigitCountBound(n, k);
      assert n >= Pow10(k);
      DivisionAtLeastOne(n, Pow10(k));
    }
  }

  lemma DivisionAtLeastOne(n: nat, d: nat)
    requires d > 0 && n >= d
    ensures n / d >= 1
  {
  }

  /** Only 0 is scaled to 0. */
  lemma FixEpochIsZero(n: int)
    ensures FixEpoch(n) == 0 <==> n == 0
  {
    TenCharacters(n);
    var w, a := Width(n), if n >= 0 then n else -n;
    if w > 13 { DigitsAreNeeded(a, w - 10); }
    else if w > 10 { assert a >= 1000000000; }
  }

  lemma EffectiveIsSame(start: int, now: int)
    ensures EffectiveEpoch(start, now) == start <==> if start == 0 then now == 0 else -1000000000 < start < 10000000000
  {
    FixEpochKeeps(start);
    FixEpochIsZero(now);
  }

  /** A range ends one second before the next one starts, exactly when its start reads back as itself. */
  lemma RangesTile(unit: Unit, ws: WeekStart, epoch: int, from: int, to: int, now: int)
    requires from <= to
    ensures EndOf(unit, ws, epoch, from, to, now) + 1 == StartOf(unit, ws, epoch, to + 1) <==>
            ReadsBack(unit, StartOf(unit, ws, epoch, from), now)
  {
    EffectiveIsSame(StartOf(unit, ws, epoch, from), now);
  }

  lemma YearContains(m: int)
    ensures MonthStart(12 * YearOf(m)) <= MonthStart(m) && MonthStart(m + 1) <= MonthStart(12 * (YearOf(m) + 1))
  {
    MonthsRise(12 * YearOf(m), m);
    MonthsRise(m + 1, 12 * (YearOf(m) + 1));
  }

  predicate OnSunday(epoch: int) {
    (DayOf(epoch) + 3) % 7 == 6
  }

  predicate MissesSunday(unit: Unit, ws: WeekStart, epoch: int) {
    unit.Weeks? && ws.Sunday? && OnSunday(epoch)
  }

  lemma FixedLengthContains(unit: Unit, ws: WeekStart, epoch: int)
    requires unit.Hours? || unit.Days? || unit.Weeks?
    ensures var start := StartOf(unit, ws, epoch, 0);
            start <= epoch < start + Seconds(unit) <==> !MissesSunday(unit, ws, epoch)
  {
  }

  lemma CalendarContains(unit: Unit, ws: WeekStart, epoch: int)
    requires unit.Months? || unit.Years?
    ensures StartOf(unit, ws, epoch, 0) <= epoch < StartOf(unit, ws, epoch, 1)
  {
    var m := MonthAt(epoch);
    YearContains(m);
    DaysToSeconds(epoch, MonthStart(m), MonthStart(m + 1));
    DaysToSeconds(epoch, MonthStart(12 * YearOf(m)), MonthStart(12 * (YearOf(m) + 1)));
  }

  lemma DaysToSeconds(epoch: int, a: int, b: int)
    requires a <= DayOf(epoch) < b
    ensures a * 86400 <= epoch < b * 86400
  {
  }

  lemma QuotientBound(a: nat, b: nat)
    requires b >= 1000
    ensures a / b >= 0 && 1000 * (a / b) <= a
  {
    var q := a / b;
    assert q * 1000 <= q * b;
  }

  predicate ScaledDown(n: int, r: int) {
    if n >= 0 then 0 <= r && 1000 * r <= n else r <= 0 && n <= 1000 * r
  }

  lemma TruncatedScales(n: int, b: nat)
    requires b >= 1000
    ensures ScaledDown(n, Truncated(n, b))
  {
    if n >= 0 { QuotientBound(n, b); } else { QuotientBound(-n, b); }
  }

  lemma ThousandOrMore(k: nat)
    requires k >= 3
    ensures Pow10(k) >= 1000
  {
    assert Pow10(k) == 10 * Pow10(k - 1) && Pow10(k - 1) == 10 * Pow10(k - 2) && Pow10(k - 2) == 10 * Pow10(k - 3);
  }

  /** A value with more than ten characters is scaled down by at least a thousand. */
  lemma FixEpochScales(n: int)
    requires Width(n) > 10
    ensures ScaledDown(n, FixEpoch(n))
  {
    var w := Width(n);
    if w > 13 {
      ThousandOrMore(w - 10);
      TruncatedScales(n, Pow10(w - 10));
    } else {
      TruncatedScales(n, 1000);
    }
  }

  /** A start that does not read back moves the end: far ahead for early starts, and before the range for late ones. */
  lemma ShiftedEnd(unit: Unit, ws: WeekStart, epoch: int, now: int)
    requires !ReadsBack(unit, StartOf(unit, ws, epoch, 0), now) && StartOf(unit, ws, epoch, 0) != 0
    ensures var start := StartOf(unit, ws, epoch, 0);
            epoch <= EndOf(unit, ws, epoch, 0, 0, now) <==> start < 0
  {
    var start := StartOf(unit, ws, epoch, 0);
    TenCharacters(start);
    FixEpochScales(start);
    assert start <= epoch < start + 2 * Seconds(unit);
  }

  /**
   * When the current range contains the moment. If its start reads back as itself, always, except that
   * weeks starting on Sunday miss every Sunday.
   */
  lemma CurrentRangeContainsEpoch(unit: Unit, ws: WeekStart, epoch: int, now: int)
    ensures var start := StartOf(unit, ws, epoch, 0);
            start <= epoch <= EndOf(unit, ws, epoch, 0, 0, now) <==>
            if ReadsBack(unit, start, now) then !MissesSunday(unit, ws, epoch)
            else if start == 0 then epoch < FixEpoch(now) + Seconds(unit)
            else start < 0
  {
    var start := StartOf(unit, ws, epoch, 0);
    RangesTile(unit, ws, epoch, 0, 0, now);
    if unit.Months? || unit.Years? {
      CalendarContains(unit, ws, epoch);
    } else {
      FixedLengthContains(unit, ws, epoch);
      assert start <= epoch;
      if !ReadsBack(unit, start, now) && start != 0 { ShiftedEnd(unit, ws, epoch, now); }
    }
  }

  lemma Midnight(day: int)
    ensures day * 86400 % 86400 == 0 && DayOf(day * 86400) == day
  {
  }

  lemma WeekBegins(day: int, from: int, ws: WeekStart)
    ensures (day - DaysIntoWeek(day, ws) + 7 * from + 3) % 7 == if ws.Sunday? then 6 else 0
  {
    var q := (day + 3) / 7;
    assert day + 3 == 7 * q + (day + 3) % 7;
    if ws.Sunday? {
      assert day - DaysIntoWeek(day, ws) + 7 * from + 3 == 7 * (q + from - 1) + 6;
    } else {
      assert day - DaysIntoWeek(day, ws) + 7 * from + 3 == 7 * (q + from);
    }
  }

  lemma HoursAligned(epoch: int, from: int, ws: WeekStart)
    ensures StartOf(Hours, ws, epoch, from) % 3600 == 0
  {
    assert StartOf(Hours, ws, epoch, from) == 3600 * (epoch / 3600 + from);
  }

  lemma WeeksAligned(epoch: int, from: int, ws: WeekStart)
    ensures var start := StartOf(Weeks, ws, epoch, from);
            start % 86400 == 0 && (DayOf(start) + 3) % 7 == if ws.Sunday? then 6 else 0
  {
    var day := DayOf(epoch) - DaysIntoWeek(DayOf(epoch), ws) + 7 * from;
    WeekBegins(DayOf(epoch), from, ws);
    Midnight(day);
    assert StartOf(Weeks, ws, epoch, from) == day * 86400;
  }

  /** Hours start on the hour, days and weeks at midnight, and weeks on their first day. */
  lemma StartsAligned(unit: Unit, ws: WeekStart, epoch: int, from: int)
    requires unit.Hours? || unit.Days? || unit.Weeks?
    ensures var start := StartOf(unit, ws, epoch, from);
            && start % (if unit.Hours? then 3600 else 86400) == 0
            && (unit.Weeks? ==> (DayOf(start) + 3) % 7 == if ws.Sunday? then 6 else 0)
  {
    match unit
    case Hours => HoursAligned(epoch, from, ws);
    case Days => Midnight(DayOf(epoch) + from);
    case Weeks => WeeksAligned(epoch, from, ws);
  }

  /** Months and years start with the first day of a month, and years with January. */
  lemma CalendarStarts(unit: Unit, ws: WeekStart, epoch: int, from: int)
    requires unit.Months? || unit.Years?
    ensures var m := if unit.Months? then MonthAt(epoch) + from else 12 * (YearOf(MonthAt(epoch)) + from);
            && StartOf(unit, ws, epoch, from) == FirstDay(YearOf(m), MonthOf(m)) * 86400
            && (unit.Years? ==> MonthOf(m) == 1 && YearOf(m) == YearOf(MonthAt(epoch)) + from)
  {
    var m := if unit.Months? then MonthAt(epoch) + from else 12 * (YearOf(MonthAt(epoch)) + from);
    MonthStartIsFirstDay(m);
    if unit.Years? { MonthNumber(YearOf(MonthAt(epoch)) + from, 1); }
  }

  /** Starts rise with the offset, so ranges that tile do not overlap. */
  lemma StartsRise(unit: Unit, ws: WeekStart, epoch: int, from: int)
    ensures StartOf(unit, ws, epoch, from) < StartOf(unit, ws, epoch, from + 1)
  {
    if unit.Months? {
      MonthsAreConsecutive(MonthAt(epoch) + from);
    } else if unit.Years? {
      YearsRise(YearOf(MonthAt(epoch)) + from);
    }
  }

  lemma YearsRise(y: int)
    ensures MonthStart(12 * y) < MonthStart(12 * (y + 1))
  {
    MonthsAreConsecutive(12 * y);
    MonthsRise(12 * y + 1, 12 * (y + 1));
  }

  // ---------- The computation ----------

  /** BadRange is the configuration error; OutOfCalendar a date outside the years 1 to 9999. */
  datatype RangeResult = Range(start: int, end: int) | BadRange | OutOfCalendar

  predicate InCalendar(epoch: int) {
    -62135596800 <= epoch <= 253402300799
  }

  /** The calendar has the years 1 to 9999. */
  lemma CalendarYears(epoch: int)
    ensures InCalendar(epoch) <==> 1 <= YearOf(MonthAt(epoch)) <= 9999
  {
    var m := MonthAt(epoch);
    MonthStartIsFirstDay(12);
    MonthStartIsFirstDay(120000);
    assert FirstDay(1, 1) == -719162 && FirstDay(10000, 1) == 2932897;
    if m < 12 { MonthsRise(m + 1, 12); } else { MonthsRise(12, m); }
    if m < 120000 { MonthsRise(m + 1, 120000); } else { MonthsRise(120000, m); }
  }

  /** The lengths of the months, with the leap days of the Gregorian calendar. */
  lemma MonthLengths(year: int)
    ensures forall m :: m in {1, 3, 5, 7, 8, 10, 12} ==> MonthLength(year, m) == 31
    ensures forall m :: m in {4, 6, 9, 11} ==> MonthLength(year, m) == 30
    ensures MonthLength(year, 2) == if year % 400 == 0 || (year % 4 == 0 && year % 100 != 0) then 29 else 28
  {
    Multiples(year);
  }

  /** Month by month; equal to one addition on the month number. */
  method StepMonths(year: int, month: nat, steps: int) returns (y: int, m: nat)
    requires 1 <= month <= 12
    ensures 1 <= m <= 12 && 12 * y + m - 1 == 12 * year + month - 1 + steps
  {
    y, m := year, month;
    if steps < 0 {
      for i := 0 to -steps
        invariant 1 <= m <= 12 && 12 * y + m - 1 == 12 * year + month - 1 - i
      {
        if m == 1 { y, m := y - 1, 12; } else { m := m - 1; }
      }
    } else {
      for i := 0 to steps
        invariant 1 <= m <= 12 && 12 * y + m - 1 == 12 * year + month - 1 + i
      {
        if m == 12 { y, m := y + 1, 1; } else { m := m + 1; }
      }
    }
  }

  lemma MonthNumber(y: int, month: nat)
    requires 1 <= month <= 12
    ensures YearOf(12 * y + month - 1) == y && MonthOf(12 * y + month - 1) == month
  {
  }

  /** The last date that the computation builds: the day after the end for months and years. */
  function LastDate(unit: Unit, end: int): int {
    if unit.Months? || unit.Years? then end + 1 else end
  }

  method DateRange(unit: Unit, from: int, to: int, epoch: int, now: int, ws: WeekStart) returns (r: RangeResult)
    ensures var e := EffectiveEpoch(epoch, now);
            var start, end := StartOf(unit, ws, e, from), EndOf(unit, ws, e, from, to, now);
            r == if to < from then BadRange
                 else if InCalendar(e) && InCalendar(start) && InCalendar(LastDate(unit, end)) then Range(start, end)
                 else OutOfCalendar
  {
    if to < from { return BadRange; }
    var e := EffectiveEpoch(epoch, now);
    if !InCalendar(e) { return OutOfCalendar; }
    var count := to - from + 1;
    var start, end;
    match unit {
      case Months => start, end := MonthRange(e, from, count);
      case Years => start, end := YearRange(e, from, count);
      case _ =>
        start := FixedStart(unit, ws, e, from);
        end := EffectiveEpoch(start, now) - Seconds(unit) * -count - 1;
    }
    if !InCalendar(start) || !InCalendar(LastDate(unit, end)) { return OutOfCalendar; }
    return Range(start, end);
  }

  /** The point of reference, cut down to the hour or the day, minus the offset. */
  method FixedStart(unit: Unit, ws: WeekStart, e: int, from: int) returns (start: int)
    requires unit.Hours? || unit.Days? || unit.Weeks?
    ensures start == StartOf(unit, ws, e, from)
  {
    var origin, midnight := from * -1, e - e % 86400;
    match unit
    case Hours =>
      var hour := (e - midnight) / 3600;
      start := midnight + hour * 3600 - origin * 3600;
    case Days => start := midnight - origin * 86400;
    case Weeks =>
      var weekday := (midnight / 86400 + 3) % 7;
      if ws.Sunday? { weekday := weekday + 1; }
      start := midnight - (weekday * 86400 + origin * 604800);
  }

  method MonthRange(e: int, from: int, count: int) returns (start: int, end: int)
    ensures start == MonthStart(MonthAt(e) + from) * 86400
    ensures end == MonthStart(MonthAt(e) + from + count) * 86400 - 1
  {
    var m := MonthAt(e);
    var year, month := StepMonths(YearOf(m), MonthOf(m), from);
    start := MonthSeconds(year, month, m + from);
    year, month := StepMonths(year, month, count);
    end := MonthSeconds(year, month, m + from + count) - 1;
  }

  method YearRange(e: int, from: int, count: int) returns (start: int, end: int)
    ensures start == MonthStart(12 * (YearOf(MonthAt(e)) + from)) * 86400
    ensures end == MonthStart(12 * (YearOf(MonthAt(e)) + from + count)) * 86400 - 1
  {
    var year := YearOf(MonthAt(e)) + from;
    start := MonthSeconds(year, 1, 12 * year);
    end := MonthSeconds(year + count, 1, 12 * (year + count)) - 1;
  }

  /** The epoch of midnight on the first of a month. */
  function MonthSeconds(year: int, month: nat, ghost m: int): (r: int)
    requires 1 <= month <= 12 && m == 12 * year + month - 1
    ensures r == MonthStart(m) * 86400
  {
    MonthNumber(year, month);
    MonthStartIsFirstDay(m);
    FirstDay(year, month) * 86400
  }
}
