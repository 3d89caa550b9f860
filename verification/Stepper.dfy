/** The stepper rate: prescaler and period of the step timer (src/spinner/stm32f411discovery/bsp.c
    and src/spinner/stm32f072discovery/bsp.c, bsp_stepper_set_rate). Rates are reals. */
module Stepper {

  /** The timer ticks of one step at a rate of 1 %. */
  const TICKS_F411: real := 9600000.0
  const TICKS_F072: real := 4800000.0

  predicate Board(ticksAtOne: real) {
    ticksAtOne == TICKS_F411 || ticksAtOne == TICKS_F072
  }

  function Clamp(rate: real): (r: real)
    ensures -100.0 <= r <= 100.0 && (-100.0 <= rate <= 100.0 ==> r == rate)
  {
    if rate > 100.0 then 100.0 else if rate < -100.0 then -100.0 else rate
  }

  function Abs(r: real): real {
    if r < 0.0 then -r else r
  }

  /** A rate that moves the motor. */
  predicate Moves(rate: real) {
    Abs(Clamp(rate)) > 0.1
  }

  /** The requested ticks of one step. */
  function Ticks(ticksAtOne: real, rate: real): real
    requires Moves(rate)
  {
    ticksAtOne / Abs(Clamp(rate))
  }

  /** The truncating conversion to uint16_t, which has to fit. */
  function Truncate(x: real): int {
    x.Floor
  }

  lemma Grows(x: real, y: real, m: real)
    requires m > 0.0
    ensures x <= y ==> x * m <= y * m
    ensures x < y ==> x * m < y * m
  {
  }

  lemma Cancels(x: real, y: real, m: real)
    requires m > 0.0
    ensures x * m < y * m ==> x < y
    ensures x * m <= y * m ==> x <= y
  {
    Grows(y, x, m);
  }

  lemma QuotientTimes(t: real, m: real)
    requires m > 0.0
    ensures t / m * m == t
  {
  }

  /** Quotients of positive reals: bounds of the divisor are bounds of the quotient. */
  lemma QuotientBounds(a: real, b: real, lo: real, hi: real, q: real)
    requires a > 0.0 && 0.0 < lo < b <= hi && q == a / b
    ensures a <= q * hi && q * lo < a && q > 0.0
  {
    QuotientTimes(a, b);
    Cancels(0.0, q, b);
    Grows(b, hi, q);
    Grows(lo, b, q);
  }

  lemma TicksBounds(ticksAtOne: real, rate: real)
    requires Board(ticksAtOne) && Moves(rate)
    ensures 48000.0 <= Ticks(ticksAtOne, rate) < 96000000.0
    ensures ticksAtOne == TICKS_F411 ==> Ticks(ticksAtOne, rate) >= 96000.0
  {
    QuotientBounds(ticksAtOne, Abs(Clamp(rate)), 0.1, 100.0, Ticks(ticksAtOne, rate));
  }

  /** The largest multiple of m that is at most t. */
  lemma FloorOfQuotient(t: real, m: real, k: int)
    requires t >= 0.0 && m > 0.0 && k == (t / m).Floor
    ensures k >= 0 && k as real * m <= t < k as real * m + m
  {
    var q := t / m;
    QuotientTimes(t, m);
    NotNegative(t, q, m);
    Above(t, k as real, q, m);
    Below(t, k as real, q, m);
  }

  lemma NotNegative(t: real, q: real, m: real)
    requires m > 0.0 && q * m == t && t >= 0.0
    ensures q >= 0.0
  {
    if q < 0.0 {
      ProductIsPositive(-q, m);
    }
  }

  lemma Above(t: real, k: real, q: real, m: real)
    requires m > 0.0 && k <= q && q * m == t
    ensures k * m <= t
  {
    Grows(k, q, m);
  }

  lemma Below(t: real, k: real, q: real, m: real)
    requires m > 0.0 && q < k + 1.0 && q * m == t
    ensures t < k * m + m
  {
    var gap := k + 1.0 - q;
    ProductIsPositive(gap, m);
  }

  lemma ProductIsPositive(x: real, m: real)
    requires x > 0.0 && m > 0.0
    ensures x * m > 0.0
  {
  }

  /** The prescaler and the period for a number of ticks. */
  function Prescaler(ticks: real): int {
    Truncate(ticks / 65536.0)
  }

  function Period(ticks: real): int
    requires Prescaler(ticks) >= 0
  {
    Truncate(ticks / (Prescaler(ticks) as real + 1.0))
  }

  /** The period uses at least half of its 16 bits. */
  lemma PeriodIsLarge(t: real, presc: int, m: real, period: int)
    requires t >= 48000.0 && presc >= 0 && m == presc as real + 1.0
    requires presc as real * 65536.0 <= t < m * 65536.0
    requires period as real * m <= t < period as real * m + m
    ensures 32768 <= period <= 65535
  {
    assert 32768.0 * m <= t < 65536.0 * m;
    Cancels(period as real, 65536.0, m);
    Cancels(32767.0, period as real, m);
  }

  /** The speed that a rate asks for, in percent: its magnitude, and at most 100. */
  function Speed(rate: real): real {
    if rate > 100.0 || rate < -100.0 then 100.0 else if rate < 0.0 then -rate else rate
  }

  /** The timer takes (presc + 1) * ctr ticks for a step. At the given speed that is the number of
      ticks at 1 %, short of it by less than one part in 32768. */
  ghost predicate Accurate(ticksAtOne: real, speed: real, presc: int, ctr: int) {
    var covered := (presc as real + 1.0) * ctr as real * speed;
    covered <= ticksAtOne && (ticksAtOne - covered) * 32768.0 < ticksAtOne
  }

  lemma SpeedIs(rate: real)
    ensures Speed(rate) == Abs(Clamp(rate)) && (Moves(rate) <==> Speed(rate) > 0.1)
    ensures if -100.0 <= rate <= 100.0 then Speed(rate) == rate || Speed(rate) == -rate else Speed(rate) == 100.0
    ensures Speed(rate) >= 0.0
  {
  }

  /** For every rate that moves the motor, on both boards: prescaler and period fit their registers,
      the period is at least 32768, and the step takes the time that the rate asks for. */
  lemma RateIsAccurate(ticksAtOne: real, rate: real)
    requires ticksAtOne == 9600000.0 || ticksAtOne == 4800000.0
    requires Speed(rate) > 0.1
    ensures Moves(rate)
    ensures var t := Ticks(ticksAtOne, rate);
            var presc := Prescaler(t);
            && 0 <= presc <= 0xffff
            && var ctr := Period(t);
               && 32768 <= ctr <= 0xffff && (presc, ctr) != (0xffff, 0xffff)
               && (presc as real + 1.0) * ctr as real <= t < (presc as real + 1.0) * (ctr as real + 1.0)
               && Accurate(ticksAtOne, Speed(rate), presc, ctr)
  {
    SpeedIs(rate);
    TicksBounds(ticksAtOne, rate);
    TicksTimesSpeed(ticksAtOne, rate);
    SettingsAreAccurate(ticksAtOne, Speed(rate), Ticks(ticksAtOne, rate));
  }

  lemma TicksTimesSpeed(ticksAtOne: real, rate: real)
    requires Moves(rate)
    ensures Ticks(ticksAtOne, rate) * Speed(rate) == ticksAtOne
  {
    SpeedIs(rate);
    QuotientTimes(ticksAtOne, Speed(rate));
  }

  lemma SettingsAreAccurate(ticksAtOne: real, speed: real, t: real)
    requires 48000.0 <= t < 96000000.0 && speed > 0.0 && t * speed == ticksAtOne
    ensures 0 <= Prescaler(t) <= 0xffff && 32768 <= Period(t) <= 0xffff
    ensures (Prescaler(t), Period(t)) != (0xffff, 0xffff)
    ensures var m, ctr := Prescaler(t) as real + 1.0, Period(t) as real;
            m * ctr <= t < m * (ctr + 1.0)
    ensures Accurate(ticksAtOne, speed, Prescaler(t), Period(t))
  {
    SettingsFit(t);
    AccurateAt(ticksAtOne, speed, t, Prescaler(t), Period(t));
  }

  lemma AccurateAt(ticksAtOne: real, speed: real, t: real, presc: int, ctr: int)
    requires speed > 0.0 && t * speed == ticksAtOne
    requires var covered := (presc as real + 1.0) * ctr as real;
             covered <= t && (t - covered) * 32768.0 < t
    ensures Accurate(ticksAtOne, speed, presc, ctr)
  {
    Scaled(t, (presc as real + 1.0) * ctr as real, speed, ticksAtOne);
  }

  /** The settings for a number of ticks. */
  lemma SettingsFit(t: real)
    requires 48000.0 <= t < 96000000.0
    ensures 0 <= Prescaler(t) <= 0xffff && 32768 <= Period(t) <= 0xffff
    ensures (Prescaler(t), Period(t)) != (0xffff, 0xffff)
    ensures var m, ctr := Prescaler(t) as real + 1.0, Period(t) as real;
            m * ctr <= t < m * (ctr + 1.0) && (t - m * ctr) * 32768.0 < t
  {
    var presc := Prescaler(t);
    FloorOfQuotient(t, 65536.0, presc);
    var m := presc as real + 1.0;
    var ctr := Period(t);
    FloorOfQuotient(t, m, ctr);
    PeriodIsLarge(t, presc, m, ctr);
    ErrorBounds(t, m, ctr);
  }

  /** An error bound scales with the speed. */
  lemma Scaled(t: real, covered: real, speed: real, total: real)
    requires speed > 0.0 && t * speed == total && covered <= t && (t - covered) * 32768.0 < t
    ensures covered * speed <= total && (total - covered * speed) * 32768.0 < total
  {
    Grows(covered, t, speed);
    ProductIsPositive(t - (t - covered) * 32768.0, speed);
  }

  lemma ErrorBounds(t: real, m: real, ctr: int)
    requires m >= 1.0 && ctr >= 32768 && ctr as real * m <= t < ctr as real * m + m
    ensures m * ctr as real <= t < m * (ctr as real + 1.0)
    ensures (t - m * ctr as real) * 32768.0 < t
  {
    assert m * (ctr as real + 1.0) == ctr as real * m + m;
    Grows(32768.0, ctr as real, m);
  }

  class Motor {
    const ticksAtOne: real
    /** stepper_dir_is_fwd, and the direction the counter and the DMA are set up for. */
    var dirIsFwd: bool
    var dmaIsFwd: bool
    /** The registers of the step timer, and whether it runs. */
    var prescaler: int
    var period: int
    var running: bool

    constructor (ticksAtOne: real)
      requires Board(ticksAtOne)
      ensures Valid() && this.ticksAtOne == ticksAtOne && !running && dirIsFwd
    {
      this.ticksAtOne := ticksAtOne;
      dirIsFwd, dmaIsFwd, prescaler, period, running := true, true, 0xffff, 0xffff, false;
    }

    ghost predicate Valid()
      reads this
    {
      Board(ticksAtOne) && dirIsFwd == dmaIsFwd
    }

    /** bsp_stepper_set_rate for the one motor. A motor that was running keeps running exactly when
        the rate moves it; one that stood still is not started. */
    method SetRate(rate: real)
      requires Valid()
      modifies this
      ensures Valid() && dirIsFwd == (rate >= 0.0)
      ensures running == (old(running) && Speed(rate) > 0.1)
      ensures if Speed(rate) > 0.1 then 32768 <= period && Accurate(ticksAtOne, Speed(rate), prescaler, period)
              else prescaler == 0xffff && period == 0xffff
      ensures 0 <= prescaler <= 0xffff && 0 <= period <= 0xffff
    {
      var wasRunning := running;
      var adjRate := Clamp(rate);
      var presc, ctrVal := 0xffff, 0xffff;
      var newDirIsFwd := adjRate >= 0.0;
      var absRate := Abs(adjRate);
      SpeedIs(rate);
      if absRate > 0.1 {
        RateIsAccurate(ticksAtOne, rate);
        var ticksTotal := ticksAtOne / absRate;
        presc := Truncate(ticksTotal / 65536.0);
        ctrVal := Truncate(ticksTotal / (presc as real + 1.0));
      }
      running := false;
      if newDirIsFwd != dirIsFwd {
        dmaIsFwd := newDirIsFwd;
        dirIsFwd := newDirIsFwd;
      }
      prescaler, period := presc, ctrVal;
      if !(presc == 0xffff && ctrVal == 0xffff) && wasRunning {
        running := true;
      }
    }
  }
}
