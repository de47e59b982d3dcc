/** PWM period and pulse: nanoseconds to timer registers and back. */
module PwmDriver {
  import opened Bits

  const WORD: nat := 0x1_0000_0000
  const MAX_PERIOD: nat := 65535
  const MIN_PERIOD: nat := 3
  const MIN_PULSE: nat := 2

  // ----- quotients

  lemma Quotient(x: nat, d: nat)
    requires d > 0
    ensures x / d * d <= x < x / d * d + d
  {
    assert x == x / d * d + x % d;
  }

  lemma QuotientAtMost(x: nat, d: nat, q: nat)
    requires d > 0 && x <= q * d
    ensures x / d <= q
  {
    if x / d > q {
      Times(q + 1, x / d, d);
      Quotient(x, d);
    }
  }

  lemma QuotientBelow(x: nat, d: nat, q: nat)
    requires d > 0 && x < q * d
    ensures x / d < q
  {
    if x / d >= q {
      Times(q, x / d, d);
      Quotient(x, d);
    }
  }

  // ----- the registers

  /** The tick count of a period: the 64-bit product, kept in 32 bits. */
  function Ticks(ns: nat, clk: nat): nat {
    ns * clk / 1000 % WORD
  }

  /** The factor by which the prescaler divides the clock. */
  function Factor(ns: nat, clk: nat): (psc: nat)
    ensures psc > 0
  {
    Ticks(ns, clk) / MAX_PERIOD + 1
  }

  function Unclamped(ns: nat, clk: nat): nat {
    Ticks(ns, clk) / Factor(ns, clk)
  }

  function Period(ns: nat, clk: nat): nat {
    if Unclamped(ns, clk) < MIN_PERIOD then MIN_PERIOD else Unclamped(ns, clk)
  }

  /** The prescaler is the least that makes the period fit. */
  lemma PeriodFits(ns: nat, clk: nat)
    ensures MIN_PERIOD <= Period(ns, clk) < MAX_PERIOD
    ensures Factor(ns, clk) > 1 ==> (Factor(ns, clk) - 1) * MAX_PERIOD <= Ticks(ns, clk)
    ensures Unclamped(ns, clk) * Factor(ns, clk) <= Ticks(ns, clk) < Unclamped(ns, clk) * Factor(ns, clk) + Factor(ns, clk)
  {
    hide Ticks;
    var t, psc := Ticks(ns, clk), Factor(ns, clk);
    QuotientBelow(t, psc, MAX_PERIOD);
    Quotient(t, psc);
  }

  /** A 16-bit prescaler register takes the factor if and only if the tick count is
      below 65535 * 65536, which every clock under 1 GHz guarantees. */
  lemma PrescalerFits(ns: nat, clk: nat)
    requires ns < WORD
    ensures Factor(ns, clk) - 1 <= 0xFFFF <==> Ticks(ns, clk) < MAX_PERIOD * 0x10000
    ensures clk < 1000 ==> Ticks(ns, clk) == ns * clk / 1000 < MAX_PERIOD * 0x10000
  {
    hide Ticks;
    FactorBits(Ticks(ns, clk));
    if clk < 1000 {
      TicksBelow(ns, clk);
    }
  }

  lemma TicksBelow(ns: nat, clk: nat)
    requires ns < WORD && clk < 1000
    ensures Ticks(ns, clk) == ns * clk / 1000 < MAX_PERIOD * 0x10000
  {
    Times(clk, 999, ns);
    var x := ns * clk;
    Milli(x, ns);
  }

  lemma FactorBits(t: nat)
    ensures t / MAX_PERIOD <= 0xFFFF <==> t < MAX_PERIOD * 0x10000
  {
  }

  lemma Milli(x: nat, ns: nat)
    requires ns < WORD && x <= 999 * ns
    ensures x / 1000 % WORD == x / 1000 < MAX_PERIOD * 0x10000
  {
    assert x / 1000 <= ns;
  }

  /** One that does not: a period of 4.29 s at 1 GHz. */
  lemma PrescalerTooSmall()
    ensures Factor(0xFFFF_FFFF, 1000) - 1 > 0xFFFF
  {
    assert 0xFFFF_FFFF * 1000 / 1000 == 0xFFFF_FFFF;
  }

  // ----- the code

  datatype Division = Div1 | Div2 | Div4

  /** The timer's registers; `clock` is its input frequency in Hz. */
  class Timer {
    var psc: nat
    var arr: nat
    var ccr: nat
    var counter: nat
    const clock: nat
    const division: Division

    constructor (clock: nat, division: Division)
      ensures this.clock == clock && this.division == division
    {
      this.clock, this.division := clock, division;
      psc, arr, ccr, counter := 0, 0, 0, 0;
    }

    /** drv_pwm_set: the pulse lies inside the period, and both fit 16 bits. */
    method Set(periodNs: nat, pulseNs: nat)
      requires periodNs < WORD && pulseNs < WORD
      modifies this
      ensures var clk := clock / 1000000;
              && psc == Factor(periodNs, clk) - 1 && arr == Period(periodNs, clk) - 1
              && MIN_PERIOD - 1 <= arr < MAX_PERIOD - 1 && MIN_PULSE - 1 <= ccr <= arr && counter == 0
              && (var wanted := pulseNs * clk / (psc + 1) / 1000 % WORD;
                  && (MIN_PULSE <= wanted <= arr + 1 ==> ccr + 1 == wanted)
                  && (wanted > arr + 1 ==> ccr == arr) && (wanted < MIN_PULSE ==> ccr + 1 == MIN_PULSE))
    {
      var timClock := clock / 1000000;
      var period := periodNs * timClock / 1000 % WORD;
      var factor := period / MAX_PERIOD + 1;
      PeriodFits(periodNs, timClock);
      period := period / factor;
      psc := factor - 1;
      if period < MIN_PERIOD {
        period := MIN_PERIOD;
      }
      arr := period - 1;
      var pulse := pulseNs * timClock / factor / 1000 % WORD;
      if pulse < MIN_PULSE {
        pulse := MIN_PULSE;
      } else if pulse > period {
        pulse := period;
      }
      ccr := pulse - 1;
      counter := 0;
    }

    /** drv_pwm_get: 32-bit products, and a division of the clock that drv_pwm_set
        does not make. */
    method Get() returns (periodNs: nat, pulseNs: nat)
      requires Divided(clock, division) >= 1000000
      ensures periodNs == ReadBack(arr, psc, Divided(clock, division) / 1000000)
      ensures pulseNs == ReadBack(ccr, psc, Divided(clock, division) / 1000000)
    {
      var timClock := clock;
      match division {
        case Div2 => timClock := timClock / 2;
        case Div4 => timClock := timClock / 4;
        case Div1 =>
      }
      timClock := timClock / 1000000;
      periodNs := (arr + 1) * (psc + 1) * 1000 % WORD / timClock;
      pulseNs := (ccr + 1) * (psc + 1) * 1000 % WORD / timClock;
    }
  }

  function Divided(clock: nat, division: Division): (m: nat)
    ensures var k := if division == Div1 then 1 else if division == Div2 then 2 else 4;
            m * k <= clock < m * k + k
  {
    match division
    case Div1 => clock
    case Div2 => clock / 2
    case Div4 => clock / 4
  }

  function ReadBack(reg: nat, psc: nat, clk: nat): nat
    requires clk > 0
  {
    (reg + 1) * (psc + 1) * 1000 % WORD / clk
  }

  /** Reading the period back gives at most the period set, short of it by less
      than one prescaled tick and one nanosecond step together, when nothing was
      clamped or cut off. */
  lemma ReadBackClose(ns: nat, clk: nat)
    requires 0 < clk < 1000 && ns < WORD
    requires Unclamped(ns, clk) >= MIN_PERIOD
    requires Period(ns, clk) * Factor(ns, clk) * 1000 < WORD
    ensures var got := ReadBack(Period(ns, clk) - 1, Factor(ns, clk) - 1, clk);
            got <= ns && (ns - got) * clk < Factor(ns, clk) * 1000 + clk
  {
    hide Ticks, Factor, Period, Unclamped;
    var t, f, p := Ticks(ns, clk), Factor(ns, clk), Period(ns, clk);
    PrescalerFits(ns, clk);
    PeriodFits(ns, clk);
    NotClamped(ns, clk);
    Quotient(ns * clk, 1000);
    CloseProducts(ns, clk, p * f, f);
    assert p * f * 1000 % WORD == p * f * 1000;
  }

  lemma NotClamped(ns: nat, clk: nat)
    requires Unclamped(ns, clk) >= MIN_PERIOD
    ensures Period(ns, clk) == Unclamped(ns, clk)
  {
  }

  /** The two roundings, over the product of period and factor. */
  lemma CloseProducts(ns: nat, clk: nat, pf: nat, f: nat)
    requires clk > 0 && f > 0
    requires pf <= ns * clk / 1000 < pf + f
    ensures var got := pf * 1000 / clk;
            got <= ns && (ns - got) * clk < f * 1000 + clk
  {
    var asked, total := ns * clk, pf * 1000;
    Quotient(asked, 1000);
    Quotient(total, clk);
    QuotientAtMost(total, clk, ns);
    Spread(ns, total / clk, clk);
  }

  lemma Spread(a: nat, b: nat, d: nat)
    ensures (a - b) * d == a * d - b * d
  {
  }

  /** The 32-bit product is the reason for the last condition: what is read back is
      the period in the registers if and only if the product does not wrap. */
  lemma ReadBackExact(reg: nat, psc: nat, clk: nat)
    requires 0 < clk <= WORD
    ensures ReadBack(reg, psc, clk) == (reg + 1) * (psc + 1) * 1000 / clk <==> (reg + 1) * (psc + 1) * 1000 < WORD
  {
    var x := (reg + 1) * (psc + 1) * 1000;
    if x >= WORD {
      var y := x % WORD;
      Quotient(y, clk);
      Quotient(x, clk);
      assert y <= x - WORD;
      if y / clk == x / clk {
        assert false;
      }
    }
  }

  lemma Bounds(reg: nat, psc: nat, clk: nat) returns (x: nat)
    requires clk > 0
    ensures x == (reg + 1) * (psc + 1) * 1000 % WORD
    ensures ReadBack(reg, psc, clk) * clk <= x < ReadBack(reg, psc, clk) * clk + clk
  {
    x := (reg + 1) * (psc + 1) * 1000 % WORD;
    Quotient(x, clk);
  }

  /** Half a clock gives at least twice the reading. */
  lemma AtLeastDouble(reg: nat, psc: nat, m: nat, m': nat)
    requires 0 < m' && 2 * m' <= m
    ensures ReadBack(reg, psc, m') >= 2 * ReadBack(reg, psc, m)
  {
    hide ReadBack;
    var x := Bounds(reg, psc, m);
    var y := Bounds(reg, psc, m');
    var r, r' := ReadBack(reg, psc, m), ReadBack(reg, psc, m');
    Times(2 * m', m, r);
    Regroup(r, m', m);
    LessFactor(2 * r, r' + 1, m');
  }

  lemma LessFactor(a: nat, b: nat, d: nat)
    requires a * d < b * d
    ensures a < b
  {
    if b <= a {
      Times(b, a, d);
    }
  }

  lemma Regroup(r: nat, m': nat, m: nat)
    ensures 2 * r * m' == 2 * m' * r && r * m == m * r
  {
  }

  /** Setting does not divide the clock and reading does: the reading is the one
      for the clock that was set with if and only if the division is Div1. */
  lemma OnlyDiv1(reg: nat, psc: nat, clock: nat, d: Division)
    requires clock >= 4000000 && ReadBack(reg, psc, clock / 1000000) >= 1
    ensures Divided(clock, d) / 1000000 > 0
    ensures ReadBack(reg, psc, Divided(clock, d) / 1000000) == ReadBack(reg, psc, clock / 1000000) <==> d == Div1
  {
    hide ReadBack;
    var m, m' := clock / 1000000, Divided(clock, d) / 1000000;
    if d != Div1 {
      DividedClock(clock, d);
      AtLeastDouble(reg, psc, m, m');
    }
  }

  lemma DividedClock(clock: nat, d: Division)
    requires clock >= 4000000
    ensures Divided(clock, d) / 1000000 > 0
    ensures d != Div1 ==> 2 * (Divided(clock, d) / 1000000) <= clock / 1000000
  {
  }
}
