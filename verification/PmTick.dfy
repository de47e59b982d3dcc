/** Ticks of the operating system and of the low-power timer that counts while the
    MCU sleeps. */
module PmTick {
  import opened Wrappers

  const WORD: nat := 0x1_0000_0000
  const FREQ: nat := 256
  const PER_SECOND: nat := 1000
  const TICK_MAX: nat := 1024 * 60

  /** RT_TICK_MAX: sleep without a timeout. */
  const FOREVER: nat := 0xFFFF_FFFF

  type Word = x: int | 0 <= x < WORD

  /** stm32l4_pm_tick_from_os_tick */
  function FromOs(tick: Word): Word {
    FREQ * tick % WORD / PER_SECOND
  }

  /** What pm_timer_start programs; None leaves the timer alone. */
  function Programmed(timeout: Word): Option<Word> {
    if timeout == FOREVER then None
    else if FromOs(timeout) > TICK_MAX then Some(TICK_MAX) else Some(FromOs(timeout))
  }

  /** Every request but the endless one programs the greatest reload of the timer's range
      whose time lies within the request, as far as its 32-bit product holds it. */
  lemma ProgrammedTime(timeout: Word)
    ensures Programmed(timeout).None? <==> timeout == FOREVER
    ensures timeout != FOREVER ==>
              forall q: nat :: q <= Programmed(timeout).value <==> q <= TICK_MAX && q * PER_SECOND <= FREQ * timeout % WORD
  {
    var x := FREQ * timeout % WORD;
    forall q: nat ensures q <= x / PER_SECOND <==> q * PER_SECOND <= x {
    }
  }

  datatype Credit = Credit(os: Word, remain: Word)

  /** stm32l4_os_tick_from_pm_tick, with the static remainder. */
  function ToOs(tick: Word, remain: Word): Credit {
    Credit((tick * PER_SECOND + remain) % WORD / FREQ, (remain + tick * PER_SECOND) % WORD % FREQ)
  }

  /** A conversion loses nothing exactly when its 32-bit sum does not wrap; the
      remainder is right even then. */
  lemma Exact(tick: Word, remain: Word)
    ensures var c := ToOs(tick, remain);
            && c.remain < FREQ
            && FREQ * c.os + c.remain <= PER_SECOND * tick + remain
            && (FREQ * c.os + c.remain == PER_SECOND * tick + remain <==> PER_SECOND * tick + remain < WORD)
            && c.remain == (PER_SECOND * tick + remain) % FREQ
  {
    var x := PER_SECOND * tick + remain;
    var y := x % WORD;
    Wrapped(x);
    assert y == FREQ * (y / FREQ) + y % FREQ;
  }

  /** The frequency divides the word size. */
  lemma Wrapped(x: nat)
    ensures x % WORD <= x && (x % WORD == x <==> x < WORD) && x % WORD % FREQ == x % FREQ
  {
    var q, y := x / WORD, x % WORD;
    var k := q * 0x100_0000 + y / FREQ;
    assert x == WORD * q + y && y == FREQ * (y / FREQ) + y % FREQ;
    assert x == FREQ * k + y % FREQ;
    Remainder(k, y % FREQ);
  }

  lemma Remainder(k: nat, r: nat)
    requires r < FREQ
    ensures (FREQ * k + r) % FREQ == r
  {
  }

  // ----- runs

  function Remain(ticks: seq<Word>, remain: Word): Word {
    if ticks == [] then remain else Remain(ticks[1..], ToOs(ticks[0], remain).remain)
  }

  function SumOs(ticks: seq<Word>, remain: Word): nat {
    if ticks == [] then 0 else ToOs(ticks[0], remain).os + SumOs(ticks[1..], ToOs(ticks[0], remain).remain)
  }

  function SumPm(ticks: seq<Word>): nat {
    if ticks == [] then 0 else ticks[0] + SumPm(ticks[1..])
  }

  /** No conversion of the run wraps. */
  predicate NoWrap(ticks: seq<Word>, remain: Word) {
    ticks == [] || (PER_SECOND * ticks[0] + remain < WORD && NoWrap(ticks[1..], ToOs(ticks[0], remain).remain))
  }

  /** Over any run of conversions the credited time and the remainder together are
      the time counted, if and only if no conversion wrapped; they never exceed it. */
  lemma {:induction false} NeverDrifts(ticks: seq<Word>, remain: Word)
    ensures FREQ * SumOs(ticks, remain) + Remain(ticks, remain) <= PER_SECOND * SumPm(ticks) + remain
    ensures FREQ * SumOs(ticks, remain) + Remain(ticks, remain) == PER_SECOND * SumPm(ticks) + remain
       <==> NoWrap(ticks, remain)
  {
    hide ToOs;
    if ticks != [] {
      Exact(ticks[0], remain);
      NeverDrifts(ticks[1..], ToOs(ticks[0], remain).remain);
    }
  }

  /** The timer's counter has 16 bits: what it counts never wraps a conversion. */
  lemma {:induction false} CounterNeverWraps(ticks: seq<Word>, remain: Word)
    requires remain < FREQ && forall i :: 0 <= i < |ticks| ==> ticks[i] <= 0xFFFF
    ensures NoWrap(ticks, remain) && Remain(ticks, remain) < FREQ
  {
    hide ToOs;
    if ticks != [] {
      Exact(ticks[0], remain);
      CounterNeverWraps(ticks[1..], ToOs(ticks[0], remain).remain);
    }
  }

  /** For every request a sleep, however long it really was, is credited with no more
      ticks than requested; a full one with at most four less, unless the timer's
      range or the 32-bit product cut it short. */
  lemma SleepCredit(timeout: Word, slept: Word, remain: Word)
    requires timeout != FOREVER && remain < FREQ && slept <= Programmed(timeout).value
    ensures ToOs(slept, remain).os <= timeout
    ensures slept == FromOs(timeout) && timeout < 0x100_0000 ==> timeout <= ToOs(slept, remain).os + 4
  {
    var pm := FromOs(timeout);
    assert pm * PER_SECOND <= FREQ * timeout % WORD < pm * PER_SECOND + PER_SECOND;
    assert slept * PER_SECOND + remain <= FREQ * timeout + 255;
    assert slept * PER_SECOND + remain < WORD;
  }

  datatype Sleep = Sleep(timeout: Word, slept: Word)

  predicate Plausible(s: Sleep) {
    s.timeout != FOREVER && s.slept <= Programmed(s.timeout).value
  }

  function Slept(ss: seq<Sleep>): (ticks: seq<Word>)
    ensures |ticks| == |ss| && forall i :: 0 <= i < |ss| ==> ticks[i] == ss[i].slept
  {
    if ss == [] then [] else [ss[0].slept] + Slept(ss[1..])
  }

  function SumRequested(ss: seq<Sleep>): nat {
    if ss == [] then 0 else ss[0].timeout + SumRequested(ss[1..])
  }

  /** Over any run of sleeps the credit stays within the requests and keeps exact
      account of the counted time. */
  lemma {:induction false} RunOfSleeps(ss: seq<Sleep>, remain: Word)
    requires remain < FREQ && forall i :: 0 <= i < |ss| ==> Plausible(ss[i])
    ensures SumOs(Slept(ss), remain) <= SumRequested(ss)
    ensures FREQ * SumOs(Slept(ss), remain) + Remain(Slept(ss), remain) == PER_SECOND * SumPm(Slept(ss)) + remain
  {
    hide ToOs, FromOs;
    if ss != [] {
      var c := ToOs(ss[0].slept, remain);
      Exact(ss[0].slept, remain);
      SleepCredit(ss[0].timeout, ss[0].slept, remain);
      assert Slept(ss)[1..] == Slept(ss[1..]);
      RunOfSleeps(ss[1..], c.remain);
    }
  }

  // ----- the code

  class Pm {
    /** The static variable of the conversion. */
    var osTickRemain: Word
    /** The reload value last written to the timer. */
    var reload: Option<Word>

    constructor ()
      ensures osTickRemain == 0 && reload == None
    {
      osTickRemain, reload := 0, None;
    }

    method OsTickFromPmTick(tick: Word) returns (ret: Word)
      modifies this`osTickRemain
      ensures Credit(ret, osTickRemain) == ToOs(tick, old(osTickRemain))
      ensures old(osTickRemain) + tick * PER_SECOND < WORD ==>
                FREQ * ret + osTickRemain == PER_SECOND * tick + old(osTickRemain)
    {
      Exact(tick, osTickRemain);
      ret := (tick * PER_SECOND + osTickRemain) % WORD / FREQ;
      osTickRemain := (osTickRemain + tick * PER_SECOND) % WORD;
      osTickRemain := osTickRemain % FREQ;
    }

    method TimerStart(timeout: Word)
      requires timeout > 0
      modifies this`reload
      ensures reload == if Programmed(timeout).None? then old(reload) else Programmed(timeout)
    {
      if timeout != FOREVER {
        var ticks := FromOs(timeout);
        if ticks > TICK_MAX {
          ticks := TICK_MAX;
        }
        reload := Some(ticks);
      }
    }
  }
}
