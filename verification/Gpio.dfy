/** Pin interrupts: sixteen lines share a few interrupt vectors, and a mask records
    which lines are enabled. */
module GpioIrq {
  import opened Bits
  import opened Wrappers

  type Line = k: int | 0 <= k < 16

  /** Which vectors the chip has, and which branch of the disable code is compiled. */
  datatype Family = F0G0 | L0 | Other

  const ENOSYS: int := 6
  const EBUSY: int := 7

  /** GPIO_PIN_k */
  function Bit(k: Line): nat {
    Pow2(k)
  }

  /** pin_irq_map: the vector that serves a line. */
  function Vector(f: Family, k: Line): nat {
    if f.Other? then (if k < 5 then k else if k < 10 then 5 else 6)
    else if k < 2 then 0 else if k < 4 then 1 else 2
  }

  /** Bit `k` of a word. */
  predicate Test(x: nat, k: nat)
    decreases k
  {
    if k == 0 then x % 2 == 1 else Test(x / 2, k - 1)
  }

  /** `x & ~y` */
  function AndNot(x: nat, y: nat): nat {
    if x == 0 then 0 else 2 * AndNot(x / 2, y / 2) + (if x % 2 == 1 && y % 2 == 0 then 1 else 0)
  }

  lemma {:induction false} TestZero(k: nat)
    ensures !Test(0, k)
    decreases k
  {
    if k > 0 {
      TestZero(k - 1);
    }
  }

  lemma {:induction false} TestOr(x: nat, y: nat, k: nat)
    ensures Test(BitOr(x, y), k) <==> Test(x, k) || Test(y, k)
    decreases k
  {
    hide BitOr;
    OrStep(x, y);
    if k > 0 {
      TestOr(x / 2, y / 2, k - 1);
    }
  }

  lemma AndNotStep(x: nat, y: nat)
    ensures AndNot(x, y) == 2 * AndNot(x / 2, y / 2) + (if x % 2 == 1 && y % 2 == 0 then 1 else 0)
  {
  }

  lemma {:induction false} TestAndNot(x: nat, y: nat, k: nat)
    ensures Test(AndNot(x, y), k) <==> Test(x, k) && !Test(y, k)
    decreases k
  {
    hide AndNot;
    AndNotStep(x, y);
    if k > 0 {
      TestAndNot(x / 2, y / 2, k - 1);
    }
  }

  lemma {:induction false} TestBit(j: nat, k: nat)
    ensures Test(Pow2(k), j) <==> j == k
    decreases j
  {
    if k > 0 {
      assert Pow2(k) == 2 * Pow2(k - 1);
      if j > 0 {
        TestBit(j - 1, k - 1);
      }
    } else if j > 0 {
      TestZero(j - 1);
    }
  }

  lemma {:induction false} TestAnd(x: nat, y: nat, k: nat)
    ensures Test(BitAnd(x, y), k) <==> Test(x, k) && Test(y, k)
    decreases k
  {
    hide BitAnd;
    AndStep(x, y);
    if k > 0 {
      TestAnd(x / 2, y / 2, k - 1);
    }
  }

  /** A word other than 0 has a bit. */
  lemma {:induction false} SomeBit(x: nat) returns (k: nat)
    requires x > 0
    ensures Test(x, k)
  {
    if x % 2 == 1 {
      k := 0;
    } else {
      k := SomeBit(x / 2);
      k := k + 1;
    }
  }

  // ----- the mask

  function WithLine(m: nat, k: Line): nat {
    BitOr(m, Bit(k))
  }

  function WithoutLine(m: nat, k: Line): nat {
    AndNot(m, Bit(k))
  }

  /** Setting and clearing a line's bit touches no other line. */
  lemma MaskBits(m: nat, k: Line)
    ensures forall j: nat :: Test(WithLine(m, k), j) <==> j == k || Test(m, j)
    ensures forall j: nat :: Test(WithoutLine(m, k), j) <==> j != k && Test(m, j)
  {
    hide Test, BitOr, AndNot, Pow2;
    forall j: nat
      ensures Test(WithLine(m, k), j) <==> j == k || Test(m, j)
      ensures Test(WithoutLine(m, k), j) <==> j != k && Test(m, j)
    {
      TestOr(m, Bit(k), j);
      TestAndNot(m, Bit(k), j);
      TestBit(j, k);
    }
  }

  /** The bits of lines `lo` to `hi`. */
  function Range(lo: Line, hi: Line): nat
    requires lo <= hi
    decreases hi - lo
  {
    if lo == hi then Bit(hi) else BitOr(Bit(lo), Range(lo + 1, hi))
  }

  predicate NoneOf(m: nat, lo: Line, hi: Line)
    requires lo <= hi
  {
    BitAnd(m, Range(lo, hi)) == 0
  }

  lemma {:induction false} TestRange(lo: Line, hi: Line, k: nat)
    requires lo <= hi
    ensures Test(Range(lo, hi), k) <==> lo <= k <= hi
    decreases hi - lo
  {
    hide Test, BitOr, Pow2;
    TestBit(k, lo);
    if lo < hi {
      TestOr(Bit(lo), Range(lo + 1, hi), k);
      TestRange(lo + 1, hi, k);
    }
  }

  /** The code's test of a group is the test of each of its lines. */
  lemma GroupTest(m: nat, lo: Line, hi: Line)
    requires lo <= hi
    ensures NoneOf(m, lo, hi) <==> forall k: Line :: lo <= k <= hi ==> !Test(m, k)
  {
    hide Test, Range, BitAnd;
    var r := Range(lo, hi);
    forall k: Line | lo <= k <= hi && Test(m, k) ensures BitAnd(m, r) != 0 {
      TestRange(lo, hi, k);
      TestAnd(m, r, k);
      TestZero(k);
    }
    if BitAnd(m, r) != 0 {
      var k := SomeBit(BitAnd(m, r));
      TestAnd(m, r, k);
      TestRange(lo, hi, k);
      assert Test(m, k);
    }
  }

  // ----- the state

  /** An entry of pin_irq_hdr_tab; pin -1 is a free line. */
  datatype Slot = Slot(pin: int, mode: nat, hdr: nat, args: nat)

  const FREE: Slot := Slot(-1, 0, 0, 0)

  /** `vectors`: the interrupts enabled in the NVIC. */
  datatype State = State(tab: seq<Slot>, mask: nat, vectors: set<nat>)

  const RESET: State := State(seq(16, _ => FREE), 0, {})

  predicate Shaped(s: State) {
    |s.tab| == 16
  }

  /** The pins of a chip and their lines; its table has fewer than 256 entries. */
  type Pins = p: seq<Option<Line>> | |p| < 256 witness []

  /** get_pin keeps the low eight bits of the pin number. */
  function LineOf(pins: Pins, pin: int): Option<Line> {
    if pin % 256 < |pins| then pins[pin % 256] else None
  }

  datatype Event =
    | Attach(pin: int, mode: nat, hdr: nat, args: nat)
    | Detach(pin: int)
    | Enable(pin: int)
    | Disable(pin: int)

  datatype Outcome = Outcome(r: int, s: State)

  /** stm32_pin_attach_irq */
  function Attached(pins: Pins, s: State, slot: Slot): Outcome
    requires Shaped(s)
  {
    match LineOf(pins, slot.pin)
    case None => Outcome(ENOSYS, s)
    case Some(k) =>
      if s.tab[k] == slot then Outcome(0, s)
      else if s.tab[k].pin != -1 then Outcome(EBUSY, s)
      else Outcome(0, s.(tab := s.tab[k := slot]))
  }

  /** stm32_pin_dettach_irq */
  function Detached(pins: Pins, s: State, pin: int): Outcome
    requires Shaped(s)
  {
    match LineOf(pins, pin)
    case None => Outcome(ENOSYS, s)
    case Some(k) =>
      if s.tab[k].pin == -1 then Outcome(0, s)
      else Outcome(0, s.(tab := s.tab[k := FREE]))
  }

  /** The enabling half of stm32_pin_irq_enable. */
  function Enabled(f: Family, pins: Pins, s: State, pin: int): Outcome
    requires Shaped(s)
  {
    match LineOf(pins, pin)
    case None => Outcome(ENOSYS, s)
    case Some(k) =>
      if s.tab[k].pin == -1 then Outcome(ENOSYS, s)
      else Outcome(0, s.(mask := WithLine(s.mask, k), vectors := s.vectors + {Vector(f, k)}))
  }

  /** Whether the disabling half switches the line's vector off, with the mask
      already cleared. */
  predicate SwitchesOff(f: Family, mask: nat, k: Line) {
    if f.F0G0? then
      if k <= 1 then NoneOf(mask, 0, 1) else if k <= 3 then NoneOf(mask, 2, 3) else NoneOf(mask, 4, 15)
    else
      if 5 <= k <= 9 then NoneOf(mask, 5, 9) else if 10 <= k then NoneOf(mask, 10, 15) else true
  }

  function Disabled(f: Family, pins: Pins, s: State, pin: int): Outcome
    requires Shaped(s)
  {
    match LineOf(pins, pin)
    case None => Outcome(ENOSYS, s)
    case Some(k) =>
      var mask := WithoutLine(s.mask, k);
      Outcome(0, s.(mask := mask, vectors := if SwitchesOff(f, mask, k) then s.vectors - {Vector(f, k)} else s.vectors))
  }

  function Step(f: Family, pins: Pins, s: State, e: Event): (o: Outcome)
    requires Shaped(s)
    ensures Shaped(o.s)
  {
    match e
    case Attach(pin, mode, hdr, args) => Attached(pins, s, Slot(pin, mode, hdr, args))
    case Detach(pin) => Detached(pins, s, pin)
    case Enable(pin) => Enabled(f, pins, s, pin)
    case Disable(pin) => Disabled(f, pins, s, pin)
  }

  function Run(f: Family, pins: Pins, s: State, es: seq<Event>): (s': State)
    requires Shaped(s)
    ensures Shaped(s')
    decreases |es|
  {
    if es == [] then s else Run(f, pins, Step(f, pins, s, es[0]).s, es[1..])
  }

  // ----- vectors and mask agree

  /** A vector is enabled exactly when one of its lines is in the mask. */
  ghost predicate Agree(f: Family, s: State) {
    forall v: nat :: v in s.vectors <==> exists k: Line :: Vector(f, k) == v && Test(s.mask, k)
  }

  /** Except on L0 the disable code tests the group the vector serves. */
  lemma SwitchesOffExactly(f: Family, mask: nat, k: Line)
    requires f != L0 && !Test(mask, k)
    ensures SwitchesOff(f, mask, k) <==> forall j: Line :: Vector(f, j) == Vector(f, k) ==> !Test(mask, j)
  {
    hide Test, NoneOf;
    GroupTest(mask, 0, 1);
    GroupTest(mask, 2, 3);
    GroupTest(mask, 4, 15);
    GroupTest(mask, 5, 9);
    GroupTest(mask, 10, 15);
  }

  lemma KeepsAgreeOn(f: Family, s: State, k: Line)
    requires f != L0 && Agree(f, s)
    ensures Agree(f, s.(mask := WithLine(s.mask, k), vectors := s.vectors + {Vector(f, k)}))
  {
    hide Test, WithLine, Vector;
    MaskBits(s.mask, k);
    var s' := s.(mask := WithLine(s.mask, k), vectors := s.vectors + {Vector(f, k)});
    forall v: nat ensures v in s'.vectors <==> exists j: Line :: Vector(f, j) == v && Test(s'.mask, j) {
      if v in s.vectors {
        var j: Line :| Vector(f, j) == v && Test(s.mask, j);
        assert Test(s'.mask, j);
      }
      assert Vector(f, k) == v ==> Test(s'.mask, k);
    }
  }

  lemma KeepsAgreeOff(f: Family, s: State, k: Line)
    requires f != L0 && Agree(f, s)
    ensures var mask := WithoutLine(s.mask, k);
            Agree(f, s.(mask := mask,
                  vectors := if SwitchesOff(f, mask, k) then s.vectors - {Vector(f, k)} else s.vectors))
  {
    hide Test, WithoutLine, Vector, SwitchesOff;
    var mask := WithoutLine(s.mask, k);
    MaskBits(s.mask, k);
    SwitchesOffExactly(f, mask, k);
    var vs := if SwitchesOff(f, mask, k) then s.vectors - {Vector(f, k)} else s.vectors;
    forall v: nat ensures v in vs <==> exists j: Line :: Vector(f, j) == v && Test(mask, j) {
      if v in s.vectors && v != Vector(f, k) {
        var j: Line :| Vector(f, j) == v && Test(s.mask, j);
        assert Test(mask, j);
      }
      if j: Line :| Vector(f, j) == v && Test(mask, j) {
        assert Test(s.mask, j);
      }
    }
  }

  lemma {:induction false} RunAgrees(f: Family, pins: Pins, s: State, es: seq<Event>)
    requires f != L0 && Shaped(s) && Agree(f, s)
    ensures Agree(f, Run(f, pins, s, es))
    decreases |es|
  {
    hide Agree, WithLine, WithoutLine, SwitchesOff, Vector;
    if es != [] {
      var s' := Step(f, pins, s, es[0]).s;
      match LineOf(pins, es[0].pin) {
        case Some(k) =>
          KeepsAgreeOn(f, s, k);
          KeepsAgreeOff(f, s, k);
        case None =>
      }
      if s'.mask == s.mask && s'.vectors == s.vectors {
        AgreeMask(f, s, s');
      }
      RunAgrees(f, pins, s', es[1..]);
    }
  }

  lemma AgreeMask(f: Family, s: State, s': State)
    requires Agree(f, s) && s'.mask == s.mask && s'.vectors == s.vectors
    ensures Agree(f, s')
  {
  }

  lemma ResetAgrees(f: Family)
    ensures Shaped(RESET) && Agree(f, RESET)
  {
    hide Vector;
    forall k: Line ensures !Test(0, k) {
      TestZero(k);
    }
  }

  /** Two lines of one vector, both enabled; the first is disabled again. */
  const SHARED: seq<Event> := [Attach(0, 0, 1, 0), Attach(1, 0, 1, 0), Enable(0), Enable(1), Disable(0)]

  lemma FiveSteps(f: Family, pins: Pins, s: State, e1: Event, e2: Event, e3: Event, e4: Event, e5: Event)
    requires Shaped(s)
    ensures Run(f, pins, s, [e1, e2, e3, e4, e5])
         == Step(f, pins, Step(f, pins, Step(f, pins, Step(f, pins, Step(f, pins, s, e1).s, e2).s, e3).s, e4).s, e5).s
  {
    hide Step;
    assert [e1, e2, e3, e4, e5][1..] == [e2, e3, e4, e5] && [e2, e3, e4, e5][1..] == [e3, e4, e5];
    assert [e3, e4, e5][1..] == [e4, e5] && [e4, e5][1..] == [e5] && [e5][1..] == [];
    var s1 := Step(f, pins, s, e1).s;
    var s2 := Step(f, pins, s1, e2).s;
    var s3 := Step(f, pins, s2, e3).s;
    var s4 := Step(f, pins, s3, e4).s;
    assert Run(f, pins, s4, [e5]) == Run(f, pins, Step(f, pins, s4, e5).s, []);
    assert Run(f, pins, s3, [e4, e5]) == Run(f, pins, s4, [e5]);
    assert Run(f, pins, s2, [e3, e4, e5]) == Run(f, pins, s3, [e4, e5]);
    assert Run(f, pins, s1, [e2, e3, e4, e5]) == Run(f, pins, s2, [e3, e4, e5]);
  }

  /** On L0 the disable code tests other groups than the chip has: disabling line 0
      switches off the vector that line 1 still needs. */
  lemma L0Breaks(pins: Pins)
    requires LineOf(pins, 0) == Some(0) && LineOf(pins, 1) == Some(1)
    ensures var s := Run(L0, pins, RESET, SHARED);
            Test(s.mask, 1) && Vector(L0, 1) !in s.vectors && !Agree(L0, s)
  {
    hide WithLine, WithoutLine, Test, Agree;
    FiveSteps(L0, pins, RESET, SHARED[0], SHARED[1], SHARED[2], SHARED[3], SHARED[4]);
    var m1 := WithLine(0, 0);
    var m2 := WithLine(m1, 1);
    MaskBits(m1, 1);
    MaskBits(m2, 0);
    var s1 := Attached(pins, RESET, Slot(0, 0, 1, 0)).s;
    assert s1 == RESET.(tab := RESET.tab[0 := Slot(0, 0, 1, 0)]);
    var s2 := Attached(pins, s1, Slot(1, 0, 1, 0)).s;
    assert s2.tab[0].pin == 0 && s2.tab[1].pin == 1;
    var s3 := Enabled(L0, pins, s2, 0).s;
    assert s3.mask == m1 && s3.vectors == {0};
    var s4 := Enabled(L0, pins, s3, 1).s;
    assert s4.mask == m2 && s4.vectors == {0};
    var s5 := Disabled(L0, pins, s4, 0).s;
    assert s5.mask == WithoutLine(m2, 0) && s5.vectors == {};
    NotAgree(s5, 1);
  }

  lemma NotAgree(s: State, k: Line)
    requires Test(s.mask, k) && Vector(L0, k) !in s.vectors
    ensures !Agree(L0, s)
  {
  }

  /** Vectors and mask agree after every run exactly on the families other than L0. */
  lemma AgreeFamilies(f: Family, pins: Pins)
    requires LineOf(pins, 0) == Some(0) && LineOf(pins, 1) == Some(1)
    ensures (forall es :: Agree(f, Run(f, pins, RESET, es))) <==> f != L0
  {
    hide Agree, Run;
    ResetAgrees(f);
    if f == L0 {
      L0Breaks(pins);
    } else {
      forall es ensures Agree(f, Run(f, pins, RESET, es)) {
        RunAgrees(f, pins, RESET, es);
      }
    }
  }

  // ----- a taken line stays taken

  /** The event detaches line `k`, through whichever pin. */
  predicate Detaches(pins: Pins, e: Event, k: Line) {
    e.Detach? && LineOf(pins, e.pin) == Some(k)
  }

  lemma StepKeepsSlot(f: Family, pins: Pins, s: State, e: Event, k: Line)
    requires Shaped(s) && s.tab[k].pin != -1 && !Detaches(pins, e, k)
    ensures Step(f, pins, s, e).s.tab[k] == s.tab[k]
    ensures e.Attach? && LineOf(pins, e.pin) == Some(k) ==>
              Step(f, pins, s, e).r == if s.tab[k] == Slot(e.pin, e.mode, e.hdr, e.args) then 0 else EBUSY
  {
    hide WithLine, WithoutLine, SwitchesOff;
  }

  /** Until its line is detached an attached pin keeps it, with the same handler,
      and every other attach on the line is refused. */
  lemma {:induction false} Exclusive(f: Family, pins: Pins, s: State, es: seq<Event>, k: Line)
    requires Shaped(s) && s.tab[k].pin != -1
    requires forall i :: 0 <= i < |es| ==> !Detaches(pins, es[i], k)
    ensures Run(f, pins, s, es).tab[k] == s.tab[k]
    decreases |es|
  {
    hide Step, Detaches;
    if es != [] {
      assert !Detaches(pins, es[0], k);
      StepKeepsSlot(f, pins, s, es[0], k);
      Exclusive(f, pins, Step(f, pins, s, es[0]).s, es[1..], k);
    }
  }

  // ----- what a line's history says

  predicate On(pins: Pins, e: Event, k: Line) {
    LineOf(pins, e.pin) == Some(k)
  }

  /** Who holds a line: the first attach on it since it was last detached. */
  function Holder(pins: Pins, es: seq<Event>, k: Line): Slot
    decreases |es|
  {
    if es == [] then FREE
    else
      var before, e := es[..|es| - 1], es[|es| - 1];
      if e.Detach? && On(pins, e, k) then FREE
      else if e.Attach? && On(pins, e, k) && Holder(pins, before, k).pin == -1 then Slot(e.pin, e.mode, e.hdr, e.args)
      else Holder(pins, before, k)
  }

  /** Whether a line's interrupt is on: enabled while somebody held the line, and not
      disabled since. Detaching does not disable it. */
  predicate Live(pins: Pins, es: seq<Event>, k: Line)
    decreases |es|
  {
    es != [] &&
    var before, e := es[..|es| - 1], es[|es| - 1];
    if e.Enable? && On(pins, e, k) && Holder(pins, before, k).pin != -1 then true
    else if e.Disable? && On(pins, e, k) then false
    else Live(pins, before, k)
  }

  /** What a call answers: an unknown pin or an enable without an attach is refused, an
      attach on a line that is held otherwise is busy, everything else succeeds. */
  function Answer(pins: Pins, es: seq<Event>, e: Event): int {
    match LineOf(pins, e.pin)
    case None => ENOSYS
    case Some(k) =>
      var h := Holder(pins, es, k);
      if e.Enable? && h.pin == -1 then ENOSYS
      else if e.Attach? && h.pin != -1 && h != Slot(e.pin, e.mode, e.hdr, e.args) then EBUSY
      else 0
  }

  lemma {:induction false} RunSnoc(f: Family, pins: Pins, s: State, es: seq<Event>, e: Event)
    requires Shaped(s)
    ensures Run(f, pins, s, es + [e]) == Step(f, pins, Run(f, pins, s, es), e).s
    decreases |es|
  {
    hide Step;
    if es == [] {
      assert [] + [e] == [e] && [e][1..] == [];
    } else {
      assert (es + [e])[0] == es[0] && (es + [e])[1..] == es[1..] + [e];
      RunSnoc(f, pins, Step(f, pins, s, es[0]).s, es[1..], e);
    }
  }

  /** What one call does to one line. */
  lemma StepOnLine(f: Family, pins: Pins, s: State, e: Event, k: Line)
    requires Shaped(s)
    ensures var s' := Step(f, pins, s, e).s;
            && s'.tab[k] == (if e.Detach? && On(pins, e, k) then (if s.tab[k].pin == -1 then s.tab[k] else FREE)
                             else if e.Attach? && On(pins, e, k)
                                   && s.tab[k].pin == -1 then Slot(e.pin, e.mode, e.hdr, e.args)
                             else s.tab[k])
            && (Test(s'.mask, k) <==> if e.Enable? && On(pins, e, k) && s.tab[k].pin != -1 then true
                                     else if e.Disable? && On(pins, e, k) then false else Test(s.mask, k))
  {
    hide Test, WithLine, WithoutLine, SwitchesOff, Vector, LineOf;
    if e.Enable? || e.Disable? {
      match LineOf(pins, e.pin) {
        case Some(j) => MaskBits(s.mask, j);
        case None =>
      }
    }
  }

  /** After any run every line is held by whom its history says and is on exactly if
      its history says so, and every further call is answered accordingly. */
  lemma {:induction false} History(f: Family, pins: Pins, es: seq<Event>, k: Line)
    requires forall e :: e in es ==> e.pin != -1
    ensures var s := Run(f, pins, RESET, es);
            s.tab[k] == Holder(pins, es, k) && (Test(s.mask, k) <==> Live(pins, es, k))
    decreases |es|
  {
    hide Step, Test, LineOf;
    if es == [] {
      OffAtReset(k);
    } else {
      var before, e := es[..|es| - 1], es[|es| - 1];
      assert es == before + [e];
      RunSnoc(f, pins, RESET, before, e);
      History(f, pins, before, k);
      HeldOrFree(pins, before, k);
      StepOnLine(f, pins, Run(f, pins, RESET, before), e, k);
    }
  }

  lemma OffAtReset(k: Line)
    ensures !Test(RESET.mask, k) && RESET.tab[k] == FREE
  {
    TestZero(k);
  }

  lemma {:induction false} HeldOrFree(pins: Pins, es: seq<Event>, k: Line)
    requires forall e :: e in es ==> e.pin != -1
    ensures Holder(pins, es, k).pin == -1 ==> Holder(pins, es, k) == FREE
    decreases |es|
  {
    hide LineOf;
    if es != [] {
      HeldOrFree(pins, es[..|es| - 1], k);
    }
  }

  lemma Answers(f: Family, pins: Pins, es: seq<Event>, e: Event)
    requires e.pin != -1 && forall d :: d in es ==> d.pin != -1
    ensures Step(f, pins, Run(f, pins, RESET, es), e).r == Answer(pins, es, e)
  {
    hide Run, Holder, WithLine, WithoutLine, SwitchesOff;
    match LineOf(pins, e.pin)
    case Some(k) =>
      History(f, pins, es, k);
      HeldOrFree(pins, es, k);
    case None =>
  }

  // ----- the code

  lemma {:induction false} BitOrder(j: nat, k: nat)
    ensures Pow2(j) <= Pow2(k) <==> j <= k
    ensures Pow2(j) == Pow2(k) <==> j == k
    decreases j + k
  {
    if j > 0 && k > 0 {
      BitOrder(j - 1, k - 1);
    }
  }

  /** bit2bitno */
  method Bit2BitNo(bit: nat) returns (r: int)
    ensures 0 <= r < 32 ==> Pow2(r) == bit
    ensures r == -1 <==> forall k :: 0 <= k < 32 ==> Pow2(k) != bit
    ensures -1 <= r < 32
  {
    var i, one := 0, 1;
    while i < 32
      invariant 0 <= i <= 32 && one == Pow2(i)
      invariant forall k :: 0 <= k < i ==> Pow2(k) != bit
    {
      if one == bit {
        return i;
      }
      i, one := i + 1, 2 * one;
    }
    r := -1;
  }

  /** bit2bitno of a pin's bit is the pin's line. */
  method BitNumber(k: Line) returns (r: Line)
    ensures r == k
  {
    hide Pow2;
    var i := Bit2BitNo(Bit(k));
    assert Pow2(k) == Bit(k);
    assert i >= 0;
    BitOrder(i, k);
    r := i;
  }

  class Gpio {
    const family: Family
    const pins: Pins
    const tab: array<Slot>
    var mask: nat
    var vectors: set<nat>

    constructor (family: Family, pins: Pins)
      ensures this.family == family && this.pins == pins && Valid() && View() == RESET
    {
      this.family, this.pins := family, pins;
      tab := new Slot[16](_ => FREE);
      mask, vectors := 0, {};
      new;
      assert tab[..] == RESET.tab;
    }

    predicate Valid()
    {
      tab.Length == 16
    }

    ghost function View(): (s: State)
      requires Valid()
      reads this, tab
      ensures Shaped(s)
    {
      State(tab[..], mask, vectors)
    }

    method AttachIrq(pin: int, mode: nat, hdr: nat, args: nat) returns (r: int)
      requires Valid()
      modifies tab
      ensures Outcome(r, View()) == Step(family, pins, old(View()), Attach(pin, mode, hdr, args))
    {
      var line := LineOf(pins, pin);
      if line.None? {
        return ENOSYS;
      }
      var irqindex := BitNumber(line.value);
      if tab[irqindex].pin == pin && tab[irqindex].hdr == hdr && tab[irqindex].mode == mode
            && tab[irqindex].args == args {
        return 0;
      }
      if tab[irqindex].pin != -1 {
        return EBUSY;
      }
      tab[irqindex] := Slot(pin, mode, hdr, args);
      r := 0;
    }

    method DetachIrq(pin: int) returns (r: int)
      requires Valid()
      modifies tab
      ensures Outcome(r, View()) == Step(family, pins, old(View()), Detach(pin))
    {
      var line := LineOf(pins, pin);
      if line.None? {
        return ENOSYS;
      }
      var irqindex := BitNumber(line.value);
      if tab[irqindex].pin == -1 {
        return 0;
      }
      tab[irqindex] := FREE;
      r := 0;
    }

    /** stm32_pin_irq_enable with PIN_IRQ_ENABLE (1), PIN_IRQ_DISABLE (0) or neither. */
    method IrqEnable(pin: int, enabled: nat) returns (r: int)
      requires Valid()
      modifies this`mask, this`vectors
      ensures enabled == 1 ==> Outcome(r, View()) == Step(family, pins, old(View()), Enable(pin))
      ensures enabled == 0 ==> Outcome(r, View()) == Step(family, pins, old(View()), Disable(pin))
      ensures enabled > 1 ==> View() == old(View()) && r == if LineOf(pins, pin).None? then ENOSYS else -ENOSYS
    {
      hide SwitchesOff, BitOr, AndNot;
      var line := LineOf(pins, pin);
      if line.None? {
        return ENOSYS;
      }
      if enabled == 1 {
        var irqindex := BitNumber(line.value);
        if tab[irqindex].pin == -1 {
          return ENOSYS;
        }
        vectors := vectors + {Vector(family, irqindex)};
        mask := BitOr(mask, Bit(irqindex));
      } else if enabled == 0 {
        var irqindex := BitNumber(line.value);
        mask := AndNot(mask, Bit(irqindex));
        var off := GroupIdle(family, mask, irqindex);
        if off {
          vectors := vectors - {Vector(family, irqindex)};
        }
      } else {
        return -ENOSYS;
      }
      r := 0;
    }
  }

  /** The tests of the disabling half, by the value of the line's bit. */
  method GroupIdle(family: Family, mask: nat, k: Line) returns (off: bool)
    ensures off == SwitchesOff(family, mask, k)
  {
    hide Range, BitAnd, Pow2;
    var bit := Bit(k);
    Between(k, 0, 1);
    Between(k, 2, 3);
    Between(k, 4, 15);
    Between(k, 5, 9);
    Between(k, 10, 15);
    if family.F0G0? {
      if bit >= Bit(0) && bit <= Bit(1) {
        off := BitAnd(mask, Range(0, 1)) == 0;
      } else if bit >= Bit(2) && bit <= Bit(3) {
        off := BitAnd(mask, Range(2, 3)) == 0;
      } else if bit >= Bit(4) && bit <= Bit(15) {
        off := BitAnd(mask, Range(4, 15)) == 0;
      } else {
        off := true;
      }
    } else {
      if bit >= Bit(5) && bit <= Bit(9) {
        off := BitAnd(mask, Range(5, 9)) == 0;
      } else if bit >= Bit(10) && bit <= Bit(15) {
        off := BitAnd(mask, Range(10, 15)) == 0;
      } else {
        off := true;
      }
    }
  }

  lemma Between(k: Line, lo: Line, hi: Line)
    ensures Bit(lo) <= Bit(k) && Bit(k) <= Bit(hi) <==> lo <= k <= hi
  {
    BitOrder(lo, k);
    BitOrder(k, hi);
  }
}
