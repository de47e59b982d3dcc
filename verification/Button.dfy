/** The button driver: debouncing, clicks, double clicks and long presses, as one
    call per level sample, and what holds over any run of samples. */
module ButtonDriver {
  import opened Wrappers

  /** What Read_Button_Level can return. */
  type Byte = x: int | 0 <= x < 256

  /** What it returns for a pin. */
  type Level = x: int | 0 <= x <= 1

  /** What a 2-bit field keeps of a byte. */
  type TwoBits = x: int | 0 <= x < 4

  datatype Phase = Free | Down | Up | Double

  /** Callbacks, and the last trigger event. */
  datatype Event = Click | DoubleClick | Long | LongFree

  const DEBOUNCE_TIME: nat := 2
  const LONG_CYCLE: nat := 25
  const DOUBLE_TIME: nat := 15
  const LONG_TIME: nat := 100

  /** struct button. `lastState` is the event the last release left for the
      double-click test; `log` collects the callbacks in order. */
  datatype State = State(phase: Phase, lastState: Option<Event>, trigger: TwoBits, level: TwoBits, event: Option<Event>,
                         cycle: nat, timer: nat, debounce: nat, longTime: nat, longFlag: bool, log: seq<Event>)

  /** Button_Create. */
  function Created(trigger: Byte): State {
    State(Free, None, trigger % 4, 1, None, 0, 0, 0, 0, false, [])
  }

  /** The debounced level: every second differing sample is accepted. */
  function Accept(b: State, x: Byte): State {
    if x == b.level then b
    else if b.debounce + 1 < DEBOUNCE_TIME then b.(debounce := b.debounce + 1)
    else
      b.(level := x % 4, debounce := 0,
         phase := match b.phase
                  case Free => Down
                  case Double => Down
                  case Down => Up
                  case Up => Up)
  }

  function Fire(b: State, e: Event): State {
    b.(log := b.log + [e])
  }

  /** One more call with the button held. */
  function Held(b: State): State {
    var l := b.longTime + 1;
    var l' := if l == 0xFF then LONG_TIME else l;
    if l < LONG_TIME then b.(event := Some(Click), longTime := l)
    else if b.cycle + 1 < LONG_CYCLE then b.(event := Some(Click), longTime := l', cycle := b.cycle + 1)
    else Fire(b.(event := Some(Long), longTime := l', cycle := 0, longFlag := true), Long)
  }

  /** The call that sees the release. */
  function Released(b: State): State {
    if b.longFlag then
      Fire(b.(longFlag := false, longTime := 0, phase := Free, lastState := Some(Long)), LongFree)
    else if b.event != Some(Click) then b
    else if b.timer <= DOUBLE_TIME && b.lastState == Some(DoubleClick) then
      Fire(b.(event := Some(DoubleClick), phase := Free, lastState := None), DoubleClick)
    else
      Fire(b.(timer := 0, longTime := 0, phase := Double, lastState := Some(DoubleClick)), Click)
  }

  function Waiting(b: State): State {
    if b.timer + 1 >= DOUBLE_TIME then b.(timer := b.timer + 1, phase := Free, lastState := None)
    else b.(timer := b.timer + 1)
  }

  function React(b: State): State {
    match b.phase
    case Down => if b.level == b.trigger then Held(b) else b
    case Up => Released(b)
    case Double => Waiting(b)
    case Free => b
  }

  /** Button_Cycle_Process. */
  function Step(b: State, x: Byte): State {
    React(Accept(b, x))
  }

  function After(b: State, xs: seq<Byte>): State
    decreases |xs|
  {
    if xs == [] then b else After(Step(b, xs[0]), xs[1..])
  }

  // ----- trigger level 0

  /** Which callback may directly follow which. */
  predicate Follows(before: Option<Event>, e: Event) {
    match before
    case Some(Long) => e == Long || e == LongFree
    case Some(Click) => e != LongFree
    case _ => e == Click || e == Long
  }

  function LastOf(log: seq<Event>): Option<Event> {
    if log == [] then None else Some(log[|log| - 1])
  }

  /** The log is made of clicks, clicks with a double click behind them, and long
      presses: one or more LONG with a LONG-FREE behind them. */
  predicate Sound(log: seq<Event>) {
    forall i :: 0 <= i < |log| ==> Follows(LastOf(log[..i]), log[i])
  }

  lemma SoundMore(log: seq<Event>, e: Event)
    requires Sound(log) && Follows(LastOf(log), e)
    ensures Sound(log + [e])
  {
    var log' := log + [e];
    forall i | 0 <= i < |log'| ensures Follows(LastOf(log'[..i]), log'[i]) {
      assert log'[..i] == log[..i];
      assert log[..|log|] == log;
    }
  }

  lemma LastMore(log: seq<Event>, e: Event)
    ensures LastOf(log + [e]) == Some(e)
  {
  }

  /** The counters stay in range: no 8-bit field ever wraps. */
  predicate InRange(b: State) {
    b.debounce < DEBOUNCE_TIME && b.cycle < LONG_CYCLE && b.longTime < 0xFF && b.timer <= DOUBLE_TIME
  }

  /** The phase after a call follows from the accepted level. */
  predicate Settled(b: State) {
    && b.trigger == 0 && b.level <= 1 && b.phase != Up && (b.phase == Down <==> b.level == 0)
    && (b.phase == Double ==> b.timer < DOUBLE_TIME && b.lastState == Some(DoubleClick))
    && (b.phase == Down ==> b.event == Some(Click) || b.longFlag)
    && (b.longFlag ==> b.phase == Down && b.longTime >= LONG_TIME)
  }

  /** What the last callback was. */
  predicate Logged(b: State) {
    var last := LastOf(b.log);
    && (b.longFlag <==> last == Some(Long))
    && (b.lastState == Some(DoubleClick) && !b.longFlag ==> last == Some(Click))
    && (b.phase != Down && last != Some(DoubleClick) ==> b.longTime == 0)
  }

  /** What holds after every call when the trigger level is 0. */
  predicate Good(b: State) {
    InRange(b) && Settled(b) && Logged(b) && Sound(b.log)
  }

  lemma KeepsRange(b: State, x: Level)
    requires InRange(b) && Settled(b)
    ensures InRange(Step(b, x)) && Settled(Step(b, x))
  {
  }

  predicate Extended(log: seq<Event>, log': seq<Event>) {
    var last := LastOf(log');
    last.Some? && log' == log + [last.value] && Follows(LastOf(log), last.value)
  }

  /** A call runs at most one callback, and that one may follow the last. */
  lemma KeepsLog(b: State, x: Level)
    requires InRange(b) && Settled(b) && Logged(b)
    ensures var b' := Step(b, x);
            && Logged(b')
            && (b'.log == b.log || Extended(b.log, b'.log))
  {
    hide LastOf;
    LastMore(b.log, Click);
    LastMore(b.log, DoubleClick);
    LastMore(b.log, Long);
    LastMore(b.log, LongFree);
  }

  lemma KeepsGood(b: State, x: Level)
    requires Good(b)
    ensures Good(Step(b, x))
  {
    hide Step, Settled, Logged, InRange, Sound, Follows;
    KeepsRange(b, x);
    KeepsLog(b, x);
    var b' := Step(b, x);
    if b'.log != b.log {
      SoundMore(b.log, LastOf(b'.log).value);
    }
  }

  lemma {:induction false} RunGood(b: State, xs: seq<Level>)
    requires Good(b)
    ensures Good(After(b, xs))
    decreases |xs|
  {
    hide Good, Step;
    if xs != [] {
      KeepsGood(b, xs[0]);
      RunGood(Step(b, xs[0]), xs[1..]);
    }
  }

  lemma CreatedGood()
    ensures Good(Created(0))
  {
  }

  function Ends(log: seq<Event>): nat {
    if log == [] then 0 else Ends(log[..|log| - 1]) + if log[|log| - 1] == Long then 0 else 1
  }

  /** Accepted releases: changes of the debounced level to 1. */
  function Releases(b: State, xs: seq<Level>): nat
    decreases |xs|
  {
    if xs == [] then 0
    else (if b.level == 0 && Step(b, xs[0]).level == 1 then 1 else 0) + Releases(Step(b, xs[0]), xs[1..])
  }

  lemma EndsMore(log: seq<Event>, e: Event)
    ensures Ends(log + [e]) == Ends(log) + if e == Long then 0 else 1
  {
    assert (log + [e])[..|log|] == log;
  }

  lemma StepEnds(b: State, x: Level)
    requires InRange(b) && Settled(b)
    ensures Ends(Step(b, x).log) == Ends(b.log) + if b.level == 0 && Step(b, x).level == 1 then 1 else 0
  {
    hide Ends;
    EndsMore(b.log, Click);
    EndsMore(b.log, DoubleClick);
    EndsMore(b.log, Long);
    EndsMore(b.log, LongFree);
  }

  lemma {:induction false} RunEnds(b: State, xs: seq<Level>)
    requires Good(b)
    ensures Ends(After(b, xs).log) == Ends(b.log) + Releases(b, xs)
    decreases |xs|
  {
    hide Step, Ends, Sound, Logged, LastOf;
    if xs != [] {
      StepEnds(b, xs[0]);
      KeepsGood(b, xs[0]);
      RunEnds(Step(b, xs[0]), xs[1..]);
    }
  }

  /** After any run from Button_Create with a trigger level kept as 0: never UP, DOWN exactly
      while the accepted level is the trigger level, a well-formed log, and every
      accepted release answered by exactly one of click, double click, long-free. */
  lemma EveryRun(trigger: Byte, xs: seq<Level>)
    requires trigger % 4 == 0
    ensures var b := After(Created(trigger), xs);
            && b.phase != Up && (b.phase == Down <==> b.level == b.trigger)
            && Sound(b.log) && Ends(b.log) == Releases(Created(trigger), xs)
            && b.longTime < 0xFF && b.cycle < LONG_CYCLE && b.timer <= DOUBLE_TIME
  {
    hide Sound;
    CreatedGood();
    RunGood(Created(0), xs);
    RunEnds(Created(0), xs);
  }

  /** In a well-formed log a long-free closes a press with a LONG callback, a LONG
      is followed by nothing else than LONG or long-free, and a double click
      directly follows a click. */
  lemma LogShape(log: seq<Event>, i: nat)
    requires Sound(log) && i < |log|
    ensures log[i] == LongFree ==> i > 0 && log[i - 1] == Long
    ensures log[i] == DoubleClick ==> i > 0 && log[i - 1] == Click
    ensures log[i] == Long && i + 1 < |log| ==> log[i + 1] == Long || log[i + 1] == LongFree
  {
    assert Follows(LastOf(log[..i]), log[i]);
    if i + 1 < |log| {
      assert Follows(LastOf(log[..i + 1]), log[i + 1]);
    }
  }

  // ----- other trigger levels

  /** The button was created for a level that the accepted level cannot take while
      it is pressed. */
  predicate Dead(b: State) {
    && b.trigger != 0 && b.log == [] && b.event == None && !b.longFlag && b.phase != Double
    && (b.phase == Free ==> b.level == 1) && (b.phase == Down ==> b.level == 0)
  }

  lemma {:induction false} RunDead(b: State, xs: seq<Level>)
    requires Dead(b)
    ensures Dead(After(b, xs))
    decreases |xs|
  {
    if xs != [] {
      RunDead(Step(b, xs[0]), xs[1..]);
    }
  }

  /** Some run of pin levels makes a callback happen exactly when the two bits kept
      of the trigger level are 0: Button_Create starts from level 1 in any case. */
  lemma DeadButton(trigger: Byte)
    ensures (exists xs: seq<Level> :: After(Created(trigger), xs).log != []) <==> trigger % 4 == 0
  {
    if trigger % 4 == 0 {
      var xs: seq<Level> := [0, 0, 1, 1];
      assert xs[1..] == [0, 1, 1] && xs[1..][1..] == [1, 1] && xs[1..][1..][1..] == [1] && xs[1..][1..][1..][1..] == [];
      assert After(Created(trigger), xs).log == [Click];
    } else {
      forall xs: seq<Level> ensures After(Created(trigger), xs).log == [] {
        RunDead(Created(trigger), xs);
      }
    }
  }

  // ----- debouncing

  function Differing(xs: seq<Level>, level: TwoBits): nat {
    if xs == [] then 0 else (if xs[0] == level then 0 else 1) + Differing(xs[1..], level)
  }

  lemma LevelStep(b: State, x: Level)
    ensures Step(b, x).level == Accept(b, x).level && Step(b, x).debounce == Accept(b, x).debounce
  {
  }

  /** The level changes with the second sample that differs from it since the last
      change, wherever the first one was. */
  lemma {:induction false} Debounced(b: State, xs: seq<Level>)
    requires b.debounce + Differing(xs, b.level) < DEBOUNCE_TIME
    ensures After(b, xs).level == b.level && After(b, xs).debounce == b.debounce + Differing(xs, b.level)
    ensures forall x: Level :: (Step(After(b, xs), x).level != b.level) <==>
                        x != b.level && b.debounce + Differing(xs, b.level) == DEBOUNCE_TIME - 1
    decreases |xs|
  {
    hide Step;
    if xs != [] {
      LevelStep(b, xs[0]);
      Debounced(Step(b, xs[0]), xs[1..]);
    } else {
      forall x: Level ensures (Step(b, x).level != b.level) <==> x != b.level && b.debounce == DEBOUNCE_TIME - 1 {
        LevelStep(b, x);
      }
    }
  }

  // ----- holding

  /** `n` samples of level `x`. */
  function Constant(x: Byte, n: nat): (xs: seq<Byte>)
    ensures |xs| == n && forall i :: 0 <= i < n ==> xs[i] == x
  {
    if n == 0 then [] else [x] + Constant(x, n - 1)
  }

  function Longs(log: seq<Event>): nat {
    if log == [] then 0 else Longs(log[..|log| - 1]) + if log[|log| - 1] == Long then 1 else 0
  }

  lemma LongsMore(log: seq<Event>, e: Event)
    ensures Longs(log + [e]) == Longs(log) + if e == Long then 1 else 0
  {
    assert (log + [e])[..|log|] == log;
  }

  /** How many of `n` held calls count into the long-press cycle, from Long_Time `l`. */
  function Counted(l: nat, n: nat): nat {
    if l >= LONG_TIME - 1 then n else if l + n < LONG_TIME then 0 else l + n - (LONG_TIME - 1)
  }

  lemma HeldStep(b: State)
    requires InRange(b) && b.phase == Down && b.level == b.trigger
    ensures var b' := Step(b, b.level);
            && InRange(b') && b'.phase == Down && b'.level == b.level && b'.trigger == b.trigger
            && Longs(b'.log) == Longs(b.log) + (b.cycle + Counted(b.longTime, 1)) / LONG_CYCLE
            && b'.cycle == (b.cycle + Counted(b.longTime, 1)) % LONG_CYCLE
            && (forall n: nat :: Counted(b.longTime, n + 1) == Counted(b.longTime, 1) + Counted(b'.longTime, n))
  {
    hide Longs, Counted;
    LongsMore(b.log, Long);
    CountedNext(b.longTime);
    OneMore(b.cycle);
  }

  /** Counting goes on alike after the 8-bit reset. */
  lemma CountedNext(l: nat)
    requires l < 0xFF
    ensures Counted(l, 1) == if l + 1 < LONG_TIME then 0 else 1
    ensures var l' := if l + 1 == 0xFF then LONG_TIME else l + 1;
            forall n: nat :: Counted(l, n + 1) == Counted(l, 1) + Counted(l', n)
  {
  }

  lemma OneMore(c: nat)
    requires c < LONG_CYCLE
    ensures c / LONG_CYCLE == 0 && c % LONG_CYCLE == c
    ensures (c + 1) / LONG_CYCLE == (if c + 1 < LONG_CYCLE then 0 else 1)
    ensures (c + 1) % LONG_CYCLE == (if c + 1 < LONG_CYCLE then c + 1 else 0)
  {
  }

  lemma DivideOn(c: nat, a: nat, r: nat)
    ensures (c + a) / LONG_CYCLE + ((c + a) % LONG_CYCLE + r) / LONG_CYCLE == (c + a + r) / LONG_CYCLE
    ensures ((c + a) % LONG_CYCLE + r) % LONG_CYCLE == (c + a + r) % LONG_CYCLE
  {
  }

  /** The closed form: holding the button for `n` more calls runs the LONG callback
      (c + k) / 25 times, k of the calls lying beyond the long-press time, however
      often the 8-bit Long_Time is set back. */
  lemma {:induction false} Holding(b: State, n: nat)
    requires InRange(b) && b.phase == Down && b.level == b.trigger
    ensures var b' := After(b, Constant(b.level, n));
            && Longs(b'.log) == Longs(b.log) + (b.cycle + Counted(b.longTime, n)) / LONG_CYCLE
            && b'.cycle == (b.cycle + Counted(b.longTime, n)) % LONG_CYCLE
    decreases n
  {
    hide Step, Longs;
    if n > 0 {
      var b1 := Step(b, b.level);
      HeldStep(b);
      assert Constant(b.level, n)[1..] == Constant(b.level, n - 1);
      Holding(b1, n - 1);
      DivideOn(b.cycle, Counted(b.longTime, 1), Counted(b1.longTime, n - 1));
      assert Counted(b.longTime, n) == Counted(b.longTime, (n - 1) + 1);
    }
  }

  /** The debounced level shows a held button after every one of the samples. */
  predicate StaysDown(b: State, xs: seq<Level>)
    decreases |xs|
  {
    xs == [] || (Step(b, xs[0]).phase == Down && StaysDown(Step(b, xs[0]), xs[1..]))
  }

  lemma FlagStep(b: State, x: Level)
    requires Good(b) && Step(b, x).phase == Down
    ensures var b' := Step(b, x);
            && Longs(b'.log) >= Longs(b.log)
            && (b'.longFlag <==> b.longFlag || Longs(b'.log) > Longs(b.log))
  {
    hide Sound, LastOf, Longs;
    LongsMore(b.log, Long);
  }

  lemma {:induction false} FlagRun(b: State, xs: seq<Level>)
    requires Good(b) && StaysDown(b, xs)
    ensures var b' := After(b, xs);
            && Good(b') && Longs(b'.log) >= Longs(b.log)
            && (b'.longFlag <==> b.longFlag || Longs(b'.log) > Longs(b.log))
    decreases |xs|
  {
    hide Step, Good, Longs;
    if xs != [] {
      FlagStep(b, xs[0]);
      KeepsGood(b, xs[0]);
      FlagRun(Step(b, xs[0]), xs[1..]);
    }
  }

  /** A press, from the sample that is accepted as one to the sample accepted as
      its release, ends in long-free if and only if a LONG callback ran during it. */
  lemma PressEnd(b: State, xs: seq<Level>, x: Level)
    requires Good(b) && b.phase != Down && xs != [] && StaysDown(b, xs)
    requires Step(After(b, xs), x).phase != Down
    ensures var pressed := After(b, xs);
            LastOf(Step(pressed, x).log) == Some(LongFree) <==> Longs(pressed.log) > Longs(b.log)
  {
    FlagRun(b, xs);
    StillDown(b, xs);
    EndsPress(After(b, xs), x);
  }

  lemma {:induction false} StillDown(b: State, xs: seq<Level>)
    requires StaysDown(b, xs) && xs != []
    ensures After(b, xs).phase == Down
    decreases |xs|
  {
    hide Step;
    if |xs| > 1 {
      StillDown(Step(b, xs[0]), xs[1..]);
    }
  }

  lemma EndsPress(b: State, x: Level)
    requires Good(b) && b.phase == Down && Step(b, x).phase != Down
    ensures LastOf(Step(b, x).log) == Some(LongFree) <==> b.longFlag
  {
    hide Sound, LastOf;
    LastMore(b.log, Click);
    LastMore(b.log, DoubleClick);
    LastMore(b.log, LongFree);
  }

  /** A release leaves Long_Time at 0 except when it makes a double click: the next
      press then starts with the time the last one was held. */
  lemma LeftOver(b: State, x: Level)
    requires Good(b) && b.phase == Down && Step(b, x).phase != Down
    ensures var b' := Step(b, x);
            && (LastOf(b'.log) == Some(DoubleClick) <==> b.lastState == Some(DoubleClick) && !b.longFlag)
            && b'.longTime == if LastOf(b'.log) == Some(DoubleClick) then b.longTime else 0
  {
    hide Sound, LastOf;
    LastMore(b.log, Click);
    LastMore(b.log, DoubleClick);
    LastMore(b.log, LongFree);
  }

  /** After a click the double-click window stays open for 14 calls and closes at
      the 15th, unless a press is accepted. */
  lemma {:induction false} Window(b: State, xs: seq<Level>)
    requires Good(b) && b.phase == Double && b.debounce + Differing(xs, b.level) < DEBOUNCE_TIME
    ensures var b' := After(b, xs);
            && b'.phase == (if b.timer + |xs| < DOUBLE_TIME then Double else Free)
            && (b'.lastState == Some(DoubleClick) <==> b'.phase == Double) && b'.log == b.log
    decreases |xs|
  {
    hide Sound, LastOf;
    if xs != [] {
      KeepsGood(b, xs[0]);
      var b1 := Step(b, xs[0]);
      assert b1.level == b.level && b1.log == b.log;
      if b1.phase == Double {
        Window(b1, xs[1..]);
      } else {
        Quiet(b1, xs[1..]);
      }
    }
  }

  lemma {:induction false} Quiet(b: State, xs: seq<Level>)
    requires b.phase == Free && b.debounce + Differing(xs, b.level) < DEBOUNCE_TIME
    ensures After(b, xs) == b.(debounce := b.debounce + Differing(xs, b.level))
    decreases |xs|
  {
    if xs != [] {
      Quiet(Step(b, xs[0]), xs[1..]);
    }
  }

  // ----- single and double clicks

  /** No double click is awaited outside the window and a press. */
  predicate Shut(b: State) {
    b.phase == Free ==> b.lastState != Some(DoubleClick)
  }

  lemma KeepsShut(b: State, x: Level)
    requires InRange(b) && Settled(b) && Shut(b)
    ensures Shut(Step(b, x))
  {
  }

  lemma {:induction false} RunShut(b: State, xs: seq<Level>)
    requires Good(b) && Shut(b)
    ensures Good(After(b, xs)) && Shut(After(b, xs))
    decreases |xs|
  {
    hide Step, Shut, Sound, Logged;
    if xs != [] {
      KeepsShut(b, xs[0]);
      KeepsGood(b, xs[0]);
      RunShut(Step(b, xs[0]), xs[1..]);
    }
  }

  lemma DownStep(b: State, x: Level)
    requires Good(b) && Step(b, x).phase == Down
    ensures var b' := Step(b, x);
            && b'.lastState == b.lastState && (b'.log == b.log || b'.log == b.log + [Long])
  {
    hide Sound, LastOf;
  }

  lemma {:induction false} DownRun(b: State, xs: seq<Level>)
    requires Good(b) && StaysDown(b, xs)
    ensures var b' := After(b, xs);
            b'.lastState == b.lastState && (Longs(b'.log) == Longs(b.log) ==> b'.log == b.log)
    decreases |xs|
  {
    hide Step, Good, Longs;
    if xs != [] {
      DownStep(b, xs[0]);
      LongsMore(b.log, Long);
      KeepsGood(b, xs[0]);
      DownRun(Step(b, xs[0]), xs[1..]);
      FlagRun(Step(b, xs[0]), xs[1..]);
    }
  }

  lemma ReleaseStep(b: State, x: Level)
    requires Good(b) && b.phase == Down && !b.longFlag && Step(b, x).phase != Down
    ensures var b' := Step(b, x);
            && b'.debounce == 0 && b'.level == 1
            && (b.lastState == Some(DoubleClick) ==> b'.log == b.log + [DoubleClick] && b'.phase == Free)
            && (b.lastState != Some(DoubleClick) ==> b'.log == b.log + [Click] && b'.phase == Double && b'.timer == 0)
  {
    hide Sound, LastOf;
  }

  /** A press without a LONG callback ends in a double click if it began while a
      window was open, and otherwise in a click, which opens one. */
  lemma ShortPress(b: State, xs: seq<Level>, x: Level)
    requires Good(b) && Shut(b) && b.phase != Down && xs != [] && StaysDown(b, xs)
    requires Step(After(b, xs), x).phase != Down && Longs(After(b, xs).log) == Longs(b.log)
    ensures var b' := Step(After(b, xs), x);
            && Good(b') && Shut(b') && b'.debounce == 0 && b'.level == 1
            && (b.phase == Double ==> b'.log == b.log + [DoubleClick] && b'.phase == Free)
            && (b.phase == Free ==> b'.log == b.log + [Click] && b'.phase == Double && b'.timer == 0)
  {
    hide Step, Sound, Longs, LastOf;
    NoFlag(b);
    FlagRun(b, xs);
    DownRun(b, xs);
    StillDown(b, xs);
    ReleaseStep(After(b, xs), x);
    KeepsGood(After(b, xs), x);
    KeepsShut(After(b, xs), x);
  }

  lemma NoFlag(b: State)
    requires Good(b) && b.phase != Down
    ensures !b.longFlag
  {
    hide Sound, LastOf;
  }

  /** Two presses without LONG callbacks: with fewer than 15 calls between the release
      and the call that accepts the second press they are a click and a double click,
      otherwise two clicks. */
  lemma TwoPresses(b: State, xs: seq<Level>, x: Level, gap: seq<Level>, ys: seq<Level>, y: Level)
    requires Good(b) && Shut(b) && b.phase == Free && xs != [] && StaysDown(b, xs)
    requires Step(After(b, xs), x).phase != Down && Longs(After(b, xs).log) == Longs(b.log)
    requires Differing(gap, 1) < DEBOUNCE_TIME
    requires var b2 := After(Step(After(b, xs), x), gap);
             && ys != [] && StaysDown(b2, ys) && Step(After(b2, ys), y).phase != Down
             && Longs(After(b2, ys).log) == Longs(b2.log)
    ensures Step(After(After(Step(After(b, xs), x), gap), ys), y).log
         == b.log + [Click, if |gap| < DOUBLE_TIME then DoubleClick else Click]
  {
    hide Step, Good, Shut, Longs;
    ShortPress(b, xs, x);
    var b1 := Step(After(b, xs), x);
    Window(b1, gap);
    RunShut(b1, gap);
    ShortPress(After(b1, gap), ys, y);
    var e := if |gap| < DOUBLE_TIME then DoubleClick else Click;
    assert (b.log + [Click]) + [e] == b.log + [Click, e];
  }

  // ----- the code

  class Button {
    var phase: Phase
    var lastState: Option<Event>
    const trigger: TwoBits
    var level: TwoBits
    var event: Option<Event>
    var cycle: nat
    var timer: nat
    var debounce: nat
    var longTime: nat
    var longFlag: bool
    ghost var log: seq<Event>

    ghost function View(): State
      reads this
    {
      State(phase, lastState, trigger, level, event, cycle, timer, debounce, longTime, longFlag, log)
    }

    /** Button_Create */
    constructor (trigger: Byte)
      ensures View() == Created(trigger)
    {
      this.trigger := trigger % 4;
      phase, lastState, level, event := Free, None, 1, None;
      cycle, timer, debounce, longTime, longFlag, log := 0, 0, 0, 0, false, [];
    }

    /** TRIGGER_CB */
    method TriggerCallback(e: Event)
      modifies this`log
      ensures log == old(log) + [e]
    {
      log := log + [e];
    }

    /** Button_Cycle_Process on the level it reads. */
    method CycleProcess(current: Byte)
      requires InRange(View())
      modifies this
      ensures View() == Step(old(View()), current)
    {
      if current != level {
        debounce := debounce + 1;
        if debounce >= DEBOUNCE_TIME {
          level := current % 4;
          debounce := 0;
          if phase == Free || phase == Double {
            phase := Down;
          } else if phase == Down {
            phase := Up;
          }
        }
      }
      assert View() == Accept(old(View()), current);
      match phase {
        case Down =>
          if level == trigger {
            HoldCall();
          }
        case Up => ReleaseCall();
        case Double =>
          timer := timer + 1;
          if timer >= DOUBLE_TIME {
            phase, lastState := Free, None;
          }
        case Free =>
      }
    }

    method HoldCall()
      requires longTime < 0xFF && cycle < LONG_CYCLE
      modifies this
      ensures View() == Held(old(View()))
    {
      event := Some(Click);
      longTime := longTime + 1;
      if longTime >= LONG_TIME {
        cycle := cycle + 1;
        if cycle >= LONG_CYCLE {
          cycle := 0;
          event := Some(Long);
          TriggerCallback(Long);
          longFlag := true;
        }
        if longTime == 0xFF {
          longTime := LONG_TIME;
        }
      }
    }

    method ReleaseCall()
      modifies this
      ensures View() == Released(old(View()))
    {
      if longFlag {
        longFlag := false;
        TriggerCallback(LongFree);
        longTime := 0;
        phase, lastState := Free, Some(Long);
        return;
      } else if event == Some(Click) {
        if timer <= DOUBLE_TIME && lastState == Some(DoubleClick) {
          event := Some(DoubleClick);
          TriggerCallback(DoubleClick);
          phase, lastState := Free, None;
        } else {
          timer, longTime := 0, 0;
          TriggerCallback(Click);
          phase, lastState := Double, Some(DoubleClick);
        }
      }
    }
  }
}
