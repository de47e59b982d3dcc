/** The lock all CPUs share and the spin locks, as the steps that any number of
    CPUs may take in any order. A step is a stretch of code that touches one
    shared lock at most; what it does to the counters of the CPU's own thread
    no other CPU can see halfway, since local interrupts are off. */
module CpusLock {
  import opened Wrappers

  type Cpu = nat
  type Tid = nat
  type Lock = nat

  /** How far a thread is with a spin lock: between the preempt-disable and the
      lock bit, with the bit, between clearing the bit and the preempt-enable. */
  datatype Phase = Wanted | Held | Dropped

  datatype Thread = Thread(cpusNest: nat, schedNest: int, spins: map<Lock, Phase>)

  /** Where a CPU is with `_cpus_lock`. `Spinning`: counted in, waiting for the
      lock. `Releasing`: counted out, lock not yet cleared. `Owning`: holds the
      lock for a switch without a nesting thread. `Restoring`: the new thread is
      set, its counter not yet looked at. */
  datatype Pc = Outside | Spinning | Releasing | Owning | Restoring

  /** `bare` are the spin locks taken while the CPU had no current thread. */
  datatype Core = Core(current: Option<Tid>, pc: Pc, bare: set<Lock>)

  datatype State = State(cpusLock: bool, taken: set<Lock>, cores: map<Cpu, Core>, threads: map<Tid, Thread>)

  datatype Event =
    | LockEnter(c: Cpu)            // rt_cpus_lock up to the spin
    | LockAcquire(c: Cpu)          // the spin succeeds
    | UnlockEnter(c: Cpu)          // rt_cpus_unlock up to the release
    | UnlockRelease(c: Cpu)
    | BootLock(c: Cpu)             // the raw lock before the scheduler starts
    | IrqDrop(c: Cpu)              // the scheduler's switch at interrupt exit
    | SetCurrent(c: Cpu, t: Tid)   // rt_cpus_lock_status_restore, first half
    | Restore(c: Cpu)              // its second half
    | SpinWant(c: Cpu, l: Lock)    // rt_preempt_disable of rt_spin_lock
    | SpinTake(c: Cpu, l: Lock)
    | SpinDrop(c: Cpu, l: Lock)
    | SpinForget(c: Cpu, l: Lock)  // rt_preempt_enable of rt_spin_unlock

  // ----- what the callers and the environment guarantee

  predicate HasThread(s: State, c: Cpu) {
    c in s.cores && s.cores[c].current.Some? && s.cores[c].current.value in s.threads
  }

  function Self(s: State, c: Cpu): Thread
    requires HasThread(s, c)
  {
    s.threads[s.cores[c].current.value]
  }

  predicate Enabled(s: State, e: Event) {
    e.c in s.cores && (s.cores[e.c].current.Some? ==> HasThread(s, e.c)) &&
    var core := s.cores[e.c];
    match e
    case LockEnter(c) => core.pc.Outside?
    case LockAcquire(c) => core.pc.Spinning? && !s.cpusLock
    // callers are balanced
    case UnlockEnter(c) => core.pc.Outside? && (HasThread(s, c) ==> Self(s, c).cpusNest > 0)
    case UnlockRelease(c) => core.pc.Releasing?
    case BootLock(c) => core.pc.Outside? && core.current.None? && !s.cpusLock
    case IrqDrop(c) => core.pc.Outside? && HasThread(s, c) && Self(s, c).cpusNest == 1 && Self(s, c).schedNest == 1
    // the scheduler switches only while it holds the lock, at scheduler_lock_nest 1,
    // to a thread that no CPU runs
    case SetCurrent(c, t) =>
      && t in s.threads && (forall d :: d in s.cores ==> s.cores[d].current != Some(t))
      && core.bare == {}
      && (core.pc.Owning? || (core.pc.Outside? && HasThread(s, c) && Self(s, c).cpusNest > 0 && Self(s, c).schedNest == 1))
    case Restore(c) => core.pc.Restoring? && HasThread(s, c)
    case SpinWant(c, l) => core.pc.Outside? && (HasThread(s, c) ==> l !in Self(s, c).spins)
    case SpinTake(c, l) => core.pc.Outside? && l !in s.taken && (HasThread(s, c) ==> l in Self(s, c).spins && Self(s, c).spins[l].Wanted?)
    case SpinDrop(c, l) => core.pc.Outside? && if HasThread(s, c) then l in Self(s, c).spins && Self(s, c).spins[l].Held? else l in core.bare
    case SpinForget(c, l) => core.pc.Outside? && (HasThread(s, c) ==> l in Self(s, c).spins && Self(s, c).spins[l].Dropped?)
  }

  // ----- the steps

  function WithPc(s: State, c: Cpu, pc: Pc): State
    requires c in s.cores
  {
    s.(cores := s.cores[c := s.cores[c].(pc := pc)])
  }

  function WithSelf(s: State, c: Cpu, th: Thread): State
    requires HasThread(s, c)
  {
    s.(threads := s.threads[s.cores[c].current.value := th])
  }

  function Apply(s: State, e: Event): State
    requires Enabled(s, e)
  {
    var core := s.cores[e.c];
    match e
    case LockEnter(c) =>
      if !HasThread(s, c) then s
      else
        var th := Self(s, c);
        if th.cpusNest == 0 then WithPc(WithSelf(s, c, th.(cpusNest := 1, schedNest := th.schedNest + 1)), c, Spinning)
        else WithSelf(s, c, th.(cpusNest := th.cpusNest + 1))
    case LockAcquire(c) => WithPc(s, c, Outside).(cpusLock := true)
    case UnlockEnter(c) =>
      if !HasThread(s, c) then s
      else
        var th := Self(s, c);
        if th.cpusNest == 1 then WithPc(WithSelf(s, c, th.(cpusNest := 0, schedNest := th.schedNest - 1)), c, Releasing)
        else WithSelf(s, c, th.(cpusNest := th.cpusNest - 1))
    case UnlockRelease(c) => WithPc(s, c, Outside).(cpusLock := false)
    case BootLock(c) => WithPc(s, c, Owning).(cpusLock := true)
    case IrqDrop(c) => WithPc(WithSelf(s, c, Self(s, c).(cpusNest := 0, schedNest := 0)), c, Owning)
    case SetCurrent(c, t) => s.(cores := s.cores[c := core.(current := Some(t), pc := Restoring)])
    case Restore(c) => WithPc(s, c, Outside).(cpusLock := Self(s, c).cpusNest > 0 && s.cpusLock)
    case SpinWant(c, l) =>
      if !HasThread(s, c) then s
      else
        var th := Self(s, c);
        WithSelf(s, c, th.(schedNest := th.schedNest + 1, spins := th.spins[l := Wanted]))
    case SpinTake(c, l) =>
      if !HasThread(s, c) then s.(taken := s.taken + {l}, cores := s.cores[c := core.(bare := core.bare + {l})])
      else WithSelf(s, c, Self(s, c).(spins := Self(s, c).spins[l := Held])).(taken := s.taken + {l})
    case SpinDrop(c, l) =>
      if !HasThread(s, c) then s.(taken := s.taken - {l}, cores := s.cores[c := core.(bare := core.bare - {l})])
      else WithSelf(s, c, Self(s, c).(spins := Self(s, c).spins[l := Dropped])).(taken := s.taken - {l})
    case SpinForget(c, l) =>
      if !HasThread(s, c) then s
      else
        var th := Self(s, c);
        WithSelf(s, c, th.(schedNest := th.schedNest - 1, spins := th.spins - {l}))
  }

  // ----- the invariant

  /** CPU `c` holds `_cpus_lock`. */
  predicate Holding(s: State, c: Cpu) {
    c in s.cores &&
    match s.cores[c].pc
    case Outside => HasThread(s, c) && Self(s, c).cpusNest > 0
    case Spinning => false
    case _ => true
  }

  ghost predicate LockExact(s: State) {
    && (s.cpusLock <==> exists c :: Holding(s, c))
    && forall c, d :: Holding(s, c) && Holding(s, d) ==> c == d
  }

  ghost predicate OneCpuEach(s: State) {
    && (forall c :: c in s.cores && s.cores[c].current.Some? ==> HasThread(s, c))
    && forall c, d :: c in s.cores && d in s.cores && s.cores[c].current == s.cores[d].current && s.cores[c].current.Some? ==> c == d
  }

  predicate Counts(th: Thread) {
    th.schedNest == |th.spins| + if th.cpusNest > 0 then 1 else 0
  }

  /** What a CPU's place in the protocol says about its thread. */
  predicate PcFits(s: State, c: Cpu)
    requires c in s.cores
  {
    match s.cores[c].pc
    case Outside => true
    case Spinning => HasThread(s, c) && Self(s, c).cpusNest == 1
    case Releasing => HasThread(s, c) && Self(s, c).cpusNest == 0
    case Owning => HasThread(s, c) ==> Self(s, c).cpusNest == 0 && Self(s, c).spins == map[]
    case Restoring => HasThread(s, c)
  }

  ghost predicate PcsFit(s: State) {
    forall c :: c in s.cores ==> PcFits(s, c)
  }

  /** The CPU that runs a thread. */
  predicate Runs(s: State, c: Cpu, t: Tid) {
    c in s.cores && s.cores[c].current == Some(t)
  }

  /** CPU `c` holds spin lock `l`, through its thread or without one. */
  predicate SpinHolder(s: State, c: Cpu, l: Lock) {
    c in s.cores && (l in s.cores[c].bare || (HasThread(s, c) && l in Self(s, c).spins && Self(s, c).spins[l].Held?))
  }

  ghost predicate SpinsExact(s: State) {
    && (forall l :: l in s.taken <==> exists c :: SpinHolder(s, c, l))
    && (forall l, c, d :: SpinHolder(s, c, l) && SpinHolder(s, d, l) ==> c == d)
    && (forall c :: c in s.cores && s.cores[c].current.Some? ==> s.cores[c].bare == {})
  }

  /** A thread busy with a spin lock is running. */
  ghost predicate NeverOut(s: State) {
    forall t :: t in s.threads && s.threads[t].spins != map[] ==> exists c :: Runs(s, c, t)
  }

  ghost predicate Inv(s: State) {
    && OneCpuEach(s) && LockExact(s) && PcsFit(s) && SpinsExact(s) && NeverOut(s)
    && forall t :: t in s.threads ==> Counts(s.threads[t])
  }

  lemma KeepsOneCpu(s: State, e: Event)
    requires OneCpuEach(s) && Enabled(s, e)
    ensures OneCpuEach(Apply(s, e))
  {
  }

  lemma KeepsCounts(s: State, e: Event, t: Tid)
    requires OneCpuEach(s) && Enabled(s, e) && t in s.threads && Counts(s.threads[t])
    ensures t in Apply(s, e).threads && Counts(Apply(s, e).threads[t])
  {
  }

  /** A step changes at most whether its own CPU holds the lock: taking it when
      it is free, giving it up when it was held, or neither. */
  lemma HoldingSteps(s: State, e: Event)
    requires OneCpuEach(s) && PcsFit(s) && Enabled(s, e)
    ensures forall d :: d != e.c ==> (Holding(Apply(s, e), d) <==> Holding(s, d))
    ensures match e
            case LockAcquire(c) => !Holding(s, c) && Holding(Apply(s, e), c)
            case BootLock(c) => !Holding(s, c) && Holding(Apply(s, e), c)
            case UnlockRelease(c) => Holding(s, c) && !Holding(Apply(s, e), c)
            case Restore(c) => Holding(s, c) && (Holding(Apply(s, e), c) <==> Self(s, c).cpusNest > 0)
            case _ => Holding(s, e.c) <==> Holding(Apply(s, e), e.c)
  {
  }

  lemma KeepsLock(s: State, e: Event)
    requires OneCpuEach(s) && LockExact(s) && PcsFit(s) && Enabled(s, e)
    ensures LockExact(Apply(s, e))
  {
    hide Holding, PcsFit, OneCpuEach;
    HoldingSteps(s, e);
    if exists c :: Holding(Apply(s, e), c) {
      var c :| Holding(Apply(s, e), c);
      assert c != e.c ==> Holding(s, c);
    }
    if exists c :: Holding(s, c) {
      var c :| Holding(s, c);
      assert c != e.c ==> Holding(Apply(s, e), c);
    }
  }

  /** A step leaves the other CPUs and their threads alone. */
  lemma Elsewhere(s: State, e: Event, d: Cpu)
    requires OneCpuEach(s) && Enabled(s, e) && d != e.c
    ensures d in s.cores <==> d in Apply(s, e).cores
    ensures d in s.cores ==> Apply(s, e).cores[d] == s.cores[d]
    ensures HasThread(s, d) <==> HasThread(Apply(s, e), d)
    ensures HasThread(s, d) ==> Self(Apply(s, e), d) == Self(s, d)
  {
  }

  lemma PcHere(s: State, e: Event)
    requires PcsFit(s) && OneCpuEach(s) && Enabled(s, e)
    requires HasThread(s, e.c) ==> Counts(Self(s, e.c))
    ensures e.c in Apply(s, e).cores && PcFits(Apply(s, e), e.c)
  {
    hide OneCpuEach;
    assert PcFits(s, e.c);
    if e.IrqDrop? {
      assert |Self(s, e.c).spins| == 0 ==> Self(s, e.c).spins == map[];
    }
  }

  lemma KeepsPcs(s: State, e: Event)
    requires Inv(s) && Enabled(s, e)
    ensures PcsFit(Apply(s, e))
  {
    hide LockExact, SpinsExact, NeverOut, Enabled, Apply, OneCpuEach, Counts;
    PcHere(s, e);
    forall c | c in Apply(s, e).cores ensures PcFits(Apply(s, e), c) {
      if c != e.c {
        Elsewhere(s, e, c);
        assert PcFits(s, c);
      }
    }
  }

  lemma SpinsElsewhere(s: State, e: Event, d: Cpu, l: Lock)
    requires OneCpuEach(s) && Enabled(s, e) && d != e.c
    ensures SpinHolder(Apply(s, e), d, l) <==> SpinHolder(s, d, l)
  {
    hide Enabled, Apply, OneCpuEach;
    Elsewhere(s, e, d);
  }

  /** Only a thread that is busy with no spin lock is switched out, and only such
      a thread is switched in. */
  lemma SwitchesIdle(s: State, c: Cpu, t: Tid)
    requires Inv(s) && Enabled(s, SetCurrent(c, t))
    ensures HasThread(s, c) ==> Self(s, c).spins == map[]
    ensures s.threads[t].spins == map[]
  {
    hide LockExact, SpinsExact;
    if HasThread(s, c) {
      assert Counts(Self(s, c));
      assert |Self(s, c).spins| == 0 ==> Self(s, c).spins == map[];
    }
    assert forall d :: !Runs(s, d, t);
    assert s.threads[t].spins != map[] ==> exists d :: Runs(s, d, t);
  }

  lemma SpinsHere(s: State, e: Event, l: Lock)
    requires Inv(s) && Enabled(s, e)
    ensures var held := SpinHolder(Apply(s, e), e.c, l);
            if e.SpinTake? && e.l == l then held
            else if e.SpinDrop? && e.l == l then SpinHolder(s, e.c, l) && !held
            else held <==> SpinHolder(s, e.c, l)
  {
    if e.SetCurrent? {
      hide LockExact, NeverOut, PcsFit;
      SwitchesIdle(s, e.c, e.t);
    } else {
      hide Enabled, Apply, SpinHolder;
      SpinsNoSwitch(s, e, l);
    }
  }

  lemma SpinsNoSwitch(s: State, e: Event, l: Lock)
    requires OneCpuEach(s) && Enabled(s, e) && !e.SetCurrent? && (s.cores[e.c].current.Some? ==> s.cores[e.c].bare == {})
    ensures var held := SpinHolder(Apply(s, e), e.c, l);
            if e.SpinTake? && e.l == l then held
            else if e.SpinDrop? && e.l == l then SpinHolder(s, e.c, l) && !held
            else held <==> SpinHolder(s, e.c, l)
  {
    hide OneCpuEach;
  }

  lemma TakenHere(s: State, e: Event)
    requires Enabled(s, e)
    ensures Apply(s, e).taken == if e.SpinTake? then s.taken + {e.l} else if e.SpinDrop? then s.taken - {e.l} else s.taken
    ensures e.SpinTake? ==> e.l !in s.taken
  {
  }

  lemma SpinMoves(s: State, e: Event, l: Lock)
    requires Inv(s) && Enabled(s, e)
    ensures l in Apply(s, e).taken <==> exists c :: SpinHolder(Apply(s, e), c, l)
    ensures forall c, d :: SpinHolder(Apply(s, e), c, l) && SpinHolder(Apply(s, e), d, l) ==> c == d
  {
    hide Enabled, Apply, SpinHolder, OneCpuEach, LockExact, NeverOut, PcsFit;
    forall d | d != e.c ensures SpinHolder(Apply(s, e), d, l) <==> SpinHolder(s, d, l) {
      SpinsElsewhere(s, e, d, l);
    }
    SpinsHere(s, e, l);
    TakenHere(s, e);
    if l in s.taken {
      var c :| SpinHolder(s, c, l);
      assert c != e.c ==> SpinHolder(Apply(s, e), c, l);
    }
    if exists c :: SpinHolder(Apply(s, e), c, l) {
      var c :| SpinHolder(Apply(s, e), c, l);
      assert c != e.c ==> SpinHolder(s, c, l);
    }
  }

  lemma KeepsSpins(s: State, e: Event)
    requires Inv(s) && Enabled(s, e)
    ensures SpinsExact(Apply(s, e))
  {
    hide Enabled, Apply, SpinHolder, OneCpuEach, LockExact, NeverOut, PcsFit, HasThread;
    KeepsBare(s, e);
    forall l ensures l in Apply(s, e).taken <==> exists c :: SpinHolder(Apply(s, e), c, l) {
      SpinMoves(s, e, l);
    }
    forall l, c, d | SpinHolder(Apply(s, e), c, l) && SpinHolder(Apply(s, e), d, l) ensures c == d {
      SpinMoves(s, e, l);
    }
  }

  lemma KeepsBare(s: State, e: Event)
    requires SpinsExact(s) && OneCpuEach(s) && Enabled(s, e)
    ensures forall c :: c in Apply(s, e).cores && Apply(s, e).cores[c].current.Some? ==> Apply(s, e).cores[c].bare == {}
  {
  }

  lemma KeepsNeverOut(s: State, e: Event)
    requires Inv(s) && Enabled(s, e)
    ensures NeverOut(Apply(s, e))
  {
    forall t | t in Apply(s, e).threads && Apply(s, e).threads[t].spins != map[] ensures exists c :: Runs(Apply(s, e), c, t) {
      StillRuns(s, e, t);
    }
  }

  /** A thread busy with a spin lock after the step is running, and where it ran
      before if it was busy then. */
  lemma StillRuns(s: State, e: Event, t: Tid)
    requires Inv(s) && Enabled(s, e) && t in Apply(s, e).threads && Apply(s, e).threads[t].spins != map[]
    ensures exists c :: Runs(Apply(s, e), c, t)
    ensures t in s.threads && s.threads[t].spins != map[] ==> exists c :: Runs(Apply(s, e), c, t) && Runs(s, c, t)
  {
    hide LockExact, SpinsExact, PcsFit, Counts, OneCpuEach;
    if s.threads[t].spins != map[] {
      var c :| Runs(s, c, t);
      if e.SetCurrent? {
        SwitchesIdle(s, e.c, e.t);
      }
      CurrentStays(s, e);
      assert Runs(Apply(s, e), c, t);
    } else {
      assert Runs(Apply(s, e), e.c, t);
    }
  }

  /** Only a switch changes what a CPU runs. */
  lemma CurrentStays(s: State, e: Event)
    requires Enabled(s, e)
    ensures forall c :: c in s.cores && !(e.SetCurrent? && c == e.c) ==>
              c in Apply(s, e).cores && Apply(s, e).cores[c].current == s.cores[c].current
  {
  }

  /** Every step keeps the invariant. */
  lemma Keeps(s: State, e: Event)
    requires Inv(s) && Enabled(s, e)
    ensures Inv(Apply(s, e))
  {
    hide OneCpuEach, LockExact, PcsFit, SpinsExact, NeverOut;
    KeepsOneCpu(s, e);
    KeepsLock(s, e);
    KeepsPcs(s, e);
    KeepsSpins(s, e);
    KeepsNeverOut(s, e);
    SameThreads(s, e);
    forall t | t in Apply(s, e).threads ensures Counts(Apply(s, e).threads[t]) {
      KeepsCounts(s, e, t);
    }
  }

  lemma SameThreads(s: State, e: Event)
    requires Enabled(s, e)
    ensures Apply(s, e).threads.Keys == s.threads.Keys && Apply(s, e).cores.Keys == s.cores.Keys
  {
  }

  // ----- runs

  /** Before the scheduler starts: no thread runs anywhere. */
  ghost predicate Initial(s: State) {
    && !s.cpusLock && s.taken == {}
    && (forall c :: c in s.cores ==> s.cores[c] == Core(None, Outside, {}))
    && (forall t :: t in s.threads ==> s.threads[t] == Thread(0, 0, map[]))
  }

  /** `events` can happen in this order from `s`. */
  ghost predicate Possible(s: State, events: seq<Event>)
    decreases |events|
  {
    events == [] || (Enabled(s, events[0]) && Possible(Apply(s, events[0]), events[1..]))
  }

  ghost function After(s: State, events: seq<Event>): State
    requires Possible(s, events)
    decreases |events|
  {
    if events == [] then s else After(Apply(s, events[0]), events[1..])
  }

  lemma InitialInv(s: State)
    requires Initial(s)
    ensures Inv(s)
  {
  }

  lemma {:induction false} RunKeeps(s: State, events: seq<Event>)
    requires Inv(s) && Possible(s, events)
    ensures Inv(After(s, events))
    decreases |events|
  {
    hide Inv, Enabled, Apply;
    if events != [] {
      Keeps(s, events[0]);
      RunKeeps(Apply(s, events[0]), events[1..]);
    }
  }

  /** CPU `c` runs a thread that is counted into the cpus lock. */
  predicate Nested(s: State, c: Cpu) {
    HasThread(s, c) && Self(s, c).cpusNest > 0
  }

  predicate Waits(s: State, c: Cpu) {
    c in s.cores && s.cores[c].pc.Spinning?
  }

  /** No CPU is in the middle of a call or of a switch. */
  ghost predicate Quiet(s: State) {
    forall c :: c in s.cores ==> s.cores[c].pc.Outside?
  }

  /** After any run: of the CPUs whose thread is counted into the lock all but at
      most one are waiting for it, and a thread runs on one CPU at most. Between
      calls the lock is taken exactly when some CPU runs such a thread, and then
      one CPU does. */
  lemma MutualExclusion(s: State, events: seq<Event>)
    requires Initial(s) && Possible(s, events)
    ensures var s' := After(s, events);
            && (forall c, d :: Nested(s', c) && Nested(s', d) && c != d ==> Waits(s', c) || Waits(s', d))
            && (forall c, d, t :: Runs(s', c, t) && Runs(s', d, t) ==> c == d)
            && (Quiet(s') ==>
                  && (s'.cpusLock <==> exists c :: Nested(s', c))
                  && (forall c, d :: Nested(s', c) && Nested(s', d) ==> c == d))
  {
    InitialInv(s);
    RunKeeps(s, events);
    hide Initial, Possible, After;
    var s' := After(s, events);
    forall c, d | Nested(s', c) && Nested(s', d) && c != d ensures Waits(s', c) || Waits(s', d) {
      assert Holding(s', c) || Waits(s', c);
      assert Holding(s', d) || Waits(s', d);
    }
    if Quiet(s') {
      forall c ensures Nested(s', c) <==> Holding(s', c) {
      }
    }
  }

  /** After any run a thread's scheduler count is the number of spin locks it is
      busy with, plus one inside the cpus lock, and a thread busy with spin locks
      has not been switched out. */
  lemma SchedulerCount(s: State, events: seq<Event>, t: Tid)
    requires Initial(s) && Possible(s, events) && t in After(s, events).threads
    ensures var th := After(s, events).threads[t];
            && th.schedNest == |th.spins| + (if th.cpusNest > 0 then 1 else 0)
            && (th.spins != map[] ==> exists c :: Runs(After(s, events), c, t))
  {
    InitialInv(s);
    RunKeeps(s, events);
    hide Initial, Possible, After;
  }

  /** After any run a spin lock's bit is set exactly when one CPU holds it. */
  lemma SpinLockExclusion(s: State, events: seq<Event>, l: Lock)
    requires Initial(s) && Possible(s, events)
    ensures var s' := After(s, events);
            && (l in s'.taken <==> exists c :: SpinHolder(s', c, l))
            && (forall c, d :: SpinHolder(s', c, l) && SpinHolder(s', d, l) ==> c == d)
  {
    InitialInv(s);
    RunKeeps(s, events);
    hide Initial, Possible, After;
  }

  // ----- the lock as one abstract mutex

  /** The CPU that holds the lock, if any. */
  ghost function Owner(s: State): (o: Option<Cpu>)
    requires LockExact(s)
    ensures forall c: Cpu :: o == Some(c) <==> Holding(s, c)
    ensures o.None? <==> !s.cpusLock
  {
    if exists c: Cpu :: Holding(s, c) then
      var c: Cpu :| Holding(s, c); Some(c)
    else None
  }

  /** Every step is a stutter, an acquisition of the free lock or a release by its
      owner: the lock never passes from one CPU to another without being free,
      though a switch passes it from thread to thread. */
  lemma OwnerMoves(s: State, e: Event)
    requires Inv(s) && Enabled(s, e)
    ensures LockExact(Apply(s, e))
    ensures var o, o' := Owner(s), Owner(Apply(s, e));
            match e
            case LockAcquire(c) => o == None && o' == Some(c)
            case BootLock(c) => o == None && o' == Some(c)
            case UnlockRelease(c) => o == Some(c) && o' == None
            case Restore(c) => o == Some(c) && o' == if Self(s, c).cpusNest > 0 then Some(c) else None
            case _ => o' == o
  {
    hide Holding, PcsFit, OneCpuEach, SpinsExact, NeverOut;
    KeepsLock(s, e);
    HoldingSteps(s, e);
    var o, o' := Owner(s), Owner(Apply(s, e));
    assert o.Some? ==> Holding(s, o.value);
    assert o'.Some? ==> Holding(Apply(s, e), o'.value);
  }

  /** Two CPUs can both be counted into the lock: the second one waits. */
  lemma TwoCounted(s: State, c: Cpu, d: Cpu)
    requires Inv(s) && Quiet(s) && c != d && HasThread(s, c) && HasThread(s, d) && !s.cpusLock
    ensures var es := [LockEnter(c), LockAcquire(c), LockEnter(d)];
            && Possible(s, es)
            && var s' := After(s, es);
               Nested(s', c) && Nested(s', d) && Waits(s', d) && !Waits(s', c) && !Enabled(s', LockAcquire(d))
  {
    hide SpinsExact, NeverOut, PcsFit, Counts;
    assert !Holding(s, c) && !Holding(s, d);
    assert s.cores[c].current != s.cores[d].current;
    FirstIn(s, c, d);
    var s1 := Apply(s, LockEnter(c));
    Gets(s1, c, d);
    var s2 := Apply(s1, LockAcquire(c));
    FirstIn(s2, d, c);
    ThreeSteps(s, LockEnter(c), LockAcquire(c), LockEnter(d));
  }

  /** A thread outside the lock counts itself in and waits; another CPU is not touched. */
  lemma FirstIn(s: State, c: Cpu, d: Cpu)
    requires HasThread(s, c) && HasThread(s, d) && s.cores[c].current != s.cores[d].current
    requires s.cores[c].pc.Outside? && Self(s, c).cpusNest == 0
    ensures Enabled(s, LockEnter(c))
    ensures var s' := Apply(s, LockEnter(c));
            && s'.cores == s.cores[c := s.cores[c].(pc := Spinning)] && s'.cpusLock == s.cpusLock
            && HasThread(s', c) && HasThread(s', d) && Self(s', c).cpusNest == 1 && Self(s', d) == Self(s, d)
  {
  }

  lemma Gets(s: State, c: Cpu, d: Cpu)
    requires HasThread(s, c) && HasThread(s, d) && c != d && s.cores[c].pc.Spinning? && !s.cpusLock
    ensures Enabled(s, LockAcquire(c))
    ensures var s' := Apply(s, LockAcquire(c));
            && s'.cores == s.cores[c := s.cores[c].(pc := Outside)] && s'.cpusLock && s'.threads == s.threads
  {
  }

  lemma ThreeSteps(s: State, e1: Event, e2: Event, e3: Event)
    requires Enabled(s, e1) && Enabled(Apply(s, e1), e2) && Enabled(Apply(Apply(s, e1), e2), e3)
    ensures Possible(s, [e1, e2, e3]) && After(s, [e1, e2, e3]) == Apply(Apply(Apply(s, e1), e2), e3)
  {
    hide Enabled, Apply;
    assert [e1, e2, e3][1..] == [e2, e3] && [e2, e3][1..] == [e3] && [e3][1..] == [];
    var s1 := Apply(s, e1);
    var s2 := Apply(s1, e2);
    assert Possible(Apply(s2, e3), []);
    assert Possible(s2, [e3]) && After(s2, [e3]) == Apply(s2, e3);
    assert Possible(s1, [e2, e3]) && After(s1, [e2, e3]) == After(s2, [e3]);
  }

  // ----- the code

  /** The variables of cpu.c: the lock bits, each CPU's current thread, each
      thread's counters. `pcs` and the spin phases record progress. */
  class Smp {
    var cpusLock: bool
    var taken: set<Lock>
    var cores: map<Cpu, Core>
    var threads: map<Tid, Thread>

    function View(): State
      reads this
    {
      State(cpusLock, taken, cores, threads)
    }

    method SetPc(c: Cpu, pc: Pc)
      requires c in cores
      modifies this`cores
      ensures cores == old(cores)[c := old(cores[c]).(pc := pc)]
    {
      cores := cores[c := cores[c].(pc := pc)];
    }

    /** rt_cpus_lock up to the spin. */
    method CpusLock(c: Cpu)
      requires Enabled(View(), LockEnter(c))
      modifies this
      ensures View() == Apply(old(View()), LockEnter(c))
    {
      if cores[c].current.Some? {
        var t := cores[c].current.value;
        var lockNest := threads[t].cpusNest;
        threads := threads[t := threads[t].(cpusNest := threads[t].cpusNest + 1)];
        if lockNest == 0 {
          threads := threads[t := threads[t].(schedNest := threads[t].schedNest + 1)];
          SetPc(c, Spinning);
        }
        assert threads[t] == old(threads[t]).(cpusNest := threads[t].cpusNest, schedNest := threads[t].schedNest);
        assert threads == old(threads)[t := threads[t]];
      }
    }

    /** The spin in rt_cpus_lock ends: the lock was free and is now taken. */
    method CpusAcquire(c: Cpu)
      requires Enabled(View(), LockAcquire(c))
      modifies this
      ensures View() == Apply(old(View()), LockAcquire(c))
    {
      cpusLock := true;
      SetPc(c, Outside);
    }

    /** rt_cpus_unlock up to the release. */
    method CpusUnlock(c: Cpu)
      requires Enabled(View(), UnlockEnter(c))
      modifies this
      ensures View() == Apply(old(View()), UnlockEnter(c))
    {
      if cores[c].current.Some? {
        var t := cores[c].current.value;
        threads := threads[t := threads[t].(cpusNest := threads[t].cpusNest - 1)];
        if threads[t].cpusNest == 0 {
          threads := threads[t := threads[t].(schedNest := threads[t].schedNest - 1)];
          SetPc(c, Releasing);
        }
        assert threads == old(threads)[t := threads[t]];
      }
    }

    method CpusRelease(c: Cpu)
      requires Enabled(View(), UnlockRelease(c))
      modifies this
      ensures View() == Apply(old(View()), UnlockRelease(c))
    {
      cpusLock := false;
      SetPc(c, Outside);
    }

    /** The first assignment of rt_cpus_lock_status_restore. */
    method StatusSet(c: Cpu, thread: Tid)
      requires Enabled(View(), SetCurrent(c, thread))
      modifies this
      ensures View() == Apply(old(View()), SetCurrent(c, thread))
    {
      cores := cores[c := cores[c].(current := Some(thread), pc := Restoring)];
    }

    /** Its second half: the lock goes if the new thread does not want it. */
    method StatusRestore(c: Cpu)
      requires Enabled(View(), Restore(c))
      modifies this
      ensures View() == Apply(old(View()), Restore(c))
    {
      if threads[cores[c].current.value].cpusNest == 0 {
        cpusLock := false;
      }
      SetPc(c, Outside);
    }

    /** rt_preempt_disable, as rt_spin_lock calls it for `l`. */
    method PreemptDisable(c: Cpu, l: Lock)
      requires Enabled(View(), SpinWant(c, l))
      modifies this
      ensures View() == Apply(old(View()), SpinWant(c, l))
    {
      if cores[c].current.None? {
        return;
      }
      var t := cores[c].current.value;
      threads := threads[t := threads[t].(schedNest := threads[t].schedNest + 1, spins := threads[t].spins[l := Wanted])];
    }

    /** rt_hw_spin_lock on a free lock. */
    method SpinLock(c: Cpu, l: Lock)
      requires Enabled(View(), SpinTake(c, l))
      modifies this
      ensures View() == Apply(old(View()), SpinTake(c, l))
    {
      taken := taken + {l};
      if cores[c].current.None? {
        cores := cores[c := cores[c].(bare := cores[c].bare + {l})];
      } else {
        var t := cores[c].current.value;
        threads := threads[t := threads[t].(spins := threads[t].spins[l := Held])];
      }
    }

    /** rt_hw_spin_unlock. */
    method SpinUnlock(c: Cpu, l: Lock)
      requires Enabled(View(), SpinDrop(c, l))
      modifies this
      ensures View() == Apply(old(View()), SpinDrop(c, l))
    {
      taken := taken - {l};
      if cores[c].current.None? {
        cores := cores[c := cores[c].(bare := cores[c].bare - {l})];
      } else {
        var t := cores[c].current.value;
        threads := threads[t := threads[t].(spins := threads[t].spins[l := Dropped])];
      }
    }

    /** rt_preempt_enable up to its call of the scheduler. */
    method PreemptEnable(c: Cpu, l: Lock)
      requires Enabled(View(), SpinForget(c, l))
      modifies this
      ensures View() == Apply(old(View()), SpinForget(c, l))
    {
      if cores[c].current.None? {
        return;
      }
      var t := cores[c].current.value;
      threads := threads[t := threads[t].(schedNest := threads[t].schedNest - 1, spins := threads[t].spins - {l})];
    }
  }
}
