/** The counters of the cpus lock told from the history of calls alone, over every run. */
module CpusNesting {
  import opened Wrappers
  import opened CpusLock

  /** The thread a CPU was last switched to. */
  function Current(events: seq<Event>, c: Cpu): Option<Tid>
    decreases |events|
  {
    if events == [] then None
    else
      var e := events[|events| - 1];
      if e.SetCurrent? && e.c == c then Some(e.t) else Current(events[..|events| - 1], c)
  }

  function NestBy(e: Event, nest: int): int {
    if e.LockEnter? then nest + 1 else if e.UnlockEnter? then nest - 1 else if e.IrqDrop? then 0 else nest
  }

  function BusyBy(e: Event, busy: set<Lock>): set<Lock> {
    if e.SpinWant? then busy + {e.l} else if e.SpinForget? then busy - {e.l} else busy
  }

  /** How many of a thread's calls of rt_cpus_lock are still to be undone: one more with
      every call on the CPU that runs it, one less with every rt_cpus_unlock, none
      after the switch at the exit of an interrupt. */
  function Nesting(events: seq<Event>, t: Tid): int
    decreases |events|
  {
    if events == [] then 0
    else
      var before, e := events[..|events| - 1], events[|events| - 1];
      if Current(before, e.c) == Some(t) then NestBy(e, Nesting(before, t)) else Nesting(before, t)
  }

  /** The spin locks a thread has called rt_spin_lock for and not yet left. */
  function Busy(events: seq<Event>, t: Tid): set<Lock>
    decreases |events|
  {
    if events == [] then {}
    else
      var before, e := events[..|events| - 1], events[|events| - 1];
      if Current(before, e.c) == Some(t) then BusyBy(e, Busy(before, t)) else Busy(before, t)
  }

  lemma {:induction false} RunSnoc(s: State, events: seq<Event>, e: Event)
    ensures Possible(s, events + [e]) <==> Possible(s, events) && Enabled(After(s, events), e)
    ensures Possible(s, events + [e]) ==> After(s, events + [e]) == Apply(After(s, events), e)
    decreases |events|
  {
    hide Enabled, Apply;
    if events == [] {
      assert [] + [e] == [e] && [e][1..] == [];
    } else {
      var all := events + [e];
      assert all[0] == events[0] && all[1..] == events[1..] + [e];
      if Enabled(s, events[0]) {
        RunSnoc(Apply(s, events[0]), events[1..], e);
      }
    }
  }

  /** What a step does to what the CPUs run and to a thread's counters. */
  ghost predicate CountsBy(s: State, e: Event, t: Tid, s': State) {
    && s'.cores.Keys == s.cores.Keys && e.c in s.cores && t in s.threads && t in s'.threads
    && (forall c :: c in s.cores ==>
         s'.cores[c].current == (if e.SetCurrent? && e.c == c then Some(e.t) else s.cores[c].current))
    && var th, th', runs := s.threads[t], s'.threads[t], s.cores[e.c].current == Some(t);
       && th'.cpusNest == (if runs then NestBy(e, th.cpusNest) else th.cpusNest)
       && th'.spins.Keys == (if runs then BusyBy(e, th.spins.Keys) else th.spins.Keys)
  }

  lemma StepCounts(s: State, e: Event, t: Tid)
    requires Enabled(s, e) && t in s.threads
    ensures CountsBy(s, e, t, Apply(s, e))
  {
    StepRuns(s, e);
    StepNests(s, e, t);
    StepBusy(s, e, t);
    hide Enabled, Apply, NestBy, BusyBy;
  }

  lemma StepRuns(s: State, e: Event)
    requires Enabled(s, e)
    ensures var s' := Apply(s, e);
            && s'.cores.Keys == s.cores.Keys && s'.threads.Keys == s.threads.Keys && e.c in s.cores
            && (forall c :: c in s.cores ==>
                 s'.cores[c].current == (if e.SetCurrent? && e.c == c then Some(e.t) else s.cores[c].current))
  {
    SameThreads(s, e);
    CurrentStays(s, e);
    if e.SetCurrent? {
      assert Apply(s, e).cores[e.c].current == Some(e.t);
    }
    hide Enabled, Apply;
  }

  lemma StepNests(s: State, e: Event, t: Tid)
    requires Enabled(s, e) && t in s.threads && t in Apply(s, e).threads
    ensures Apply(s, e).threads[t].cpusNest
         == (if s.cores[e.c].current == Some(t) then NestBy(e, s.threads[t].cpusNest) else s.threads[t].cpusNest)
  {
  }

  lemma StepBusy(s: State, e: Event, t: Tid)
    requires Enabled(s, e) && t in s.threads && t in Apply(s, e).threads
    ensures Apply(s, e).threads[t].spins.Keys
         == (if s.cores[e.c].current == Some(t) then BusyBy(e, s.threads[t].spins.Keys) else s.threads[t].spins.Keys)
  {
  }

  /** After any run a CPU runs the thread it was last switched to, and a thread's
      counter is what its history says. */
  lemma {:induction false} NestingCounts(s: State, events: seq<Event>, t: Tid)
    requires Initial(s) && Possible(s, events) && t in s.threads
    ensures var s' := After(s, events);
            && (forall c :: c in s.cores ==> c in s'.cores && s'.cores[c].current == Current(events, c))
            && t in s'.threads && s'.threads[t].cpusNest == Nesting(events, t)
                  && s'.threads[t].spins.Keys == Busy(events, t)
            && s'.cores.Keys == s.cores.Keys
    decreases |events|
  {
    hide Enabled, Apply, LockExact, PcsFit, SpinsExact, NeverOut, Counts, OneCpuEach, NestBy, BusyBy;
    if events != [] {
      var before, e := events[..|events| - 1], events[|events| - 1];
      assert events == before + [e];
      RunSnoc(s, before, e);
      NestingCounts(s, before, t);
      InitialInv(s);
      RunKeeps(s, before);
      StepCounts(After(s, before), e, t);
    }
  }

  /** From the moment a thread gets the lock, and as long as it has a call of
      rt_cpus_lock to undo and its CPU is neither switched nor leaves an interrupt
      that switches, the lock stays taken, and by that CPU, whatever calls it nests
      and whatever the other CPUs do. */
  lemma {:induction false} HeldThroughout(s: State, before: seq<Event>, c: Cpu, t: Tid, more: seq<Event>)
    requires Initial(s) && Possible(s, before + [LockAcquire(c)] + more) && t in s.threads
              && Current(before, c) == Some(t)
    requires forall e :: e in more && e.c == c ==> !e.SetCurrent? && !e.IrqDrop?
    requires forall k :: 0 <= k <= |more| ==> Nesting(before + [LockAcquire(c)] + more[..k], t) > 0
    ensures var s' := After(s, before + [LockAcquire(c)] + more);
            s'.cpusLock && LockExact(s') && Owner(s') == Some(c) && !s'.cores[c].pc.Spinning?
    decreases |more|
  {
    hide Enabled, Apply, Inv, Nesting, Current, Initial, Holding;
    StaysOutside(s, before, c, t, more);
    var all := before + [LockAcquire(c)] + more;
    InitialInv(s);
    RunKeeps(s, all);
    NestingCounts(s, all, t);
    assert more[..|more|] == more;
    OutsideHolds(After(s, all), c, t);
  }

  lemma OutsideHolds(s: State, c: Cpu, t: Tid)
    requires Inv(s) && Runs(s, c, t) && t in s.threads && s.threads[t].cpusNest > 0 && s.cores[c].pc.Outside?
    ensures s.cpusLock && Owner(s) == Some(c)
  {
    assert Holding(s, c);
  }

  lemma {:induction false} StaysOutside(s: State, before: seq<Event>, c: Cpu, t: Tid, more: seq<Event>)
    requires Initial(s) && Possible(s, before + [LockAcquire(c)] + more) && t in s.threads
              && Current(before, c) == Some(t)
    requires forall e :: e in more && e.c == c ==> !e.SetCurrent? && !e.IrqDrop?
    requires forall k :: 0 <= k <= |more| ==> Nesting(before + [LockAcquire(c)] + more[..k], t) > 0
    ensures var s' := After(s, before + [LockAcquire(c)] + more);
            Runs(s', c, t) && s'.cores[c].pc.Outside?
    decreases |more|
  {
    hide Enabled, Apply, Inv, Nesting, Initial;
    var start := before + [LockAcquire(c)];
    if more == [] {
      assert start + more == before + [LockAcquire(c)];
      RunSnoc(s, before, LockAcquire(c));
      NestingCounts(s, before, t);
      Acquired(After(s, before), c);
    } else {
      var less, e := more[..|more| - 1], more[|more| - 1];
      assert start + more == (start + less) + [e];
      RunSnoc(s, start + less, e);
      forall k | 0 <= k <= |less| ensures Nesting(start + less[..k], t) > 0 {
        assert less[..k] == more[..k];
      }
      StaysOutside(s, before, c, t, less);
      assert less[..|less|] == less && more[..|more|] == more;
      NestingCounts(s, start + less, t);
      NestingCounts(s, (start + less) + [e], t);
      InitialInv(s);
      RunKeeps(s, start + less);
      OneStepOutside(After(s, start + less), e, c, t);
    }
  }

  lemma Acquired(s: State, c: Cpu)
    requires Enabled(s, LockAcquire(c))
    ensures var s' := Apply(s, LockAcquire(c));
            c in s.cores && c in s'.cores && s'.cores[c].pc.Outside? && s'.cores[c].current == s.cores[c].current
  {
  }

  /** A thread with more to undo stays outside every wait. */
  lemma OneStepOutside(s: State, e: Event, c: Cpu, t: Tid)
    requires Inv(s) && Enabled(s, e) && Runs(s, c, t) && t in s.threads && s.threads[t].cpusNest > 0
              && s.cores[c].pc.Outside?
    requires e.c == c ==> !e.SetCurrent? && !e.IrqDrop?
    requires t in Apply(s, e).threads && Apply(s, e).threads[t].cpusNest > 0
    ensures Runs(Apply(s, e), c, t) && Apply(s, e).cores[c].pc.Outside?
  {
    hide LockExact, SpinsExact, NeverOut, PcsFit, Counts;
    if e.c != c {
      hide Apply, Enabled;
      Elsewhere(s, e, c);
    }
  }
}
