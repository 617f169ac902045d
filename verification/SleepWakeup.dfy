/** sleep() and wakeup() of proc.c as a two-lock protocol, lock operation by lock operation.

    A monitor is some shared state guarded by a lock `lk` (log.lock, or a pipe's lock)
    with wait channels. A process that finds its wait condition true calls
    sleep(chan, lk): it takes ptable.lock, gives up lk, marks itself SLEEPING and lets
    the scheduler drop ptable.lock. A process that changes the shared state calls
    wakeup(chan), which scans the process table under ptable.lock. The critical sections
    themselves are a parameter: `section(s, s', w)` says that one of them takes the
    shared state from s to s' and then calls wakeup on the channels in w, and
    `quiet(s, s')` that some process changes the state without holding lk. */
module SleepWakeup {

  datatype Proc<C> =
    | Outside
    | Inside(owed: set<C>)          // holds lk; still has to call wakeup on these channels
    | Waking(owed: set<C>, c: C)    // holds lk and ptable.lock, about to scan for c
    | Scanned(owed: set<C>)         // holds lk and ptable.lock, scan done
    | Decided(c: C)                 // holds lk, found its wait condition true, called sleep(c, lk)
    | TookPtable(c: C)              // holds lk and ptable.lock
    | GaveUpLock(c: C)              // holds ptable.lock only
    | Marked(c: C)                  // SLEEPING on c, ptable.lock not yet dropped by the scheduler
    | Asleep(c: C)                  // SLEEPING on c
    | Woken                         // RUNNABLE again, about to reacquire lk

  datatype Owner = Free | HeldBy(p: nat)

  datatype State<S, C> = State(shared: S, lk: Owner, ptable: Owner, procs: seq<Proc<C>>)

  /** The monitor: when a process must wait on a channel, and what its critical sections do. */
  datatype Monitor<!S(!new), !C(!new)> =
    Monitor(waits: (S, C) -> bool, section: (S, S, set<C>) -> bool, quiet: (S, S) -> bool)
  {
    /** Every critical section that ends a wait condition wakes that channel; nothing ends one without the lock. */
    ghost predicate Disciplined() {
      && (forall s, t, w, c :: section(s, t, w) && waits(s, c) && !waits(t, c) ==> c in w)
      && (forall s, t, c :: quiet(s, t) && waits(s, c) ==> waits(t, c))
    }
  }

  datatype Step<S, C> =
    | Acquire(p: nat)
    | Section(p: nat, t: S, w: set<C>)
    | Quiet(p: nat, t: S)
    | Release(p: nat)
    | CallSleep(p: nat, c: C)
    | SleepTakesPtable(p: nat)
    | SleepGivesUpLock(p: nat)
    | SleepMarks(p: nat)
    | SchedulerDropsPtable(p: nat)
    | CallWakeup(p: nat, c: C)
    | WakeupScans(p: nat)
    | WakeupReturns(p: nat)
    | Kill(p: nat)                  // kill() makes a sleeping process runnable
    | Reacquire(p: nat)

  ghost predicate HoldsLock<C>(q: Proc<C>) {
    q.Inside? || q.Waking? || q.Scanned? || q.Decided? || q.TookPtable?
  }

  ghost predicate HoldsPtable<C>(q: Proc<C>) {
    q.Waking? || q.Scanned? || q.TookPtable? || q.GaveUpLock? || q.Marked?
  }

  ghost predicate Enabled<S(!new), C(!new)>(m: Monitor<S, C>, s: State<S, C>, step: Step<S, C>) {
    && step.p < |s.procs|
    && var q := s.procs[step.p];
       match step
       case Acquire(p) => q.Outside? && s.lk == Free
       case Section(p, t, w) => q == Inside({}) && m.section(s.shared, t, w)
       case Quiet(p, t) => m.quiet(s.shared, t)
       case Release(p) => q == Inside({})
       case CallSleep(p, c) => q == Inside({}) && m.waits(s.shared, c)
       case SleepTakesPtable(p) => q.Decided? && s.ptable == Free
       case SleepGivesUpLock(p) => q.TookPtable?
       case SleepMarks(p) => q.GaveUpLock?
       case SchedulerDropsPtable(p) => q.Marked?
       case CallWakeup(p, c) => q.Inside? && c in q.owed && s.ptable == Free
       case WakeupScans(p) => q.Waking?
       case WakeupReturns(p) => q.Scanned?
       case Kill(p) => q.Asleep? && s.ptable == Free
       case Reacquire(p) => q.Woken? && s.lk == Free
  }

  /** wakeup1: every process asleep on the channel becomes runnable. */
  ghost function WakeAll<C>(procs: seq<Proc<C>>, c: C): (r: seq<Proc<C>>)
    ensures |r| == |procs|
    ensures forall i :: 0 <= i < |procs| ==> r[i] == if procs[i] == Asleep(c) then Woken else procs[i]
  {
    seq(|procs|, i requires 0 <= i < |procs| => if procs[i] == Asleep(c) then Woken else procs[i])
  }

  ghost function Apply<S(!new), C(!new)>(m: Monitor<S, C>, s: State<S, C>, step: Step<S, C>): State<S, C>
    requires Enabled(m, s, step)
  {
    var p := step.p;
    var q := s.procs[p];
    match step
    case Acquire(p) => s.(lk := HeldBy(p), procs := s.procs[p := Inside({})])
    case Section(p, t, w) => s.(shared := t, procs := s.procs[p := Inside(w)])
    case Quiet(p, t) => s.(shared := t)
    case Release(p) => s.(lk := Free, procs := s.procs[p := Outside])
    case CallSleep(p, c) => s.(procs := s.procs[p := Decided(c)])
    case SleepTakesPtable(p) => s.(ptable := HeldBy(p), procs := s.procs[p := TookPtable(q.c)])
    case SleepGivesUpLock(p) => s.(lk := Free, procs := s.procs[p := GaveUpLock(q.c)])
    case SleepMarks(p) => s.(procs := s.procs[p := Marked(q.c)])
    case SchedulerDropsPtable(p) => s.(ptable := Free, procs := s.procs[p := Asleep(q.c)])
    case CallWakeup(p, c) => s.(ptable := HeldBy(p), procs := s.procs[p := Waking(q.owed, c)])
    case WakeupScans(p) => s.(procs := WakeAll(s.procs, q.c)[p := Scanned(q.owed - {q.c})])
    case WakeupReturns(p) => s.(ptable := Free, procs := s.procs[p := Inside(q.owed)])
    case Kill(p) => s.(procs := s.procs[p := Woken])
    case Reacquire(p) => s.(lk := HeldBy(p), procs := s.procs[p := Inside({})])
  }

  // ---------------------------------------------------------------- the invariant

  /** The process has found its wait condition true and has not been woken since. */
  ghost predicate Pending<C>(q: Proc<C>, c: C) {
    q == Decided(c) || q == TookPtable(c) || q == GaveUpLock(c) || q == Marked(c) || q == Asleep(c)
  }

  /** The process holds lk and has yet to wake the channel. */
  ghost predicate Owes<C>(q: Proc<C>, c: C) {
    (q.Inside? || q.Waking? || q.Scanned?) && c in q.owed
  }

  ghost predicate Locks<S, C>(s: State<S, C>) {
    && (s.lk.HeldBy? ==> s.lk.p < |s.procs|) && (s.ptable.HeldBy? ==> s.ptable.p < |s.procs|)
    && forall i :: 0 <= i < |s.procs| ==> LocksOf(s, i)
  }

  ghost predicate LocksOf<S, C>(s: State<S, C>, i: nat)
    requires i < |s.procs|
  {
    && (HoldsLock(s.procs[i]) <==> s.lk == HeldBy(i))
    && (HoldsPtable(s.procs[i]) <==> s.ptable == HeldBy(i))
    && (s.procs[i].Waking? ==> s.procs[i].c in s.procs[i].owed)
  }

  /** A pending process either still has to wait, or the holder of lk owes it a wakeup. */
  ghost predicate Promise<S(!new), C(!new)>(m: Monitor<S, C>, s: State<S, C>, i: nat, c: C)
    requires i < |s.procs|
  {
    Pending(s.procs[i], c) ==>
      m.waits(s.shared, c) || (s.lk.HeldBy? && s.lk.p < |s.procs| && Owes(s.procs[s.lk.p], c))
  }

  ghost predicate Inv<S(!new), C(!new)>(m: Monitor<S, C>, s: State<S, C>) {
    Locks(s) && forall i: nat, c :: i < |s.procs| ==> Promise(m, s, i, c)
  }

  lemma StepKeepsLocks<S(!new), C(!new)>(m: Monitor<S, C>, s: State<S, C>, step: Step<S, C>)
    requires Locks(s) && Enabled(m, s, step)
    ensures Locks(Apply(m, s, step))
  {
    var t := Apply(m, s, step);
    assert LocksOf(s, step.p);
    forall i | 0 <= i < |t.procs|
      ensures LocksOf(t, i)
    {
      assert LocksOf(s, i);
    }
  }

  lemma StepKeepsPromise<S(!new), C(!new)>(m: Monitor<S, C>, s: State<S, C>, step: Step<S, C>, i: nat, c: C)
    requires m.Disciplined() && Inv(m, s) && Enabled(m, s, step) && i < |s.procs|
    ensures Promise(m, Apply(m, s, step), i, c)
  {
    assert Promise(m, s, i, c) && LocksOf(s, i) && LocksOf(s, step.p);
  }

  // ---------------------------------------------------------------- every run

  ghost predicate Runs<S(!new), C(!new)>(m: Monitor<S, C>, s: State<S, C>, steps: seq<Step<S, C>>, t: State<S, C>)
    decreases |steps|
  {
    if steps == [] then s == t else Enabled(m, s, steps[0]) && Runs(m, Apply(m, s, steps[0]), steps[1..], t)
  }

  ghost predicate Init<S, C>(s: State<S, C>) {
    s.lk == Free && s.ptable == Free && forall i :: 0 <= i < |s.procs| ==> s.procs[i] == Outside
  }

  lemma {:induction false} RunKeepsInv<S(!new), C(!new)>(
    m: Monitor<S, C>, s: State<S, C>, steps: seq<Step<S, C>>, t: State<S, C>)
    requires m.Disciplined() && Inv(m, s) && Runs(m, s, steps, t)
    ensures Inv(m, t)
    decreases |steps|
  {
    if steps != [] {
      var next := Apply(m, s, steps[0]);
      StepKeepsLocks(m, s, steps[0]);
      forall i: nat, c | i < |next.procs|
        ensures Promise(m, next, i, c)
      {
        StepKeepsPromise(m, s, steps[0], i, c);
      }
      RunKeepsInv(m, next, steps[1..], t);
    }
  }

  /** No lost wakeup: on every run of a disciplined monitor, whenever its lock is free, a process that is SLEEPING
      on a channel still has to wait. */
  lemma NoLostWakeup<S(!new), C(!new)>(
    m: Monitor<S, C>, s: State<S, C>, steps: seq<Step<S, C>>, t: State<S, C>, i: nat, c: C)
    requires m.Disciplined() && Init(s) && Runs(m, s, steps, t)
    requires t.lk == Free && i < |t.procs| && (t.procs[i] == Asleep(c) || t.procs[i] == Marked(c))
    ensures m.waits(t.shared, c)
  {
    RunKeepsInv(m, s, steps, t);
    assert Promise(m, t, i, c);
  }

  /** The discipline is needed: a critical section that ends a wait condition and wakes nobody leaves, on some run,
      a process asleep although it need not wait, with every lock free. */
  lemma UndisciplinedLosesWakeup<S(!new), C(!new)>(m: Monitor<S, C>, v: S, t: S, c: C)
    requires m.section(v, t, {}) && m.waits(v, c) && !m.waits(t, c)
    ensures exists s, steps, last ::
              && Init(s) && s.shared == v && Runs(m, s, steps, last)
              && last.lk == Free && last.ptable == Free && last.procs == [Asleep(c), Outside] && last.shared == t
  {
    var rest := SilentSection(m, v, t, c);
    var steps := FallAsleep(m, v, t, c, rest);
    var s0: State<S, C> := State(v, Free, Free, [Outside, Outside]);
    var s9: State<S, C> := State(t, Free, Free, [Asleep(c), Outside]);
    assert Init(s0) && Runs(m, s0, steps, s9);
  }

  /** The second process runs the section, wakes nobody and leaves. */
  lemma SilentSection<S(!new), C(!new)>(m: Monitor<S, C>, v: S, t: S, c: C) returns (steps: seq<Step<S, C>>)
    requires m.section(v, t, {})
    ensures Runs(m, State(v, Free, Free, [Asleep(c), Outside]), steps, State(t, Free, Free, [Asleep(c), Outside]))
  {
    var s6 := State(v, Free, Free, [Asleep(c), Outside]);
    var s7 := State(v, HeldBy(1), Free, [Asleep(c), Inside({})]);
    var s8 := State(t, HeldBy(1), Free, [Asleep(c), Inside({})]);
    var s9 := State(t, Free, Free, [Asleep(c), Outside]);
    var steps8 := Before(m, s8, Release(1), [], s9, s9);
    var steps7 := Before(m, s7, Section(1, t, {}), steps8, s8, s9);
    steps := Before(m, s6, Acquire(1), steps7, s7, s9);
  }

  /** The first process goes to sleep. */
  lemma FallAsleep<S(!new), C(!new)>(m: Monitor<S, C>, v: S, t: S, c: C, rest: seq<Step<S, C>>)
    returns (steps: seq<Step<S, C>>)
    requires m.waits(v, c)
    requires Runs(m, State(v, Free, Free, [Asleep(c), Outside]), rest, State(t, Free, Free, [Asleep(c), Outside]))
    ensures Runs(m, State(v, Free, Free, [Outside, Outside]), steps, State(t, Free, Free, [Asleep(c), Outside]))
  {
    var s3 := State(v, HeldBy(0), HeldBy(0), [TookPtable(c), Outside]);
    var s4 := State(v, Free, HeldBy(0), [GaveUpLock(c), Outside]);
    var s5 := State(v, Free, HeldBy(0), [Marked(c), Outside]);
    var s6 := State(v, Free, Free, [Asleep(c), Outside]);
    var s9 := State(t, Free, Free, [Asleep(c), Outside]);
    var steps5 := Before(m, s5, SchedulerDropsPtable(0), rest, s6, s9);
    var steps4 := Before(m, s4, SleepMarks(0), steps5, s5, s9);
    var steps3 := Before(m, s3, SleepGivesUpLock(0), steps4, s4, s9);
    steps := CallsSleep(m, v, c, steps3, s9);
  }

  lemma CallsSleep<S(!new), C(!new)>(m: Monitor<S, C>, v: S, c: C, rest: seq<Step<S, C>>, last: State<S, C>)
    returns (steps: seq<Step<S, C>>)
    requires m.waits(v, c)
    requires Runs(m, State(v, HeldBy(0), HeldBy(0), [TookPtable(c), Outside]), rest, last)
    ensures Runs(m, State(v, Free, Free, [Outside, Outside]), steps, last)
  {
    var s0 := State(v, Free, Free, [Outside, Outside]);
    var s1 := State(v, HeldBy(0), Free, [Inside({}), Outside]);
    var s2 := State(v, HeldBy(0), Free, [Decided(c), Outside]);
    var s3 := State(v, HeldBy(0), HeldBy(0), [TookPtable(c), Outside]);
    var steps2 := Before(m, s2, SleepTakesPtable(0), rest, s3, last);
    var steps1 := Before(m, s1, CallSleep(0, c), steps2, s2, last);
    steps := Before(m, s0, Acquire(0), steps1, s1, last);
  }

  lemma Before<S(!new), C(!new)>(
    m: Monitor<S, C>, s: State<S, C>, step: Step<S, C>, rest: seq<Step<S, C>>, mid: State<S, C>, t: State<S, C>)
    returns (steps: seq<Step<S, C>>)
    requires Enabled(m, s, step) && Apply(m, s, step) == mid && Runs(m, mid, rest, t)
    ensures Runs(m, s, steps, t)
  {
    steps := [step] + rest;
    assert steps[1..] == rest;
  }
}
