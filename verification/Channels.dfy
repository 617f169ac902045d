/** The log's and the pipe's wait channels as monitors: which of their critical sections keep the sleep/wakeup
    discipline, and so lose no wakeup. */
module Channels {
  import opened SleepWakeup
  import GroupCommit
  import Pipe

  // ---------------------------------------------------------------- log.lock and its one channel

  datatype LogChan = LogChan          // &log

  ghost predicate LogWaits(c: GroupCommit.Ctl, chan: LogChan) {
    GroupCommit.MustWait(c)
  }

  /** begin_op's entry, log_write, end_op, and the critical section after the commit. */
  ghost predicate LogSection(c: GroupCommit.Ctl, d: GroupCommit.Ctl, w: set<LogChan>) {
    || (!GroupCommit.MustWait(c) && d == GroupCommit.Begin(c) && w == {})
    || (exists b :: d == c.(lh := GroupCommit.Absorb(c.lh, b)) && w == {})
    || (!c.committing && d == GroupCommit.End(c) && w == if d.committing then {} else {LogChan})
    || (c.committing && d == c.(committing := false) && w == {LogChan})
  }

  /** commit() empties the list without taking log.lock. */
  ghost predicate LogQuiet(c: GroupCommit.Ctl, d: GroupCommit.Ctl) {
    c.committing && d == c.(lh := [])
  }

  ghost function LogMonitor(): Monitor<GroupCommit.Ctl, LogChan> {
    Monitor(LogWaits, LogSection, LogQuiet)
  }

  lemma LogIsDisciplined()
    ensures LogMonitor().Disciplined()
  {
    forall c, d, w, chan | LogSection(c, d, w) && LogWaits(c, chan) && !LogWaits(d, chan)
      ensures chan in w
    {
      assert chan == LogChan;
    }
  }

  /** Whenever log.lock is free, whoever sleeps in begin_op still has to: a commit is running or the log is short
      of space. */
  lemma LogLosesNoWakeup(
    s: State<GroupCommit.Ctl, LogChan>, steps: seq<Step<GroupCommit.Ctl, LogChan>>, t: State<GroupCommit.Ctl, LogChan>, i: nat)
    requires Init(s) && Runs(LogMonitor(), s, steps, t)
    requires t.lk == Free && i < |t.procs| && t.procs[i] == Asleep(LogChan)
    ensures GroupCommit.MustWait(t.shared)
  {
    LogIsDisciplined();
    NoLostWakeup(LogMonitor(), s, steps, t, i, LogChan);
  }

  // ---------------------------------------------------------------- a pipe's lock and its two channels

  ghost predicate PipeWaits(v: Pipe.View, c: Pipe.Chan) {
    Pipe.Waits(v, c)
  }

  ghost predicate PipeQuiet(v: Pipe.View, t: Pipe.View) {
    false
  }

  /** Every critical section of pipe.c. */
  ghost predicate PipeSection(v: Pipe.View, t: Pipe.View, w: set<Pipe.Chan>) {
    v.inFlight <= Pipe.PIPESIZE && exists call :: t == Pipe.After(v, call) && w == Pipe.Wakes(v, call)
  }

  ghost predicate PipeSectionButSilentFill(v: Pipe.View, t: Pipe.View, w: set<Pipe.Chan>) {
    && v.inFlight <= Pipe.PIPESIZE
    && exists call :: !Pipe.SilentFill(v, call) && t == Pipe.After(v, call) && w == Pipe.Wakes(v, call)
  }

  ghost function PipeMonitor(): Monitor<Pipe.View, Pipe.Chan> {
    Monitor(PipeWaits, PipeSectionButSilentFill, PipeQuiet)
  }

  /** A call ends a wait condition without waking the channel exactly when it is the silent fill. */
  lemma PipeDiscipline(v: Pipe.View, call: Pipe.Call)
    requires v.inFlight <= Pipe.PIPESIZE
    ensures (forall c :: Pipe.Waits(v, c) && !Pipe.Waits(Pipe.After(v, call), c) ==> c in Pipe.Wakes(v, call))
       <==> !Pipe.SilentFill(v, call)
  {
    if Pipe.SilentFill(v, call) {
      assert Pipe.Waits(v, Pipe.ReadChan) && !Pipe.Waits(Pipe.After(v, call), Pipe.ReadChan);
    }
  }

  /** Whenever the pipe's lock is free, every sleeping reader sees an empty pipe with a writer open and every
      sleeping writer a full pipe with a reader open, on every run without a silent fill. */
  lemma PipeLosesNoWakeup(
    s: State<Pipe.View, Pipe.Chan>, steps: seq<Step<Pipe.View, Pipe.Chan>>, t: State<Pipe.View, Pipe.Chan>, i: nat, c: Pipe.Chan)
    requires Init(s) && Runs(PipeMonitor(), s, steps, t)
    requires t.lk == Free && i < |t.procs| && t.procs[i] == Asleep(c)
    ensures Pipe.Waits(t.shared, c)
  {
    forall v, u, w, d | PipeSectionButSilentFill(v, u, w) && Pipe.Waits(v, d) && !Pipe.Waits(u, d)
      ensures d in w
    {
      var call :| !Pipe.SilentFill(v, call) && u == Pipe.After(v, call) && w == Pipe.Wakes(v, call);
      PipeDiscipline(v, call);
    }
    assert PipeMonitor().Disciplined();
    NoLostWakeup(PipeMonitor(), s, steps, t, i, c);
  }

  /** The silent fill does lose a wakeup: a killed writer with more than a pipeful for an empty pipe leaves a
      reader asleep beside a full pipe. */
  lemma KilledWriterLosesWakeup(want: nat)
    requires Pipe.PIPESIZE < want
    ensures exists s, steps, t: State<Pipe.View, Pipe.Chan> ::
              && Init(s) && s.shared == Pipe.View(0, true, true)
              && Runs(Monitor(PipeWaits, PipeSection, PipeQuiet), s, steps, t)
              && t.lk == Free && t.procs == [Asleep(Pipe.ReadChan), Outside]
              && t.shared == Pipe.After(s.shared, Pipe.WriteCall(want, true)) && t.shared.inFlight == Pipe.PIPESIZE
  {
    var v, call := Pipe.View(0, true, true), Pipe.WriteCall(want, true);
    var t := Pipe.After(v, call);
    var m := Monitor(PipeWaits, PipeSection, PipeQuiet);
    assert Pipe.Wakes(v, call) == {} && PipeSection(v, t, {});
    UndisciplinedLosesWakeup(m, v, t, Pipe.ReadChan);
    var s, steps, last :|
      && Init(s) && s.shared == v && Runs(m, s, steps, last)
      && last.lk == Free && last.ptable == Free && last.procs == [Asleep(Pipe.ReadChan), Outside]
      && last.shared == t;
  }
}
