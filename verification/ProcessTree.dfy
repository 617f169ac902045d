/** Every interleaving of the process table's critical sections, and what they keep. */
module ProcessTree {
  import opened Processes

  /** Where a process is in the kernel between two critical sections; a slot being forked names its forker. */
  datatype Loc = Plain | Forking(np: int) | Linked(np: int) | Born(forker: int) | InWait

  /** exited and reaped record the pids of the processes that exited and, in order, were collected. */
  datatype State = State(proc: seq<Proc>, loc: seq<Loc>, nextpid: nat, exited: set<nat>, reaped: seq<nat>)

  datatype Step =
    | Alloc(i: nat, j: nat)         // fork: allocproc claims slot j
    | ForkFail(i: nat)              // fork: no stack or no page table
    | Link(i: nat)                  // fork: np->parent = proc, without the lock
    | ForkDone(i: nat)              // fork: the child becomes RUNNABLE
    | Exit(i: nat)
    | Wait(i: nat, found: Found)    // one turn of wait's loop
    | Kill(j: nat)
    | Wakeup(c: Chan)
    | Sleep(i: nat, id: int)        // on anything but a process
    | Run(i: nat)                   // the scheduler picks i
    | Yield(i: nat)

  ghost predicate Shaped(s: State) {
    |s.loc| == |s.proc| && INIT < |s.proc|
  }

  ghost predicate Runs(s: State, i: nat) {
    i < |s.proc| && i < |s.loc| && s.proc[i].state == RUNNING
  }

  /** t is s with slot i's contents and location replaced. */
  ghost predicate Becomes(s: State, i: nat, p: Proc, l: Loc, t: State)
    requires i < |s.proc| && i < |s.loc|
  {
    t == s.(proc := s.proc[i := p], loc := s.loc[i := l])
  }

  ghost predicate Next(s: State, a: Step, t: State)
    requires Shaped(s)
  {
    match a
    case Alloc(i, j) =>
      && Runs(s, i) && s.loc[i] == Plain && j < |s.proc| && s.proc[j].state == UNUSED
      && t == s.(proc := s.proc[j := s.proc[j].(state := EMBRYO, pid := s.nextpid)],
                 loc := s.loc[i := Forking(j)][j := Born(i)], nextpid := s.nextpid + 1)
    case ForkFail(i) =>
      && Runs(s, i) && s.loc[i].Forking? && 0 <= s.loc[i].np < |s.proc|
      && var j := s.loc[i].np;
         t == s.(proc := s.proc[j := s.proc[j].(state := UNUSED)], loc := s.loc[i := Plain][j := Plain])
    case Link(i) =>
      && Runs(s, i) && s.loc[i].Forking? && 0 <= s.loc[i].np < |s.proc|
      && var j := s.loc[i].np;
         t == s.(proc := s.proc[j := s.proc[j].(parent := i)], loc := s.loc[i := Linked(j)])
    case ForkDone(i) =>
      && Runs(s, i) && s.loc[i].Linked? && 0 <= s.loc[i].np < |s.proc|
      && var j := s.loc[i].np;
         t == s.(proc := s.proc[j := s.proc[j].(state := RUNNABLE)], loc := s.loc[i := Plain][j := Plain])
    case Exit(i) =>
      && Runs(s, i) && s.loc[i] == Plain && i != INIT
      && Exited(s.proc, i, t.proc) && t == s.(proc := t.proc, exited := s.exited + {s.proc[i].pid})
    case Wait(i, found) =>
      && Runs(s, i) && (s.loc[i] == Plain || s.loc[i] == InWait) && Scanned(s.proc, i, found)
      && (if found.Zombie? then
            t == s.(proc := s.proc[found.k := Reaped(s.proc[found.k])], loc := s.loc[i := Plain],
                    reaped := s.reaped + [s.proc[found.k].pid])
          else if found.NoKids? || s.proc[i].killed then
            Becomes(s, i, s.proc[i], Plain, t)
          else
            Becomes(s, i, s.proc[i].(chan := OfProc(i), state := SLEEPING), InWait, t))
    case Kill(j) =>
      j < |s.proc| && Becomes(s, j, Killed(s.proc[j]), s.loc[j], t)
    case Wakeup(c) =>
      Woken(s.proc, c, t.proc) && t == s.(proc := t.proc)
    case Sleep(i, id) =>
      Runs(s, i) && s.loc[i] != InWait && Becomes(s, i, s.proc[i].(chan := Other(id), state := SLEEPING), s.loc[i], t)
    case Run(i) =>
      && i < |s.proc| && s.proc[i].state == RUNNABLE
      && Becomes(s, i, s.proc[i].(chan := Nowhere, state := RUNNING), s.loc[i], t)
    case Yield(i) =>
      Runs(s, i) && Becomes(s, i, s.proc[i].(state := RUNNABLE), s.loc[i], t)
  }

  // The invariant

  ghost predicate ParentAlive(s: State, k: nat)
    requires k < |s.proc|
  {
    var parent := s.proc[k].parent;
    0 <= parent < |s.proc| && parent != k && Alive(s.proc[parent])
  }

  /** Slot k's place in the tree, by state. */
  ghost predicate PlaceOk(s: State, k: nat)
    requires Shaped(s) && k < |s.proc|
  {
    var p, l := s.proc[k], s.loc[k];
    match p.state
    case UNUSED => k != INIT && p.parent == NOBODY && l == Plain
    case EMBRYO =>
      && k != INIT && l.Born? && 0 <= l.forker < |s.proc| && l.forker != k && Alive(s.proc[l.forker])
      && (if s.loc[l.forker] == Linked(k) then p.parent == l.forker else s.loc[l.forker] == Forking(k) && p.parent == NOBODY)
    case ZOMBIE => k != INIT && ParentAlive(s, k) && l == Plain
    case _ =>
      && (if k == INIT then p.parent == NOBODY else ParentAlive(s, k))
      && !l.Born?
      && (l.Forking? || l.Linked? ==> 0 <= l.np < |s.proc| && s.loc[l.np] == Born(k))
  }

  ghost predicate TreeOk(s: State) {
    Shaped(s) && forall k :: 0 <= k < |s.proc| ==> PlaceOk(s, k)
  }

  /** A process asleep in wait sleeps on itself, has a child, and none of its children is a zombie. */
  ghost predicate SleepOk(s: State, k: nat)
    requires Shaped(s) && k < |s.proc|
  {
    s.proc[k].state == SLEEPING ==>
      && (s.proc[k].chan.OfProc? ==> s.loc[k] == InWait)
      && (s.loc[k] == InWait ==> s.proc[k].chan == OfProc(k) && HasChild(s.proc, k) && !HasZombie(s.proc, k))
  }

  ghost predicate WaitersOk(s: State) {
    Shaped(s) && forall k :: 0 <= k < |s.proc| ==> SleepOk(s, k)
  }

  ghost predicate AtRest(l: Loc) {
    l == Plain || l == InWait
  }

  /** Only alive slots change, and stay alive; nobody's parent changes, and nobody starts or ends a fork. */
  ghost predicate OnlyStirs(s: State, t: State)
    requires Shaped(s)
  {
    && |t.proc| == |s.proc| && |t.loc| == |s.loc|
    && forall k :: 0 <= k < |s.proc| ==>
         && t.proc[k].parent == s.proc[k].parent
         && (t.proc[k].state == s.proc[k].state || (Alive(s.proc[k]) && Alive(t.proc[k])))
         && (t.loc[k] == s.loc[k] || (Alive(s.proc[k]) && AtRest(s.loc[k]) && AtRest(t.loc[k])))
  }

  lemma StirKeepsTree(s: State, t: State)
    requires TreeOk(s) && OnlyStirs(s, t)
    ensures TreeOk(t)
  {
    forall k | 0 <= k < |t.proc|
      ensures PlaceOk(t, k)
    {
      assert PlaceOk(s, k);
    }
  }

  lemma AllocKeepsTree(s: State, i: nat, j: nat, t: State)
    requires TreeOk(s) && Next(s, Alloc(i, j), t)
    ensures TreeOk(t)
  {
    assert PlaceOk(s, i) && PlaceOk(s, j);
    forall k | 0 <= k < |t.proc|
      ensures PlaceOk(t, k)
    {
      assert PlaceOk(s, k);
    }
  }

  lemma LinkKeepsTree(s: State, i: nat, t: State)
    requires TreeOk(s) && Next(s, Link(i), t)
    ensures TreeOk(t)
  {
    assert PlaceOk(s, i) && PlaceOk(s, s.loc[i].np);
    forall k | 0 <= k < |t.proc|
      ensures PlaceOk(t, k)
    {
      assert PlaceOk(s, k);
    }
  }

  lemma ForkEndKeepsTree(s: State, a: Step, t: State)
    requires TreeOk(s) && Next(s, a, t) && (a.ForkFail? || a.ForkDone?)
    ensures TreeOk(t)
  {
    assert PlaceOk(s, a.i) && PlaceOk(s, s.loc[a.i].np);
    forall k | 0 <= k < |t.proc|
      ensures PlaceOk(t, k)
    {
      assert PlaceOk(s, k);
    }
  }

  lemma ExitKeepsTree(s: State, i: nat, t: State)
    requires TreeOk(s) && Next(s, Exit(i), t)
    ensures TreeOk(t)
  {
    assert PlaceOk(s, i) && PlaceOk(s, INIT);
    forall k | 0 <= k < |t.proc|
      ensures ExitedSlot(s.proc[k], t.proc[k], i, k)
    {
      assert t.proc[k] == AfterExit(s.proc, i, k);
    }
    ExitedTree(s, i, t);
  }

  /** What an exit of process i can make of slot k: its children become init's, and only i itself dies. */
  ghost predicate ExitedSlot(p: Proc, q: Proc, i: nat, k: nat) {
    && q.parent == (if p.parent == i then INIT else p.parent)
    && (if k == i then q.state == ZOMBIE else q.state == p.state || (Alive(p) && Alive(q)))
  }

  lemma ExitedTree(s: State, i: nat, t: State)
    requires TreeOk(s) && Runs(s, i) && s.loc[i] == Plain && i != INIT && t.loc == s.loc && |t.proc| == |s.proc|
    requires forall k :: 0 <= k < |s.proc| ==> ExitedSlot(s.proc[k], t.proc[k], i, k)
    ensures TreeOk(t)
  {
    assert PlaceOk(s, i) && PlaceOk(s, INIT);
    assert ExitedSlot(s.proc[INIT], t.proc[INIT], i, INIT);
    forall k | 0 <= k < |t.proc|
      ensures PlaceOk(t, k)
    {
      assert PlaceOk(s, k) && ExitedSlot(s.proc[k], t.proc[k], i, k);
    }
  }

  lemma ReapKeepsTree(s: State, i: nat, found: Found, t: State)
    requires TreeOk(s) && Next(s, Wait(i, found), t) && found.Zombie?
    ensures TreeOk(t)
  {
    assert PlaceOk(s, i);
    forall k | 0 <= k < |t.proc|
      ensures PlaceOk(t, k)
    {
      assert PlaceOk(s, k);
    }
  }

  lemma TreeStep(s: State, a: Step, t: State)
    requires TreeOk(s) && Next(s, a, t)
    ensures TreeOk(t)
  {
    if a.Exit? {
      ExitKeepsTree(s, a.i, t);
    } else if a.Alloc? {
      AllocKeepsTree(s, a.i, a.j, t);
    } else if a.Link? {
      LinkKeepsTree(s, a.i, t);
    } else if a.ForkFail? || a.ForkDone? {
      ForkEndKeepsTree(s, a, t);
    } else if a.Wait? && a.found.Zombie? {
      ReapKeepsTree(s, a.i, a.found, t);
    } else {
      StirKeepsTree(s, t);
    }
  }

  // Sleepers in wait

  lemma ExitKeepsWaiters(s: State, i: nat, t: State)
    requires TreeOk(s) && WaitersOk(s) && Next(s, Exit(i), t)
    ensures WaitersOk(t)
  {
    assert PlaceOk(s, i);
    forall k | 0 <= k < |t.proc|
      ensures SleepOk(t, k)
    {
      assert SleepOk(s, k) && t.proc[k] == AfterExit(s.proc, i, k);
      if t.proc[k].state == SLEEPING && t.loc[k] == InWait {
        assert k != s.proc[i].parent && (k == INIT ==> !HasZombie(s.proc, i));
        var c :| Child(s.proc, c, k);
        assert Child(t.proc, c, k);
        forall z
          ensures ZombieChild(t.proc, z, k) ==> z == i || ZombieChild(s.proc, z, k) || (k == INIT && ZombieChild(s.proc, z, i))
        {
          assert ZombieChild(t.proc, z, k) ==> t.proc[z] == AfterExit(s.proc, i, z);
        }
      }
    }
  }

  /** A process asleep in wait after a step was so before it, or has just found children none of whom is a zombie. */
  lemma WaiterBefore(s: State, a: Step, t: State, k: nat)
    requires TreeOk(s) && WaitersOk(s) && Next(s, a, t) && !a.Exit? && k < |t.proc|
    ensures t.proc[k].state == SLEEPING && t.proc[k].chan.OfProc? ==> t.loc[k] == InWait
    ensures t.proc[k].state == SLEEPING && t.loc[k] == InWait ==>
              t.proc[k].chan == OfProc(k) && HasChild(s.proc, k) && !HasZombie(s.proc, k)
  {
    assert SleepOk(s, k) && PlaceOk(s, k);
  }

  /** No step but exit takes a child away from a process without zombie children. */
  lemma ChildStays(s: State, a: Step, t: State, c: int, k: nat)
    requires TreeOk(s) && Next(s, a, t) && !a.Exit? && Child(s.proc, c, k) && !ZombieChild(s.proc, c, k)
    ensures Child(t.proc, c, k)
  {
    if a.Link? {
      assert PlaceOk(s, a.i) && PlaceOk(s, c);
    }
  }

  /** Only exit makes a zombie. */
  lemma NoNewZombie(s: State, a: Step, t: State, z: int, k: nat)
    requires TreeOk(s) && Next(s, a, t) && !a.Exit? && ZombieChild(t.proc, z, k)
    ensures ZombieChild(s.proc, z, k)
  {
    if a.Link? {
      assert PlaceOk(s, a.i) && PlaceOk(s, s.loc[a.i].np);
    }
  }

  lemma OthersKeepWaiters(s: State, a: Step, t: State)
    requires TreeOk(s) && WaitersOk(s) && Next(s, a, t) && !a.Exit?
    ensures WaitersOk(t)
  {
    forall k | 0 <= k < |t.proc|
      ensures SleepOk(t, k)
    {
      WaiterBefore(s, a, t, k);
      if t.proc[k].state == SLEEPING && t.loc[k] == InWait {
        var c :| Child(s.proc, c, k);
        ChildStays(s, a, t, c, k);
        forall z | ZombieChild(t.proc, z, k)
          ensures ZombieChild(s.proc, z, k)
        {
          NoNewZombie(s, a, t, z, k);
        }
      }
    }
  }

  // Pids, and who has been collected

  /** Pids in use are distinct and below nextpid; a collected process has left the table. */
  ghost predicate PidOk(s: State, k: nat)
    requires k < |s.proc|
  {
    var pid := s.proc[k].pid;
    && pid < s.nextpid && pid !in s.reaped
    && (s.proc[k].state == UNUSED || 0 < pid)
    && (0 < pid ==> forall j :: 0 <= j < |s.proc| && j != k ==> s.proc[j].pid != pid)
  }

  ghost predicate IsZombie(s: State, k: int, pid: nat) {
    0 <= k < |s.proc| && s.proc[k].state == ZOMBIE && s.proc[k].pid == pid
  }

  ghost predicate Uncollected(s: State, pid: nat) {
    exists k :: IsZombie(s, k, pid)
  }

  ghost predicate Distinct(a: seq<nat>) {
    forall i, j :: 0 <= i < j < |a| ==> a[i] != a[j]
  }

  /** Every process that exited is a zombie in the table or has been collected, once. */
  ghost predicate ReapOk(s: State) {
    && 0 < s.nextpid && (forall k :: 0 <= k < |s.proc| ==> PidOk(s, k))
    && Distinct(s.reaped) && 0 !in s.reaped && (forall q :: q in s.reaped ==> q < s.nextpid)
    && (forall q :: q in s.exited <==> q in s.reaped || Uncollected(s, q))
  }

  /** Nobody gets a pid, comes to life, exits or is collected. */
  ghost predicate SamePids(s: State, t: State) {
    && |t.proc| == |s.proc| && t.exited == s.exited && t.reaped == s.reaped && t.nextpid == s.nextpid
    && forall k :: 0 <= k < |s.proc| ==>
         && t.proc[k].pid == s.proc[k].pid
         && (t.proc[k].state == ZOMBIE <==> s.proc[k].state == ZOMBIE)
         && (s.proc[k].state == UNUSED ==> t.proc[k].state == UNUSED)
  }

  lemma SamePidsKeepReap(s: State, t: State)
    requires ReapOk(s) && SamePids(s, t)
    ensures ReapOk(t)
  {
    forall k | 0 <= k < |t.proc|
      ensures PidOk(t, k)
    {
      assert PidOk(s, k);
    }
    forall k, q: nat
      ensures IsZombie(t, k, q) <==> IsZombie(s, k, q)
    {
    }
  }

  lemma AllocKeepsReap(s: State, i: nat, j: nat, t: State)
    requires Shaped(s) && ReapOk(s) && Next(s, Alloc(i, j), t)
    ensures ReapOk(t)
  {
    forall k | 0 <= k < |t.proc|
      ensures PidOk(t, k)
    {
      assert PidOk(s, k);
      forall m | 0 <= m < |s.proc|
        ensures s.proc[m].pid < s.nextpid
      {
        assert PidOk(s, m);
      }
    }
    forall k, q: nat
      ensures IsZombie(t, k, q) <==> IsZombie(s, k, q)
    {
    }
  }

  lemma ExitKeepsReap(s: State, i: nat, t: State)
    requires Shaped(s) && ReapOk(s) && Next(s, Exit(i), t)
    ensures ReapOk(t)
  {
    forall k | 0 <= k < |t.proc|
      ensures t.proc[k].pid == s.proc[k].pid && (t.proc[k].state == ZOMBIE <==> k == i || s.proc[k].state == ZOMBIE)
      ensures PidOk(t, k)
    {
      assert PidOk(s, k) && t.proc[k] == AfterExit(s.proc, i, k);
    }
    forall k, q: nat
      ensures IsZombie(t, k, q) <==> (k == i && q == s.proc[i].pid) || IsZombie(s, k, q)
    {
    }
    assert IsZombie(t, i, s.proc[i].pid);
  }

  lemma CollectKeepsReap(s: State, i: nat, found: Found, t: State)
    requires Shaped(s) && ReapOk(s) && Next(s, Wait(i, found), t) && found.Zombie?
    ensures ReapOk(t)
  {
    var z := found.k;
    assert PidOk(s, z);
    forall k | 0 <= k < |t.proc|
      ensures PidOk(t, k)
    {
      assert PidOk(s, k);
    }
    forall k, q: nat
      ensures IsZombie(s, k, q) <==> (k == z && q == s.proc[z].pid) || IsZombie(t, k, q)
    {
    }
    assert IsZombie(s, z, s.proc[z].pid);
  }

  lemma ReapStep(s: State, a: Step, t: State)
    requires TreeOk(s) && ReapOk(s) && Next(s, a, t)
    ensures ReapOk(t)
  {
    if a.Exit? {
      ExitKeepsReap(s, a.i, t);
    } else if a.Alloc? {
      AllocKeepsReap(s, a.i, a.j, t);
    } else if a.Wait? && a.found.Zombie? {
      CollectKeepsReap(s, a.i, a.found, t);
    } else {
      if a.ForkFail? || a.Link? || a.ForkDone? {
        assert PlaceOk(s, a.i) && PlaceOk(s, s.loc[a.i].np);
      }
      SamePidsKeepReap(s, t);
    }
  }

  // All runs

  ghost predicate Booted(s: State) {
    && Shaped(s) && s.proc[INIT] == Proc(RUNNABLE, 1, NOBODY, Nowhere, false)
    && (forall k :: 0 < k < |s.proc| ==> s.proc[k] == Proc(UNUSED, 0, NOBODY, Nowhere, false))
    && (forall k :: 0 <= k < |s.loc| ==> s.loc[k] == Plain)
    && s.nextpid == 2 && s.exited == {} && s.reaped == []
  }

  ghost predicate IsRun(run: seq<State>, steps: seq<Step>) {
    && |run| == |steps| + 1 && Booted(run[0])
    && forall n :: 0 <= n < |steps| ==> Shaped(run[n]) && Next(run[n], steps[n], run[n + 1])
  }

  lemma {:induction false} RunKeeps(run: seq<State>, steps: seq<Step>, n: nat)
    requires IsRun(run, steps) && n < |run|
    ensures TreeOk(run[n]) && WaitersOk(run[n]) && ReapOk(run[n])
  {
    if n == 0 {
      forall k | 0 <= k < |run[0].proc|
        ensures PlaceOk(run[0], k) && SleepOk(run[0], k) && PidOk(run[0], k)
      {
      }
    } else {
      RunKeeps(run, steps, n - 1);
      var s, a, t := run[n - 1], steps[n - 1], run[n];
      TreeStep(s, a, t);
      ReapStep(s, a, t);
      if a.Exit? {
        ExitKeepsWaiters(s, a.i, t);
      } else {
        OthersKeepWaiters(s, a, t);
      }
    }
  }

  /** On every run: each process but init that is past EMBRYO has a parent that is alive. */
  lemma ParentsAreAlive(run: seq<State>, steps: seq<Step>, n: nat, k: nat)
    requires IsRun(run, steps) && n < |run| && k < |run[n].proc| && k != INIT
    requires run[n].proc[k].state != UNUSED && run[n].proc[k].state != EMBRYO
    ensures var s := run[n];
            var parent := s.proc[k].parent;
            0 <= parent < |s.proc| && parent != k && s.proc[parent].state !in {UNUSED, EMBRYO, ZOMBIE}
  {
    RunKeeps(run, steps, n);
    assert PlaceOk(run[n], k);
  }

  /** On every run: a process asleep in wait has a child and no zombie child. */
  lemma WaitersHaveReason(run: seq<State>, steps: seq<Step>, n: nat, k: nat)
    requires IsRun(run, steps) && n < |run| && k < |run[n].proc|
    requires run[n].proc[k].state == SLEEPING && run[n].proc[k].chan.OfProc?
    ensures run[n].proc[k].chan == OfProc(k) && HasChild(run[n].proc, k) && !HasZombie(run[n].proc, k)
  {
    RunKeeps(run, steps, n);
    assert SleepOk(run[n], k);
  }

  /** As long as slot j holds pid, its parent is init or still the process forker in slot i. */
  ghost predicate ParentOrInit(s: State, j: nat, pid: nat, i: nat, forker: nat)
    requires j < |s.proc| && i < |s.proc|
  {
    var p := s.proc[j];
    p.pid == pid ==>
      p.state != UNUSED && p.state != EMBRYO && (p.parent == INIT || (p.parent == i && s.proc[i].pid == forker))
  }

  lemma ExitParentStep(s: State, a: Step, t: State, j: nat, pid: nat, i: nat, forker: nat)
    requires TreeOk(s) && Next(s, a, t) && j < |s.proc| && i < |s.proc| && 0 < pid < s.nextpid
    requires ParentOrInit(s, j, pid, i, forker) && a.Exit?
    ensures |t.proc| == |s.proc| && s.nextpid <= t.nextpid && ParentOrInit(t, j, pid, i, forker)
  {
    assert PlaceOk(s, i);
    assert t.proc[j] == AfterExit(s.proc, a.i, j) && t.proc[i] == AfterExit(s.proc, a.i, i);
  }

  lemma ForkParentStep(s: State, a: Step, t: State, j: nat, pid: nat, i: nat, forker: nat)
    requires TreeOk(s) && Next(s, a, t) && j < |s.proc| && i < |s.proc| && 0 < pid < s.nextpid
    requires ParentOrInit(s, j, pid, i, forker) && (a.ForkFail? || a.Link? || a.ForkDone?)
    ensures |t.proc| == |s.proc| && s.nextpid <= t.nextpid && ParentOrInit(t, j, pid, i, forker)
  {
    assert PlaceOk(s, a.i) && PlaceOk(s, s.loc[a.i].np);
  }

  lemma OtherParentStep(s: State, a: Step, t: State, j: nat, pid: nat, i: nat, forker: nat)
    requires TreeOk(s) && Next(s, a, t) && j < |s.proc| && i < |s.proc| && 0 < pid < s.nextpid
    requires ParentOrInit(s, j, pid, i, forker) && !(a.Exit? || a.ForkFail? || a.Link? || a.ForkDone?)
    ensures |t.proc| == |s.proc| && s.nextpid <= t.nextpid && ParentOrInit(t, j, pid, i, forker)
  {
    assert PlaceOk(s, j);
  }

  lemma ParentStep(s: State, a: Step, t: State, j: nat, pid: nat, i: nat, forker: nat)
    requires TreeOk(s) && Next(s, a, t) && j < |s.proc| && i < |s.proc| && 0 < pid < s.nextpid
    requires ParentOrInit(s, j, pid, i, forker)
    ensures |t.proc| == |s.proc| && s.nextpid <= t.nextpid && ParentOrInit(t, j, pid, i, forker)
  {
    if a.Exit? {
      ExitParentStep(s, a, t, j, pid, i, forker);
    } else if a.ForkFail? || a.Link? || a.ForkDone? {
      ForkParentStep(s, a, t, j, pid, i, forker);
    } else {
      OtherParentStep(s, a, t, j, pid, i, forker);
    }
  }

  lemma {:induction false} ParentOverRun(run: seq<State>, steps: seq<Step>, n: nat, m: nat, j: nat, pid: nat, i: nat, forker: nat)
    requires IsRun(run, steps) && n <= m < |run| && j < |run[n].proc| && i < |run[n].proc| && 0 < pid < run[n].nextpid
    requires ParentOrInit(run[n], j, pid, i, forker)
    ensures |run[m].proc| == |run[n].proc| && run[n].nextpid <= run[m].nextpid && ParentOrInit(run[m], j, pid, i, forker)
    decreases m
  {
    if n < m {
      ParentOverRun(run, steps, n, m - 1, j, pid, i, forker);
      RunKeeps(run, steps, m - 1);
      ParentStep(run[m - 1], steps[m - 1], run[m], j, pid, i, forker);
    }
  }

  /** The step ends the fork whose child is in slot j. */
  ghost predicate Forks(s: State, a: Step, j: nat) {
    a.ForkDone? && Runs(s, a.i) && s.loc[a.i] == Linked(j) && j < |s.proc|
  }

  /** The step collects the process in slot j. */
  ghost predicate Collects(s: State, a: Step, j: nat) {
    a.Wait? && a.found == Zombie(j) && Runs(s, a.i) && j < |s.proc|
  }

  /** On every run: the child that a fork put into slot j is collected, however much later, by the process that
      forked it or by init. */
  lemma CollectedByForkerOrInit(run: seq<State>, steps: seq<Step>, n: nat, m: nat, j: nat)
    requires IsRun(run, steps) && n < m < |steps| && Forks(run[n], steps[n], j) && Collects(run[m], steps[m], j)
    requires run[m].proc[j].pid == run[n].proc[j].pid
    ensures steps[m].i == INIT || (steps[m].i == steps[n].i && run[m].proc[steps[m].i].pid == run[n].proc[steps[n].i].pid)
  {
    RunKeeps(run, steps, n);
    var s, i := run[n], steps[n].i;
    assert PlaceOk(s, i) && PlaceOk(s, j) && PidOk(s, j);
    ParentOverRun(run, steps, n + 1, m, j, s.proc[j].pid, i, s.proc[i].pid);
    assert Shaped(run[m]) && Next(run[m], steps[m], run[m + 1]);
  }

  /** On every run: whoever exited is still a zombie or was collected, never twice, and no pid is used again. */
  lemma CollectedOnce(run: seq<State>, steps: seq<Step>, n: nat, pid: nat)
    requires IsRun(run, steps) && n < |run|
    ensures Distinct(run[n].reaped)
    ensures pid in run[n].exited <==> (pid in run[n].reaped) != Uncollected(run[n], pid)
    ensures pid in run[n].reaped ==> forall k :: 0 <= k < |run[n].proc| ==> run[n].proc[k].pid != pid
  {
    RunKeeps(run, steps, n);
    forall k | 0 <= k < |run[n].proc|
      ensures run[n].proc[k].pid !in run[n].reaped
    {
      assert PidOk(run[n], k);
    }
  }

  // kill, and slots that are not in use

  /** On every run: the pid of a process in use leads kill to that process. */
  lemma KillReachesProcess(run: seq<State>, steps: seq<Step>, n: nat, k: nat)
    requires IsRun(run, steps) && n < |run| && k < |run[n].proc| && run[n].proc[k].state != UNUSED
    ensures FirstWith(run[n].proc, run[n].proc[k].pid, k)
  {
    RunKeeps(run, steps, n);
    assert PidOk(run[n], k);
  }

  /** On every run: the slot kill finds is not in use exactly when no process in use has the pid. */
  lemma KillFindsUnused(run: seq<State>, steps: seq<Step>, n: nat, pid: nat, k: nat)
    requires IsRun(run, steps) && n < |run| && FirstWith(run[n].proc, pid, k)
    ensures run[n].proc[k].state == UNUSED <==> forall j :: 0 <= j < |run[n].proc| && run[n].proc[j].state != UNUSED ==> run[n].proc[j].pid != pid
  {
    forall j: nat | j < |run[n].proc| && run[n].proc[j].state != UNUSED && run[n].proc[j].pid == pid
      ensures j == k
    {
      KillReachesProcess(run, steps, n, j);
    }
  }

  /** The killed flag of a slot changes only when kill sets it and when wait collects the slot; fork keeps it. */
  lemma FlagChanges(s: State, a: Step, t: State, k: nat)
    requires Shaped(s) && Next(s, a, t) && k < |s.proc|
    ensures |t.proc| == |s.proc|
    ensures t.proc[k].killed == if a == Kill(k) then true else if a.Wait? && a.found == Zombie(k) then false else s.proc[k].killed
  {
    if a.Exit? {
      assert t.proc[k] == AfterExit(s.proc, a.i, k);
    }
  }

  /** So a child can be born killed: kill(0) marks the first unused slot, and the next fork takes it. */
  lemma BornKilled(size: nat) returns (run: seq<State>, steps: seq<Step>)
    requires 2 <= size
    ensures IsRun(run, steps) && |run| == 6 && |run[5].proc| == size
    ensures FirstWith(run[1].proc, 0, 1) && run[1].proc[1].state == UNUSED && steps[1] == Kill(1)
    ensures forall n :: 2 <= n < 5 ==> !steps[n].Kill?
    ensures run[5].proc[1].state == RUNNABLE && run[5].proc[1].killed && run[5].proc[1].parent == INIT
  {
    var rest: seq<Proc> := seq(size - 1, i => Proc(UNUSED, 0, NOBODY, Nowhere, false));
    var loc: seq<Loc> := seq(size, i => Plain);
    var s0 := State([Proc(RUNNABLE, 1, NOBODY, Nowhere, false)] + rest, loc, 2, {}, []);
    var s1 := s0.(proc := s0.proc[0 := s0.proc[0].(chan := Nowhere, state := RUNNING)], loc := s0.loc[0 := s0.loc[0]]);
    var s2 := s1.(proc := s1.proc[1 := Killed(s1.proc[1])], loc := s1.loc[1 := s1.loc[1]]);
    var s3 := s2.(proc := s2.proc[1 := s2.proc[1].(state := EMBRYO, pid := 2)], loc := s2.loc[0 := Forking(1)][1 := Born(0)], nextpid := 3);
    var s4 := s3.(proc := s3.proc[1 := s3.proc[1].(parent := 0)], loc := s3.loc[0 := Linked(1)]);
    var s5 := s4.(proc := s4.proc[1 := s4.proc[1].(state := RUNNABLE)], loc := s4.loc[0 := Plain][1 := Plain]);
    run := [s0, s1, s2, s3, s4, s5];
    steps := [Run(0), Kill(1), Alloc(0, 1), Link(0), ForkDone(0)];
    assert s1.proc[1] == rest[0];
    forall n | 0 <= n < |steps|
      ensures Shaped(run[n]) && Next(run[n], steps[n], run[n + 1])
    {
      assert n == 0 || n == 1 || n == 2 || n == 3 || n == 4;
    }
  }
}
