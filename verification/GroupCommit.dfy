/** The log's group-commit protocol (begin_op, log_write, end_op) over all interleavings.

    Each step is one critical section of log.lock. A process runs
    begin_op, some log_writes, end_op; the last one out commits. */
module GroupCommit {
  import opened Params

  /** The fields of struct log that log.lock guards. */
  datatype Ctl = Ctl(lh: seq<nat>, outstanding: int, committing: bool)

  /** The condition under which begin_op sleeps. */
  predicate MustWait(c: Ctl) {
    c.committing || |c.lh| + (c.outstanding + 1) * MAXOPBLOCKS > LOGSIZE
  }

  function Begin(c: Ctl): Ctl {
    c.(outstanding := c.outstanding + 1)
  }

  /** log_write's list after absorption. */
  function Absorb(lh: seq<nat>, b: nat): seq<nat> {
    if b in lh then lh else lh + [b]
  }

  /** end_op's first critical section: the last operation out starts a commit. */
  function End(c: Ctl): Ctl {
    c.(outstanding := c.outstanding - 1, committing := c.committing || c.outstanding == 1)
  }

  // ---------------------------------------------------------------- the protocol

  /** What a process is doing: nothing, an operation that has logged `spent` new blocks, or the commit. */
  datatype Proc = Outside | InOp(spent: nat) | Committing

  datatype State = State(ctl: Ctl, procs: seq<Proc>)

  datatype Step =
    | BeginOp(p: nat)               // the pass of begin_op that enters
    | LogWrite(p: nat, b: nat)
    | EndOp(p: nat)
    | ClearLog(p: nat)              // commit() sets log.lh.n = 0
    | FinishCommit(p: nat)          // end_op's second critical section

  /** The step can happen. An operation logs at most `budget` new blocks, which is what its caller promises;
      writing a listed block again is free. */
  predicate Enabled(s: State, step: Step, budget: nat) {
    && step.p < |s.procs|
    && match step
       case BeginOp(p) => s.procs[p].Outside? && !MustWait(s.ctl)
       case LogWrite(p, b) => s.procs[p].InOp? && (b in s.ctl.lh || s.procs[p].spent < budget)
       case EndOp(p) => s.procs[p].InOp?
       case ClearLog(p) => s.procs[p].Committing?
       case FinishCommit(p) => s.procs[p].Committing? && s.ctl.lh == []
  }

  function Apply(s: State, step: Step, budget: nat): State
    requires Enabled(s, step, budget)
  {
    match step
    case BeginOp(p) => State(Begin(s.ctl), s.procs[p := InOp(0)])
    case LogWrite(p, b) =>
      var spent := s.procs[p].spent + (if b in s.ctl.lh then 0 else 1);
      State(s.ctl.(lh := Absorb(s.ctl.lh, b)), s.procs[p := InOp(spent)])
    case EndOp(p) => State(End(s.ctl), s.procs[p := if s.ctl.outstanding == 1 then Committing else Outside])
    case ClearLog(p) => State(s.ctl.(lh := []), s.procs)
    case FinishCommit(p) => State(s.ctl.(committing := false), s.procs[p := Outside])
  }

  ghost predicate Init(s: State) {
    s.ctl == Ctl([], 0, false) && forall p :: 0 <= p < |s.procs| ==> s.procs[p] == Outside
  }

  // ---------------------------------------------------------------- the invariant

  /** How many processes are inside an operation. */
  function Active(procs: seq<Proc>): nat {
    if procs == [] then 0 else Active(procs[..|procs| - 1]) + (if procs[|procs| - 1].InOp? then 1 else 0)
  }

  /** The new blocks that the running operations may still log. */
  function Unspent(procs: seq<Proc>, budget: nat): int {
    if procs == [] then 0 else Unspent(procs[..|procs| - 1], budget) + UnspentBy(procs[|procs| - 1], budget)
  }

  function UnspentBy(p: Proc, budget: nat): int {
    if p.InOp? then budget - p.spent else 0
  }

  /** How many processes are committing. */
  function Committers(procs: seq<Proc>): nat {
    if procs == [] then 0 else Committers(procs[..|procs| - 1]) + (if procs[|procs| - 1].Committing? then 1 else 0)
  }

  ghost predicate NoDuplicates(s: seq<nat>) {
    forall i, j :: 0 <= i < j < |s| ==> s[i] != s[j]
  }

  /** Peak is the most that is ever listed at once: begin_op lets a second operation in at ten listed blocks. */
  function Peak(budget: nat): nat {
    if budget == 0 then 0 else LOGSIZE - 2 * MAXOPBLOCKS + 2 * budget
  }

  ghost predicate Inv(s: State, budget: nat) {
    && s.ctl.outstanding == Active(s.procs)
    && Committers(s.procs) == (if s.ctl.committing then 1 else 0)
    && (s.ctl.committing ==> s.ctl.outstanding == 0)
    && (s.ctl.outstanding == 0 && !s.ctl.committing ==> s.ctl.lh == [])
    && NoDuplicates(s.ctl.lh)
    && |s.ctl.lh| + Unspent(s.procs, MAXOPBLOCKS) <= LOGSIZE
    && |s.ctl.lh| + Unspent(s.procs, budget) <= Peak(budget)
    && forall p :: 0 <= p < |s.procs| && s.procs[p].InOp? ==> s.procs[p].spent <= budget
  }

  lemma {:induction false} UpdateCounts(procs: seq<Proc>, p: nat, q: Proc, budget: nat)
    requires p < |procs|
    ensures Active(procs[p := q]) == Active(procs) - (if procs[p].InOp? then 1 else 0) + (if q.InOp? then 1 else 0)
    ensures Unspent(procs[p := q], budget) == Unspent(procs, budget) - UnspentBy(procs[p], budget) + UnspentBy(q, budget)
    ensures Committers(procs[p := q])
         == Committers(procs) - (if procs[p].Committing? then 1 else 0) + (if q.Committing? then 1 else 0)
    ensures procs[p].InOp? ==> 1 <= Active(procs)
    ensures procs[p].Committing? ==> 1 <= Committers(procs)
  {
    var init := procs[..|procs| - 1];
    if p < |procs| - 1 {
      UpdateCounts(init, p, q, budget);
      assert procs[p := q][..|procs| - 1] == init[p := q];
    } else {
      assert procs[p := q][..|procs| - 1] == init;
    }
  }

  /** Each operation's unspent budget is at most the budget. */
  lemma {:induction false} UnspentBound(procs: seq<Proc>, budget: nat)
    ensures Unspent(procs, budget) <= budget * Active(procs)
  {
    if procs != [] {
      UnspentBound(procs[..|procs| - 1], budget);
    }
  }

  lemma {:induction false} InitialCounts(procs: seq<Proc>, budget: nat)
    requires forall p :: 0 <= p < |procs| ==> procs[p] == Outside
    ensures Active(procs) == 0 && Unspent(procs, budget) == 0 && Committers(procs) == 0
  {
    if procs != [] {
      InitialCounts(procs[..|procs| - 1], budget);
    }
  }

  lemma InitInv(s: State, budget: nat)
    requires Init(s)
    ensures Inv(s, budget)
  {
    InitialCounts(s.procs, budget);
    InitialCounts(s.procs, MAXOPBLOCKS);
  }

  lemma StepInv(s: State, step: Step, budget: nat)
    requires budget <= MAXOPBLOCKS && Inv(s, budget) && Enabled(s, step, budget)
    ensures Inv(Apply(s, step, budget), budget)
  {
    var p, t := step.p, Apply(s, step, budget);
    UpdateCounts(s.procs, p, Outside, budget);
    UnspentBound(s.procs, MAXOPBLOCKS);
    if t.procs != s.procs {
      UpdateCounts(s.procs, p, t.procs[p], budget);
      UpdateCounts(s.procs, p, t.procs[p], MAXOPBLOCKS);
    }
    PeakKept(s, step, budget);
  }

  /** The bound on what is listed and may still be listed. */
  lemma PeakKept(s: State, step: Step, budget: nat)
    requires budget <= MAXOPBLOCKS && Inv(s, budget) && Enabled(s, step, budget)
    ensures var t := Apply(s, step, budget); |t.ctl.lh| + Unspent(t.procs, budget) <= Peak(budget)
  {
    var t := Apply(s, step, budget);
    if t.procs != s.procs {
      UpdateCounts(s.procs, step.p, t.procs[step.p], budget);
    }
    if step.BeginOp? {
      UnspentNonNegative(s.procs, budget);
      UnspentBound(t.procs, budget);
      AtMostThree(s.ctl, Active(t.procs), budget);
    }
  }

  /** When begin_op lets the k-th operation in, k budgets fit on top of what is listed. */
  lemma AtMostThree(c: Ctl, k: nat, budget: nat)
    requires !MustWait(c) && 1 <= k == c.outstanding + 1 && budget <= MAXOPBLOCKS && (c.outstanding == 0 ==> c.lh == [])
    requires budget == 0 ==> c.lh == []
    ensures |c.lh| + budget * k <= Peak(budget)
  {
    assert k == 1 || k == 2 || k == 3;
  }

  // ---------------------------------------------------------------- every run

  /** t is reached from s by these steps. */
  ghost predicate Runs(s: State, steps: seq<Step>, t: State, budget: nat)
    decreases |steps|
  {
    if steps == [] then s == t
    else Enabled(s, steps[0], budget) && Runs(Apply(s, steps[0], budget), steps[1..], t, budget)
  }

  ghost predicate Reachable(t: State, budget: nat) {
    exists s, steps :: Init(s) && Runs(s, steps, t, budget)
  }

  lemma {:induction false} RunKeepsInv(s: State, steps: seq<Step>, t: State, budget: nat)
    requires budget <= MAXOPBLOCKS && Inv(s, budget) && Runs(s, steps, t, budget)
    ensures Inv(t, budget)
    decreases |steps|
  {
    if steps != [] {
      StepInv(s, steps[0], budget);
      RunKeepsInv(Apply(s, steps[0], budget), steps[1..], t, budget);
    }
  }

  lemma ReachableInv(t: State, budget: nat)
    requires budget <= MAXOPBLOCKS && Reachable(t, budget)
    ensures Inv(t, budget)
  {
    var s, steps :| Init(s) && Runs(s, steps, t, budget);
    InitInv(s, budget);
    RunKeepsInv(s, steps, t, budget);
  }

  /** In every reachable state, for every interleaving: a commit excludes operations, the logged block numbers
      are distinct, and what is logged plus what may still be logged fits the log. */
  lemma GroupCommitSafety(t: State, budget: nat)
    requires budget <= MAXOPBLOCKS && Reachable(t, budget)
    ensures t.ctl.committing ==> t.ctl.outstanding == 0 && forall p :: 0 <= p < |t.procs| ==> !t.procs[p].InOp?
    ensures t.ctl.outstanding == Active(t.procs) && Committers(t.procs) <= 1
    ensures NoDuplicates(t.ctl.lh)
    ensures |t.ctl.lh| + Unspent(t.procs, MAXOPBLOCKS) <= LOGSIZE
  {
    ReachableInv(t, budget);
    forall p | 0 <= p < |t.procs| && t.procs[p].InOp?
      ensures !t.ctl.committing
    {
      UpdateCounts(t.procs, p, Outside, budget);
    }
  }

  /** The "log.committing" and "log_write outside of trans" panics cannot happen, and no block is logged during
      a commit. */
  lemma NoProtocolPanic(t: State, step: Step, budget: nat)
    requires budget <= MAXOPBLOCKS && Reachable(t, budget) && Enabled(t, step, budget) && (step.LogWrite? || step.EndOp?)
    ensures !t.ctl.committing && 1 <= t.ctl.outstanding
  {
    GroupCommitSafety(t, budget);
    UpdateCounts(t.procs, step.p, Outside, budget);
  }

  /** When begin_op has to wait, some process is in an operation or committing, and will wake the waiters. */
  lemma WaitersHaveAWaker(t: State, budget: nat)
    requires budget <= MAXOPBLOCKS && Reachable(t, budget) && MustWait(t.ctl)
    ensures 1 <= Active(t.procs) + Committers(t.procs)
  {
    ReachableInv(t, budget);
  }

  // ---------------------------------------------------------------- the size panic

  /** log_write's first test, with `size` the number of blocks in the on-disk log, header included. It comes
      before the search for the block in the list, so it applies to listed blocks too. */
  predicate TooBig(c: Ctl, size: nat) {
    |c.lh| >= LOGSIZE || |c.lh| >= size - 1
  }

  /** Some run of operations with this budget calls log_write on a list that is too big. */
  ghost predicate SomeWritePanics(budget: nat, size: nat) {
    exists t, p, b :: Reachable(t, budget) && Enabled(t, LogWrite(p, b), budget) && TooBig(t.ctl, size)
  }

  /** No log_write panics, of a new block or of a listed one, exactly when operations log nothing, or each logs
      fewer than MAXOPBLOCKS new blocks and the on-disk log has room for the most they list together. In mkfs's
      log of LOGSIZE blocks that is a budget of nine. */
  lemma BudgetedWritesFit(budget: nat, size: nat)
    ensures !SomeWritePanics(budget, size) <==> budget == 0 || (budget < MAXOPBLOCKS && Peak(budget) < size - 1)
  {
    if budget == 0 || (budget < MAXOPBLOCKS && Peak(budget) < size - 1) {
      forall t, p, b | Reachable(t, budget) && Enabled(t, LogWrite(p, b), budget)
        ensures !TooBig(t.ctl, size)
      {
        ReachableInv(t, budget);
        UnspentNonNegative(t.procs, budget);
      }
    } else {
      var b := if budget < MAXOPBLOCKS then budget else MAXOPBLOCKS;
      ReachFilled(b, 2 * b);
      var t := Filled(b, 2 * b);
      LargerBudget(t, b, budget);
      assert t.ctl.lh[0] == 0;
      assert Enabled(t, LogWrite(1, 0), budget) && TooBig(t.ctl, size);
    }
  }

  /** The budget that begin_op reserves is too much for a log of any size: the list reaches LOGSIZE, and then
      writing a listed block again panics. */
  lemma NoSizeIsEnough(size: nat)
    ensures SomeWritePanics(MAXOPBLOCKS, size)
  {
    BudgetedWritesFit(MAXOPBLOCKS, size);
  }

  lemma {:induction false} UnspentNonNegative(procs: seq<Proc>, budget: nat)
    requires forall p :: 0 <= p < |procs| && procs[p].InOp? ==> procs[p].spent <= budget
    ensures 0 <= Unspent(procs, budget)
  {
    if procs != [] {
      UnspentNonNegative(procs[..|procs| - 1], budget);
    }
  }

  /** Runs within a budget are runs within any larger one. */
  lemma {:induction false} LargerBudgetRuns(s: State, steps: seq<Step>, t: State, budget: nat, larger: nat)
    requires Runs(s, steps, t, budget) && budget <= larger
    ensures Runs(s, steps, t, larger)
    decreases |steps|
  {
    if steps != [] {
      LargerBudgetRuns(Apply(s, steps[0], budget), steps[1..], t, budget, larger);
    }
  }

  lemma LargerBudget(t: State, budget: nat, larger: nat)
    requires Reachable(t, budget) && budget <= larger
    ensures Reachable(t, larger)
  {
    var s, steps :| Init(s) && Runs(s, steps, t, budget);
    LargerBudgetRuns(s, steps, t, budget, larger);
  }

  // ---------------------------------------------------------------- a run to the peak

  function Numbers(n: nat): (r: seq<nat>)
    ensures |r| == n && forall i :: 0 <= i < n ==> r[i] == i
  {
    seq(n, i => i)
  }

  lemma {:induction false} RunsAppend(s: State, steps: seq<Step>, t: State, step: Step, budget: nat)
    requires Runs(s, steps, t, budget) && Enabled(t, step, budget)
    ensures Runs(s, steps + [step], Apply(t, step, budget), budget)
    decreases |steps|
  {
    if steps == [] {
      assert [step][1..] == [];
    } else {
      RunsAppend(Apply(s, steps[0], budget), steps[1..], t, step, budget);
      assert (steps + [step])[1..] == steps[1..] + [step];
    }
  }

  lemma ReachStep(s: State, step: Step, t: State, budget: nat)
    requires Reachable(s, budget) && Enabled(s, step, budget) && t == Apply(s, step, budget)
    ensures Reachable(t, budget)
  {
    var s0, steps :| Init(s0) && Runs(s0, steps, s, budget);
    RunsAppend(s0, steps, s, step, budget);
  }

  /** One operation stays open while others have logged k blocks and ended. */
  function Built(k: nat): State {
    State(Ctl(Numbers(k), 1, false), [InOp(0), Outside])
  }

  /** One more operation begins, logs one block and ends. */
  lemma BuildOneMore(k: nat, budget: nat)
    requires k < MAXOPBLOCKS && 1 <= budget && Reachable(Built(k), budget)
    ensures Reachable(Built(k + 1), budget)
  {
    var lh := Numbers(k + 1);
    assert Numbers(k) + [k] == lh;
    var s1 := State(Ctl(Numbers(k), 2, false), [InOp(0), InOp(0)]);
    var s2 := State(Ctl(lh, 2, false), [InOp(0), InOp(1)]);
    ReachStep(Built(k), BeginOp(1), s1, budget);
    ReachStep(s1, LogWrite(1, k), s2, budget);
    ReachStep(s2, EndOp(1), Built(k + 1), budget);
  }

  lemma {:induction false} ReachBuilt(k: nat, budget: nat)
    requires k <= MAXOPBLOCKS && 1 <= budget
    ensures Reachable(Built(k), budget)
  {
    if k == 0 {
      var s0 := State(Ctl([], 0, false), [Outside, Outside]);
      assert Init(s0) && Runs(s0, [], s0, budget) && Reachable(s0, budget);
      ReachStep(s0, BeginOp(0), Built(0), budget);
    } else {
      ReachBuilt(k - 1, budget);
      BuildOneMore(k - 1, budget);
    }
  }

  /** With ten blocks listed, two open operations have logged k more between them. */
  function Filled(budget: nat, k: nat): State
    requires k <= 2 * budget
  {
    State(Ctl(Numbers(MAXOPBLOCKS + k), 2, false),
          [InOp(if k < budget then 0 else k - budget), InOp(if k < budget then k else budget)])
  }

  lemma {:induction false} ReachFilled(budget: nat, k: nat)
    requires 1 <= budget <= MAXOPBLOCKS && k <= 2 * budget
    ensures Reachable(Filled(budget, k), budget)
  {
    if k == 0 {
      ReachBuilt(MAXOPBLOCKS, budget);
      ReachStep(Built(MAXOPBLOCKS), BeginOp(1), Filled(budget, 0), budget);
    } else {
      ReachFilled(budget, k - 1);
      var b := MAXOPBLOCKS + k - 1;
      assert Numbers(b) + [b] == Numbers(b + 1);
      ReachStep(Filled(budget, k - 1), LogWrite(if k <= budget then 1 else 0, b), Filled(budget, k), budget);
    }
  }
}
