/** The disk under the log, as file-system calls see it over whole runs: blocks are updated, groups of updates are
    committed, and the machine may crash at any block write, also while it recovers. Log.dfy makes these steps. */
module LoggedDisk {
  import opened Blocks
  import opened RedoLog
  import GroupCommit

  /** Equal inside the log region. */
  ghost predicate SameLog(l: Layout, a: Image, b: Image) {
    |a| == |b| && forall x :: 0 <= x < |a| && InLog(l, x) ==> a[x] == b[x]
  }

  /** The values a transaction will log: the current contents of the listed blocks. */
  ghost function Values(flat: Image, lh: seq<nat>): (vals: seq<Block>)
    requires forall i :: 0 <= i < |lh| ==> lh[i] < |flat|
    ensures |vals| == |lh| && forall i :: 0 <= i < |lh| ==> vals[i] == flat[lh[i]]
  {
    seq(|lh|, i requires 0 <= i < |lh| => flat[lh[i]])
  }

  /** Every block that is not listed has its current value on the disk. */
  ghost predicate Settled(disk: Image, flat: Image, lh: seq<nat>) {
    |disk| == |flat| && forall b :: 0 <= b < |disk| && b !in lh ==> flat[b] == disk[b]
  }

  /** The transaction about to be committed turns the disk into the current value of every block. */
  lemma {:induction false} ListedIsAll(disk: Image, flat: Image, ts: seq<nat>)
    requires Settled(disk, flat, ts) && forall i :: 0 <= i < |ts| ==> ts[i] < |flat|
    ensures Apply(disk, ts, Values(flat, ts)) == flat
  {
    ApplyValues(disk, flat, ts);
  }

  lemma {:induction false} ApplyValues(disk: Image, flat: Image, ts: seq<nat>)
    requires |disk| == |flat| && forall i :: 0 <= i < |ts| ==> ts[i] < |flat|
    ensures forall b :: 0 <= b < |disk| ==>
              Apply(disk, ts, Values(flat, ts))[b] == if b in ts then flat[b] else disk[b]
  {
    if ts != [] {
      var n := |ts| - 1;
      ApplyValues(disk, flat, ts[..n]);
      assert Values(flat, ts)[..n] == Values(flat, ts[..n]);
      assert ts == ts[..n] + [ts[n]];
    }
  }

  /** What a commit's recorded writes mean when the list names every block that is ahead of the disk. */
  lemma CommitDurable(h: seq<Image>, base: nat, l: Layout, d: Image, flat: Image, ts: seq<nat>)
    requires Settled(d, flat, ts) && Fits(l, d) && Loggable(l, |d|, ts)
    requires Sound(l, d) && Targets(l, d) == [] && CommitHistory(h, base, l, d, ts, Values(flat, ts))
    ensures Switches(h, base, l, |ts|, d, flat)
    ensures SameHome(l, CommitPoint(l, d, ts, Values(flat, ts), 2 * |ts| + 2), flat)
  {
    var vals := Values(flat, ts);
    ListedIsAll(d, flat, ts);
    CommitSwitches(h, base, l, d, ts, vals);
    CommitIsAtomic(l, d, ts, vals, 2 * |ts| + 2);
    NothingToRedo(l, CommitPoint(l, d, ts, vals, 2 * |ts| + 2), flat);
  }

  /** The disk, the current value of every block, and the blocks listed for the next commit. */
  datatype Volume = Volume(disk: Image, flat: Image, lh: seq<nat>)

  /** Between operations: the header on the disk is empty, and only listed blocks are ahead of the disk. */
  ghost predicate VolumeOk(l: Layout, s: Volume) {
    && Sound(l, s.disk) && Targets(l, s.disk) == [] && Loggable(l, |s.disk|, s.lh)
    && Settled(s.disk, s.flat, s.lh)
  }

  /** Update: bread, a change, log_write and brelse. Commit: commit() to its end. Crash: the power fails after
      `writes` block writes of a commit, 0 when none runs; recoveries crash after crashes[..] writes each, and one
      runs to its end. */
  datatype Step = Update(b: nat, data: Block) | Commit | Crash(writes: nat, crashes: seq<nat>)

  /** How many block writes a commit of this list makes. */
  function Writes(lh: seq<nat>): nat {
    if lh == [] then 0 else 2 * |lh| + 2
  }

  /** The disk after so many of them. */
  ghost function Written(l: Layout, s: Volume, writes: nat): (r: Image)
    requires VolumeOk(l, s) && writes <= Writes(s.lh)
    ensures |r| == |s.disk|
  {
    CommitPoint(l, s.disk, s.lh, Values(s.flat, s.lh), writes)
  }

  /** A crash leaves an image that recovers to the disk's file system, or from the header write on to the current one. */
  lemma CrashImage(l: Layout, s: Volume, writes: nat)
    requires VolumeOk(l, s) && writes <= Writes(s.lh)
    ensures RecoversTo(l, Written(l, s, writes), if writes <= |s.lh| then s.disk else s.flat)
  {
    ListedIsAll(s.disk, s.flat, s.lh);
    CommitIsAtomic(l, s.disk, s.lh, Values(s.flat, s.lh), writes);
  }

  ghost predicate Next(l: Layout, s: Volume, a: Step, t: Volume)
    requires VolumeOk(l, s)
  {
    match a
    case Update(b, data) =>
      && b < |s.disk| && Loggable(l, |s.disk|, GroupCommit.Absorb(s.lh, b))
      && t == Volume(s.disk, s.flat[b := data], GroupCommit.Absorb(s.lh, b))
    case Commit =>
      t.disk == Written(l, s, Writes(s.lh)) && t == Volume(t.disk, t.disk, [])
    case Crash(writes, crashes) =>
      && writes <= Writes(s.lh) && Sound(l, Written(l, s, writes))
      && t.disk == Recover(l, Crashes(l, Written(l, s, writes), crashes)) && t == Volume(t.disk, t.disk, [])
  }

  lemma RecordedIsWritten(l: Layout, s: Volume, h: seq<Image>, base: nat, i: nat)
    requires VolumeOk(l, s) && s.lh != [] && CommitHistory(h, base, l, s.disk, s.lh, Values(s.flat, s.lh)) && base <= i < |h|
    ensures i - base + 1 <= Writes(s.lh) && h[i] == Written(l, s, i - base + 1)
  {
    assert CommitAt(h, base, l, s.disk, s.lh, Values(s.flat, s.lh), i);
  }

  /** A crash that leaves an image recorded by a commit, crashed recoveries, and a boot that recovers are the step
      Crash. */
  lemma CrashIsStep(l: Layout, s: Volume, h: seq<Image>, base: nat, i: nat, crashes: seq<nat>)
    requires VolumeOk(l, s) && s.lh != [] && CommitHistory(h, base, l, s.disk, s.lh, Values(s.flat, s.lh)) && base <= i < |h|
    ensures Sound(l, h[i])
    ensures var d := Recover(l, Crashes(l, h[i], crashes)); Next(l, s, Crash(i - base + 1, crashes), Volume(d, d, []))
  {
    RecordedIsWritten(l, s, h, base, i);
    CrashStep(l, s, i - base + 1, h[i], crashes);
  }

  lemma CrashStep(l: Layout, s: Volume, writes: nat, image: Image, crashes: seq<nat>)
    requires VolumeOk(l, s) && writes <= Writes(s.lh) && image == Written(l, s, writes)
    ensures Sound(l, image)
    ensures var d := Recover(l, Crashes(l, image, crashes)); Next(l, s, Crash(writes, crashes), Volume(d, d, []))
  {
    CrashImage(l, s, writes);
  }

  /** What calls see, and what survives a crash. */
  datatype Spec = Spec(view: Image, durable: Image)

  /** An atomic disk: updates show at once, a commit makes them durable, a crash keeps all of a commit or nothing. */
  ghost function SpecNext(sp: Spec, listed: nat, a: Step): (r: Spec)
    requires |sp.view| == |sp.durable| && (a.Update? ==> a.b < |sp.view|)
    ensures |r.view| == |r.durable| == |sp.view|
  {
    match a
    case Update(b, data) => Spec(sp.view[b := data], sp.durable)
    case Commit => Spec(sp.view, sp.view)
    case Crash(writes, _) => if writes <= listed then Spec(sp.durable, sp.durable) else Spec(sp.view, sp.view)
  }

  /** The same file system is seen, and the same one is on the disk. */
  ghost predicate Meets(l: Layout, s: Volume, sp: Spec) {
    SameHome(l, s.flat, sp.view) && SameHome(l, s.disk, sp.durable)
  }

  lemma UpdateMeets(l: Layout, s: Volume, a: Step, t: Volume, sp: Spec)
    requires VolumeOk(l, s) && Next(l, s, a, t) && Meets(l, s, sp) && a.Update?
    ensures VolumeOk(l, t) && Meets(l, t, SpecNext(sp, |s.lh|, a))
  {
    assert a.b in t.lh && forall b :: b in s.lh ==> b in t.lh;
  }

  lemma CommitMeets(l: Layout, s: Volume, t: Volume, sp: Spec)
    requires VolumeOk(l, s) && Next(l, s, Commit, t) && Meets(l, s, sp)
    ensures VolumeOk(l, t) && Meets(l, t, SpecNext(sp, |s.lh|, Commit))
  {
    CrashImage(l, s, Writes(s.lh));
    if s.lh != [] {
      HeaderWindow(l, s.disk, s.lh, Values(s.flat, s.lh), Writes(s.lh));
    }
    NothingToRedo(l, t.disk, if s.lh == [] then s.disk else s.flat);
  }

  lemma CrashMeets(l: Layout, s: Volume, a: Step, t: Volume, sp: Spec)
    requires VolumeOk(l, s) && Next(l, s, a, t) && Meets(l, s, sp) && a.Crash?
    ensures VolumeOk(l, t) && Meets(l, t, SpecNext(sp, |s.lh|, a))
  {
    CrashImage(l, s, a.writes);
  }

  lemma StepMeets(l: Layout, s: Volume, a: Step, t: Volume, sp: Spec)
    requires VolumeOk(l, s) && Next(l, s, a, t) && Meets(l, s, sp)
    ensures VolumeOk(l, t) && |t.disk| == |s.disk| && Meets(l, t, SpecNext(sp, |s.lh|, a))
  {
    match a
    case Update(_, _) => UpdateMeets(l, s, a, t, sp);
    case Commit => CommitMeets(l, s, t, sp);
    case Crash(_, _) => CrashMeets(l, s, a, t, sp);
  }

  ghost predicate IsRun(l: Layout, run: seq<Volume>, steps: seq<Step>) {
    && |run| == |steps| + 1 && VolumeOk(l, run[0])
    && forall n :: 0 <= n < |steps| ==> VolumeOk(l, run[n]) ==> Next(l, run[n], steps[n], run[n + 1])
  }

  lemma StepKeepsOk(l: Layout, s: Volume, a: Step, t: Volume)
    requires VolumeOk(l, s) && Next(l, s, a, t)
    ensures VolumeOk(l, t) && |t.disk| == |s.disk| && (a.Update? ==> a.b < |s.disk|)
  {
    StepMeets(l, s, a, t, Spec(s.flat, s.disk));
  }

  /** Every state of a run is in order, and the disk keeps its size. */
  lemma {:induction false} RunKeepsOk(l: Layout, run: seq<Volume>, steps: seq<Step>, n: nat)
    requires IsRun(l, run, steps) && n <= |steps|
    ensures VolumeOk(l, run[n]) && |run[n].disk| == |run[0].disk|
  {
    if n > 0 {
      RunKeepsOk(l, run, steps, n - 1);
      StepKeepsOk(l, run[n - 1], steps[n - 1], run[n]);
    }
  }

  lemma UpdateFits(l: Layout, run: seq<Volume>, steps: seq<Step>, n: nat)
    requires IsRun(l, run, steps) && n < |steps| && steps[n].Update?
    ensures steps[n].b < |run[0].disk|
  {
    RunKeepsOk(l, run, steps, n);
    StepKeepsOk(l, run[n], steps[n], run[n + 1]);
  }

  /** What the atomic disk holds after the first n steps. */
  ghost function SpecAt(l: Layout, run: seq<Volume>, steps: seq<Step>, n: nat): (r: Spec)
    requires IsRun(l, run, steps) && n <= |steps|
    ensures |r.view| == |r.durable| == |run[0].disk|
  {
    if n == 0 then Spec(run[0].flat, run[0].disk) else
    assert steps[n - 1].Update? ==> steps[n - 1].b < |run[0].disk| by {
      if steps[n - 1].Update? {
        UpdateFits(l, run, steps, n - 1);
      }
    }
    SpecNext(SpecAt(l, run, steps, n - 1), |run[n - 1].lh|, steps[n - 1])
  }

  /** Every run refines the atomic disk: whatever is updated and committed, and wherever crashes fall, calls see
      exactly the updates since the last crash on top of what was durable then, and a crash keeps exactly the
      updates of the commits that had written their header. */
  lemma {:induction false} RunsAreAtomic(l: Layout, run: seq<Volume>, steps: seq<Step>, n: nat)
    requires IsRun(l, run, steps) && n <= |steps|
    ensures VolumeOk(l, run[n]) && Meets(l, run[n], SpecAt(l, run, steps, n))
  {
    if n > 0 {
      RunsAreAtomic(l, run, steps, n - 1);
      RunKeepsOk(l, run, steps, n - 1);
      StepMeets(l, run[n - 1], steps[n - 1], run[n], SpecAt(l, run, steps, n - 1));
    }
  }
}
