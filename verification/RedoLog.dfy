/** The on-disk redo log of log.c, as functions on disk images.

    The log region starts with the
    header block (a count and that many home block numbers) and continues with the
    logged blocks. `CommitPoint` and `RecoverPoint` give the image after each single
    block write of commit() and recover_from_log(): a crash is any of those images. */
module RedoLog {
  import opened Blocks
  import opened Params

  datatype Layout = Layout(start: nat, size: nat)

  predicate InLog(l: Layout, b: nat) {
    l.start <= b < l.start + l.size
  }

  predicate Fits(l: Layout, d: Image) {
    1 <= l.size && l.start + l.size <= |d|
  }

  /** Home block numbers a transaction may log: on the disk, outside the log region, no more than the log holds. */
  predicate Loggable(l: Layout, disksize: nat, ts: seq<nat>) {
    && |ts| <= LOGSIZE
    && |ts| < l.size
    && forall i :: 0 <= i < |ts| ==> ts[i] < disksize && ts[i] < WORD_LIMIT && !InLog(l, ts[i])
  }

  function HeaderCount(h: Block): (n: nat) {
    GetWord(h, 0)
  }

  /** The block numbers listed in a header that holds n of them. */
  function HeaderTargets(h: Block, n: nat): (ts: seq<nat>)
    requires n <= LOGSIZE
    ensures |ts| == n
  {
    seq(n, i requires 0 <= i < n => GetWord(h, i + 1))
  }

  /** The header block after write_head's loop has stored the first k entries of ts. */
  function PutEntries(h: Block, ts: seq<nat>, k: nat): (r: Block)
    requires k <= |ts| <= LOGSIZE
    requires forall i :: 0 <= i < |ts| ==> ts[i] < WORD_LIMIT
    ensures GetWord(r, 0) == GetWord(h, 0)
    ensures forall i: nat :: i < k ==> GetWord(r, i + 1) == ts[i]
  {
    if k == 0 then h else PutWord(PutEntries(h, ts, k - 1), k, ts[k - 1])
  }

  /** What write_head leaves in the header block; entries past the count keep their old values. */
  function WriteHeader(h: Block, ts: seq<nat>): (r: Block)
    requires |ts| <= LOGSIZE
    requires forall i :: 0 <= i < |ts| ==> ts[i] < WORD_LIMIT
    ensures HeaderCount(r) == |ts|
    ensures HeaderTargets(r, |ts|) == ts
  {
    PutEntries(PutWord(h, 0, |ts|), ts, |ts|)
  }

  predicate Sound(l: Layout, d: Image) {
    && Fits(l, d)
    && HeaderCount(d[l.start]) <= LOGSIZE
    && Loggable(l, |d|, HeaderTargets(d[l.start], HeaderCount(d[l.start])))
  }

  function Targets(l: Layout, d: Image): (ts: seq<nat>)
    requires Sound(l, d)
    ensures Loggable(l, |d|, ts)
  {
    HeaderTargets(d[l.start], HeaderCount(d[l.start]))
  }

  /** The image after install_trans has copied the first k logged blocks home. */
  function Install(l: Layout, d: Image, ts: seq<nat>, k: nat): (r: Image)
    requires Fits(l, d) && Loggable(l, |d|, ts) && k <= |ts|
    ensures |r| == |d| && r[l.start] == d[l.start]
  {
    if k == 0 then d else Install(l, d, ts, k - 1)[ts[k - 1] := d[l.start + k]]
  }

  /** Only the targets change, and none of them is in the log. */
  lemma {:induction false} InstallOnly(l: Layout, d: Image, ts: seq<nat>, k: nat)
    requires Fits(l, d) && Loggable(l, |d|, ts) && k <= |ts|
    ensures forall b :: 0 <= b < |d| && InLog(l, b) ==> Install(l, d, ts, k)[b] == d[b]
    ensures forall b :: 0 <= b < |d| && b !in ts[..k] ==> Install(l, d, ts, k)[b] == d[b]
  {
    if k > 0 {
      InstallOnly(l, d, ts, k - 1);
      assert ts[..k] == ts[..k - 1] + [ts[k - 1]];
    }
  }

  function ClearHeader(l: Layout, d: Image): (r: Image)
    requires Fits(l, d)
    ensures Sound(l, r) && Targets(l, r) == []
  {
    d[l.start := WriteHeader(d[l.start], [])]
  }

  /** What recover_from_log leaves on the disk. */
  function Recover(l: Layout, d: Image): (r: Image)
    requires Sound(l, d)
    ensures |r| == |d| && Sound(l, r) && Targets(l, r) == []
  {
    ClearHeader(l, Install(l, d, Targets(l, d), |Targets(l, d)|))
  }

  /** Equal outside the log region: the same file system. */
  predicate SameHome(l: Layout, a: Image, b: Image) {
    |a| == |b| && forall x :: 0 <= x < |a| && !InLog(l, x) ==> a[x] == b[x]
  }

  /** The transaction's effect on the flat disk: block ts[i] becomes vals[i], in order. */
  function Apply(d: Image, ts: seq<nat>, vals: seq<Block>): (r: Image)
    requires |ts| == |vals| && forall i :: 0 <= i < |ts| ==> ts[i] < |d|
    ensures |r| == |d|
  {
    if ts == [] then d else
    Apply(d, ts[..|ts| - 1], vals[..|ts| - 1])[ts[|ts| - 1] := vals[|ts| - 1]]
  }

  // ---------------------------------------------------------------- commit, write by write

  /** The image after write_log has copied the first k modified blocks into the log. */
  function LogCopies(l: Layout, d: Image, vals: seq<Block>, k: nat): (r: Image)
    requires Fits(l, d) && k <= |vals| < l.size
    ensures |r| == |d|
  {
    if k == 0 then d else LogCopies(l, d, vals, k - 1)[l.start + k := vals[k - 1]]
  }

  lemma {:induction false} LogCopiesOnly(l: Layout, d: Image, vals: seq<Block>, k: nat)
    requires Fits(l, d) && k <= |vals| < l.size
    ensures SameHome(l, LogCopies(l, d, vals, k), d)
    ensures LogCopies(l, d, vals, k)[l.start] == d[l.start]
    ensures forall i :: 0 <= i < k ==> LogCopies(l, d, vals, k)[l.start + 1 + i] == vals[i]
  {
    if k > 0 {
      LogCopiesOnly(l, d, vals, k - 1);
    }
  }

  predicate Transaction(l: Layout, d: Image, ts: seq<nat>, vals: seq<Block>) {
    Fits(l, d) && Loggable(l, |d|, ts) && |vals| == |ts|
  }

  /** The image just after write_head has stored the header: the commit point. */
  function Committed(l: Layout, d: Image, ts: seq<nat>, vals: seq<Block>): (r: Image)
    requires Transaction(l, d, ts, vals)
    ensures |r| == |d|
  {
    var full := LogCopies(l, d, vals, |ts|);
    full[l.start := WriteHeader(full[l.start], ts)]
  }

  lemma CommittedTargets(l: Layout, d: Image, ts: seq<nat>, vals: seq<Block>)
    requires Transaction(l, d, ts, vals)
    ensures Sound(l, Committed(l, d, ts, vals)) && Targets(l, Committed(l, d, ts, vals)) == ts
  {
  }

  /** The image after i of the 2n+2 block writes of commit(). */
  function CommitPoint(l: Layout, d: Image, ts: seq<nat>, vals: seq<Block>, i: nat): (r: Image)
    requires Transaction(l, d, ts, vals) && i <= 2 * |ts| + 2
    ensures |r| == |d|
  {
    if i <= |ts| then LogCopies(l, d, vals, i)
    else if i <= 2 * |ts| + 1 then Install(l, Committed(l, d, ts, vals), ts, i - |ts| - 1)
    else ClearHeader(l, Install(l, Committed(l, d, ts, vals), ts, |ts|))
  }

  // ---------------------------------------------------------------- recovery, write by write

  /** The image after i of the n+1 block writes of recover_from_log(). */
  function RecoverPoint(l: Layout, d: Image, i: nat): (r: Image)
    requires Sound(l, d) && i <= |Targets(l, d)| + 1
    ensures |r| == |d|
  {
    if i <= |Targets(l, d)| then Install(l, d, Targets(l, d), i) else Recover(l, d)
  }

  // ---------------------------------------------------------------- the images one call writes, in order

  /** The i-th image ever written is the one this commit's (i-base+1)-th write leaves. */
  ghost predicate CommitAt(h: seq<Image>, base: nat, l: Layout, d: Image, ts: seq<nat>, vals: seq<Block>, i: nat)
    requires Transaction(l, d, ts, vals) && base <= i < |h| <= base + 2 * |ts| + 2
  {
    h[i] == CommitPoint(l, d, ts, vals, i - base + 1)
  }

  /** The history from index `base` on is the writes of this commit, as far as it got. */
  ghost predicate CommitHistory(h: seq<Image>, base: nat, l: Layout, d: Image, ts: seq<nat>, vals: seq<Block>)
    requires Transaction(l, d, ts, vals)
  {
    && base <= |h| <= base + 2 * |ts| + 2
    && forall i :: base <= i < |h| ==> CommitAt(h, base, l, d, ts, vals, i)
  }

  ghost predicate InstallAt(h: seq<Image>, base: nat, l: Layout, d: Image, ts: seq<nat>, i: nat)
    requires Fits(l, d) && Loggable(l, |d|, ts) && base <= i < |h| <= base + |ts|
  {
    h[i] == Install(l, d, ts, i - base + 1)
  }

  /** The history from index `base` on is the first writes of install_trans. */
  ghost predicate InstallHistory(h: seq<Image>, base: nat, l: Layout, d: Image, ts: seq<nat>)
    requires Fits(l, d) && Loggable(l, |d|, ts)
  {
    && base <= |h| <= base + |ts|
    && forall i :: base <= i < |h| ==> InstallAt(h, base, l, d, ts, i)
  }

  /** The history from index `base` on is all the writes of recover_from_log. */
  ghost predicate RecoverHistory(h: seq<Image>, base: nat, l: Layout, d: Image)
    requires Sound(l, d)
  {
    && |h| == base + |Targets(l, d)| + 1
    && forall i :: base <= i < |h| ==> RecoverAt(h, base, l, d, i)
  }

  ghost predicate RecoverAt(h: seq<Image>, base: nat, l: Layout, d: Image, i: nat)
    requires Sound(l, d) && base <= i < |h| <= base + |Targets(l, d)| + 1
  {
    h[i] == RecoverPoint(l, d, i - base + 1)
  }

  lemma Extends(h: seq<Image>, base: nat, l: Layout, d: Image, ts: seq<nat>, vals: seq<Block>, next: Image)
    requires Transaction(l, d, ts, vals) && CommitHistory(h, base, l, d, ts, vals)
    requires |h| < base + 2 * |ts| + 2 && next == CommitPoint(l, d, ts, vals, |h| - base + 1)
    ensures CommitHistory(h + [next], base, l, d, ts, vals)
  {
    forall i | base <= i < |h| + 1
      ensures CommitAt(h + [next], base, l, d, ts, vals, i)
    {
      if i < |h| {
        assert CommitAt(h, base, l, d, ts, vals, i);
      }
    }
  }

  /** One more write of write_log. */
  lemma LogOneMore(h: seq<Image>, base: nat, l: Layout, d: Image, ts: seq<nat>, vals: seq<Block>, k: nat, next: Image)
    requires Transaction(l, d, ts, vals) && k < |ts| && |h| == base + k
    requires CommitHistory(h, base, l, d, ts, vals)
    requires next == LogCopies(l, d, vals, k)[l.start + k + 1 := vals[k]]
    ensures next == LogCopies(l, d, vals, k + 1)
    ensures CommitHistory(h + [next], base, l, d, ts, vals)
  {
    Extends(h, base, l, d, ts, vals, next);
  }

  /** The header write. */
  lemma HeaderWritten(h: seq<Image>, base: nat, l: Layout, d: Image, ts: seq<nat>, vals: seq<Block>, next: Image)
    requires Transaction(l, d, ts, vals) && |h| == base + |ts|
    requires CommitHistory(h, base, l, d, ts, vals)
    requires var full := LogCopies(l, d, vals, |ts|); next == full[l.start := WriteHeader(full[l.start], ts)]
    ensures next == Committed(l, d, ts, vals)
    ensures CommitHistory(h + [next], base, l, d, ts, vals)
  {
    assert next == Install(l, next, ts, 0);
    Extends(h, base, l, d, ts, vals, next);
  }

  /** The last write. */
  lemma HeaderCleared(h: seq<Image>, base: nat, l: Layout, d: Image, ts: seq<nat>, vals: seq<Block>, next: Image)
    requires Transaction(l, d, ts, vals) && |h| == base + 2 * |ts| + 1
    requires CommitHistory(h, base, l, d, ts, vals)
    requires next == ClearHeader(l, Install(l, Committed(l, d, ts, vals), ts, |ts|))
    ensures next == CommitPoint(l, d, ts, vals, 2 * |ts| + 2)
    ensures CommitHistory(h + [next], base, l, d, ts, vals)
  {
    Extends(h, base, l, d, ts, vals, next);
  }

  /** One more write of install_trans. */
  lemma InstallOneMore(h: seq<Image>, base: nat, l: Layout, d: Image, ts: seq<nat>, k: nat, next: Image)
    requires Fits(l, d) && Loggable(l, |d|, ts) && k < |ts| && |h| == base + k
    requires InstallHistory(h, base, l, d, ts)
    requires next == Install(l, d, ts, k)[ts[k] := d[l.start + k + 1]]
    ensures next == Install(l, d, ts, k + 1)
    ensures InstallHistory(h + [next], base, l, d, ts)
  {
    forall i | base <= i < |h| + 1
      ensures InstallAt(h + [next], base, l, d, ts, i)
    {
      if i < |h| {
        assert InstallAt(h, base, l, d, ts, i);
      }
    }
  }

  /** A write inside the log region, or one that changes nothing. */
  lemma SameHomeAfterWrite(l: Layout, a: Image, b: Image, x: nat, v: Block)
    requires SameHome(l, a, b) && x < |a| && (InLog(l, x) || a[x] == v)
    ensures SameHome(l, a[x := v], b)
  {
  }

  /** A commit up to its header write, followed by install_trans. */
  lemma CommitThenInstall(h1: seq<Image>, h2: seq<Image>, base: nat, l: Layout, d: Image, ts: seq<nat>, vals: seq<Block>)
    requires Transaction(l, d, ts, vals) && |h1| == base + |ts| + 1 && h1 <= h2
    requires CommitHistory(h1, base, l, d, ts, vals)
    requires InstallHistory(h2, |h1|, l, Committed(l, d, ts, vals), ts)
    ensures CommitHistory(h2, base, l, d, ts, vals)
  {
    forall i | base <= i < |h2|
      ensures CommitAt(h2, base, l, d, ts, vals, i)
    {
      if i < |h1| {
        assert CommitAt(h1, base, l, d, ts, vals, i);
      } else {
        assert InstallAt(h2, |h1|, l, Committed(l, d, ts, vals), ts, i);
      }
    }
  }

  /** install_trans followed by the clearing of the header is recover_from_log. */
  lemma InstallThenClear(h: seq<Image>, base: nat, l: Layout, d: Image)
    requires Sound(l, d) && |h| == base + |Targets(l, d)|
    requires InstallHistory(h, base, l, d, Targets(l, d))
    ensures RecoverHistory(h + [Recover(l, d)], base, l, d)
  {
    var h2 := h + [Recover(l, d)];
    forall i | base <= i < |h2|
      ensures RecoverAt(h2, base, l, d, i)
    {
      if i < |h| {
        assert InstallAt(h, base, l, d, Targets(l, d), i);
      }
    }
  }

  /** Installing does nothing where every target already equals its logged copy. */
  lemma {:induction false} InstallNothing(l: Layout, d: Image, ts: seq<nat>, k: nat)
    requires Fits(l, d) && Loggable(l, |d|, ts) && k <= |ts|
    requires forall i :: 0 <= i < |ts| ==> d[ts[i]] == d[l.start + 1 + i]
    ensures Install(l, d, ts, k) == d
  {
    if k > 0 {
      InstallNothing(l, d, ts, k - 1);
    }
  }

  /** A flat view that agrees with the committed log region already holds what will be installed. */
  lemma InstallLeavesFlat(l: Layout, flat: Image, d: Image, ts: seq<nat>, vals: seq<Block>)
    requires Transaction(l, d, ts, vals) && |flat| == |d|
    requires forall i :: 0 <= i < |ts| ==> vals[i] == flat[ts[i]]
    requires forall b :: 0 <= b < |flat| && InLog(l, b) ==> flat[b] == Committed(l, d, ts, vals)[b]
    ensures Install(l, flat, ts, |ts|) == flat
  {
    LogCopiesOnly(l, d, vals, |ts|);
    forall i | 0 <= i < |ts|
      ensures flat[ts[i]] == flat[l.start + 1 + i]
    {
      assert InLog(l, l.start + 1 + i);
      assert vals[i] == flat[ts[i]];
    }
    InstallNothing(l, flat, ts, |ts|);
  }

  // ---------------------------------------------------------------- what a crash leaves behind

  /** Redo is idempotent: installing over an already partly installed image changes no result. */
  lemma {:induction false} InstallAgain(l: Layout, d: Image, ts: seq<nat>, i: nat, k: nat)
    requires Fits(l, d) && Loggable(l, |d|, ts) && i <= |ts| && k <= |ts|
    ensures forall b :: 0 <= b < |d| && b in ts[..k] ==>
              Install(l, Install(l, d, ts, i), ts, k)[b] == Install(l, d, ts, k)[b]
  {
    if k > 0 {
      InstallAgain(l, d, ts, i, k - 1);
      InstallOnly(l, d, ts, i);
      assert ts[..k] == ts[..k - 1] + [ts[k - 1]];
    }
  }

  /** Installing the logged copies has the transaction's effect. */
  lemma {:induction false} InstallApplies(l: Layout, d: Image, base: Image, ts: seq<nat>, vals: seq<Block>, k: nat)
    requires Fits(l, d) && Loggable(l, |d|, ts) && |vals| == |ts| && k <= |ts| && SameHome(l, d, base)
    requires forall i :: 0 <= i < |ts| ==> d[l.start + 1 + i] == vals[i]
    ensures SameHome(l, Install(l, d, ts, k), Apply(base, ts[..k], vals[..k]))
  {
    if k > 0 {
      InstallApplies(l, d, base, ts, vals, k - 1);
      assert ts[..k][..k - 1] == ts[..k - 1] && vals[..k][..k - 1] == vals[..k - 1];
    }
  }

  /** A disk whose recovery crashed after i writes still recovers to the same file system. */
  lemma RecoverySurvivesCrash(l: Layout, d: Image, i: nat)
    requires Sound(l, d) && i <= |Targets(l, d)| + 1
    ensures Sound(l, RecoverPoint(l, d, i))
    ensures SameHome(l, Recover(l, RecoverPoint(l, d, i)), Recover(l, d))
  {
    var ts := Targets(l, d);
    if i <= |ts| {
      var p := RecoverPoint(l, d, i);
      assert ts[..|ts|] == ts && ts[..i] <= ts;
      InstallAgain(l, d, ts, i, |ts|);
      InstallOnly(l, d, ts, i);
      InstallOnly(l, d, ts, |ts|);
      InstallOnly(l, p, ts, |ts|);
    }
  }

  /** The image left by recoveries that crashed after cs[0], cs[1], ... writes, each starting on what the last one left. */
  function Crashes(l: Layout, d: Image, cs: seq<nat>): (r: Image)
    requires Sound(l, d)
    ensures |r| == |d| && Sound(l, r) && SameHome(l, Recover(l, r), Recover(l, d))
  {
    if cs == [] then d else
    var before := Crashes(l, d, cs[..|cs| - 1]);
    var n := |Targets(l, before)| + 1;
    var i := if cs[|cs| - 1] < n then cs[|cs| - 1] else n;
    RecoverySurvivesCrash(l, before, i);
    RecoverPoint(l, before, i)
  }

  /** Once the header is written, the rest of commit() writes exactly what recovery would write. */
  lemma CommitPointIsRecoverPoint(l: Layout, d: Image, ts: seq<nat>, vals: seq<Block>, i: nat)
    requires Transaction(l, d, ts, vals) && |ts| < i <= 2 * |ts| + 2
    ensures Sound(l, Committed(l, d, ts, vals)) && Targets(l, Committed(l, d, ts, vals)) == ts
    ensures CommitPoint(l, d, ts, vals, i) == RecoverPoint(l, Committed(l, d, ts, vals), i - |ts| - 1)
  {
    CommittedTargets(l, d, ts, vals);
  }

  /** The committed image recovers to the transaction's effect. */
  lemma CommittedRecovers(l: Layout, d: Image, ts: seq<nat>, vals: seq<Block>)
    requires Transaction(l, d, ts, vals)
    ensures Sound(l, Committed(l, d, ts, vals))
    ensures SameHome(l, Recover(l, Committed(l, d, ts, vals)), Apply(d, ts, vals))
  {
    CommittedTargets(l, d, ts, vals);
    LogCopiesOnly(l, d, vals, |ts|);
    InstallApplies(l, Committed(l, d, ts, vals), d, ts, vals, |ts|);
    assert ts[..|ts|] == ts && vals[..|ts|] == vals;
  }

  /** All or nothing: a commit that crashes after i writes recovers to the old file system when the header
      has not been written (i <= n) and to the new one from that write on. */
  lemma CommitIsAtomic(l: Layout, d: Image, ts: seq<nat>, vals: seq<Block>, i: nat)
    requires Transaction(l, d, ts, vals) && Sound(l, d) && Targets(l, d) == [] && i <= 2 * |ts| + 2
    ensures Sound(l, CommitPoint(l, d, ts, vals, i))
    ensures SameHome(l, Recover(l, CommitPoint(l, d, ts, vals, i)), if i <= |ts| then d else Apply(d, ts, vals))
  {
    if i <= |ts| {
      BeforeHeader(l, d, vals, i);
    } else {
      FromHeader(l, d, ts, vals, i);
    }
  }

  lemma BeforeHeader(l: Layout, d: Image, vals: seq<Block>, k: nat)
    requires Sound(l, d) && Targets(l, d) == [] && k <= |vals| < l.size
    ensures Sound(l, LogCopies(l, d, vals, k)) && SameHome(l, Recover(l, LogCopies(l, d, vals, k)), d)
  {
    LogCopiesOnly(l, d, vals, k);
  }

  lemma FromHeader(l: Layout, d: Image, ts: seq<nat>, vals: seq<Block>, i: nat)
    requires Transaction(l, d, ts, vals) && |ts| < i <= 2 * |ts| + 2
    ensures Sound(l, CommitPoint(l, d, ts, vals, i))
    ensures SameHome(l, Recover(l, CommitPoint(l, d, ts, vals, i)), Apply(d, ts, vals))
  {
    CommitPointIsRecoverPoint(l, d, ts, vals, i);
    CommittedRecovers(l, d, ts, vals);
    RecoversThrough(l, Committed(l, d, ts, vals), i - |ts| - 1, CommitPoint(l, d, ts, vals, i), Apply(d, ts, vals));
  }

  lemma RecoversThrough(l: Layout, c: Image, k: nat, p: Image, home: Image)
    requires Sound(l, c) && k <= |Targets(l, c)| + 1 && p == RecoverPoint(l, c, k) && SameHome(l, Recover(l, c), home)
    ensures Sound(l, p) && SameHome(l, Recover(l, p), home)
  {
    RecoverySurvivesCrash(l, c, k);
  }

  /** The header on the disk lists blocks only between the two header writes. */
  lemma HeaderWindow(l: Layout, d: Image, ts: seq<nat>, vals: seq<Block>, i: nat)
    requires Transaction(l, d, ts, vals) && Sound(l, d) && Targets(l, d) == [] && i <= 2 * |ts| + 2
    ensures Sound(l, CommitPoint(l, d, ts, vals, i))
    ensures Targets(l, CommitPoint(l, d, ts, vals, i)) == if |ts| < i < 2 * |ts| + 2 then ts else []
  {
    CommitIsAtomic(l, d, ts, vals, i);
    if i <= |ts| {
      LogCopiesOnly(l, d, vals, i);
    } else {
      CommittedTargets(l, d, ts, vals);
    }
  }

  /** Crash atomicity of commit() as log.c runs it: whichever image the crash leaves, recovery finds the file
      system before the transaction or the one after it, and the header write is the switch. */
  lemma CommitCrash(h: seq<Image>, base: nat, l: Layout, d: Image, ts: seq<nat>, vals: seq<Block>, i: nat)
    requires Transaction(l, d, ts, vals) && Sound(l, d) && Targets(l, d) == []
    requires CommitHistory(h, base, l, d, ts, vals) && base <= i < |h|
    ensures Sound(l, h[i])
    ensures SameHome(l, Recover(l, h[i]), if i - base < |ts| then d else Apply(d, ts, vals))
  {
    CommitEntry(h, base, l, d, ts, vals, i);
    PointRecovers(l, d, ts, vals, i - base + 1, h[i]);
  }

  lemma PointRecovers(l: Layout, d: Image, ts: seq<nat>, vals: seq<Block>, k: nat, image: Image)
    requires Transaction(l, d, ts, vals) && Sound(l, d) && Targets(l, d) == [] && k <= 2 * |ts| + 2
    requires image == CommitPoint(l, d, ts, vals, k)
    ensures Sound(l, image) && SameHome(l, Recover(l, image), if k <= |ts| then d else Apply(d, ts, vals))
  {
    CommitIsAtomic(l, d, ts, vals, k);
  }

  lemma CommitEntry(h: seq<Image>, base: nat, l: Layout, d: Image, ts: seq<nat>, vals: seq<Block>, i: nat)
    requires Transaction(l, d, ts, vals) && CommitHistory(h, base, l, d, ts, vals) && base <= i < |h|
    ensures h[i] == CommitPoint(l, d, ts, vals, i - base + 1)
  {
    assert CommitAt(h, base, l, d, ts, vals, i);
  }

  /** Crash safety of recovery as log.c runs it: whichever image a crash leaves, the next recovery gives the same. */
  lemma RecoverCrash(h: seq<Image>, base: nat, l: Layout, d: Image, i: nat)
    requires Sound(l, d) && RecoverHistory(h, base, l, d) && base <= i < |h|
    ensures Sound(l, h[i]) && SameHome(l, Recover(l, h[i]), Recover(l, d))
  {
    assert RecoverAt(h, base, l, d, i);
    RecoverySurvivesCrash(l, d, i - base + 1);
  }

  /** A machine that restarts with d on its disk comes up with the file system `home`. */
  ghost predicate RecoversTo(l: Layout, d: Image, home: Image) {
    Sound(l, d) && SameHome(l, Recover(l, d), home)
  }

  /** Of the images from index `base` on, the first n recover to `before` and the others to `after`. */
  ghost predicate Switches(h: seq<Image>, base: nat, l: Layout, n: nat, before: Image, after: Image) {
    forall i :: base <= i < |h| ==> RecoversTo(l, h[i], if i - base < n then before else after)
  }

  lemma CommitSwitches(h: seq<Image>, base: nat, l: Layout, d: Image, ts: seq<nat>, vals: seq<Block>)
    requires Transaction(l, d, ts, vals) && Sound(l, d) && Targets(l, d) == []
    requires CommitHistory(h, base, l, d, ts, vals)
    ensures Switches(h, base, l, |ts|, d, Apply(d, ts, vals))
  {
    forall i | base <= i < |h|
      ensures RecoversTo(l, h[i], if i - base < |ts| then d else Apply(d, ts, vals))
    {
      CommitCrash(h, base, l, d, ts, vals, i);
    }
  }

  lemma RecoverSwitches(h: seq<Image>, base: nat, l: Layout, d: Image)
    requires Sound(l, d) && RecoverHistory(h, base, l, d)
    ensures Switches(h, base, l, 0, d, Recover(l, d))
  {
    forall i | base <= i < |h|
      ensures RecoversTo(l, h[i], Recover(l, d))
    {
      RecoverCrash(h, base, l, d, i);
    }
  }

  /** With an empty header the home blocks on the disk are what recovery would leave. */
  lemma NothingToRedo(l: Layout, d: Image, home: Image)
    requires RecoversTo(l, d, home) && Targets(l, d) == []
    ensures SameHome(l, d, home)
  {
  }

  // ---------------------------------------------------------------- whole runs

  /** One transaction: commit() stops after `writes` block writes (all 2n+2 of them when it is not interrupted);
      an interrupted commit is followed by recoveries that crash after `crashes[..]` writes and one that finishes. */
  datatype Txn = Txn(ts: seq<nat>, vals: seq<Block>, writes: nat, crashes: seq<nat>)

  predicate ValidTxn(l: Layout, d: Image, t: Txn) {
    t.ts != [] && Transaction(l, d, t.ts, t.vals) && t.writes <= 2 * |t.ts| + 2
  }

  predicate ValidTxns(l: Layout, d: Image, txns: seq<Txn>) {
    forall i :: 0 <= i < |txns| ==> ValidTxn(l, d, txns[i])
  }

  function RunTxn(l: Layout, d: Image, t: Txn): (r: Image)
    requires ValidTxn(l, d, t) && Sound(l, d) && Targets(l, d) == []
    ensures |r| == |d| && Sound(l, r) && Targets(l, r) == []
  {
    CommitIsAtomic(l, d, t.ts, t.vals, t.writes);
    var p := CommitPoint(l, d, t.ts, t.vals, t.writes);
    if t.writes == 2 * |t.ts| + 2 then p else Recover(l, Crashes(l, p, t.crashes))
  }

  function Run(l: Layout, d: Image, txns: seq<Txn>): (r: Image)
    requires ValidTxns(l, d, txns) && Sound(l, d) && Targets(l, d) == []
    ensures |r| == |d| && Sound(l, r) && Targets(l, r) == []
  {
    if txns == [] then d else
    RunTxn(l, Run(l, d, txns[..|txns| - 1]), txns[|txns| - 1])
  }

  /** The flat disk on which exactly the transactions that reached their header write happened, in order. */
  function Durable(l: Layout, d: Image, txns: seq<Txn>): (r: Image)
    requires ValidTxns(l, d, txns)
    ensures |r| == |d|
  {
    if txns == [] then d else
    var t := txns[|txns| - 1];
    var before := Durable(l, d, txns[..|txns| - 1]);
    if t.writes <= |t.ts| then before else Apply(before, t.ts, t.vals)
  }

  lemma {:induction false} ApplyKeepsSameHome(l: Layout, a: Image, b: Image, ts: seq<nat>, vals: seq<Block>)
    requires |ts| == |vals| && SameHome(l, a, b) && forall i :: 0 <= i < |ts| ==> ts[i] < |a|
    ensures SameHome(l, Apply(a, ts, vals), Apply(b, ts, vals))
  {
    if ts != [] {
      ApplyKeepsSameHome(l, a, b, ts[..|ts| - 1], vals[..|ts| - 1]);
    }
  }

  /** Crash safety of every run: whatever sequence of transactions is tried, and wherever each commit and each
      recovery crashes, the home blocks end up as if exactly the committed transactions had run on a flat disk. */
  lemma {:induction false} CrashSafety(l: Layout, d: Image, txns: seq<Txn>)
    requires ValidTxns(l, d, txns) && Sound(l, d) && Targets(l, d) == []
    ensures SameHome(l, Run(l, d, txns), Durable(l, d, txns))
  {
    if txns != [] {
      var t := txns[|txns| - 1];
      var before := Run(l, d, txns[..|txns| - 1]);
      CrashSafety(l, d, txns[..|txns| - 1]);
      CommitIsAtomic(l, before, t.ts, t.vals, t.writes);
      ApplyKeepsSameHome(l, before, Durable(l, d, txns[..|txns| - 1]), t.ts, t.vals);
      var p := CommitPoint(l, before, t.ts, t.vals, t.writes);
      if t.writes == 2 * |t.ts| + 2 {
        assert SameHome(l, p, Recover(l, p));
      }
    }
  }
}
