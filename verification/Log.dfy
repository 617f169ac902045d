/** log.c over the buffer cache: log_write, commit and recover_from_log.

    Every disk write is one step of the ghost `disk.history`, so what a method says
    about the history is what a crash in the middle of it leaves behind. */
module Log {
  import opened Blocks
  import opened RedoLog
  import opened BufferCache
  import opened LoggedDisk
  import opened Params
  import GroupCommit

  /** The pinned blocks are the logged ones. */
  ghost predicate PinsExactly(pinned: set<nat>, lh: seq<nat>) {
    && (forall i :: 0 <= i < |lh| ==> lh[i] in pinned)
    && (forall b :: b in pinned ==> b in lh)
  }

  /** Some buffer is neither pinned nor, when none is held, busy. */
  ghost predicate Spare(pinned: set<nat>) {
    |pinned| < NBUF
  }

  lemma {:induction false} PinnedCount(pinned: set<nat>, lh: seq<nat>)
    requires PinsExactly(pinned, lh)
    ensures |pinned| <= |lh|
  {
    if lh != [] {
      var last := lh[|lh| - 1];
      var rest := lh[..|lh| - 1];
      if last in rest {
        PinnedCount(pinned, rest);
      } else {
        PinnedCount(pinned - {last}, rest);
      }
    }
  }

  lemma PinOneMore(pinned: set<nat>, lh: seq<nat>, b: nat)
    requires PinsExactly(pinned, lh)
    ensures PinsExactly(pinned + {b}, GroupCommit.Absorb(lh, b))
  {
    assert b in GroupCommit.Absorb(lh, b);
    forall x | x in pinned
      ensures x in GroupCommit.Absorb(lh, b)
    {
      assert x in lh;
    }
  }

  /** NBUF is at least the log's size, so the pinned blocks leave a buffer over. */
  lemma SpareBuffer(pinned: set<nat>, lh: seq<nat>, size: nat)
    requires PinsExactly(pinned, lh) && |lh| < size
    ensures size <= NBUF ==> Spare(pinned)
  {
    PinnedCount(pinned, lh);
  }

  /** Blocks of the log region are never listed, so never pinned. */
  lemma LogNotPinned(pinned: set<nat>, lh: seq<nat>, l: Layout, disksize: nat, b: nat)
    requires PinsExactly(pinned, lh) && Loggable(l, disksize, lh) && InLog(l, b)
    ensures pinned - {b} == pinned
  {
  }

  /** One round of install_trans, on the disk and on the current values alike. */
  lemma InstallRound(l: Layout, disk: Image, flat: Image, ts: seq<nat>, k: nat, d: Image, f: Image)
    requires Fits(l, disk) && Loggable(l, |disk|, ts) && k < |ts| && SameLog(l, flat, disk)
    requires d == Install(l, disk, ts, k) && f == Install(l, flat, ts, k)
    ensures f[l.start + k + 1] == disk[l.start + k + 1]
    ensures f[ts[k] := f[l.start + k + 1]] == Install(l, flat, ts, k + 1)
    ensures SameLog(l, Install(l, flat, ts, k + 1), Install(l, disk, ts, k + 1))
  {
    InstallOnly(l, flat, ts, k);
    assert InLog(l, l.start + k + 1);
    InstallOnly(l, disk, ts, k + 1);
    InstallOnly(l, flat, ts, k + 1);
  }

  lemma NothingPinned(pinned: set<nat>, before: set<nat>, lh: seq<nat>)
    requires PinsExactly(before, lh) && pinned <= before && forall i :: 0 <= i < |lh| ==> lh[i] !in pinned
    ensures pinned == {}
  {
  }

  class LogManager {
    const cache: Cache
    const layout: Layout
    var lh: seq<nat>          // log.lh.block[..log.lh.n]
    var outstanding: int
    var committing: bool

    /** The block numbers are loggable and the cached log region agrees with the disk. */
    ghost predicate Ready()
      reads this, cache
    {
      && cache.Valid()
      && Fits(layout, cache.disk)
      && Loggable(layout, |cache.disk|, lh)
      && SameLog(layout, cache.flat, cache.disk)
    }

    ghost function Contents(): Volume
      reads this, cache
    {
      Volume(cache.disk, cache.flat, lh)
    }

    /** The log manager before initlog has run recovery. */
    constructor (cache: Cache, layout: Layout)
      ensures this.cache == cache && this.layout == layout
      ensures lh == [] && outstanding == 0 && !committing
    {
      this.cache, this.layout := cache, layout;
      lh, outstanding, committing := [], 0, false;
    }

    /** Enough clean buffers for two blocks of which the second is `second`. */
    ghost predicate HasRoom(second: nat)
      reads this, cache
    {
      |cache.pinned| + 1 < NBUF || (|cache.pinned| < NBUF && second in cache.pinned)
    }

    /** memmove, bwrite and the two brelses, on buffers already read. */
    method CopyHeld(to: nat, from: nat)
      requires cache.Valid() && to < NBUF && from < NBUF && to != from
      requires cache.buf[to].busy && cache.buf[to].valid && cache.buf[from].busy && cache.buf[from].valid
      requires cache.buf[from].dirty || cache.buf[from].data == cache.disk[cache.buf[from].blockno]
      modifies cache
      ensures cache.Valid()
      ensures var dst, data := old(cache.buf[to].blockno), old(cache.buf[from].data);
              && cache.disk == old(cache.disk)[dst := data]
              && cache.history == old(cache.history) + [cache.disk]
              && cache.flat == old(cache.flat)[dst := data]
              && cache.pinned == old(cache.pinned) - {dst}
              && cache.held == old(cache.held) - {old(cache.buf[from].blockno)} - {dst}
    {
      cache.SetData(to, cache.buf[from].data);
      cache.Bwrite(to);
      cache.Brelse(from);
      cache.Brelse(to);
    }

    ghost predicate Fetched(b: nat, blockno: nat)
      requires b < NBUF && |cache.buf| == NBUF + 1
      reads cache
    {
      && cache.buf[b].busy && cache.buf[b].valid
      && cache.buf[b].blockno == blockno < |cache.disk| == |cache.flat|
      && cache.buf[b].data == cache.flat[blockno]
      && (cache.buf[b].dirty || cache.buf[b].data == cache.disk[blockno])
    }
    /** One bread. Fails when bget would wait or panic. */
    method Fetch(blockno: nat) returns (ok: bool, b: nat)
      requires cache.Valid() && blockno < |cache.disk|
      modifies cache`buf, cache`disk, cache`history, cache`pinned, cache`held
      ensures cache.Valid()
      ensures cache.disk == old(cache.disk) && cache.history == old(cache.history)
      ensures ok ==>
                && b < NBUF && !old(cache.buf[b].busy) && Fetched(b, blockno)
                && (forall i: nat, x :: i < NBUF && i != b && old(Fetched(i, x)) ==> Fetched(i, x))
                && cache.pinned == old(cache.pinned)
                && cache.held == old(cache.held) + {blockno} && blockno !in old(cache.held)
      ensures blockno !in old(cache.held) && (blockno in old(cache.pinned) || |old(cache.pinned)| + |old(cache.held)| < NBUF) ==> ok
    {
      var r := cache.Bread(ROOTDEV, blockno);
      ok := r.Got?;
      b := if ok then r.b else 0;
    }

    /** Two breads. */
    method FetchTwo(first: nat, second: nat) returns (ok: bool, b1: nat, b2: nat)
      requires cache.Valid() && first != second && first < |cache.disk| && second < |cache.disk|
      modifies cache`buf, cache`disk, cache`history, cache`pinned, cache`held
      ensures cache.Valid()
      ensures cache.disk == old(cache.disk) && cache.history == old(cache.history)
      ensures ok ==>
                && b1 < NBUF && b2 < NBUF && b1 != b2
                && Fetched(b1, first) && Fetched(b2, second)
                && cache.pinned == old(cache.pinned)
                && cache.held == old(cache.held) + {first, second}
      ensures old(cache.held == {} && HasRoom(second)) ==> ok
    {
      ok, b1 := Fetch(first);
      b2 := 0;
      if ok {
        assert cache.buf[b1].busy;
        assert old(cache.held) == {} ==> cache.held == {first};
        ok, b2 := Fetch(second);
      }
    }

    /** Copy block src over block dst through the cache and write dst; dst is read first in write_log, src first
        in install_trans. Stops early, with the disk as it was, when bget would wait or panic. */
    method CopyBlock(dst: nat, src: nat, dstFirst: bool) returns (ok: bool)
      requires cache.Valid() && dst != src && dst < |cache.disk| && src < |cache.disk|
      modifies cache
      ensures cache.Valid()
      ensures ok ==>
                && cache.disk == old(cache.disk)[dst := old(cache.flat)[src]]
                && cache.history == old(cache.history) + [cache.disk]
                && cache.flat == old(cache.flat)[dst := old(cache.flat)[src]]
                && cache.pinned == old(cache.pinned) - {dst}
      ensures old(cache.held) == {} && ok ==> cache.held == {}
      ensures !ok ==> cache.disk == old(cache.disk) && cache.history == old(cache.history) && cache.flat == old(cache.flat)
      ensures old(cache.held == {} && HasRoom(if dstFirst then src else dst)) ==> ok
    {
      var to, from;
      if dstFirst {
        ok, to, from := FetchTwo(dst, src);
      } else {
        ok, from, to := FetchTwo(src, dst);
      }
      if ok {
        CopyHeld(to, from);
      }
    }

    /** k blocks of the transaction are in the log; nothing else has changed since the commit began. */
    ghost predicate LogProgress(k: nat, flat: Image, disk: Image, history: seq<Image>)
      reads this, cache
    {
      && Ready() && k <= |lh| && |flat| == |disk| == |cache.disk|
      && SameHome(layout, cache.flat, flat)
      && cache.disk == LogCopies(layout, disk, Values(flat, lh), k)
      && history <= cache.history && |cache.history| == |history| + k
      && CommitHistory(cache.history, |history|, layout, disk, lh, Values(flat, lh))
    }

    /** One round of write_log's loop. */
    method LogOne(tail: nat, ghost flat: Image, ghost disk: Image, ghost history: seq<Image>) returns (done: bool)
      requires tail < |lh| && LogProgress(tail, flat, disk, history) && PinsExactly(cache.pinned, lh)
      modifies cache
      ensures LogProgress(if done then tail + 1 else tail, flat, disk, history)
      ensures done ==> cache.pinned == old(cache.pinned)
      ensures done && old(cache.held) == {} ==> cache.held == {}
      ensures old(cache.held == {} && Spare(cache.pinned)) ==> done
    {
      ghost var h, f, vals := cache.history, cache.flat, Values(flat, lh);
      LogNotPinned(cache.pinned, lh, layout, |disk|, layout.start + tail + 1);
      done := CopyBlock(layout.start + tail + 1, lh[tail], true);
      if done {
        LogOneMore(h, |history|, layout, disk, lh, vals, tail, cache.disk);
        SameHomeAfterWrite(layout, f, flat, layout.start + tail + 1, vals[tail]);
      }
    }

    /** write_log: the modified blocks go from the cache to the log, one write each. */
    method WriteLog() returns (ok: bool)
      requires Ready() && PinsExactly(cache.pinned, lh)
      modifies cache
      ensures cache.Valid()
      ensures |old(cache.history)| <= |cache.history|
      ensures LogProgress(|cache.history| - |old(cache.history)|, old(cache.flat), old(cache.disk), old(cache.history))
      ensures ok ==> |cache.history| == |old(cache.history)| + |lh| && cache.pinned == old(cache.pinned)
      ensures ok && old(cache.held) == {} ==> cache.held == {}
      ensures old(cache.held == {} && Spare(cache.pinned)) ==> ok
    {
      ghost var f0, d0, h0, p0 := cache.flat, cache.disk, cache.history, cache.pinned;
      var tail := 0;
      while tail < |lh|
        invariant LogProgress(tail, f0, d0, h0)
        invariant cache.pinned == p0
        invariant old(cache.held) == {} ==> cache.held == {}
      {
        var done := LogOne(tail, f0, d0, h0);
        if !done {
          return false;
        }
        tail := tail + 1;
      }
      return true;
    }

    /** write_head's loop over the entries. */
    method FormatHeader(block: Block) returns (h: Block)
      requires |lh| <= LOGSIZE && forall i :: 0 <= i < |lh| ==> lh[i] < WORD_LIMIT
      ensures h == WriteHeader(block, lh)
    {
      h := PutWord(block, 0, |lh|);
      var i := 0;
      while i < |lh|
        invariant i <= |lh|
        invariant h == PutEntries(PutWord(block, 0, |lh|), lh, i)
      {
        h := PutWord(h, i + 1, lh[i]);
        i := i + 1;
      }
    }

    /** Change a buffer already read, write it and release it. */
    method WriteHeld(b: nat, data: Block)
      requires cache.Valid() && b < NBUF && cache.buf[b].busy && cache.buf[b].valid
      modifies cache
      ensures cache.Valid()
      ensures var x := old(cache.buf[b].blockno);
              && cache.disk == old(cache.disk)[x := data]
              && cache.flat == old(cache.flat)[x := data]
              && cache.history == old(cache.history) + [cache.disk]
              && cache.pinned == old(cache.pinned) - {x}
              && cache.held == old(cache.held) - {x}
    {
      cache.SetData(b, data);
      cache.Bwrite(b);
      cache.Brelse(b);
    }

    /** write_head: one write puts the in-memory list into the header block. */
    method WriteHead() returns (ok: bool)
      requires Ready()
      modifies cache
      ensures cache.Valid()
      ensures ok ==>
                && Ready() && SameHome(layout, cache.flat, old(cache.flat))
                && cache.disk == old(cache.disk)[layout.start := WriteHeader(old(cache.disk)[layout.start], lh)]
                && cache.history == old(cache.history) + [cache.disk]
                && cache.pinned == old(cache.pinned) - {layout.start}
      ensures ok && old(cache.held) == {} ==> cache.held == {}
      ensures !ok ==> cache.disk == old(cache.disk) && cache.history == old(cache.history) && cache.flat == old(cache.flat)
      ensures old(cache.held == {} && Spare(cache.pinned)) ==> ok
    {
      var b;
      ok, b := Fetch(layout.start);
      if ok {
        var h := FormatHeader(cache.buf[b].data);
        WriteHeld(b, h);
      }
    }

    /** k logged blocks are home, on the disk and in the cache; nothing else has changed since install_trans began. */
    ghost predicate InstallProgress(k: nat, flat: Image, disk: Image, history: seq<Image>)
      reads this, cache
    {
      && Ready() && k <= |lh| && |flat| == |disk| == |cache.disk|
      && SameLog(layout, flat, disk)
      && cache.disk == Install(layout, disk, lh, k)
      && cache.flat == Install(layout, flat, lh, k)
      && history <= cache.history && |cache.history| == |history| + k
      && InstallHistory(cache.history, |history|, layout, disk, lh)
    }

    /** One round of install_trans's loop. */
    method InstallOne(tail: nat, ghost flat: Image, ghost disk: Image, ghost history: seq<Image>) returns (done: bool)
      requires tail < |lh| && InstallProgress(tail, flat, disk, history)
      modifies cache
      ensures InstallProgress(if done then tail + 1 else tail, flat, disk, history)
      ensures done ==> cache.pinned == old(cache.pinned) - {lh[tail]}
      ensures done && old(cache.held) == {} ==> cache.held == {}
      ensures old(cache.held == {} && HasRoom(lh[tail])) ==> done
    {
      ghost var h := cache.history;
      InstallRound(layout, disk, flat, lh, tail, cache.disk, cache.flat);
      done := CopyBlock(lh[tail], layout.start + tail + 1, false);
      if done {
        InstallOneMore(h, |history|, layout, disk, lh, tail, cache.disk);
      }
    }

    /** install_trans: the logged blocks go home, one write each, and are unpinned. */
    method InstallTrans() returns (ok: bool)
      requires Ready()
      modifies cache
      ensures |old(cache.history)| <= |cache.history|
      ensures InstallProgress(|cache.history| - |old(cache.history)|, old(cache.flat), old(cache.disk), old(cache.history))
      ensures ok ==> |cache.history| == |old(cache.history)| + |lh|
      ensures ok ==> cache.pinned <= old(cache.pinned) && forall i :: 0 <= i < |lh| ==> lh[i] !in cache.pinned
      ensures ok && old(cache.held) == {} ==> cache.held == {}
      ensures old(cache.held == {} && |cache.pinned| + 1 < NBUF) ==> ok
      ensures old(cache.held == {} && Spare(cache.pinned) && PinsExactly(cache.pinned, lh) && GroupCommit.NoDuplicates(lh)) ==> ok
    {
      ghost var f0, d0, h0, p0 := cache.flat, cache.disk, cache.history, cache.pinned;
      var tail := 0;
      while tail < |lh|
        invariant InstallProgress(tail, f0, d0, h0)
        invariant cache.pinned <= p0 && |cache.pinned| <= |p0|
        invariant forall i :: 0 <= i < tail ==> lh[i] !in cache.pinned
        invariant GroupCommit.NoDuplicates(lh) ==> forall i :: tail <= i < |lh| && lh[i] in p0 ==> lh[i] in cache.pinned
        invariant old(cache.held) == {} ==> cache.held == {}
      {
        var done := InstallOne(tail, f0, d0, h0);
        if !done {
          return false;
        }
        tail := tail + 1;
      }
      return true;
    }

    /** Between operations: the logged blocks are distinct, they are exactly the pinned ones, and the header on
        the disk is empty. */
    ghost predicate Valid()
      reads this, cache
    {
      && Ready() && GroupCommit.NoDuplicates(lh) && PinsExactly(cache.pinned, lh)
      && Sound(layout, cache.disk) && Targets(layout, cache.disk) == []
    }

    /** When no process is inside bread and brelse, nothing but the listed blocks is ahead of the disk. */
    lemma IdleIsSettled()
      requires Valid() && cache.held == {}
      ensures VolumeOk(layout, Contents())
    {
      forall b: nat | b < |cache.disk| && b !in lh
        ensures cache.flat[b] == cache.disk[b]
      {
        if cache.flat[b] != cache.disk[b] {
          AheadIsMarked(cache.buf, cache.disk, cache.flat, cache.pinned, cache.held, b);
        }
      }
    }

    /** commit()'s first header write, once every listed block is in the log. */
    method WriteHeadCommitted(ghost flat: Image, ghost disk: Image, ghost history: seq<Image>) returns (ok: bool)
      requires LogProgress(|lh|, flat, disk, history) && PinsExactly(cache.pinned, lh)
      modifies cache
      ensures cache.Valid() && old(cache.history) <= cache.history
      ensures CommitHistory(cache.history, |history|, layout, disk, lh, Values(flat, lh))
      ensures |cache.history| == |history| + |lh| + if ok then 1 else 0
      ensures ok ==>
                && Ready() && cache.disk == Committed(layout, disk, lh, Values(flat, lh))
                && SameHome(layout, cache.flat, flat)
                && cache.pinned == old(cache.pinned)
      ensures ok && old(cache.held) == {} ==> cache.held == {}
      ensures old(cache.held == {} && Spare(cache.pinned)) ==> ok
    {
      ghost var h := cache.history;
      LogNotPinned(cache.pinned, lh, layout, |cache.disk|, layout.start);
      ok := WriteHead();
      if ok {
        HeaderWritten(h, |history|, layout, disk, lh, Values(flat, lh), cache.disk);
      }
    }

    /** The first half of commit(), up to the header write. */
    method CommitToLog() returns (ok: bool)
      requires Ready() && PinsExactly(cache.pinned, lh)
      modifies cache
      ensures cache.Valid() && old(cache.history) <= cache.history
      ensures CommitHistory(cache.history, |old(cache.history)|, layout, old(cache.disk), lh, Values(old(cache.flat), lh))
      ensures |cache.history| <= |old(cache.history)| + |lh| + 1
      ensures ok ==>
                && Ready() && |cache.history| == |old(cache.history)| + |lh| + 1
                && cache.disk == Committed(layout, old(cache.disk), lh, Values(old(cache.flat), lh))
                && SameHome(layout, cache.flat, old(cache.flat))
                && cache.pinned == old(cache.pinned)
      ensures ok && old(cache.held) == {} ==> cache.held == {}
      ensures old(cache.held == {} && Spare(cache.pinned)) ==> ok
    {
      ghost var f0, d0, h0 := cache.flat, cache.disk, cache.history;
      ok := WriteLog();
      if ok {
        ok := WriteHeadCommitted(f0, d0, h0);
      }
    }

    /** install_trans inside commit(), when the cache already holds what the log holds. */
    method InstallCommitted() returns (ok: bool)
      requires Ready() && PinsExactly(cache.pinned, lh) && GroupCommit.NoDuplicates(lh)
      requires Install(layout, cache.flat, lh, |lh|) == cache.flat
      modifies cache
      ensures cache.Valid() && old(cache.history) <= cache.history
      ensures InstallHistory(cache.history, |old(cache.history)|, layout, old(cache.disk), lh)
      ensures ok ==>
                && Ready() && |cache.history| == |old(cache.history)| + |lh|
                && cache.disk == Install(layout, old(cache.disk), lh, |lh|)
                && cache.flat == old(cache.flat) && cache.pinned == {}
      ensures ok && old(cache.held) == {} ==> cache.held == {}
      ensures old(cache.held == {} && Spare(cache.pinned)) ==> ok
    {
      ghost var p0 := cache.pinned;
      ok := InstallTrans();
      if ok {
        NothingPinned(cache.pinned, p0, lh);
      }
    }

    /** The header write that ends commit() and recover_from_log(). */
    method EraseLog() returns (ok: bool)
      requires Ready() && cache.pinned == {}
      modifies this`lh, cache
      ensures cache.Valid() && lh == []
      ensures ok ==>
                && Valid() && cache.disk == ClearHeader(layout, old(cache.disk))
                && cache.history == old(cache.history) + [cache.disk]
                && SameHome(layout, cache.flat, old(cache.flat))
      ensures !ok ==> cache.history == old(cache.history)
      ensures ok && old(cache.held) == {} ==> cache.held == {}
      ensures old(cache.held) == {} ==> ok
    {
      lh := [];
      ok := WriteHead();
    }

    /** commit() from its header write on. `base` is the length of the history, `d` the disk and `vals` the block
        values with which it began. */
    method CommitFromHeader(ghost base: nat, ghost d: Image, ghost vals: seq<Block>) returns (ok: bool)
      requires Ready() && PinsExactly(cache.pinned, lh) && GroupCommit.NoDuplicates(lh)
      requires Transaction(layout, d, lh, vals) && cache.disk == Committed(layout, d, lh, vals)
      requires Install(layout, cache.flat, lh, |lh|) == cache.flat
      requires |cache.history| == base + |lh| + 1 && CommitHistory(cache.history, base, layout, d, lh, vals)
      modifies this`lh, cache
      ensures cache.Valid() && old(cache.history) <= cache.history
      ensures CommitHistory(cache.history, base, layout, d, old(lh), vals)
      ensures ok ==>
                && Valid() && lh == [] && SameHome(layout, cache.flat, old(cache.flat))
                && |cache.history| == base + 2 * |old(lh)| + 2
                && cache.disk == CommitPoint(layout, d, old(lh), vals, 2 * |old(lh)| + 2)
      ensures old(cache.held == {} && Spare(cache.pinned)) ==> ok
    {
      ghost var ts := lh;
      ok := InstallCommitted();
      CommitThenInstall(old(cache.history), cache.history, base, layout, d, ts, vals);
      if ok {
        ghost var h := cache.history;
        ok := EraseLog();
        if ok {
          HeaderCleared(h, base, layout, d, ts, vals, cache.disk);
        }
      }
    }

    /** commit() of a list that is not empty: the disk's new images are exactly this commit's points, as far as it
        got. With no buffer held it always gets to its end, since the log holds fewer blocks than the cache has
        buffers. */
    method CommitListed() returns (ok: bool)
      requires Valid() && lh != []
      modifies this`lh, cache
      ensures cache.Valid() && old(cache.history) <= cache.history
      ensures CommitHistory(cache.history, |old(cache.history)|, layout, old(cache.disk), old(lh), Values(old(cache.flat), old(lh)))
      ensures ok ==>
                && Valid() && lh == [] && SameHome(layout, cache.flat, old(cache.flat))
                && |cache.history| == |old(cache.history)| + 2 * |old(lh)| + 2
                && cache.disk == CommitPoint(layout, old(cache.disk), old(lh), Values(old(cache.flat), old(lh)), 2 * |old(lh)| + 2)
      ensures old(cache.held) == {} && layout.size <= NBUF ==> ok
    {
      ghost var d0, h0, vals := cache.disk, cache.history, Values(cache.flat, lh);
      SpareBuffer(cache.pinned, lh, layout.size);
      ok := CommitToLog();
      if ok {
        InstallLeavesFlat(layout, cache.flat, d0, lh, vals);
        ok := CommitFromHeader(|h0|, d0, vals);
      }
    }

    /** After a commit the disk holds the current value of every block. */
    lemma AllOnDisk(flat: Image)
      requires Ready() && SameHome(layout, cache.flat, flat) && SameHome(layout, cache.disk, flat)
      ensures cache.flat == cache.disk
    {
      forall b | 0 <= b < |cache.disk|
        ensures cache.flat[b] == cache.disk[b]
      {
        assert InLog(layout, b) || cache.flat[b] == flat[b] == cache.disk[b];
      }
    }

    /** commit(): the disk's new images are exactly this commit's points, as far as it got. When nothing but the
        listed blocks is ahead of the disk, whichever of them a crash leaves, the next boot finds the old disk's
        file system up to the header write and the cache's from that write on, and a commit that runs to its end is
        the step Commit: the disk then holds the current value of every block. It unpins exactly the committed
        blocks and changes no block's current value outside the log. With no buffer held it always does. */
    method Commit() returns (ok: bool)
      requires Valid()
      modifies this`lh, cache
      ensures cache.Valid() && old(cache.history) <= cache.history
      ensures CommitHistory(cache.history, |old(cache.history)|, layout, old(cache.disk), old(lh), Values(old(cache.flat), old(lh)))
      ensures ok ==> Valid() && lh == [] && cache.pinned == {} && SameHome(layout, cache.flat, old(cache.flat))
      ensures old(lh) == [] ==> ok && cache.disk == old(cache.disk) && cache.history == old(cache.history)
      ensures ok && old(lh) != [] ==>
                && |cache.history| == |old(cache.history)| + 2 * |old(lh)| + 2
                && cache.disk == CommitPoint(layout, old(cache.disk), old(lh), Values(old(cache.flat), old(lh)), 2 * |old(lh)| + 2)
      ensures old(Settled(cache.disk, cache.flat, lh)) ==>
                && Switches(cache.history, |old(cache.history)|, layout, |old(lh)|, old(cache.disk), old(cache.flat))
                && (ok ==> VolumeOk(layout, old(Contents())) && Next(layout, old(Contents()), LoggedDisk.Commit, Contents()))
      ensures old(cache.held) == {} ==> old(Settled(cache.disk, cache.flat, lh)) && (layout.size <= NBUF ==> ok)
    {
      ghost var d0, f0, h0, ts := cache.disk, cache.flat, cache.history, lh;
      if cache.held == {} {
        IdleIsSettled();
      }
      ok := true;
      if 0 < |lh| {
        ok := CommitListed();
        if Settled(d0, f0, ts) {
          CommitDurable(cache.history, |h0|, layout, d0, f0, ts);
          if ok {
            AllOnDisk(f0);
          }
        }
      }
    }

    /** recover_from_log() on a freshly booted cache: redo what the header lists and clear it. Every image it
        writes is one of its recovery points, and it cannot run out of buffers. */
    method RecoverFromLog() returns (ok: bool)
      requires cache.Valid() && cache.flat == cache.disk && cache.pinned == {} && cache.held == {}
      requires Sound(layout, cache.disk)
      modifies this`lh, cache
      ensures ok && Valid() && lh == [] && cache.held == {}
      ensures cache.disk == Recover(layout, old(cache.disk))
      ensures old(cache.history) <= cache.history
      ensures RecoverHistory(cache.history, |old(cache.history)|, layout, old(cache.disk))
      ensures Switches(cache.history, |old(cache.history)|, layout, 0, old(cache.disk), cache.disk)
    {
      ghost var d0, h0 := cache.disk, cache.history;
      ok := ReadHead();
      if ok {
        ok := InstallTrans();
        ghost var h := cache.history;
        if ok {
          ok := EraseLog();
          InstallThenClear(h, |h0|, layout, d0);
          RecoverSwitches(cache.history, |h0|, layout, d0);
        }
      }
    }

    /** initlog on the disk a machine boots with: the cache and the disk both hold the recovered file system, and
        the log is empty. */
    static method InitLog(image: Image, layout: Layout) returns (m: LogManager)
      requires Sound(layout, image)
      ensures fresh(m) && fresh(m.cache) && m.layout == layout
      ensures m.Valid() && m.Ctl() == GroupCommit.Ctl([], 0, false)
      ensures m.Contents() == Volume(Recover(layout, image), Recover(layout, image), []) && m.cache.held == {}
      ensures RecoverHistory(m.cache.history, 0, layout, image)
    {
      var cache := new Cache(image);
      m := new LogManager(cache, layout);
      var ok := m.RecoverFromLog();
      m.IdleIsSettled();
    }

    /** read_head: the in-memory list becomes the one on the disk. */
    method ReadHead() returns (ok: bool)
      requires cache.Valid() && cache.flat == cache.disk && cache.held == {}
      requires Sound(layout, cache.disk)
      modifies this`lh, cache
      ensures cache.Valid() && cache.flat == old(cache.flat)
      ensures cache.disk == old(cache.disk) && cache.history == old(cache.history)
      ensures ok ==> lh == Targets(layout, cache.disk) && cache.held == {} && cache.pinned == old(cache.pinned)
      ensures old(Spare(cache.pinned)) ==> ok
    {
      var b;
      ok, b := Fetch(layout.start);
      if ok {
        lh := ParseHeader(cache.buf[b].data);
        cache.Brelse(b);
      }
    }

    /** read_head's loop over the entries. */
    method ParseHeader(h: Block) returns (ts: seq<nat>)
      requires HeaderCount(h) <= LOGSIZE
      ensures ts == HeaderTargets(h, HeaderCount(h))
    {
      ts := [];
      var i := 0;
      while i < HeaderCount(h)
        invariant i <= HeaderCount(h) && |ts| == i
        invariant forall j :: 0 <= j < i ==> ts[j] == GetWord(h, j + 1)
      {
        ts := ts + [GetWord(h, i + 1)];
        i := i + 1;
      }
    }

    // ---------------------------------------------------------------- the operations file-system calls use

    function Ctl(): GroupCommit.Ctl
      reads this
    {
      GroupCommit.Ctl(lh, outstanding, committing)
    }

    /** One pass of begin_op's loop: enter the operation, or go to sleep. */
    method BeginOp() returns (entered: bool)
      modifies `outstanding
      ensures entered <==> !old(GroupCommit.MustWait(Ctl()))
      ensures Ctl() == if entered then GroupCommit.Begin(old(Ctl())) else old(Ctl())
    {
      if committing || |lh| + (outstanding + 1) * MAXOPBLOCKS > LOGSIZE {
        return false;
      }
      outstanding := outstanding + 1;
      return true;
    }

    /** log_write: the caller's changed block is listed once and pinned, and nothing reaches the disk. Fails, where
        the source panics, when the list is full. */
    method LogWrite(b: nat) returns (ok: bool)
      requires Valid() && 1 <= outstanding
      requires b < NBUF && cache.buf[b].busy && cache.buf[b].valid
      requires cache.buf[b].blockno < WORD_LIMIT && !InLog(layout, cache.buf[b].blockno)
      modifies `lh, cache`buf, cache`pinned
      ensures Valid()
      ensures ok <==> !old(GroupCommit.TooBig(Ctl(), layout.size))
      ensures lh == if ok then GroupCommit.Absorb(old(lh), old(cache.buf[b].blockno)) else old(lh)
      ensures cache.buf == if ok then old(cache.buf)[b := old(cache.buf[b]).(dirty := true)] else old(cache.buf)
    {
      if |lh| >= LOGSIZE || |lh| >= layout.size - 1 {
        return false;
      }
      var blockno := cache.buf[b].blockno;
      var i := 0;
      while i < |lh| && lh[i] != blockno
        invariant i <= |lh| && forall j :: 0 <= j < i ==> lh[j] != blockno
      {
        i := i + 1;
      }
      if i == |lh| {
        lh := lh + [blockno];
      } else {
        lh := lh[i := blockno];
        assert lh == old(lh);
      }
      PinOneMore(cache.pinned, old(lh), blockno);
      cache.MarkDirty(b);
      return true;
    }

    /** The caller of bread changes the data of a block outside the log. */
    method ChangeHeld(b: nat, data: Block)
      requires Valid() && b < NBUF && cache.buf[b].busy && cache.buf[b].valid && !InLog(layout, cache.buf[b].blockno)
      modifies cache`buf, cache`flat
      ensures Valid() && cache.flat == old(cache.flat)[old(cache.buf[b].blockno) := data]
      ensures cache.buf == old(cache.buf)[b := old(cache.buf[b]).(data := data)]
    {
      cache.SetData(b, data);
    }

    /** brelse of a logged block. */
    method ReleaseLogged(b: nat)
      requires Valid() && b < NBUF && cache.buf[b].busy && cache.buf[b].valid && cache.buf[b].dirty
      modifies cache`buf, cache`order, cache`releasedAt, cache`clock, cache`held
      ensures Valid() && cache.held == old(cache.held) - {old(cache.buf[b].blockno)}
    {
      cache.Brelse(b);
    }

    /** A change of a buffer already read, log_write and brelse. */
    method UpdateHeld(b: nat, data: Block) returns (ok: bool)
      requires Valid() && 1 <= outstanding && b < NBUF && cache.buf[b].busy && cache.buf[b].valid
      requires cache.buf[b].blockno < WORD_LIMIT && !InLog(layout, cache.buf[b].blockno)
      modifies `lh, cache
      ensures cache.Valid() && cache.disk == old(cache.disk) && cache.history == old(cache.history)
      ensures ok <==> !old(GroupCommit.TooBig(Ctl(), layout.size))
      ensures ok ==>
                && Valid() && cache.held == old(cache.held) - {old(cache.buf[b].blockno)}
                && cache.flat == old(cache.flat)[old(cache.buf[b].blockno) := data]
                && lh == GroupCommit.Absorb(old(lh), old(cache.buf[b].blockno))
    {
      ChangeHeld(b, data);
      ok := LogAndRelease(b);
    }

    /** log_write and brelse. */
    method LogAndRelease(b: nat) returns (ok: bool)
      requires Valid() && 1 <= outstanding && b < NBUF && cache.buf[b].busy && cache.buf[b].valid
      requires cache.buf[b].blockno < WORD_LIMIT && !InLog(layout, cache.buf[b].blockno)
      modifies `lh, cache`buf, cache`pinned, cache`order, cache`releasedAt, cache`clock, cache`held
      ensures Valid()
      ensures ok <==> !old(GroupCommit.TooBig(Ctl(), layout.size))
      ensures ok ==>
                && cache.held == old(cache.held) - {old(cache.buf[b].blockno)}
                && lh == GroupCommit.Absorb(old(lh), old(cache.buf[b].blockno))
    {
      ok := LogWrite(b);
      if ok {
        ReleaseLogged(b);
      }
    }

    /** What a file-system call does to a block inside an operation: bread, a change of the data, log_write, brelse.
        It is the step Update; what other processes hold stays held. */
    method UpdateBlock(blockno: nat, data: Block) returns (ok: bool)
      requires Valid() && 1 <= outstanding && blockno < |cache.disk| && blockno < WORD_LIMIT && !InLog(layout, blockno)
      modifies `lh, cache
      ensures cache.Valid() && cache.disk == old(cache.disk) && cache.history == old(cache.history)
      ensures ok ==>
                && Valid() && cache.held == old(cache.held)
                && Contents() == Volume(old(cache.disk), old(cache.flat)[blockno := data], GroupCommit.Absorb(old(lh), blockno))
                && (old(VolumeOk(layout, Contents())) ==> Next(layout, old(Contents()), Update(blockno, data), Contents()))
      ensures blockno !in old(cache.held) && |old(cache.pinned)| + |old(cache.held)| < NBUF && !old(GroupCommit.TooBig(Ctl(), layout.size)) ==> ok
    {
      var b;
      ok, b := Fetch(blockno);
      if ok {
        assert cache.held - {blockno} == old(cache.held);
        ok := UpdateHeld(b, data);
      }
    }

    /** end_op up to its commit: the last operation out becomes the committer, any other wakes the waiters. */
    method EndOp() returns (doCommit: bool)
      requires 1 <= outstanding && !committing
      modifies `outstanding, `committing
      ensures Ctl() == GroupCommit.End(old(Ctl()))
      ensures doCommit <==> committing
    {
      outstanding := outstanding - 1;
      doCommit := false;
      if outstanding == 0 {
        doCommit := true;
        committing := true;
      }
    }
  }
}
