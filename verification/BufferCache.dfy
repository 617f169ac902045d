/** The buffer cache of bio.c over the disk of memide.c.

    Each method is one critical section of the source (everything done while
    bcache.lock, or a B_BUSY buffer, is held), so an arbitrary sequence of calls is an
    arbitrary interleaving of processes. The ghost field `flat` is the one block array
    that the cache and the disk together implement. */
module BufferCache {
  import opened Blocks
  import opened Params

  const HEAD := NBUF    // index of bcache.head in buf
  const NODEV := -1
  const ROOTDEV := 1

  datatype Buf = Buf(busy: bool, valid: bool, dirty: bool, dev: int, blockno: nat, prev: nat, next: nat, data: Block)

  // ---------------------------------------------------------------- the doubly linked ring

  /** The i-th buffer in ring order; the list head closes the ring on both sides. */
  function At(order: seq<nat>, i: int): nat {
    if 0 <= i < |order| then order[i] else HEAD
  }

  /** The (i-1)-th and the i-th buffer point at each other. */
  ghost predicate LinkAt(s: seq<Buf>, order: seq<nat>, i: nat)
    requires |s| == NBUF + 1 && forall i :: 0 <= i < |order| ==> order[i] < NBUF
  {
    s[At(order, i)].prev == At(order, i - 1) && s[At(order, i - 1)].next == At(order, i)
  }

  /** The prev/next links form one ring: the head, then `order`, then the head again. */
  ghost predicate Ring(s: seq<Buf>, order: seq<nat>) {
    && |s| == NBUF + 1
    && (forall i :: 0 <= i < |order| ==> order[i] < NBUF)
    && (forall i, j :: 0 <= i < j < |order| ==> order[i] != order[j])
    && (forall i :: 0 <= i <= |order| ==> LinkAt(s, order, i))
  }

  /** Buffer b leaves the ring: its neighbours are linked to each other. */
  function Unlink(s: seq<Buf>, b: nat): (t: seq<Buf>)
    requires |s| == NBUF + 1 && b < NBUF && s[b].next <= NBUF && s[b].prev <= NBUF
    ensures SameContents(s, t)
  {
    var s1 := s[s[b].next := s[s[b].next].(prev := s[b].prev)];
    s1[s[b].prev := s1[s[b].prev].(next := s[b].next)]
  }

  /** The insertion after the head done by binit and brelse. */
  function PushFront(s: seq<Buf>, b: nat): (t: seq<Buf>)
    requires |s| == NBUF + 1 && b < NBUF && s[HEAD].next <= NBUF && s[HEAD].next != b
    ensures SameContents(s, t)
  {
    var first := s[HEAD].next;
    var s1 := s[b := s[b].(next := first, prev := HEAD)];
    var s2 := s1[first := s1[first].(prev := b)];
    s2[HEAD := s2[HEAD].(next := b)]
  }

  function Without(order: seq<nat>, k: nat): (r: seq<nat>)
    requires k < |order|
  {
    order[..k] + order[k + 1..]
  }

  /** Equal except for the links. */
  ghost predicate SameContents(s: seq<Buf>, t: seq<Buf>) {
    |s| == |t| && forall i :: 0 <= i < |s| ==> SameButLinks(s[i], t[i])
  }

  ghost predicate SameButLinks(x: Buf, y: Buf) {
    && x.busy == y.busy && x.valid == y.valid && x.dirty == y.dirty
    && x.dev == y.dev && x.blockno == y.blockno && x.data == y.data
  }

  /** Positions before the k-th stay, later ones move up by one. */
  lemma AtWithout(order: seq<nat>, k: nat, i: int)
    requires k < |order|
    ensures At(Without(order, k), i) == At(order, if i < k then i else i + 1)
  {
  }

  lemma UnlinkKeepsLink(s: seq<Buf>, order: seq<nat>, k: nat, i: nat)
    requires Ring(s, order) && k < |order| && i < |order|
    requires s[order[k]].next == At(order, k + 1) && s[order[k]].prev == At(order, k - 1)
    ensures var t := Unlink(s, order[k]); var r := Without(order, k);
            t[At(r, i)].prev == At(r, i - 1) && t[At(r, i - 1)].next == At(r, i)
  {
    AtWithout(order, k, i);
    AtWithout(order, k, i - 1);
    assert LinkAt(s, order, if i < k then i else i + 1);
    assert LinkAt(s, order, i);
  }

  lemma UnlinkKeepsRing(s: seq<Buf>, order: seq<nat>, k: nat)
    requires Ring(s, order) && k < |order|
    ensures s[order[k]].next <= NBUF && s[order[k]].prev <= NBUF
    ensures s[order[k]].next != order[k] && s[order[k]].prev != order[k]
    ensures Ring(Unlink(s, order[k]), Without(order, k))
  {
    assert LinkAt(s, order, k) && LinkAt(s, order, k + 1);
    var r := Without(order, k);
    forall i: nat | i <= |r|
      ensures LinkAt(Unlink(s, order[k]), r, i)
    {
      UnlinkKeepsLink(s, order, k, i);
    }
  }

  lemma PushFrontKeepsLink(s: seq<Buf>, order: seq<nat>, b: nat, i: nat)
    requires Ring(s, order) && b < NBUF && b !in order && i <= |order| + 1
    requires s[HEAD].next == At(order, 0) != b
    ensures LinkAt(PushFront(s, b), [b] + order, i)
  {
    var r := [b] + order;
    assert At(r, i) == (if i == 0 then b else At(order, i - 1));
    assert At(r, i - 1) == (if i == 0 then HEAD else if i == 1 then b else At(order, i - 2));
    if 1 <= i {
      assert LinkAt(s, order, i - 1);
    }
  }

  lemma PushFrontKeepsRing(s: seq<Buf>, order: seq<nat>, b: nat)
    requires Ring(s, order) && b < NBUF && b !in order
    ensures s[HEAD].next <= NBUF && s[HEAD].next != b
    ensures Ring(PushFront(s, b), [b] + order)
  {
    assert LinkAt(s, order, 0);
    forall i: nat | i <= |order| + 1
      ensures LinkAt(PushFront(s, b), [b] + order, i)
    {
      PushFrontKeepsLink(s, order, b, i);
    }
  }

  ghost predicate SameLinks(s: seq<Buf>, t: seq<Buf>) {
    |s| == |t| && forall i :: 0 <= i < |s| ==> s[i].prev == t[i].prev && s[i].next == t[i].next
  }

  lemma SameLinksSameRing(s: seq<Buf>, t: seq<Buf>, order: seq<nat>)
    requires Ring(s, order) && SameLinks(s, t)
    ensures Ring(t, order)
  {
    forall i: nat | i <= |order|
      ensures LinkAt(t, order, i)
    {
      assert LinkAt(s, order, i);
    }
  }

  ghost predicate Listed(order: seq<nat>, b: nat) {
    b in order
  }

  /** Ring order is the order of release: later releases first, every buffer exactly once. */
  ghost predicate Recent(order: seq<nat>, releasedAt: seq<nat>, clock: nat) {
    && |order| == NBUF && (forall b :: 0 <= b < NBUF ==> Listed(order, b))
    && |releasedAt| == NBUF && (forall b :: 0 <= b < NBUF ==> releasedAt[b] < clock)
    && (forall i :: 0 <= i < NBUF ==> order[i] < NBUF)
    && (forall i, j :: 0 <= i < j < NBUF ==> releasedAt[order[j]] < releasedAt[order[i]])
  }

  lemma MoveToFrontKeepsRecent(order: seq<nat>, releasedAt: seq<nat>, clock: nat, k: nat)
    requires Recent(order, releasedAt, clock) && k < NBUF
    ensures Recent([order[k]] + Without(order, k), releasedAt[order[k] := clock], clock + 1)
  {
    var moved := [order[k]] + Without(order, k);
    forall c | 0 <= c < NBUF
      ensures Listed(moved, c)
    {
      assert Listed(order, c);
      var j :| 0 <= j < NBUF && order[j] == c;
      assert j == k || moved[if j < k then j + 1 else j] == c;
    }
  }

  // ---------------------------------------------------------------- cache and disk as one flat array

  ghost predicate Holds(x: Buf, blockno: nat) {
    x.dev == ROOTDEV && x.blockno == blockno
  }

  /** Two buffers that do not hold the same block. */
  ghost predicate Apart(x: Buf, y: Buf) {
    x.dev == ROOTDEV && y.dev == ROOTDEV ==> x.blockno != y.blockno
  }

  ghost predicate NoTwins(s: seq<Buf>)
    requires |s| == NBUF + 1
  {
    forall i, j {:trigger Apart(s[i], s[j])} :: 0 <= i < j < NBUF ==> Apart(s[i], s[j])
  }

  /** The same in a form that applies to every pair of buffers in sight. */
  lemma Separate(s: seq<Buf>)
    requires |s| == NBUF + 1 && NoTwins(s)
    ensures forall i, j :: 0 <= i < j < NBUF && s[i].dev == ROOTDEV && s[j].dev == ROOTDEV ==> s[i].blockno != s[j].blockno
  {
    forall i, j | 0 <= i < j < NBUF
      ensures Apart(s[i], s[j])
    {
    }
  }

  ghost predicate BufOk(x: Buf, disk: Image, flat: Image)
    requires |flat| == |disk|
  {
    && (x.dev == NODEV || x.dev == ROOTDEV)
    && (x.dev == NODEV ==> !x.busy && !x.valid && !x.dirty)
    && (x.dev == ROOTDEV ==> x.blockno < |disk|)
    && (x.dev == ROOTDEV && !x.busy ==> x.valid)
    && (x.dirty ==> x.valid)
    && (x.valid ==> x.dev == ROOTDEV && x.data == flat[x.blockno])
    && (x.valid && !x.dirty && !x.busy ==> x.data == disk[x.blockno])
  }

  ghost predicate Cached(s: seq<Buf>, b: nat)
    requires |s| == NBUF + 1
  {
    exists i :: 0 <= i < NBUF && Holds(s[i], b) && s[i].valid
  }

  ghost predicate AheadIsCached(s: seq<Buf>, disk: Image, flat: Image)
    requires |s| == NBUF + 1 && |flat| == |disk|
  {
    forall b {:trigger Cached(s, b)} :: 0 <= b < |disk| && flat[b] != disk[b] ==> Cached(s, b)
  }

  /** No block is cached twice; every valid buffer holds the block's current value; a block whose current value
      is not on the disk is cached in a busy or dirty buffer, so it cannot be evicted. */
  ghost predicate Coherent(s: seq<Buf>, disk: Image, flat: Image) {
    && |s| == NBUF + 1
    && |flat| == |disk|
    && (forall i :: 0 <= i < NBUF ==> BufOk(s[i], disk, flat))
    && NoTwins(s)
    && AheadIsCached(s, disk, flat)
  }

  /** Blocks that are ahead of the disk stay cached when no buffer holding one is relabelled or invalidated. */
  lemma StillCached(s: seq<Buf>, t: seq<Buf>, disk: Image, flat: Image)
    requires |s| == |t| == NBUF + 1 && |flat| == |disk| && AheadIsCached(s, disk, flat)
    requires forall i, b: nat :: 0 <= i < NBUF && s[i].valid && Holds(s[i], b) && b < |disk| && flat[b] != disk[b] ==>
               t[i].valid && Holds(t[i], b)
    ensures AheadIsCached(t, disk, flat)
  {
    forall b: nat | b < |disk| && flat[b] != disk[b]
      ensures Cached(t, b)
    {
      assert Cached(s, b);
      var i :| 0 <= i < NBUF && Holds(s[i], b) && s[i].valid;
      assert Holds(t[i], b) && t[i].valid;
    }
  }

  /** Not busy and not dirty: what bget may recycle. */
  predicate Eligible(x: Buf) {
    !x.busy && !x.dirty
  }

  ghost predicate PinnedAt(s: seq<Buf>, b: nat)
    requires |s| == NBUF + 1
  {
    exists i :: 0 <= i < NBUF && Holds(s[i], b) && s[i].dirty
  }

  ghost predicate HeldAt(s: seq<Buf>, b: nat)
    requires |s| == NBUF + 1
  {
    exists i :: 0 <= i < NBUF && Holds(s[i], b) && s[i].busy
  }

  /** `pinned` is the set of blocks that must not leave the cache because log.c has not written them;
      `held` is the set of blocks some process has between bread and brelse. */
  ghost predicate Marks(s: seq<Buf>, pinned: set<nat>, held: set<nat>)
    requires |s| == NBUF + 1
  {
    && (forall i :: 0 <= i < NBUF ==> (s[i].dirty ==> s[i].blockno in pinned) && (s[i].busy ==> s[i].blockno in held))
    && (forall b {:trigger PinnedAt(s, b)} :: b in pinned ==> PinnedAt(s, b))
    && (forall b {:trigger HeldAt(s, b)} :: b in held ==> HeldAt(s, b))
  }

  function Put(marks: set<nat>, b: nat, on: bool): set<nat> {
    if on then marks + {b} else marks - {b}
  }

  /** Changing one buffer changes both sets at that buffer's block only. */
  lemma OneBufferChanged(s: seq<Buf>, t: seq<Buf>, b: nat, disk: Image, flat: Image, pinned: set<nat>, held: set<nat>)
    requires Coherent(s, disk, flat) && Marks(s, pinned, held)
    requires |t| == NBUF + 1 && NoTwins(t) && b < NBUF
    requires forall i :: 0 <= i < NBUF && i != b ==>
               t[i].busy == s[i].busy && t[i].dirty == s[i].dirty && t[i].blockno == s[i].blockno && t[i].dev == s[i].dev
    requires t[b].dev == ROOTDEV
    requires (s[b].dev == ROOTDEV && s[b].blockno == t[b].blockno) || Eligible(s[b])
    ensures Marks(t, Put(pinned, t[b].blockno, t[b].dirty), Put(held, t[b].blockno, t[b].busy))
  {
    Separate(s);
    Separate(t);
    forall x: nat | x in Put(pinned, t[b].blockno, t[b].dirty)
      ensures PinnedAt(t, x)
    {
      if x == t[b].blockno {
        assert Holds(t[b], x);
      } else {
        assert PinnedAt(s, x);
        var i :| 0 <= i < NBUF && Holds(s[i], x) && s[i].dirty;
        assert Holds(t[i], x);
      }
    }
    forall x: nat | x in Put(held, t[b].blockno, t[b].busy)
      ensures HeldAt(t, x)
    {
      if x == t[b].blockno {
        assert Holds(t[b], x);
      } else {
        assert HeldAt(s, x);
        var i :| 0 <= i < NBUF && Holds(s[i], x) && s[i].busy;
        assert Holds(t[i], x);
      }
    }
  }

  /** A block is pinned exactly when the buffer holding it is dirty. */
  lemma MarksOf(s: seq<Buf>, b: nat, disk: Image, flat: Image, pinned: set<nat>, held: set<nat>)
    requires Coherent(s, disk, flat) && Marks(s, pinned, held) && b < NBUF && s[b].dev == ROOTDEV
    ensures s[b].dirty <==> s[b].blockno in pinned
    ensures s[b].busy <==> s[b].blockno in held
  {
    Separate(s);
    assert s[b].blockno in pinned ==> PinnedAt(s, s[b].blockno);
    assert s[b].blockno in held ==> HeldAt(s, s[b].blockno);
  }

  /** A block whose current value is not on the disk is pinned or held. */
  lemma AheadIsMarked(s: seq<Buf>, disk: Image, flat: Image, pinned: set<nat>, held: set<nat>, b: nat)
    requires Coherent(s, disk, flat) && Marks(s, pinned, held) && b < |disk| && flat[b] != disk[b]
    ensures b in pinned || b in held
  {
    assert Cached(s, b);
    var i :| 0 <= i < NBUF && Holds(s[i], b) && s[i].valid;
    assert BufOk(s[i], disk, flat);
  }

  /** Releasing a buffer that is pinned or agrees with the disk. */
  lemma ReleaseKeepsCoherent(s: seq<Buf>, t: seq<Buf>, b: nat, disk: Image, flat: Image)
    requires Coherent(s, disk, flat) && b < NBUF && s[b].busy && s[b].valid
    requires s[b].dirty || s[b].data == disk[s[b].blockno]
    requires SameContents(s[b := s[b].(busy := false)], t)
    ensures Coherent(t, disk, flat)
  {
    assert forall i :: 0 <= i < NBUF ==> BufOk(s[i], disk, flat);
    Separate(s);
    StillCached(s, t, disk, flat);
  }

  function BlocksOf(s: seq<Buf>, k: nat): set<nat>
    requires k <= |s|
  {
    if k == 0 then {} else BlocksOf(s, k - 1) + {s[k - 1].blockno}
  }

  lemma {:induction false} DistinctBlocks(s: seq<Buf>, k: nat, marks: set<nat>)
    requires k <= |s|
    requires forall i, j :: 0 <= i < j < k ==> s[i].blockno != s[j].blockno
    requires forall i :: 0 <= i < k ==> s[i].blockno in marks
    ensures |BlocksOf(s, k)| == k && BlocksOf(s, k) <= marks
    ensures forall b :: b in BlocksOf(s, k) ==> exists i :: 0 <= i < k && s[i].blockno == b
  {
    if k > 0 {
      DistinctBlocks(s, k - 1, marks);
      assert s[k - 1].blockno !in BlocksOf(s, k - 1);
    }
  }

  /** bget panics only when the pinned and held blocks fill the whole cache. */
  lemma FullCache(s: seq<Buf>, disk: Image, flat: Image, pinned: set<nat>, held: set<nat>)
    requires Coherent(s, disk, flat) && Marks(s, pinned, held)
    requires forall i :: 0 <= i < NBUF ==> !Eligible(s[i])
    ensures NBUF <= |pinned| + |held|
  {
    assert forall i :: 0 <= i < NBUF ==> BufOk(s[i], disk, flat);
    Separate(s);
    DistinctBlocks(s, NBUF, pinned + held);
    SubsetSize(BlocksOf(s, NBUF), pinned + held);
  }

  lemma SubsetSize(a: set<nat>, b: set<nat>)
    requires a <= b
    ensures |a| <= |b|
  {
    assert b == a + (b - a);
  }

  /** What binit establishes. */
  lemma EmptyCache(s: seq<Buf>, disk: Image, order: seq<nat>, releasedAt: seq<nat>)
    requires |s| == NBUF + 1 && forall i :: 0 <= i < NBUF ==> s[i].dev == NODEV && Eligible(s[i]) && !s[i].valid
    requires |order| == NBUF && forall i :: 0 <= i < NBUF ==> order[i] == NBUF - 1 - i
    requires |releasedAt| == NBUF && forall i :: 0 <= i < NBUF ==> releasedAt[i] == i
    ensures Coherent(s, disk, disk) && Marks(s, {}, {}) && Recent(order, releasedAt, NBUF)
  {
    forall c | 0 <= c < NBUF
      ensures Listed(order, c)
    {
      assert order[NBUF - 1 - c] == c;
    }
  }

  /** What one pass of bget under the lock ends in: a buffer, a sleep on a busy buffer, or the panic. */
  datatype GetResult = Got(b: nat) | MustWait(b: nat) | NoBuffers

  class Cache {
    var disk: Image
    var buf: seq<Buf>               // bcache.buf, then bcache.head
    /** Every image the disk has held, one per block write: a crash leaves one of these. */
    ghost var history: seq<Image>
    ghost var flat: Image           // the current value of every block
    ghost var pinned: set<nat>
    ghost var held: set<nat>
    ghost var order: seq<nat>       // most recently released first
    ghost var releasedAt: seq<nat>
    ghost var clock: nat

    ghost predicate Valid()
      reads this
    {
      && |buf| == NBUF + 1
      && Ring(buf, order)
      && Recent(order, releasedAt, clock)
      && Coherent(buf, disk, flat)
      && Marks(buf, pinned, held)
    }

    /** The three link updates at the head that binit and brelse share. */
    method LinkFirst(b: nat)
      requires |buf| == NBUF + 1 && b < NBUF && buf[HEAD].next <= NBUF && buf[HEAD].next != b
      modifies `buf
      ensures buf == PushFront(old(buf), b)
    {
      buf := buf[b := buf[b].(next := buf[HEAD].next, prev := HEAD)];
      buf := buf[buf[HEAD].next := buf[buf[HEAD].next].(prev := b)];
      buf := buf[HEAD := buf[HEAD].(next := b)];
    }

    /** The two link updates that take a buffer out of the ring. */
    method LinkOut(b: nat)
      requires |buf| == NBUF + 1 && b < NBUF && buf[b].next <= NBUF && buf[b].prev <= NBUF
      requires buf[b].next != b && buf[b].prev != b
      modifies `buf
      ensures buf == Unlink(old(buf), b)
    {
      buf := buf[buf[b].next := buf[buf[b].next].(prev := buf[b].prev)];
      buf := buf[buf[b].prev := buf[buf[b].prev].(next := buf[b].next)];
    }

    /** binit's loop has put the first b buffers on the list. */
    ghost predicate Listing(b: nat)
      reads this
    {
      && b <= NBUF && |buf| == NBUF + 1 && Ring(buf, order)
      && |order| == b && (forall i :: 0 <= i < b ==> order[i] == b - 1 - i)
      && |releasedAt| == b == clock && (forall i :: 0 <= i < b ==> releasedAt[i] == i)
      && (forall i :: 0 <= i < NBUF ==> Eligible(buf[i]) && !buf[i].valid)
      && (forall i :: 0 <= i < b ==> buf[i].dev == NODEV)
    }

    /** One round of binit's loop. */
    method List(b: nat)
      requires b < NBUF && Listing(b)
      modifies `buf, `order, `releasedAt, `clock
      ensures Listing(b + 1)
    {
      ghost var before := buf;
      buf := buf[b := buf[b].(dev := NODEV)];
      SameLinksSameRing(before, buf, order);
      PushFrontKeepsRing(buf, order, b);
      LinkFirst(b);
      order, releasedAt, clock := [b] + order, releasedAt + [b], clock + 1;
    }

    /** binit, on a machine that has just booted. */
    constructor (image: Image)
      ensures Valid()
      ensures disk == image && flat == image && history == []
      ensures pinned == {} && held == {}
    {
      disk, history, flat := image, [], image;
      buf := seq(NBUF + 1, i => Buf(false, false, false, 0, 0, HEAD, HEAD, ZeroBlock()));
      order, releasedAt, clock, pinned, held := [], [], 0, {}, {};
      new;
      assert LinkAt(buf, order, 0);
      var b := 0;
      while b < NBUF
        invariant Listing(b) && flat == disk == image && history == [] && pinned == held == {}
      {
        List(b);
        b := b + 1;
      }
      EmptyCache(buf, disk, order, releasedAt);
    }

    /** bget's first loop: the buffer that holds the block, or the head when none does. */
    method FindCached(dev: int, blockno: nat) returns (b: nat)
      requires Valid() && dev == ROOTDEV
      ensures b == HEAD || (b < NBUF && Holds(buf[b], blockno))
      ensures b == HEAD ==> forall i :: 0 <= i < NBUF ==> !Holds(buf[i], blockno)
    {
      assert LinkAt(buf, order, 0);
      b := buf[HEAD].next;
      ghost var i := 0;
      while b != HEAD
        invariant 0 <= i <= NBUF && b == At(order, i)
        invariant forall k :: 0 <= k < i ==> !Holds(buf[order[k]], blockno)
        decreases NBUF - i
      {
        assert LinkAt(buf, order, i + 1);
        if buf[b].dev == dev && buf[b].blockno == blockno {
          return;
        }
        b := buf[b].next;
        i := i + 1;
      }
      forall c | 0 <= c < NBUF
        ensures !Holds(buf[c], blockno)
      {
        assert Listed(order, c);
        var k :| 0 <= k < NBUF && order[k] == c;
      }
    }

    /** bget's second loop: the eligible buffer released longest ago, or the head when none is eligible. */
    method FindVictim() returns (b: nat)
      requires Valid()
      ensures b == HEAD || (b < NBUF && Eligible(buf[b]))
      ensures b != HEAD ==> forall c :: 0 <= c < NBUF && Eligible(buf[c]) ==> releasedAt[b] <= releasedAt[c]
      ensures b == HEAD ==> forall c :: 0 <= c < NBUF ==> !Eligible(buf[c])
    {
      assert LinkAt(buf, order, NBUF);
      b := buf[HEAD].prev;
      ghost var i := NBUF - 1;
      while b != HEAD
        invariant -1 <= i < NBUF && b == At(order, i)
        invariant forall k :: i < k < NBUF ==> !Eligible(buf[order[k]])
        decreases i
      {
        assert LinkAt(buf, order, i);
        if !buf[b].busy && !buf[b].dirty {
          break;
        }
        b := buf[b].prev;
        i := i - 1;
      }
      forall c | 0 <= c < NBUF && Eligible(buf[c])
        ensures b != HEAD && releasedAt[b] <= releasedAt[c]
      {
        assert Listed(order, c);
        var k :| 0 <= k < NBUF && order[k] == c;
      }
    }

    /** One pass of bget under bcache.lock: the cached buffer; else the eligible buffer released longest ago,
        relabelled; else a wait for a busy buffer, or the panic. Only the chosen buffer changes. */
    method Bget(dev: int, blockno: nat) returns (r: GetResult)
      requires Valid() && dev == ROOTDEV && blockno < |disk|
      modifies `buf, `held
      ensures Valid()
      ensures r.Got? ==>
                && r.b < NBUF && !old(buf[r.b].busy)
                && (forall i :: 0 <= i <= NBUF && i != r.b ==> buf[i] == old(buf[i]))
                && buf[r.b].busy && Holds(buf[r.b], blockno)
                && (old(Holds(buf[r.b], blockno)) ==> buf[r.b] == old(buf[r.b]).(busy := true))
                && (!old(Holds(buf[r.b], blockno)) ==>
                      && !buf[r.b].valid && !buf[r.b].dirty
                      && (forall i :: 0 <= i < NBUF ==> !old(Holds(buf[i], blockno)))
                      && old(Eligible(buf[r.b]))
                      && (forall c :: 0 <= c < NBUF && old(Eligible(buf[c])) ==> releasedAt[r.b] <= releasedAt[c]))
      ensures r.MustWait? ==> r.b < NBUF && buf == old(buf) && Holds(buf[r.b], blockno) && buf[r.b].busy
      ensures r.NoBuffers? ==>
                && buf == old(buf)
                && forall i :: 0 <= i < NBUF ==> !Holds(buf[i], blockno) && !Eligible(buf[i])
      ensures held == (if r.Got? then old(held) + {blockno} else old(held)) && (r.Got? ==> blockno !in old(held))
    {
      var b := FindCached(dev, blockno);
      if b != HEAD {
        if !buf[b].busy {
          SetBusy(b);
          return Got(b);
        }
        return MustWait(b);
      }
      b := FindVictim();
      if b == HEAD {
        return NoBuffers;
      }
      Recycle(b, blockno);
      return Got(b);
    }

    method SetBusy(b: nat)
      requires Valid() && b < NBUF && !buf[b].busy && buf[b].dev == ROOTDEV
      modifies `buf, `held
      ensures Valid()
      ensures buf == old(buf)[b := old(buf[b]).(busy := true)]
      ensures held == old(held) + {old(buf[b].blockno)} && old(buf[b].blockno) !in old(held)
    {
      ghost var before := buf;
      Separate(before);
      buf := buf[b := buf[b].(busy := true)];
      SameLinksSameRing(before, buf, order);
      StillCached(before, buf, disk, flat);
      OneBufferChanged(before, buf, b, disk, flat, pinned, held);
      MarksOf(before, b, disk, flat, pinned, held);
      held := held + {buf[b].blockno};
      assert pinned == Put(pinned, buf[b].blockno, buf[b].dirty);
    }

    /** Relabel an eligible buffer for a block that is not cached. */
    method Recycle(b: nat, blockno: nat)
      requires Valid() && b < NBUF && Eligible(buf[b]) && blockno < |disk|
      requires forall i :: 0 <= i < NBUF ==> !Holds(buf[i], blockno)
      modifies `buf, `held
      ensures Valid()
      ensures buf == old(buf)[b := old(buf[b]).(dev := ROOTDEV, blockno := blockno, busy := true, valid := false, dirty := false)]
      ensures held == old(held) + {blockno} && blockno !in old(held)
    {
      ghost var before := buf;
      Separate(before);
      buf := buf[b := buf[b].(dev := ROOTDEV, blockno := blockno, busy := true, valid := false, dirty := false)];
      SameLinksSameRing(before, buf, order);
      StillCached(before, buf, disk, flat);
      OneBufferChanged(before, buf, b, disk, flat, pinned, held);
      assert !PinnedAt(before, blockno) && !HeldAt(before, blockno);
      held := held + {blockno};
      assert pinned == Put(pinned, blockno, false);
    }

    /** iderw: write a dirty buffer to the disk, or read an invalid one from it. */
    method Iderw(b: nat)
      requires Valid() && b < NBUF && buf[b].busy
      requires buf[b].dirty || !buf[b].valid
      requires buf[b].dev == ROOTDEV
      modifies `buf, `disk, `history, `pinned
      ensures Valid()
      ensures old(buf[b].dirty) ==>
                && disk == old(disk)[old(buf[b].blockno) := old(buf[b].data)]
                && history == old(history) + [disk]
                && buf == old(buf)[b := old(buf[b]).(dirty := false)]
                && pinned == old(pinned) - {old(buf[b].blockno)}
      ensures !old(buf[b].dirty) ==>
                && pinned == old(pinned)
                && disk == old(disk) && history == old(history)
                && buf == old(buf)[b := old(buf[b]).(valid := true, data := disk[old(buf[b].blockno)])]
    {
      ghost var before := buf;
      Separate(before);
      if buf[b].dirty {
        buf := buf[b := buf[b].(dirty := false)];
        disk := disk[buf[b].blockno := buf[b].data];
        history := history + [disk];
      } else {
        assert !Cached(buf, buf[b].blockno);
        buf := buf[b := buf[b].(data := disk[buf[b].blockno])];
      }
      buf := buf[b := buf[b].(valid := true)];
      SameLinksSameRing(before, buf, order);
      assert buf == before[b := buf[b]];
      assert AheadIsCached(before, disk, flat);
      StillCached(before, buf, disk, flat);
      MarksOf(before, b, old(disk), flat, pinned, held);
      OneBufferChanged(before, buf, b, old(disk), flat, pinned, held);
      pinned := pinned - {buf[b].blockno};
      assert held == Put(held, buf[b].blockno, true);
    }

    /** bread: a busy buffer holding the block's current value, the last one written. */
    method Bread(dev: int, blockno: nat) returns (r: GetResult)
      requires Valid() && dev == ROOTDEV && blockno < |disk|
      modifies `buf, `disk, `history, `pinned, `held
      ensures Valid()
      ensures disk == old(disk) && history == old(history)
      ensures r.Got? ==>
                && r.b < NBUF && !old(buf[r.b].busy)
                && (forall i :: 0 <= i <= NBUF && i != r.b ==> buf[i] == old(buf[i]))
                && buf[r.b].busy && buf[r.b].valid && Holds(buf[r.b], blockno)
                && buf[r.b].data == flat[blockno]
                && (old(Holds(buf[r.b], blockno)) ==> buf[r.b].dirty == old(buf[r.b].dirty))
                && (!old(Holds(buf[r.b], blockno)) ==> !buf[r.b].dirty && !old(buf[r.b].dirty))
                && (!buf[r.b].dirty ==> buf[r.b].data == disk[blockno])
                && held == old(held) + {blockno} && blockno !in old(held)
      ensures !r.Got? ==> buf == old(buf)
      ensures pinned == old(pinned)
      ensures r.MustWait? ==> blockno in old(held)
      ensures r.NoBuffers? ==> blockno !in old(pinned) && NBUF <= |old(pinned)| + |old(held)|
    {
      r := Bget(dev, blockno);
      if r.Got? && !buf[r.b].valid {
        Iderw(r.b);
      }
      if r.NoBuffers? {
        FullCache(buf, disk, flat, pinned, held);
        assert !PinnedAt(buf, blockno);
      }
    }

    /** The caller of bread overwrites the data of its busy buffer. */
    method SetData(b: nat, data: Block)
      requires Valid() && b < NBUF && buf[b].busy && buf[b].valid
      modifies `buf, `flat
      ensures Valid()
      ensures flat == old(flat)[old(buf[b].blockno) := data]
      ensures buf == old(buf)[b := old(buf[b]).(data := data)]
    {
      ghost var before := buf;
      Separate(before);
      buf := buf[b := buf[b].(data := data)];
      flat := flat[buf[b].blockno := data];
      SameLinksSameRing(before, buf, order);
      forall x: nat | x < |disk| && flat[x] != disk[x]
        ensures Cached(buf, x)
      {
        if x == buf[b].blockno {
          assert Holds(buf[b], x);
        } else {
          assert Cached(before, x);
          var i :| 0 <= i < NBUF && Holds(before[i], x) && before[i].valid;
          assert Holds(buf[i], x);
        }
      }
      MarksOf(before, b, disk, old(flat), pinned, held);
      OneBufferChanged(before, buf, b, disk, old(flat), pinned, held);
      assert pinned == Put(pinned, buf[b].blockno, buf[b].dirty) && held == Put(held, buf[b].blockno, true);
    }

    /** b->flags |= B_DIRTY: pin the buffer. */
    method MarkDirty(b: nat)
      requires Valid() && b < NBUF && buf[b].busy && buf[b].valid
      modifies `buf, `pinned
      ensures Valid()
      ensures buf == old(buf)[b := old(buf[b]).(dirty := true)]
      ensures pinned == old(pinned) + {old(buf[b].blockno)}
    {
      ghost var before := buf;
      Separate(before);
      buf := buf[b := buf[b].(dirty := true)];
      SameLinksSameRing(before, buf, order);
      assert buf == before[b := buf[b]];
      StillCached(before, buf, disk, flat);
      MarksOf(before, b, disk, flat, pinned, held);
      OneBufferChanged(before, buf, b, disk, flat, pinned, held);
      pinned := pinned + {buf[b].blockno};
      assert held == Put(held, buf[b].blockno, true);
    }

    /** bwrite: the block reaches the disk in one atomic write and the buffer is no longer pinned. */
    method Bwrite(b: nat)
      requires Valid() && b < NBUF && buf[b].busy && buf[b].valid
      modifies `buf, `disk, `history, `pinned
      ensures Valid()
      ensures disk == old(disk)[old(buf[b].blockno) := old(buf[b].data)]
      ensures history == old(history) + [disk]
      ensures buf == old(buf)[b := old(buf[b]).(dirty := false)]
      ensures pinned == old(pinned) - {old(buf[b].blockno)}
    {
      MarkDirty(b);
      Iderw(b);
    }

    /** brelse's six link updates. */
    method Relink(b: nat) returns (ghost k: nat)
      requires |buf| == NBUF + 1 && Ring(buf, order) && b in order
      modifies `buf
      ensures k < |order| && order[k] == b && Ring(buf, [b] + Without(order, k))
      ensures SameContents(old(buf), buf)
    {
      k :| 0 <= k < |order| && order[k] == b;
      UnlinkKeepsRing(buf, order, k);
      LinkOut(b);
      PushFrontKeepsRing(buf, Without(order, k), b);
      LinkFirst(b);
    }

    /** brelse: the buffer moves to the front of the ring, the others keep their order. The caller has logged or
        written what it changed (log.c's rule), so an unpinned buffer agrees with the disk. */
    method Brelse(b: nat)
      requires Valid() && b < NBUF && buf[b].busy && buf[b].valid
      requires buf[b].dirty || buf[b].data == disk[buf[b].blockno]
      modifies `buf, `order, `releasedAt, `clock, `held
      ensures Valid()
      ensures exists k :: 0 <= k < NBUF && old(order)[k] == b && order == [b] + Without(old(order), k)
      ensures held == old(held) - {old(buf[b].blockno)}
      ensures SameContents(old(buf)[b := old(buf[b]).(busy := false)], buf)
    {
      ghost var before := buf;
      assert Listed(order, b);
      ghost var k := Relink(b);
      ghost var linked := buf;
      buf := buf[b := buf[b].(busy := false)];
      SameLinksSameRing(linked, buf, [b] + Without(order, k));
      MoveToFrontKeepsRecent(order, releasedAt, clock, k);
      order, releasedAt, clock := [b] + Without(order, k), releasedAt[b := clock], clock + 1;
      ReleaseKeepsCoherent(before, buf, b, disk, flat);
      MarksOf(before, b, disk, flat, pinned, held);
      OneBufferChanged(before, buf, b, disk, flat, pinned, held);
      held := held - {buf[b].blockno};
      assert pinned == Put(pinned, buf[b].blockno, buf[b].dirty);
    }
  }
}
