/** malloc, free and morecore of umalloc.c. */
module Malloc {
  import opened FreeList

  const HEADER := 8           // sizeof(Header)
  const MIN_UNITS := 4096     // morecore asks for at least this many

  /** nunits: room for nbytes after the header. */
  function Units(nbytes: nat): (n: nat)
    ensures nbytes <= (n - 1) * HEADER < nbytes + HEADER
  {
    (nbytes + HEADER - 1) / HEADER + 1
  }

  /** How much morecore asks of sbrk. */
  function Asked(nunits: nat): nat {
    if nunits < MIN_UNITS then MIN_UNITS else nunits
  }

  const WORD := 0x1_0000_0000     // unsigned arithmetic is modulo this
  const SIGN := 0x8000_0000

  /** The unit count in 32-bit arithmetic, as the source computes it. */
  function Units32(nbytes: nat): nat {
    (nbytes + HEADER - 1) % WORD / HEADER + 1
  }

  /** The argument sbrk gets: the product in 32 bits, taken as a signed number. */
  function Bytes32(nunits: nat): int {
    var bytes := Asked(nunits) * HEADER % WORD;
    if bytes < SIGN then bytes else bytes - WORD
  }

  /** The 32-bit unit count holds nbytes exactly when nbytes is not within HEADER-1 of 2^32. */
  lemma UnitsOverflow(nbytes: nat)
    requires nbytes < WORD
    ensures nbytes <= (Units32(nbytes) - 1) * HEADER <==> nbytes <= WORD - HEADER
  {
  }

  /** The 32-bit computation is the one of this model, and asks sbrk for the memory the header will claim, exactly
      when nbytes is at most 2^31 - 16. */
  lemma SizesFit(nbytes: nat)
    requires nbytes < WORD
    ensures Units32(nbytes) == Units(nbytes) && Bytes32(Units32(nbytes)) == Asked(Units(nbytes)) * HEADER
       <==> nbytes <= SIGN - 16
  {
    if nbytes <= SIGN - 16 {
      assert Asked(Units(nbytes)) * HEADER < SIGN;
    } else if nbytes <= WORD - HEADER {
      assert SIGN <= Asked(Units(nbytes)) * HEADER;
    }
  }

  /** Past the bound: at 2^31 - 15 sbrk is asked to shrink the process, and at 2^32 - 8, where the unit count is
      still right, it is asked for nothing while the new header claims 2^29 units. */
  lemma SizesMisfit()
    ensures Bytes32(Units32(SIGN - 15)) == -SIGN
    ensures Units32(WORD - 8) == Units(WORD - 8) == 0x2000_0000 && Bytes32(Units32(WORD - 8)) == 0
  {
  }

  datatype Address = Null | Ptr(a: nat)

  /** What sbrk answers: -1, or the address of fresh memory above all obtained before. */
  datatype Grant = Denied | Granted(a: nat)

  class Allocator {
    const base: nat           // address of the static header
    var freep: nat            // 0 is null
    var mem: Memory
    ghost var ring: seq<nat>            // the free list in address order, base first
    ghost var live: map<nat, nat>       // header address of each block handed out, and its units
    ghost var top: nat                  // the end of the memory obtained
    ghost var obtained: nat             // how many units that is

    ghost predicate Valid()
      reads this
    {
      && 0 < base < top
      && (freep == 0 ==> live == map[] && obtained == 0)
      && (freep != 0 ==> freep in ring && HeapOk(mem, ring, live, base, top, obtained, 0))
    }

    constructor (base: nat, end: nat)
      requires 0 < base < end
      ensures Valid() && live == map[] && obtained == 0 && this.base == base && top == end
    {
      this.base := base;
      freep, mem := 0, map[];
      ring, live, top, obtained := [], map[], end, 0;
    }

    /** free()'s search: the list element after which bp belongs. Any place on the ring will do to start from. */
    method FindSpot(bp: nat) returns (p: nat, ghost k: nat)
      requires freep in ring && RingOk(mem, ring, base) && Loose(mem, ring, base, bp)
      ensures Between(ring, k, bp) && p == ring[k]
    {
      p := freep;
      k :| 0 <= k < |ring| && ring[k] == p;
      forall i | 0 <= i < |ring|
        ensures ring[i] != bp
      {
        assert NodeOk(mem, ring, i);
        assert 0 < i ==> Disjoint(ring[i], mem[ring[i]].size, bp, mem[bp].size);
      }
      ghost var j := FindPlace(mem, ring, base, bp, |ring| - 1);
      while !(bp > p && bp < mem[p].ptr)
        invariant k < |ring| && p == ring[k]
        decreases if k <= j then j - k else j + |ring| - k
      {
        BaseIsLowest(k);
        if p >= mem[p].ptr && (bp > p || bp < mem[p].ptr) {
          break;
        }
        assert !Between(ring, k, bp);
        p := mem[p].ptr;
        k := if k + 1 < |ring| then k + 1 else 0;
      }
      BaseIsLowest(k);
    }

    lemma BaseIsLowest(k: nat)
      requires RingOk(mem, ring, base) && k < |ring|
      ensures base <= ring[k] && NodeOk(mem, ring, k)
    {
      assert NodeOk(mem, ring, k);
      if 0 < k {
        RingSorted(mem, ring, base, 0, k);
      }
    }

    /** free()'s body on a header: find the place by address, join the neighbours, leave freep before the block. */
    method Insert(bp: nat)
      requires freep in ring && RingOk(mem, ring, base) && Loose(mem, ring, base, bp)
      requires HeapOk(mem, ring, live, base, top, obtained, mem[bp].size)
      requires ClearOfLive(live, bp, mem[bp].size) && bp + mem[bp].size <= top
      modifies `freep, `mem, `ring
      ensures freep in ring && freep != 0 && HeapOk(mem, ring, live, base, top, obtained, 0)
      ensures exists i :: 0 <= i < |ring| && old(mem[bp].size) <= mem[ring[i]].size
    {
      var p;
      ghost var k;
      p, k := FindSpot(bp);
      Join(k, p, bp);
    }

    /** The link updates of free(). */
    method Join(ghost k: nat, p: nat, bp: nat)
      requires RingOk(mem, ring, base) && Loose(mem, ring, base, bp) && Between(ring, k, bp) && p == ring[k]
      requires HeapOk(mem, ring, live, base, top, obtained, mem[bp].size)
      requires ClearOfLive(live, bp, mem[bp].size) && bp + mem[bp].size <= top
      modifies `freep, `mem, `ring
      ensures freep in ring && freep != 0 && HeapOk(mem, ring, live, base, top, obtained, 0)
      ensures exists i :: 0 <= i < |ring| && old(mem[bp].size) <= mem[ring[i]].size
    {
      ghost var r := Inserted(ring, k, bp, JoinsUpper(mem, ring, k, bp), JoinsLower(mem, ring, k, bp));
      InsertFits(mem, ring, base, k, bp);
      InsertKeepsHeap(mem, ring, live, base, top, obtained, k, bp);
      JoinedIsLarge(mem, ring, base, k, bp);
      PredecessorStays(mem, ring, base, k, bp);
      Relink(p, bp);
      freep := p;
      ring := r;
    }

    method Relink(p: nat, bp: nat)
      requires p in mem && bp in mem && mem[p].ptr in mem && p != bp
      modifies `mem
      ensures mem == AfterInsert(old(mem), p, bp)
    {
      var next := mem[p].ptr;
      if bp + mem[bp].size == next {
        mem := mem[bp := mem[bp].(size := mem[bp].size + mem[next].size)];
        mem := mem[bp := mem[bp].(ptr := mem[next].ptr)];
      } else {
        mem := mem[bp := mem[bp].(ptr := next)];
      }
      if p + mem[p].size == bp {
        mem := mem[p := mem[p].(size := mem[p].size + mem[bp].size)];
        mem := mem[p := mem[p].(ptr := mem[bp].ptr)];
      } else {
        mem := mem[p := mem[p].(ptr := bp)];
      }
    }

    /** free(ap) of a block malloc returned and that has not been freed since. */
    method Free(ap: nat)
      requires Valid() && 1 <= ap && ap - 1 in live
      modifies `freep, `mem, `ring, `live
      ensures Valid() && live == old(live) - {ap - 1}
    {
      var bp := ap - 1;
      LiveUnitsRemove(live, bp);
      live := live - {bp};
      Insert(bp);
    }

    /** morecore: at least MIN_UNITS of new memory go onto the list, as if freed. */
    method Morecore(nunits: nat, grant: Grant) returns (p: nat)
      requires Valid() && freep != 0 && 1 <= nunits
      requires grant.Granted? ==> top <= grant.a
      modifies `freep, `mem, `ring, `top, `obtained
      ensures Valid()
      ensures grant.Denied? ==> p == 0 && freep == old(freep) && mem == old(mem) && ring == old(ring) && obtained == old(obtained) && top == old(top)
      ensures grant.Granted? ==>
                && p == freep != 0
                && obtained == old(obtained) + Asked(nunits)
                && !NoneFits(nunits)
    {
      var nu := Asked(nunits);
      if grant.Denied? {
        return 0;
      }
      var hp := grant.a;
      FreshBlock(mem, ring, live, base, top, obtained, hp, nu);
      mem := mem[hp := Header(0, nu)];
      top, obtained := hp + nu, obtained + nu;
      Insert(hp);
      ghost var i :| 0 <= i < |ring| && nu <= mem[ring[i]].size;
      assert NodeOk(mem, ring, i);
      return freep;
    }

    /** Take nunits from the i-th list element, whose predecessor is prevp: all of it, or its end. */
    method TakeFrom(prevp: nat, p: nat, nunits: nat, ghost i: nat) returns (q: nat)
      requires HeapOk(mem, ring, live, base, top, obtained, 0)
      requires 0 < i < |ring| && p == ring[i] && prevp == ring[i - 1] && 1 <= nunits <= mem[p].size
      modifies `freep, `mem, `ring, `live
      ensures q !in old(live) && live == old(live)[q := nunits]
      ensures freep != 0 && freep in ring && HeapOk(mem, ring, live, base, top, obtained, 0)
    {
      BaseIsLowest(i - 1);
      if mem[p].size == nunits {
        TakeAll(prevp, p, i);
        q := p;
      } else {
        q := CutEnd(p, nunits, i);
      }
      freep := prevp;
      assert ring[i - 1] == freep;
    }

    /** An exact fit: the element before p links to the one after it. */
    method TakeAll(prevp: nat, p: nat, ghost i: nat)
      requires HeapOk(mem, ring, live, base, top, obtained, 0)
      requires 0 < i < |ring| && p == ring[i] && prevp == ring[i - 1]
      modifies `mem, `ring, `live
      ensures p !in old(live) && live == old(live)[p := old(mem[p].size)] && ring == Without(old(ring), i)
      ensures HeapOk(mem, ring, live, base, top, obtained, 0)
    {
      TakeWhole(mem, ring, live, base, top, obtained, i);
      live := live[p := mem[p].size];
      mem := mem[prevp := mem[prevp].(ptr := mem[p].ptr)];
      ring := Without(ring, i);
    }

    /** A larger block: its last nunits units become the block handed out. */
    method CutEnd(p: nat, nunits: nat, ghost i: nat) returns (q: nat)
      requires HeapOk(mem, ring, live, base, top, obtained, 0)
      requires i < |ring| && p == ring[i] && 1 <= nunits < mem[p].size
      modifies `mem, `live
      ensures q !in old(live) && live == old(live)[q := nunits]
      ensures HeapOk(mem, ring, live, base, top, obtained, 0)
    {
      q := p + mem[p].size - nunits;
      TakeTail(mem, ring, live, base, top, obtained, i, p, q, nunits);
      mem := AfterSplit(mem, p, nunits);
      live := live[q := nunits];
    }

    /** The position t places further round a ring of n. */
    static ghost function Round(n: nat, f: nat, t: nat): (k: nat)
      requires f < n && t <= n
      ensures k < n && (t == n ==> k == f)
    {
      if f + t < n then f + t else f + t - n
    }

    /** No list element can hold nunits. */
    ghost predicate NoneFits(nunits: nat)
      requires RingOk(mem, ring, base)
      reads this
    {
      forall i :: 0 <= i < |ring| && NodeOk(mem, ring, i) ==> mem[ring[i]].size < nunits
    }

    /**
     * One lap of malloc()'s search: from freep's successor on, the first element that is large
     * enough, or none when freep has come round and nothing on the list will do.
     */
    method Lap(nunits: nat) returns (found: bool, prevp: nat, p: nat, ghost i: nat)
      requires freep in ring && RingOk(mem, ring, base) && 1 <= nunits
      ensures found ==> 0 < i < |ring| && prevp == ring[i - 1] && p == ring[i] && p in mem && nunits <= mem[p].size
      ensures !found ==> NoneFits(nunits)
    {
      ghost var f: nat :| f < |ring| && ring[f] == freep;
      ghost var t: nat := 0;
      prevp := freep;
      NextIsRound(f, 0);
      p := mem[prevp].ptr;
      while true
        invariant t < |ring| && prevp == ring[Round(|ring|, f, t)] && p == ring[Round(|ring|, f, t + 1)]
        invariant p in mem
        invariant forall s :: 1 <= s <= t ==> Small(nunits, Round(|ring|, f, s))
        decreases |ring| - t
      {
        i := Round(|ring|, f, t + 1);
        BaseIsLowest(i);
        if mem[p].size >= nunits {
          return true, prevp, p, i;
        }
        assert Small(nunits, i);
        if p == freep {
          OnlyOnce(f, i);
          AllSmall(nunits, f);
          return false, prevp, p, i;
        }
        prevp, p := p, mem[p].ptr;
        t := t + 1;
        NextIsRound(f, t);
      }
    }

    lemma NextIsRound(f: nat, t: nat)
      requires RingOk(mem, ring, base) && f < |ring| && t < |ring|
      ensures ring[Round(|ring|, f, t)] in mem
      ensures mem[ring[Round(|ring|, f, t)]].ptr == ring[Round(|ring|, f, t + 1)]
    {
      assert NodeOk(mem, ring, Round(|ring|, f, t));
    }

    /** A whole lap has seen every element. */
    lemma AllSmall(nunits: nat, f: nat)
      requires RingOk(mem, ring, base) && f < |ring|
      requires forall s :: 1 <= s <= |ring| ==> Small(nunits, Round(|ring|, f, s))
      ensures NoneFits(nunits)
    {
      forall j | 0 <= j < |ring| && NodeOk(mem, ring, j)
        ensures mem[ring[j]].size < nunits
      {
        var s := if j > f then j - f else j + |ring| - f;
        assert Small(nunits, Round(|ring|, f, s));
      }
    }

    ghost predicate Small(nunits: nat, i: nat)
      reads this
    {
      i < |ring| && ring[i] in mem && mem[ring[i]].size < nunits
    }

    /** No address is on the list twice. */
    lemma OnlyOnce(i: nat, j: nat)
      requires RingOk(mem, ring, base) && i < |ring| && j < |ring| && ring[i] == ring[j]
      ensures i == j
    {
      if i < j {
        RingSorted(mem, ring, base, i, j);
      } else if j < i {
        RingSorted(mem, ring, base, j, i);
      }
    }

    /** One lap, and the block taken if there is one. */
    method TakeFirstFit(nunits: nat) returns (r: Address)
      requires Valid() && freep != 0 && 1 <= nunits
      modifies `freep, `mem, `ring, `live
      ensures Valid() && freep != 0
      ensures r.Ptr? ==> 1 <= r.a && r.a - 1 !in old(live) && live == old(live)[r.a - 1 := nunits]
      ensures r.Null? ==> freep == old(freep) && mem == old(mem) && ring == old(ring) && live == old(live) && NoneFits(nunits)
    {
      var found, prevp, p;
      ghost var i;
      found, prevp, p, i := Lap(nunits);
      if !found {
        return Null;
      }
      var q := TakeFrom(prevp, p, nunits, i);
      return Ptr(q + 1);
    }

    /** One round of malloc()'s search: a lap, and a request to sbrk when it finds nothing. */
    method Attempt(nunits: nat, grant: Grant) returns (done: bool, r: Address)
      requires Valid() && freep != 0 && 1 <= nunits
      requires grant.Granted? && NoneFits(nunits) ==> top <= grant.a
      modifies `freep, `mem, `ring, `live, `top, `obtained
      ensures Valid() && freep != 0
      ensures done ==> obtained == old(obtained)
      ensures done && r.Null? ==> grant.Denied? && live == old(live) && old(NoneFits(nunits))
      ensures done && r.Ptr? ==> 1 <= r.a && r.a - 1 !in old(live) && live == old(live)[r.a - 1 := nunits]
      ensures !done ==>
                && old(NoneFits(nunits)) && !NoneFits(nunits)
                && live == old(live) && obtained == old(obtained) + Asked(nunits)
    {
      r := TakeFirstFit(nunits);
      if r.Ptr? {
        return true, r;
      }
      var more := Morecore(nunits, grant);
      done := more == 0;
    }

    /**
     * malloc(nbytes): a block of Units(nbytes) units that was not live before, or null when the
     * list has no room and sbrk refuses. sbrk is asked at most once, and the lap after it succeeds.
     */
    method Malloc(nbytes: nat, grant: Grant) returns (r: Address)
      requires Valid() && (grant.Granted? ==> top <= grant.a)
      modifies `freep, `mem, `ring, `live, `top, `obtained
      ensures Valid()
      ensures r.Null? ==> grant.Denied? && live == old(live) && obtained == old(obtained)
      ensures r.Ptr? ==> 1 <= r.a && r.a - 1 !in old(live) && live == old(live)[r.a - 1 := Units(nbytes)]
      ensures obtained == old(obtained) || obtained == old(obtained) + Asked(Units(nbytes))
    {
      var nunits := Units(nbytes);
      if freep == 0 {
        StartList();
      }
      var done := false;
      ghost var asked := false;
      r := Null;
      while !done
        invariant freep != 0 && Valid()
        invariant !done ==> live == old(live) && (if asked then !NoneFits(nunits) else top == old(top))
        invariant obtained == old(obtained) + if asked then Asked(nunits) else 0
        invariant done && r.Null? ==> grant.Denied? && live == old(live) && !asked
        invariant done && r.Ptr? ==> 1 <= r.a && r.a - 1 !in old(live) && live == old(live)[r.a - 1 := nunits]
        decreases !done, !asked
      {
        done, r := Attempt(nunits, grant);
        asked := asked || !done;
      }
    }

    /** The first call: a list of the static header alone, linked to itself. */
    method StartList()
      requires Valid() && freep == 0
      modifies `freep, `mem, `ring
      ensures freep != 0 && Valid()
    {
      mem := mem[base := Header(base, 0)];
      freep, ring := base, [base];
      assert NodeOk(mem, ring, 0);
      assert HeapOk(mem, ring, live, base, top, obtained, 0);
    }
  }
}
