/** The free list of umalloc.c (the allocator of "The C Programming Language", section 8.7): blocks in address
    order on a circular list that starts at the static header `base`. Addresses and sizes are in units of one
    header. Here are the list, the blocks handed out, and what each of the allocator's link updates does to
    them; the class in Malloc.dfy makes the updates. */
module FreeList {

  datatype Header = Header(ptr: nat, size: nat)

  type Memory = map<nat, Header>

  // ---------------------------------------------------------------- the ring

  function Succ(ring: seq<nat>, i: nat): nat
    requires i < |ring|
  {
    if i + 1 < |ring| then ring[i + 1] else ring[0]
  }

  /** The i-th list element points at the next one, the last back at base. A free block ends before the next one
      starts, with a gap: free blocks are disjoint and never adjacent. */
  ghost predicate NodeOk(mem: Memory, ring: seq<nat>, i: nat)
    requires i < |ring|
  {
    && ring[i] in mem
    && mem[ring[i]].ptr == Succ(ring, i)
    && (0 < i ==> 1 <= mem[ring[i]].size)
    && (i + 1 < |ring| ==> ring[i] + mem[ring[i]].size < ring[i + 1])
  }

  ghost predicate InMemory(mem: Memory, ring: seq<nat>) {
    forall i :: 0 <= i < |ring| ==> ring[i] in mem
  }

  /** One address wrap: base first, then the free blocks in address order. */
  ghost predicate RingOk(mem: Memory, ring: seq<nat>, base: nat) {
    && 0 < |ring| && ring[0] == base && 0 < base
    && InMemory(mem, ring) && mem[base].size == 0
    && (forall i :: 0 <= i < |ring| ==> NodeOk(mem, ring, i))
  }

  lemma {:induction false} RingSorted(mem: Memory, ring: seq<nat>, base: nat, i: nat, j: nat)
    requires RingOk(mem, ring, base) && i < j < |ring|
    ensures ring[i] + mem[ring[i]].size < ring[j]
  {
    assert NodeOk(mem, ring, i);
    if i + 1 < j {
      RingSorted(mem, ring, base, i, j - 1);
      assert NodeOk(mem, ring, j - 1);
    }
  }

  // ---------------------------------------------------------------- live blocks

  predicate Disjoint(a: nat, m: nat, b: nat, n: nat) {
    a + m <= b || b + n <= a
  }

  /** A block [a, a+n) that no free block overlaps. */
  ghost predicate ClearOfFree(mem: Memory, ring: seq<nat>, a: nat, n: nat)
    requires InMemory(mem, ring)
  {
    forall i :: 1 <= i < |ring| ==> Disjoint(ring[i], mem[ring[i]].size, a, n)
  }

  /** A block [a, a+n) that no live block overlaps. */
  ghost predicate ClearOfLive(live: map<nat, nat>, a: nat, n: nat) {
    forall b :: b in live ==> Disjoint(b, live[b], a, n)
  }

  /** The live blocks lie above base and below top, have their size in their header, and overlap nothing. */
  ghost predicate LiveOk(mem: Memory, ring: seq<nat>, live: map<nat, nat>, base: nat, top: nat)
    requires InMemory(mem, ring)
  {
    && (forall a :: a in live ==>
          && base < a && a + live[a] <= top && 1 <= live[a]
          && a in mem && mem[a].size == live[a]
          && ClearOfFree(mem, ring, a, live[a]))
    && (forall a, b :: a in live && b in live && a != b ==> Disjoint(a, live[a], b, live[b]))
  }

  /** The units in the first k list elements. */
  function FreeUnits(mem: Memory, ring: seq<nat>): nat
    requires InMemory(mem, ring)
  {
    if ring == [] then 0 else FreeUnits(mem, ring[..|ring| - 1]) + mem[ring[|ring| - 1]].size
  }

  ghost function LiveUnits(live: map<nat, nat>): nat
    decreases |live|
  {
    if live == map[] then 0 else var a :| a in live; live[a] + LiveUnits(live - {a})
  }

  lemma {:induction false} LiveUnitsRemove(live: map<nat, nat>, a: nat)
    requires a in live
    ensures LiveUnits(live) == live[a] + LiveUnits(live - {a})
    decreases |live|
  {
    var b :| b in live && LiveUnits(live) == live[b] + LiveUnits(live - {b});
    if a != b {
      LiveUnitsRemove(live - {b}, a);
      LiveUnitsRemove(live - {a}, b);
      assert live - {a} - {b} == live - {b} - {a};
    }
  }

  lemma {:induction false} FreeUnitsConcat(mem: Memory, a: seq<nat>, b: seq<nat>)
    requires InMemory(mem, a) && InMemory(mem, b)
    ensures InMemory(mem, a + b)
    ensures FreeUnits(mem, a + b) == FreeUnits(mem, a) + FreeUnits(mem, b)
  {
    if b == [] {
      assert a + b == a;
    } else {
      FreeUnitsConcat(mem, a, b[..|b| - 1]);
      assert (a + b)[..|a + b| - 1] == a + b[..|b| - 1];
    }
  }

  ghost predicate SameSizes(mem: Memory, mem': Memory, s: seq<nat>) {
    forall i :: 0 <= i < |s| ==> s[i] in mem && s[i] in mem' && mem[s[i]].size == mem'[s[i]].size
  }

  lemma {:induction false} FreeUnitsSame(mem: Memory, mem': Memory, ring: seq<nat>)
    requires SameSizes(mem, mem', ring)
    ensures FreeUnits(mem, ring) == FreeUnits(mem', ring)
  {
    if ring != [] {
      FreeUnitsSame(mem, mem', ring[..|ring| - 1]);
    }
  }

  // ---------------------------------------------------------------- putting a block on the list

  /** Where a block belongs: between the j-th list element and the next. */
  ghost predicate Between(ring: seq<nat>, j: nat, bp: nat) {
    j < |ring| && ring[j] < bp && (j + 1 < |ring| ==> bp < ring[j + 1])
  }

  /** Exactly one place. */
  lemma {:induction false} FindPlace(mem: Memory, ring: seq<nat>, base: nat, bp: nat, k: nat) returns (j: nat)
    requires RingOk(mem, ring, base) && base < bp && k < |ring|
    requires forall i :: 0 <= i < |ring| ==> ring[i] != bp
    requires forall i :: k < i < |ring| ==> bp < ring[i]
    ensures Between(ring, j, bp)
    ensures forall i: nat :: Between(ring, i, bp) ==> i == j
    decreases k
  {
    if ring[k] < bp {
      j := k;
      forall i: nat | Between(ring, i, bp)
        ensures i == j
      {
        if i < j {
          if i + 1 < j {
            RingSorted(mem, ring, base, i + 1, j);
          }
        }
      }
    } else {
      j := FindPlace(mem, ring, base, bp, k - 1);
    }
  }

  /** The ring after free() has put bp, possibly joined to its neighbours, behind element j. */
  function Inserted(ring: seq<nat>, j: nat, bp: nat, joinsUpper: bool, joinsLower: bool): seq<nat>
    requires j < |ring| && (joinsUpper ==> j + 1 < |ring|)
  {
    ring[..j + 1] + (if joinsLower then [] else [bp]) + (if joinsUpper then ring[j + 2..] else ring[j + 1..])
  }

  /** The memory after free()'s updates. */
  function AfterInsert(mem: Memory, p: nat, bp: nat): Memory
    requires p in mem && bp in mem && mem[p].ptr in mem
  {
    var next := mem[p].ptr;
    var m1 := if bp + mem[bp].size == next
              then mem[bp := Header(mem[next].ptr, mem[bp].size + mem[next].size)]
              else mem[bp := mem[bp].(ptr := next)];
    if p + m1[p].size == bp
    then m1[p := Header(m1[bp].ptr, m1[p].size + m1[bp].size)]
    else m1[p := m1[p].(ptr := bp)]
  }

  ghost predicate JoinsUpper(mem: Memory, ring: seq<nat>, j: nat, bp: nat)
    requires j < |ring| && bp in mem
  {
    j + 1 < |ring| && bp + mem[bp].size == ring[j + 1]
  }

  ghost predicate JoinsLower(mem: Memory, ring: seq<nat>, j: nat, bp: nat)
    requires j < |ring| && ring[j] in mem
  {
    ring[j] + mem[ring[j]].size == bp
  }

  /** A block off the list that may be freed: above base, at least one unit, clear of the free blocks. */
  ghost predicate Loose(mem: Memory, ring: seq<nat>, base: nat, bp: nat)
    requires InMemory(mem, ring)
  {
    base < bp && bp in mem && 1 <= mem[bp].size && ClearOfFree(mem, ring, bp, mem[bp].size)
  }

  lemma InsertKeepsRing(mem: Memory, ring: seq<nat>, base: nat, j: nat, bp: nat)
    requires RingOk(mem, ring, base) && Loose(mem, ring, base, bp) && Between(ring, j, bp)
    ensures mem[ring[j]].ptr in mem
    ensures RingOk(AfterInsert(mem, ring[j], bp), Inserted(ring, j, bp, JoinsUpper(mem, ring, j, bp), JoinsLower(mem, ring, j, bp)), base)
  {
    var p := ring[j];
    assert NodeOk(mem, ring, j);
    var up, low := JoinsUpper(mem, ring, j, bp), JoinsLower(mem, ring, j, bp);
    var r := Inserted(ring, j, bp, up, low);
    var m := AfterInsert(mem, p, bp);
    forall i | 0 <= i < |r|
      ensures r[i] in m && NodeOk(m, r, i)
    {
      InsertNode(mem, ring, base, j, bp, i);
    }
  }

  /** The old index of an element behind the freed block. */
  function OldIndex(i: nat, joinsUpper: bool, joinsLower: bool): int {
    i - (if joinsLower then 0 else 1) + (if joinsUpper then 1 else 0)
  }

  lemma InsertedAt(ring: seq<nat>, j: nat, bp: nat, up: bool, low: bool, i: nat)
    requires j < |ring| && (up ==> j + 1 < |ring|) && i < |Inserted(ring, j, bp, up, low)|
    ensures i <= j ==> Inserted(ring, j, bp, up, low)[i] == ring[i]
    ensures !low && i == j + 1 ==> Inserted(ring, j, bp, up, low)[i] == bp
    ensures (low && j < i) || j + 1 < i ==>
              j < OldIndex(i, up, low) < |ring| && Inserted(ring, j, bp, up, low)[i] == ring[OldIndex(i, up, low)]
    ensures |Inserted(ring, j, bp, up, low)| == |ring| + (if low then 0 else 1) - (if up then 1 else 0)
  {
  }

  lemma InsertNode(mem: Memory, ring: seq<nat>, base: nat, j: nat, bp: nat, i: nat)
    requires RingOk(mem, ring, base) && Loose(mem, ring, base, bp) && Between(ring, j, bp)
    requires i < |Inserted(ring, j, bp, JoinsUpper(mem, ring, j, bp), JoinsLower(mem, ring, j, bp))|
    ensures mem[ring[j]].ptr in mem
    ensures NodeOk(AfterInsert(mem, ring[j], bp), Inserted(ring, j, bp, JoinsUpper(mem, ring, j, bp), JoinsLower(mem, ring, j, bp)), i)
  {
    InsertFits(mem, ring, base, j, bp);
    var up, low := JoinsUpper(mem, ring, j, bp), JoinsLower(mem, ring, j, bp);
    var r, m := Inserted(ring, j, bp, up, low), AfterInsert(mem, ring[j], bp);
    InsertedAt(ring, j, bp, up, low, 0);
    InsertedAt(ring, j, bp, up, low, i);
    if i + 1 < |r| {
      InsertedAt(ring, j, bp, up, low, i + 1);
    }
    if i < j {
      RingSorted(mem, ring, base, i, j);
      NodeMoved(mem, m, ring, r, i, i);
    } else if (low && j < i) || j + 1 < i {
      var o := OldIndex(i, up, low);
      RingSorted(mem, ring, base, j, o);
      NodeMoved(mem, m, ring, r, o, i);
    } else {
      InsertNear(mem, ring, base, j, bp, r, i);
    }
  }

  /** The element before the freed block, and the freed block itself when it does not join that element. */
  lemma InsertNear(mem: Memory, ring: seq<nat>, base: nat, j: nat, bp: nat, r: seq<nat>, i: nat)
    requires RingOk(mem, ring, base) && Loose(mem, ring, base, bp) && Between(ring, j, bp)
    requires var up, low := JoinsUpper(mem, ring, j, bp), JoinsLower(mem, ring, j, bp);
             r == Inserted(ring, j, bp, up, low) && i < |r| && (i == j || (!low && i == j + 1))
    ensures mem[ring[j]].ptr in mem
    ensures NodeOk(AfterInsert(mem, ring[j], bp), r, i)
  {
    InsertFits(mem, ring, base, j, bp);
    var up, low := JoinsUpper(mem, ring, j, bp), JoinsLower(mem, ring, j, bp);
    InsertedAt(ring, j, bp, up, low, 0);
    InsertedAt(ring, j, bp, up, low, i);
    if i + 1 < |r| {
      InsertedAt(ring, j, bp, up, low, i + 1);
    }
  }

  /** An element whose header and successor are as before. */
  lemma NodeMoved(mem: Memory, m: Memory, ring: seq<nat>, r: seq<nat>, o: nat, i: nat)
    requires o < |ring| && i < |r| && NodeOk(mem, ring, o) && ring[o] == r[i] && ring[0] == r[0]
    requires ring[o] in m && m[ring[o]] == mem[ring[o]] && (0 < i ==> 0 < o)
    requires (o + 1 < |ring| <==> i + 1 < |r|) && (o + 1 < |ring| ==> ring[o + 1] == r[i + 1])
    ensures NodeOk(m, r, i)
  {
  }

  /** The freed block lies between its neighbours. */
  lemma InsertFits(mem: Memory, ring: seq<nat>, base: nat, j: nat, bp: nat)
    requires RingOk(mem, ring, base) && Loose(mem, ring, base, bp) && Between(ring, j, bp)
    ensures NodeOk(mem, ring, j) && ring[j] + mem[ring[j]].size <= bp
    ensures JoinsLower(mem, ring, j, bp) ==> 0 < j
    ensures j + 1 < |ring| ==> NodeOk(mem, ring, j + 1) && bp + mem[bp].size <= ring[j + 1]
  {
    assert NodeOk(mem, ring, j);
    if j + 1 < |ring| {
      assert NodeOk(mem, ring, j + 1);
      assert Disjoint(ring[j + 1], mem[ring[j + 1]].size, bp, mem[bp].size);
    }
    if 0 < j {
      assert Disjoint(ring[j], mem[ring[j]].size, bp, mem[bp].size);
    }
  }

  /** Some free block is at least as large as the freed one. */
  lemma JoinedIsLarge(mem: Memory, ring: seq<nat>, base: nat, j: nat, bp: nat)
    requires RingOk(mem, ring, base) && Loose(mem, ring, base, bp) && Between(ring, j, bp)
    ensures mem[ring[j]].ptr in mem
    ensures var r := Inserted(ring, j, bp, JoinsUpper(mem, ring, j, bp), JoinsLower(mem, ring, j, bp));
            var m := AfterInsert(mem, ring[j], bp);
            InMemory(m, r) && exists i :: 0 <= i < |r| && mem[bp].size <= m[r[i]].size
  {
    InsertFits(mem, ring, base, j, bp);
    InsertKeepsRing(mem, ring, base, j, bp);
    var up, low := JoinsUpper(mem, ring, j, bp), JoinsLower(mem, ring, j, bp);
    var i := if low then j else j + 1;
    InsertedAt(ring, j, bp, up, low, i);
    assert mem[bp].size <= AfterInsert(mem, ring[j], bp)[Inserted(ring, j, bp, up, low)[i]].size;
  }

  // ---------------------------------------------------------------- the whole heap

  ghost predicate BelowTop(mem: Memory, ring: seq<nat>, top: nat)
    requires InMemory(mem, ring)
  {
    forall i :: 0 <= i < |ring| ==> ring[i] + mem[ring[i]].size <= top
  }

  /** Everything lies below top, and the units on the list and in use are the units obtained, all but `loose` of
      them, which belong to a block on its way onto the list. */
  ghost predicate HeapOk(mem: Memory, ring: seq<nat>, live: map<nat, nat>, base: nat, top: nat, obtained: nat, loose: nat) {
    && RingOk(mem, ring, base)
    && LiveOk(mem, ring, live, base, top)
    && base < top && BelowTop(mem, ring, top)
    && FreeUnits(mem, ring) + LiveUnits(live) + loose == obtained
  }

  /** A live block is neither on the list nor the block being freed. */
  lemma LiveIsElsewhere(mem: Memory, ring: seq<nat>, live: map<nat, nat>, base: nat, top: nat, a: nat, i: nat)
    requires RingOk(mem, ring, base) && LiveOk(mem, ring, live, base, top) && a in live && i < |ring|
    ensures a != ring[i]
  {
    assert NodeOk(mem, ring, i);
    if 0 < i {
      assert Disjoint(ring[i], mem[ring[i]].size, a, live[a]);
    }
  }

  lemma InsertKeepsLive(mem: Memory, ring: seq<nat>, live: map<nat, nat>, base: nat, top: nat, j: nat, bp: nat, a: nat)
    requires RingOk(mem, ring, base) && Loose(mem, ring, base, bp) && Between(ring, j, bp)
    requires LiveOk(mem, ring, live, base, top) && ClearOfLive(live, bp, mem[bp].size) && a in live
    ensures mem[ring[j]].ptr in mem
    ensures var r := Inserted(ring, j, bp, JoinsUpper(mem, ring, j, bp), JoinsLower(mem, ring, j, bp));
            var m := AfterInsert(mem, ring[j], bp);
            a in m && m[a] == mem[a] && InMemory(m, r) && ClearOfFree(m, r, a, live[a])
  {
    InsertFits(mem, ring, base, j, bp);
    InsertKeepsRing(mem, ring, base, j, bp);
    LiveIsElsewhere(mem, ring, live, base, top, a, j);
    var up, low := JoinsUpper(mem, ring, j, bp), JoinsLower(mem, ring, j, bp);
    var r, m := Inserted(ring, j, bp, up, low), AfterInsert(mem, ring[j], bp);
    assert Disjoint(a, live[a], bp, mem[bp].size);
    forall i | 1 <= i < |r|
      ensures Disjoint(r[i], m[r[i]].size, a, live[a])
    {
      InsertKeepsClear(mem, ring, base, j, bp, a, live[a], i);
    }
  }

  /** A block clear of the free blocks and of the one being freed is clear of what they become. */
  lemma InsertKeepsClear(mem: Memory, ring: seq<nat>, base: nat, j: nat, bp: nat, a: nat, n: nat, i: nat)
    requires RingOk(mem, ring, base) && Loose(mem, ring, base, bp) && Between(ring, j, bp)
    requires ClearOfFree(mem, ring, a, n) && Disjoint(a, n, bp, mem[bp].size) && 1 <= n
    requires 1 <= i < |Inserted(ring, j, bp, JoinsUpper(mem, ring, j, bp), JoinsLower(mem, ring, j, bp))|
    ensures mem[ring[j]].ptr in mem
    ensures var r := Inserted(ring, j, bp, JoinsUpper(mem, ring, j, bp), JoinsLower(mem, ring, j, bp));
            var m := AfterInsert(mem, ring[j], bp);
            r[i] in m && Disjoint(r[i], m[r[i]].size, a, n)
  {
    InsertFits(mem, ring, base, j, bp);
    var up, low := JoinsUpper(mem, ring, j, bp), JoinsLower(mem, ring, j, bp);
    InsertedAt(ring, j, bp, up, low, i);
    if i < j {
      RingSorted(mem, ring, base, i, j);
      assert Disjoint(ring[i], mem[ring[i]].size, a, n);
    } else if (low && j < i) || j + 1 < i {
      var o := OldIndex(i, up, low);
      RingSorted(mem, ring, base, j, o);
      assert Disjoint(ring[o], mem[ring[o]].size, a, n);
    } else {
      assert 0 < j ==> Disjoint(ring[j], mem[ring[j]].size, a, n);
      assert up ==> Disjoint(ring[j + 1], mem[ring[j + 1]].size, a, n);
    }
  }

  /** free() neither loses nor makes units. */
  lemma InsertKeepsUnits(mem: Memory, ring: seq<nat>, base: nat, j: nat, bp: nat)
    requires RingOk(mem, ring, base) && Loose(mem, ring, base, bp) && Between(ring, j, bp)
    ensures mem[ring[j]].ptr in mem
    ensures var r := Inserted(ring, j, bp, JoinsUpper(mem, ring, j, bp), JoinsLower(mem, ring, j, bp));
            var m := AfterInsert(mem, ring[j], bp);
            InMemory(m, r) && FreeUnits(m, r) == FreeUnits(mem, ring) + mem[bp].size
  {
    InsertFits(mem, ring, base, j, bp);
    var up, low := JoinsUpper(mem, ring, j, bp), JoinsLower(mem, ring, j, bp);
    var r, m := Inserted(ring, j, bp, up, low), AfterInsert(mem, ring[j], bp);
    var front, back := ring[..j], if up then ring[j + 2..] else ring[j + 1..];
    InsertParts(ring, j, bp, up, low);
    InsertSizes(mem, ring, base, j, bp);
    OthersUntouched(mem, m, ring, base, j, bp, up);
    MiddleChanges(mem, m, front, OldMiddle(ring, j, up), NewMiddle(ring, j, bp, low), back);
  }

  function OldMiddle(ring: seq<nat>, j: nat, up: bool): seq<nat>
    requires j < |ring| && (up ==> j + 1 < |ring|)
  {
    if up then [ring[j], ring[j + 1]] else [ring[j]]
  }

  function NewMiddle(ring: seq<nat>, j: nat, bp: nat, low: bool): seq<nat>
    requires j < |ring|
  {
    if low then [ring[j]] else [ring[j], bp]
  }

  lemma InsertParts(ring: seq<nat>, j: nat, bp: nat, up: bool, low: bool)
    requires j < |ring| && (up ==> j + 1 < |ring|)
    ensures var back := if up then ring[j + 2..] else ring[j + 1..];
            && ring == ring[..j] + (OldMiddle(ring, j, up) + back)
            && Inserted(ring, j, bp, up, low) == ring[..j] + (NewMiddle(ring, j, bp, low) + back)
  {
    var back := if up then ring[j + 2..] else ring[j + 1..];
    OldParts(ring, j, up);
    NewParts(ring[..j], ring[j], if low then [] else [bp], back);
    assert ring[..j + 1] == ring[..j] + [ring[j]];
    assert NewMiddle(ring, j, bp, low) == [ring[j]] + (if low then [] else [bp]);
  }

  lemma OldParts(ring: seq<nat>, j: nat, up: bool)
    requires j < |ring| && (up ==> j + 1 < |ring|)
    ensures ring == ring[..j] + (OldMiddle(ring, j, up) + if up then ring[j + 2..] else ring[j + 1..])
  {
  }

  lemma NewParts(front: seq<nat>, p: nat, added: seq<nat>, back: seq<nat>)
    ensures front + [p] + added + back == front + ([p] + added + back)
  {
  }

  lemma InsertSizes(mem: Memory, ring: seq<nat>, base: nat, j: nat, bp: nat)
    requires RingOk(mem, ring, base) && Loose(mem, ring, base, bp) && Between(ring, j, bp)
    ensures mem[ring[j]].ptr in mem
    ensures var up, low := JoinsUpper(mem, ring, j, bp), JoinsLower(mem, ring, j, bp);
            var m := AfterInsert(mem, ring[j], bp);
            && InMemory(mem, OldMiddle(ring, j, up)) && InMemory(m, NewMiddle(ring, j, bp, low))
            && FreeUnits(m, NewMiddle(ring, j, bp, low)) == FreeUnits(mem, OldMiddle(ring, j, up)) + mem[bp].size
  {
    InsertFits(mem, ring, base, j, bp);
    FreeUnitsShort(mem, OldMiddle(ring, j, JoinsUpper(mem, ring, j, bp)));
    FreeUnitsShort(AfterInsert(mem, ring[j], bp), NewMiddle(ring, j, bp, JoinsLower(mem, ring, j, bp)));
  }

  /** Replacing the middle of a list changes its units by the difference. */
  lemma MiddleChanges(mem: Memory, m: Memory, front: seq<nat>, mid: seq<nat>, mid': seq<nat>, back: seq<nat>)
    requires InMemory(mem, mid) && InMemory(m, mid') && SameSizes(mem, m, front) && SameSizes(mem, m, back)
    ensures InMemory(mem, front + (mid + back)) && InMemory(m, front + (mid' + back))
    ensures FreeUnits(m, front + (mid' + back)) - FreeUnits(m, mid') == FreeUnits(mem, front + (mid + back)) - FreeUnits(mem, mid)
  {
    FreeUnitsConcat(mem, mid, back);
    FreeUnitsConcat(mem, front, mid + back);
    FreeUnitsConcat(m, mid', back);
    FreeUnitsConcat(m, front, mid' + back);
    FreeUnitsSame(mem, m, front);
    FreeUnitsSame(mem, m, back);
  }

  lemma OthersUntouched(mem: Memory, m: Memory, ring: seq<nat>, base: nat, j: nat, bp: nat, up: bool)
    requires RingOk(mem, ring, base) && Loose(mem, ring, base, bp) && Between(ring, j, bp)
    requires up ==> j + 1 < |ring|
    requires mem[ring[j]].ptr in mem && m == AfterInsert(mem, ring[j], bp)
    ensures SameSizes(mem, m, ring[..j]) && SameSizes(mem, m, if up then ring[j + 2..] else ring[j + 1..])
  {
    forall i | 0 <= i < j
      ensures m[ring[i]] == mem[ring[i]]
    {
      RingSorted(mem, ring, base, i, j);
    }
    forall i | j < i < |ring|
      ensures m[ring[i]] == mem[ring[i]]
    {
      RingSorted(mem, ring, base, j, i);
      if j + 1 < i {
        RingSorted(mem, ring, base, j + 1, i);
      }
    }
  }

  lemma FreeUnitsShort(mem: Memory, s: seq<nat>)
    requires 1 <= |s| <= 2 && InMemory(mem, s)
    ensures FreeUnits(mem, s) == if |s| == 1 then mem[s[0]].size else mem[s[0]].size + mem[s[1]].size
  {
    assert s[..|s| - 1] == if |s| == 1 then [] else [s[0]];
  }

  /** free() on the whole heap. */
  lemma InsertKeepsHeap(mem: Memory, ring: seq<nat>, live: map<nat, nat>, base: nat, top: nat, obtained: nat, j: nat, bp: nat)
    requires RingOk(mem, ring, base) && Loose(mem, ring, base, bp) && Between(ring, j, bp)
    requires HeapOk(mem, ring, live, base, top, obtained, mem[bp].size)
    requires ClearOfLive(live, bp, mem[bp].size) && bp + mem[bp].size <= top
    ensures mem[ring[j]].ptr in mem
    ensures HeapOk(AfterInsert(mem, ring[j], bp),
                   Inserted(ring, j, bp, JoinsUpper(mem, ring, j, bp), JoinsLower(mem, ring, j, bp)), live, base, top, obtained, 0)
  {
    var up, low := JoinsUpper(mem, ring, j, bp), JoinsLower(mem, ring, j, bp);
    InsertFits(mem, ring, base, j, bp);
    InsertKeepsRing(mem, ring, base, j, bp);
    InsertKeepsUnits(mem, ring, base, j, bp);
    InsertBelowTop(mem, ring, base, top, j, bp);
    var r, m := Inserted(ring, j, bp, up, low), AfterInsert(mem, ring[j], bp);
    forall a | a in live
      ensures a in m && m[a] == mem[a] && ClearOfFree(m, r, a, live[a])
    {
      InsertKeepsLive(mem, ring, live, base, top, j, bp, a);
    }
  }

  lemma InsertBelowTop(mem: Memory, ring: seq<nat>, base: nat, top: nat, j: nat, bp: nat)
    requires RingOk(mem, ring, base) && Loose(mem, ring, base, bp) && Between(ring, j, bp)
    requires BelowTop(mem, ring, top) && bp + mem[bp].size <= top
    ensures mem[ring[j]].ptr in mem
    ensures var r := Inserted(ring, j, bp, JoinsUpper(mem, ring, j, bp), JoinsLower(mem, ring, j, bp));
            var m := AfterInsert(mem, ring[j], bp);
            InMemory(m, r) && BelowTop(m, r, top)
  {
    var up, low := JoinsUpper(mem, ring, j, bp), JoinsLower(mem, ring, j, bp);
    InsertFits(mem, ring, base, j, bp);
    InsertKeepsRing(mem, ring, base, j, bp);
    var r, m := Inserted(ring, j, bp, up, low), AfterInsert(mem, ring[j], bp);
    forall i | 0 <= i < |r|
      ensures r[i] + m[r[i]].size <= top
    {
      InsertedAt(ring, j, bp, up, low, i);
      if i < j {
        RingSorted(mem, ring, base, i, j);
      } else if (low && j < i) || j + 1 < i {
        var o := OldIndex(i, up, low);
        RingSorted(mem, ring, base, j, o);
      }
    }
  }

  /** The element before the freed block stays on the list. */
  lemma PredecessorStays(mem: Memory, ring: seq<nat>, base: nat, j: nat, bp: nat)
    requires RingOk(mem, ring, base) && Between(ring, j, bp) && bp in mem
    ensures 0 < ring[j]
    ensures ring[j] in Inserted(ring, j, bp, JoinsUpper(mem, ring, j, bp), JoinsLower(mem, ring, j, bp))
  {
    var up, low := JoinsUpper(mem, ring, j, bp), JoinsLower(mem, ring, j, bp);
    InsertedAt(ring, j, bp, up, low, j);
    assert Inserted(ring, j, bp, up, low)[j] == ring[j];
    if 0 < j {
      RingSorted(mem, ring, base, 0, j);
    }
  }

  // ---------------------------------------------------------------- taking a block off the list

  lemma LiveUnitsAdd(live: map<nat, nat>, a: nat, n: nat)
    requires a !in live
    ensures LiveUnits(live[a := n]) == LiveUnits(live) + n
  {
    LiveUnitsRemove(live[a := n], a);
    assert live[a := n] - {a} == live;
  }

  function Without(ring: seq<nat>, i: nat): seq<nat>
    requires i < |ring|
  {
    ring[..i] + ring[i + 1..]
  }

  /** An exact fit: the i-th block leaves the list. */
  lemma TakeWhole(mem: Memory, ring: seq<nat>, live: map<nat, nat>, base: nat, top: nat, obtained: nat, i: nat)
    requires HeapOk(mem, ring, live, base, top, obtained, 0) && 0 < i < |ring|
    ensures var p := ring[i]; var prev := ring[i - 1];
            && p !in live
            && HeapOk(mem[prev := mem[prev].(ptr := mem[p].ptr)], Without(ring, i), live[p := mem[p].size], base, top, obtained, 0)
  {
    var p, prev := ring[i], ring[i - 1];
    var m, r := mem[prev := mem[prev].(ptr := mem[p].ptr)], Without(ring, i);
    if p in live {
      LiveIsElsewhere(mem, ring, live, base, top, p, i);
    }
    WithoutKeepsRing(mem, ring, base, i);
    WithoutUnits(mem, m, ring, i);
    LiveUnitsAdd(live, p, mem[p].size);
    WithoutKeepsLive(mem, ring, live, base, top, i);
    forall k | 0 <= k < |r|
      ensures r[k] + m[r[k]].size <= top
    {
      assert r[k] == if k < i then ring[k] else ring[k + 1];
    }
  }

  lemma WithoutKeepsRing(mem: Memory, ring: seq<nat>, base: nat, i: nat)
    requires RingOk(mem, ring, base) && 0 < i < |ring|
    ensures RingOk(mem[ring[i - 1] := mem[ring[i - 1]].(ptr := mem[ring[i]].ptr)], Without(ring, i), base)
  {
    var r, m := Without(ring, i), mem[ring[i - 1] := mem[ring[i - 1]].(ptr := mem[ring[i]].ptr)];
    assert NodeOk(mem, ring, i) && NodeOk(mem, ring, i - 1);
    forall k | 0 <= k < |r|
      ensures r[k] in m && NodeOk(m, r, k)
    {
      if k < i - 1 {
        RingSorted(mem, ring, base, k, i - 1);
        NodeMoved(mem, m, ring, r, k, k);
      } else if i <= k {
        RingSorted(mem, ring, base, i - 1, k + 1);
        NodeMoved(mem, m, ring, r, k + 1, k);
      }
    }
  }

  lemma WithoutUnits(mem: Memory, m: Memory, ring: seq<nat>, i: nat)
    requires InMemory(mem, ring) && i < |ring| && SameSizes(mem, m, ring)
    ensures InMemory(m, Without(ring, i)) && FreeUnits(m, Without(ring, i)) == FreeUnits(mem, ring) - mem[ring[i]].size
  {
    assert ring == ring[..i] + ([ring[i]] + ring[i + 1..]);
    assert Without(ring, i) == ring[..i] + ([] + ring[i + 1..]);
    MiddleChanges(mem, m, ring[..i], [ring[i]], [], ring[i + 1..]);
    FreeUnitsShort(mem, [ring[i]]);
  }

  lemma WithoutKeepsLive(mem: Memory, ring: seq<nat>, live: map<nat, nat>, base: nat, top: nat, i: nat)
    requires RingOk(mem, ring, base) && LiveOk(mem, ring, live, base, top) && 0 < i < |ring|
    requires ring[i] !in live && ring[i] + mem[ring[i]].size <= top
    requires RingOk(mem[ring[i - 1] := mem[ring[i - 1]].(ptr := mem[ring[i]].ptr)], Without(ring, i), base)
    ensures LiveOk(mem[ring[i - 1] := mem[ring[i - 1]].(ptr := mem[ring[i]].ptr)], Without(ring, i), live[ring[i] := mem[ring[i]].size], base, top)
  {
    var p, r, m := ring[i], Without(ring, i), mem[ring[i - 1] := mem[ring[i - 1]].(ptr := mem[ring[i]].ptr)];
    RingSorted(mem, ring, base, 0, i);
    RingSorted(mem, ring, base, i - 1, i);
    assert NodeOk(mem, ring, i);
    forall k | 1 <= k < |r|
      ensures Disjoint(r[k], m[r[k]].size, p, mem[p].size)
    {
      if k < i {
        RingSorted(mem, ring, base, k, i);
      } else {
        RingSorted(mem, ring, base, i, k + 1);
      }
    }
    forall a | a in live
      ensures a in m && m[a].size == live[a] && ClearOfFree(m, r, a, live[a]) && Disjoint(a, live[a], p, mem[p].size)
    {
      LiveIsElsewhere(mem, ring, live, base, top, a, i - 1);
      assert Disjoint(p, mem[p].size, a, live[a]);
      forall k | 1 <= k < |r|
        ensures Disjoint(r[k], m[r[k]].size, a, live[a])
      {
        var o := if k < i then k else k + 1;
        assert r[k] == ring[o] && Disjoint(ring[o], mem[ring[o]].size, a, live[a]);
      }
    }
  }

  /** The memory after malloc has cut n units off the end of the free block at p. */
  function AfterSplit(mem: Memory, p: nat, n: nat): Memory
    requires p in mem && n < mem[p].size
  {
    var rest := mem[p].size - n;
    mem[p := mem[p].(size := rest)][p + rest := Header(0, n)]
  }

  /** A split: the block at the end of the i-th free block is handed out, the list keeps its shape. */
  lemma TakeTail(mem: Memory, ring: seq<nat>, live: map<nat, nat>, base: nat, top: nat, obtained: nat, i: nat, p: nat, q: nat, n: nat)
    requires HeapOk(mem, ring, live, base, top, obtained, 0) && i < |ring| && p == ring[i]
    requires 1 <= n < mem[p].size && q == p + mem[p].size - n
    ensures q !in live && HeapOk(AfterSplit(mem, p, n), ring, live[q := n], base, top, obtained, 0)
  {
    var m := AfterSplit(mem, p, n);
    InsideIsNotLive(mem, ring, live, base, top, i, q);
    SplitKeepsRing(mem, ring, base, i, n);
    SplitKeepsLive(mem, ring, live, base, top, i, n);
    SplitUnits(mem, m, ring, i, n);
    SplitBelowTop(mem, m, ring, top, i);
    LiveUnitsAdd(live, q, n);
  }

  /** A free block with something in it is not the first on the list, and its inside is not live. */
  lemma InsideIsNotLive(mem: Memory, ring: seq<nat>, live: map<nat, nat>, base: nat, top: nat, i: nat, q: nat)
    requires RingOk(mem, ring, base) && LiveOk(mem, ring, live, base, top) && i < |ring|
    requires ring[i] < q < ring[i] + mem[ring[i]].size
    ensures 0 < i && base < ring[i] && q !in live
  {
    assert NodeOk(mem, ring, i) && ring[0] == base;
    RingSorted(mem, ring, base, 0, i);
    assert q in live ==> Disjoint(ring[i], mem[ring[i]].size, q, live[q]);
  }

  lemma SplitBelowTop(mem: Memory, m: Memory, ring: seq<nat>, top: nat, i: nat)
    requires InMemory(mem, ring) && InMemory(m, ring) && i < |ring| && m[ring[i]].size <= mem[ring[i]].size
    requires forall k :: 0 <= k < |ring| && k != i ==> m[ring[k]] == mem[ring[k]]
    requires BelowTop(mem, ring, top)
    ensures BelowTop(m, ring, top)
  {
  }

  lemma SplitUnits(mem: Memory, m: Memory, ring: seq<nat>, i: nat, n: nat)
    requires InMemory(mem, ring) && InMemory(m, ring) && i < |ring| && m[ring[i]].size + n == mem[ring[i]].size
    requires forall k :: 0 <= k < |ring| && k != i ==> m[ring[k]] == mem[ring[k]]
    ensures FreeUnits(m, ring) + n == FreeUnits(mem, ring)
  {
    var front, back := ring[..i], ring[i + 1..];
    assert ring == front + ([ring[i]] + back);
    assert forall k :: 0 <= k < |back| ==> back[k] == ring[i + 1 + k];
    MiddleChanges(mem, m, front, [ring[i]], [ring[i]], back);
    FreeUnitsShort(mem, [ring[i]]);
    FreeUnitsShort(m, [ring[i]]);
  }

  lemma SplitKeepsRing(mem: Memory, ring: seq<nat>, base: nat, i: nat, n: nat)
    requires RingOk(mem, ring, base) && 0 < i < |ring| && 1 <= n < mem[ring[i]].size
    ensures RingOk(AfterSplit(mem, ring[i], n), ring, base)
    ensures forall k :: 0 <= k < |ring| && k != i ==> AfterSplit(mem, ring[i], n)[ring[k]] == mem[ring[k]]
  {
    var p, m := ring[i], AfterSplit(mem, ring[i], n);
    assert NodeOk(mem, ring, i);
    forall k | 0 <= k < |ring|
      ensures NodeOk(m, ring, k)
      ensures k != i ==> m[ring[k]] == mem[ring[k]]
    {
      assert NodeOk(mem, ring, k);
      if k < i {
        RingSorted(mem, ring, base, k, i);
      } else if i < k {
        RingSorted(mem, ring, base, i, k);
      }
    }
  }

  lemma SplitKeepsLive(mem: Memory, ring: seq<nat>, live: map<nat, nat>, base: nat, top: nat, i: nat, n: nat)
    requires RingOk(mem, ring, base) && LiveOk(mem, ring, live, base, top) && 0 < i < |ring| && 1 <= n < mem[ring[i]].size
    requires ring[i] + mem[ring[i]].size <= top && base < ring[i]
    requires RingOk(AfterSplit(mem, ring[i], n), ring, base)
    requires forall k :: 0 <= k < |ring| && k != i ==> AfterSplit(mem, ring[i], n)[ring[k]] == mem[ring[k]]
    ensures LiveOk(AfterSplit(mem, ring[i], n), ring, live[ring[i] + mem[ring[i]].size - n := n], base, top)
  {
    var p, m := ring[i], AfterSplit(mem, ring[i], n);
    var q := p + mem[p].size - n;
    forall k | 1 <= k < |ring|
      ensures Disjoint(ring[k], m[ring[k]].size, q, n)
    {
      if k < i {
        RingSorted(mem, ring, base, k, i);
      } else if i < k {
        RingSorted(mem, ring, base, i, k);
      }
    }
    forall a | a in live
      ensures a in m && m[a] == mem[a] && ClearOfFree(m, ring, a, live[a]) && Disjoint(a, live[a], q, n)
    {
      assert Disjoint(p, mem[p].size, a, live[a]);
      forall k | 1 <= k < |ring|
        ensures Disjoint(ring[k], m[ring[k]].size, a, live[a])
      {
        assert Disjoint(ring[k], mem[ring[k]].size, a, live[a]);
      }
    }
  }

  /** Memory fresh from sbrk, above everything obtained before, is a loose block. */
  lemma FreshBlock(mem: Memory, ring: seq<nat>, live: map<nat, nat>, base: nat, top: nat, obtained: nat, hp: nat, nu: nat)
    requires HeapOk(mem, ring, live, base, top, obtained, 0) && top <= hp && 1 <= nu
    ensures var m := mem[hp := Header(0, nu)];
            && HeapOk(m, ring, live, base, hp + nu, obtained + nu, nu)
            && Loose(m, ring, base, hp) && ClearOfLive(live, hp, nu)
  {
    var m := mem[hp := Header(0, nu)];
    forall i | 0 <= i < |ring|
      ensures ring[i] != hp && NodeOk(m, ring, i)
    {
      assert NodeOk(mem, ring, i) && ring[i] + mem[ring[i]].size <= top;
      if i == 0 {
        assert ring[0] == base;
      }
    }
    FreeUnitsSame(mem, m, ring);
    forall a | a in live
      ensures a != hp && ClearOfFree(m, ring, a, live[a])
    {
      assert ClearOfFree(mem, ring, a, live[a]);
    }
  }
}
