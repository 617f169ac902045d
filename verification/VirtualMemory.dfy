/** The operations of vm.c on address spaces, and kalloc and kfree of kalloc.c beneath them. */
module VirtualMemory {
  import opened PageTable
  import opened UserMemory

  /** How many pages sz bytes take: PGROUNDUP(sz) / PGSIZE. */
  function PageCount(sz: nat): nat {
    (sz + PGSIZE - 1) / PGSIZE
  }

  function Filled(x: Byte): (f: Frame)
    ensures f.Bytes? && |f.data| == PGSIZE && forall i :: 0 <= i < PGSIZE ==> f.data[i] == x
  {
    Bytes(seq(PGSIZE, i => x))
  }

  ghost predicate Distinct(s: seq<nat>) {
    forall i, j :: 0 <= i < j < |s| ==> s[i] != s[j]
  }

  /** The free list holds exactly the free frames, each once. */
  ghost predicate FreeOk(free: seq<nat>, use: seq<Use>) {
    && Distinct(free)
    && (forall i :: 0 <= i < |free| ==> free[i] < |use| && use[free[i]] == Free)
    && (forall f {:trigger Listed(free, f)} :: 0 <= f < |use| && use[f] == Free ==> Listed(free, f))
  }

  ghost predicate Listed(free: seq<nat>, f: nat) {
    f in free
  }

  /** Every frame in use, but f, keeps its use, and its contents when it is loose: only free frames are taken. */
  ghost predicate KeptBut(m0: seq<Frame>, u0: seq<Use>, m: seq<Frame>, u: seq<Use>, f: nat) {
    && |u| == |u0| == |m| == |m0|
    && forall g :: 0 <= g < |u0| && u0[g] != Free && g != f ==> u[g] == u0[g] && (u0[g] == Loose ==> m[g] == m0[g])
  }

  ghost predicate Kept(m0: seq<Frame>, u0: seq<Use>, m: seq<Frame>, u: seq<Use>) {
    KeptBut(m0, u0, m, u, |u0|)
  }

  /** Every directory stays one. */
  ghost predicate DirsStay(u0: seq<Use>, use: seq<Use>) {
    |use| == |u0| && forall b: nat :: b < |u0| && u0[b] == Dir ==> use[b] == Dir
  }

  /** One frame, when the table for directory entry d is still to be made. */
  function Needed(mem: seq<Frame>, a: nat, d: nat): nat {
    if HasTable(mem, a, d) then 0 else 1
  }

  /** How many of the tables lo up to hi are still to be made. */
  function Missing(mem: seq<Frame>, a: nat, lo: nat, hi: nat): nat
    decreases hi
  {
    if lo < hi then Missing(mem, a, lo, hi - 1) + Needed(mem, a, hi - 1) else 0
  }

  lemma {:induction false} MissingSome(mem: seq<Frame>, a: nat, lo: nat, hi: nat, d: nat)
    requires lo <= d < hi
    ensures Needed(mem, a, d) <= Missing(mem, a, lo, hi)
    decreases hi
  {
    if d < hi - 1 {
      MissingSome(mem, a, lo, hi - 1, d);
    }
  }

  lemma {:induction false} MissingAtMost(mem: seq<Frame>, a: nat, lo: nat, hi: nat)
    requires lo <= hi
    ensures Missing(mem, a, lo, hi) <= hi - lo
    decreases hi
  {
    if lo < hi {
      MissingAtMost(mem, a, lo, hi - 1);
    }
  }

  /** Making table d takes it off the count. */
  lemma {:induction false} MissingOneLess(mem: seq<Frame>, m: seq<Frame>, a: nat, lo: nat, hi: nat, d: nat)
    requires forall e :: lo <= e < hi ==> (HasTable(m, a, e) <==> HasTable(mem, a, e) || e == d)
    ensures Missing(m, a, lo, hi) == Missing(mem, a, lo, hi) - if lo <= d < hi then Needed(mem, a, d) else 0
    decreases hi
  {
    if lo < hi {
      MissingOneLess(mem, m, a, lo, hi - 1, d);
    }
  }

  /** A stretch of the kernel half and the frames it maps to, as in kmap[]. */
  datatype Kmap = Kmap(virt: nat, phys: nat, count: nat, perm: Flags)

  ghost predicate KmapOk(k: Kmap) {
    USER_PAGES <= k.virt < k.virt + k.count <= PAGES && !k.perm.u
  }

  /** The stretch is mapped up to page end. */
  ghost predicate KernelMapped(mem: seq<Frame>, a: nat, k: Kmap, end: nat) {
    forall w: nat :: k.virt <= w < end ==> PteOf(mem, a, w) == Pte(k.phys + w - k.virt, WithP(k.perm))
  }

  lemma KernelMappedStep(m1: seq<Frame>, m2: seq<Frame>, u1: seq<Use>, a: nat, k: Kmap, v: nat)
    requires KernelMapped(m1, a, k, v) && a < |u1| && u1[a] == Dir && k.virt <= v < PAGES
    requires SameExcept(m1, m2, u1, a, v, v + 1) && PteOf(m2, a, v) == Pte(k.phys + v - k.virt, WithP(k.perm))
    ensures KernelMapped(m2, a, k, v + 1)
  {
    forall w: nat | k.virt <= w < v
      ensures PteOf(m2, a, w) == Pte(k.phys + w - k.virt, WithP(k.perm))
    {
      assert EntrySame(m1, m2, a, w);
    }
  }

  /** kmap[] maps no page twice. */
  ghost predicate KmapsOk(kmap: seq<Kmap>) {
    && (forall i :: 0 <= i < |kmap| ==> KmapOk(kmap[i]))
    && (forall i, j :: 0 <= i < j < |kmap| ==>
          kmap[i].virt + kmap[i].count <= kmap[j].virt || kmap[j].virt + kmap[j].count <= kmap[i].virt)
  }

  /** Space a holds the first n stretches of the kernel half and nothing else. */
  ghost predicate KernelOnly(mem: seq<Frame>, a: nat, kmap: seq<Kmap>, n: nat)
    requires n <= |kmap|
  {
    && (forall w: nat :: w < USER_PAGES ==> !Present(PteOf(mem, a, w)))
    && (forall i :: 0 <= i < n ==> KernelMapped(mem, a, kmap[i], kmap[i].virt + kmap[i].count))
    && (forall i :: n <= i < |kmap| ==> KernelAbsent(mem, a, kmap[i]))
  }

  ghost predicate KernelAbsent(mem: seq<Frame>, a: nat, k: Kmap) {
    forall w: nat :: k.virt <= w < k.virt + k.count ==> !Present(PteOf(mem, a, w))
  }

  lemma StillAbsent(m1: seq<Frame>, m2: seq<Frame>, u1: seq<Use>, a: nat, k: Kmap, v: nat)
    requires KernelAbsent(m1, a, k) && SameExcept(m1, m2, u1, a, k.virt, v) && a < |u1| && u1[a] == Dir
    requires k.virt <= v < k.virt + k.count && v < PAGES
    ensures !Present(PteOf(m2, a, v))
  {
    assert EntrySame(m1, m2, a, v);
  }

  lemma EmptyIsKernelOnly(m: seq<Frame>, a: nat, kmap: seq<Kmap>)
    requires KmapsOk(kmap) && forall w: nat :: w < PAGES ==> PteOf(m, a, w) == NONE
    ensures KernelOnly(m, a, kmap, 0)
  {
    forall i | 0 <= i < |kmap|
      ensures KernelAbsent(m, a, kmap[i])
    {
      assert KmapOk(kmap[i]);
    }
  }

  lemma KernelOneMore(m1: seq<Frame>, m2: seq<Frame>, u1: seq<Use>, a: nat, kmap: seq<Kmap>, n: nat)
    requires KmapsOk(kmap) && n < |kmap| && KernelOnly(m1, a, kmap, n) && a < |u1| && u1[a] == Dir
    requires SameExcept(m1, m2, u1, a, kmap[n].virt, kmap[n].virt + kmap[n].count)
    requires KernelMapped(m2, a, kmap[n], kmap[n].virt + kmap[n].count)
    ensures KernelOnly(m2, a, kmap, n + 1)
  {
    forall w: nat | w < PAGES && !(kmap[n].virt <= w < kmap[n].virt + kmap[n].count)
      ensures PteOf(m2, a, w) == PteOf(m1, a, w)
    {
      assert EntrySame(m1, m2, a, w);
    }
  }

  /** Page w of space c holds what page w of space a held in m0: the same flags and the same bytes. */
  ghost predicate Copied(m0: seq<Frame>, m: seq<Frame>, a: nat, c: nat, w: nat) {
    var p, q := PteOf(m0, a, w), PteOf(m, c, w);
    Present(q) && q.flags == p.flags && p.frame < |m0| && q.frame < |m| && m[q.frame] == m0[p.frame]
  }

  /** Pages below n are copied, and there are no others yet. */
  ghost predicate CopiedUpTo(m0: seq<Frame>, m: seq<Frame>, a: nat, c: nat, n: nat) {
    && (forall w: nat :: w < n ==> Copied(m0, m, a, c, w))
    && (forall w: nat :: n <= w < USER_PAGES ==> !Present(PteOf(m, c, w)))
  }

  lemma CopiedOneMore(m0: seq<Frame>, m1: seq<Frame>, m2: seq<Frame>, u1: seq<Use>, a: nat, c: nat, n: nat)
    requires CopiedUpTo(m0, m1, a, c, n) && n < USER_PAGES && c < |u1| && u1[c] == Dir
    requires SameExcept(m1, m2, u1, c, n, n + 1) && Copied(m0, m2, a, c, n)
    ensures CopiedUpTo(m0, m2, a, c, n + 1)
  {
    forall w: nat | w < n
      ensures Copied(m0, m2, a, c, w)
    {
      assert Copied(m0, m1, a, c, w) && EntrySame(m1, m2, c, w);
    }
    forall w: nat | n < w < USER_PAGES
      ensures !Present(PteOf(m2, c, w))
    {
      assert EntrySame(m1, m2, c, w);
    }
  }

  /** Space a holds all stretches of the kernel half. */
  ghost predicate KernelHalf(mem: seq<Frame>, a: nat, kmap: seq<Kmap>) {
    forall i :: 0 <= i < |kmap| ==> KernelMapped(mem, a, kmap[i], kmap[i].virt + kmap[i].count)
  }

  lemma KernelHalfKept(m1: seq<Frame>, m2: seq<Frame>, u1: seq<Use>, a: nat, kmap: seq<Kmap>, n: nat)
    requires KmapsOk(kmap) && KernelHalf(m1, a, kmap) && a < |u1| && u1[a] == Dir
    requires n < USER_PAGES && SameExcept(m1, m2, u1, a, n, n + 1)
    ensures KernelHalf(m2, a, kmap)
  {
    forall i, w: nat | 0 <= i < |kmap| && kmap[i].virt <= w < kmap[i].virt + kmap[i].count
      ensures PteOf(m2, a, w) == PteOf(m1, a, w)
    {
      assert KmapOk(kmap[i]) && EntrySame(m1, m2, a, w);
    }
  }

  /** The pages of an address space that is new were free frames. */
  lemma NewPagesWereFree(m0: seq<Frame>, u0: seq<Use>, m: seq<Frame>, u: seq<Use>, c: nat, w: nat)
    requires FramesOk(m0, u0) && FramesOk(m, u) && Kept(m0, u0, m, u) && c < |u0| && u0[c] == Free && u[c] == Dir
    requires w < USER_PAGES && Present(PteOf(m, c, w))
    ensures PteOf(m, c, w).frame < |u0| && u0[PteOf(m, c, w).frame] == Free
  {
    PageUse(m, u, c, w);
    assert FrameOk(m0, u0, PteOf(m, c, w).frame);
  }

  /** The tables that n user pages take. */
  function TablesOf(n: nat): nat {
    (n + ENTRIES - 1) / ENTRIES
  }

  const KERNBASE := 0x8000_0000

  /** Page w is a writable user page full of zeros. */
  ghost predicate ZeroPage(mem: seq<Frame>, a: nat, w: nat) {
    var p := PteOf(mem, a, w);
    p.flags == Flags(true, true, true, 0) && p.frame < |mem| && mem[p.frame] == Filled(0)
  }

  class Machine {
    const kmap: seq<Kmap>
    var free: seq<nat>
    var mem: seq<Frame>
    ghost var use: seq<Use>

    ghost predicate Valid()
      reads this
    {
      FramesOk(mem, use) && FreeOk(free, use)
    }

    ghost predicate IsDir(a: nat)
      reads this
    {
      a < |use| && use[a] == Dir
    }

    /** Boot: the frames from first on are handed to the allocator, those below hold the kernel. */
    constructor (kmap: seq<Kmap>, first: nat, total: nat)
      requires first <= total
      ensures Valid() && this.kmap == kmap && |use| == total && |free| == total - first
      ensures forall f :: 0 <= f < total ==> use[f] == if f < first then Loose else Free
    {
      this.kmap := kmap;
      free, mem, use := [], seq(total, i => Filled(0)), seq(total, i => Loose);
      new;
      Freerange(first, total);
    }

    /** freerange: kfree each frame in turn. */
    method Freerange(first: nat, end: nat)
      requires Valid() && first <= end <= |use| && forall f :: first <= f < end ==> use[f] == Loose
      modifies `free, `mem, `use
      ensures Valid() && |use| == |old(use)| && |free| == |old(free)| + end - first
      ensures forall f :: 0 <= f < |use| ==> use[f] == if first <= f < end then Free else old(use)[f]
    {
      var p := first;
      while p < end
        invariant first <= p <= end && Valid() && |use| == |old(use)| && |free| == |old(free)| + p - first
        invariant forall f :: 0 <= f < |use| ==> use[f] == if first <= f < p then Free else old(use)[f]
      {
        Kfree(p);
        p := p + 1;
      }
    }

    /** kalloc, with a frame left to give. */
    method Kalloc() returns (f: nat)
      requires Valid() && free != []
      modifies `free, `use
      ensures Valid() && f == old(free)[0] && free == old(free)[1..]
      ensures f < |old(use)| && old(use)[f] == Free && use == old(use)[f := Loose]
    {
      f := free[0];
      free := free[1..];
      ChangeLoose(mem, use, f, mem[f], Loose);
      assert mem[f := mem[f]] == mem;
      use := use[f := Loose];
      forall g | 0 <= g < |use| && use[g] == Free
        ensures Listed(free, g)
      {
        assert Listed(old(free), g);
      }
    }

    /** kfree of a frame that is not part of an address space. It is filled with ones. */
    method Kfree(f: nat)
      requires Valid() && f < |use| && use[f] == Loose
      modifies `free, `mem, `use
      ensures Valid() && free == [f] + old(free) && use == old(use)[f := Free] && mem == old(mem)[f := Filled(1)]
      ensures SameSpaces(old(mem), mem, old(use))
    {
      ChangeLoose(mem, use, f, Filled(1), Free);
      mem := mem[f := Filled(1)];
      free := [f] + free;
      use := use[f := Free];
      forall g | 0 <= g < |use| && use[g] == Free
        ensures Listed(free, g)
      {
        assert g == f || Listed(old(free), g);
      }
    }

    /** memset or memmove into a loose frame. */
    method Fill(f: nat, x: Frame)
      requires Valid() && f < |use| && use[f] == Loose
      modifies `mem
      ensures Valid() && mem == old(mem)[f := x] && SameSpaces(old(mem), mem, use)
    {
      ChangeLoose(mem, use, f, x, Loose);
      assert use[f := Loose] == use;
      mem := mem[f := x];
    }

    /** walkpgdir with alloc set: the table for page v exists afterwards, and no mapping has changed. */
    method WalkAlloc(a: nat, v: nat)
      requires Valid() && IsDir(a) && v < PAGES && Needed(mem, a, v / ENTRIES) <= |free|
      modifies `free, `mem, `use
      ensures Valid() && Kept(old(mem), old(use), mem, use) && HasTable(mem, a, v / ENTRIES) && SameSpaces(old(mem), mem, old(use))
      ensures |free| == |old(free)| - Needed(old(mem), a, v / ENTRIES)
      ensures forall d :: 0 <= d < ENTRIES ==> (HasTable(mem, a, d) <==> HasTable(old(mem), a, d) || d == v / ENTRIES)
    {
      TableUse(mem, use, a, v / ENTRIES);
      if !Present(mem[a].e[v / ENTRIES]) {
        var f := Kalloc();
        ghost var m0, u0 := mem, use;
        mem := mem[f := ZeroTable()];
        mem := mem[a := Entries(mem[a].e[v / ENTRIES := Pte(f, Flags(true, true, true, 0))])];
        use := use[f := Table(a, v / ENTRIES)];
        AddTable(m0, u0, a, v / ENTRIES, f, mem, use);
        SameMapsToSpaces(m0, mem, u0);
        forall d | 0 <= d < ENTRIES
          ensures HasTable(mem, a, d) <==> HasTable(m0, a, d) || d == v / ENTRIES
        {
          TableUse(m0, u0, a, d);
        }
      } else {
        SameMapsToSpaces(mem, mem, use);
      }
    }

    /** mappages of one user page onto a loose frame; a page already there would be a panic. */
    method MapUserPage(a: nat, v: nat, f: nat, perm: Flags)
      requires Valid() && IsDir(a) && v < USER_PAGES && Needed(mem, a, v / ENTRIES) <= |free| && !Present(PteOf(mem, a, v))
      requires f < |use| && use[f] == Loose && IsPage(mem, f)
      modifies `free, `mem, `use
      ensures Valid() && KeptBut(old(mem), old(use), mem, use, f) && SameExcept(old(mem), mem, old(use), a, v, v + 1)
      ensures |free| == |old(free)| - Needed(old(mem), a, v / ENTRIES)
      ensures forall d :: 0 <= d < ENTRIES ==> (HasTable(mem, a, d) <==> HasTable(old(mem), a, d) || d == v / ENTRIES)
      ensures PteOf(mem, a, v) == Pte(f, WithP(perm)) && mem[f] == old(mem)[f]
    {
      WalkAlloc(a, v);
      assert EntrySame(old(mem), mem, a, v);
      ghost var m1, u1 := mem, use;
      MapPage(mem, use, a, v, f, WithP(perm));
      SetPte(mem, use, a, v, Pte(f, WithP(perm)));
      TableUse(mem, use, a, v / ENTRIES);
      var tf := mem[a].e[v / ENTRIES].frame;
      mem := mem[tf := Entries(mem[tf].e[v % ENTRIES := Pte(f, WithP(perm))])];
      use := use[f := Page(a, v)];
      MapsToSpaces(m1, mem, u1, a, v, Pte(f, WithP(perm)));
      SameTrans(old(mem), m1, mem, old(use), u1, a, v, v, v + 1);
    }

    /** One turn of mappages' loop in the kernel half. */
    method MapKernelPage(a: nat, v: nat, p: Pte)
      requires Valid() && IsDir(a) && USER_PAGES <= v < PAGES && Needed(mem, a, v / ENTRIES) <= |free| && !Present(PteOf(mem, a, v))
      requires !IsUser(p)
      modifies `free, `mem, `use
      ensures Valid() && Kept(old(mem), old(use), mem, use) && SameExcept(old(mem), mem, old(use), a, v, v + 1)
      ensures |free| == |old(free)| - Needed(old(mem), a, v / ENTRIES)
      ensures forall d :: 0 <= d < ENTRIES ==> (HasTable(mem, a, d) <==> HasTable(old(mem), a, d) || d == v / ENTRIES)
      ensures PteOf(mem, a, v) == p
    {
      WalkAlloc(a, v);
      ghost var m1, u1 := mem, use;
      MapKernel(mem, use, a, v, p);
      SetPte(mem, use, a, v, p);
      TableUse(mem, use, a, v / ENTRIES);
      var tf := mem[a].e[v / ENTRIES].frame;
      mem := mem[tf := Entries(mem[tf].e[v % ENTRIES := p])];
      MapsToSpaces(m1, mem, u1, a, v, p);
      SameTrans(old(mem), m1, mem, old(use), u1, a, v, v, v + 1);
    }

    /** mappages over a stretch of the kernel half. */
    method MapKernelRange(a: nat, k: Kmap)
      requires Valid() && IsDir(a) && KmapOk(k) && Missing(mem, a, USER_DIRS, ENTRIES) <= |free|
      requires KernelAbsent(mem, a, k)
      modifies `free, `mem, `use
      ensures Valid() && Kept(old(mem), old(use), mem, use) && SameExcept(old(mem), mem, old(use), a, k.virt, k.virt + k.count)
      ensures |free| + Missing(old(mem), a, USER_DIRS, ENTRIES) == |old(free)| + Missing(mem, a, USER_DIRS, ENTRIES)
      ensures KernelMapped(mem, a, k, k.virt + k.count)
    {
      var v, end := k.virt, k.virt + k.count;
      SameMapsToSpaces(mem, mem, use);
      while v < end
        invariant k.virt <= v <= end && Valid() && Kept(old(mem), old(use), mem, use)
        invariant SameExcept(old(mem), mem, old(use), a, k.virt, v) && KernelMapped(mem, a, k, v)
        invariant |free| + Missing(old(mem), a, USER_DIRS, ENTRIES) == |old(free)| + Missing(mem, a, USER_DIRS, ENTRIES)
      {
        StillAbsent(old(mem), mem, old(use), a, k, v);
        KernelTurn(a, k, v, old(mem), old(use));
        v := v + 1;
      }
    }

    method KernelTurn(a: nat, k: Kmap, v: nat, ghost m0: seq<Frame>, ghost u0: seq<Use>)
      requires Valid() && IsDir(a) && KmapOk(k) && k.virt <= v < k.virt + k.count && Kept(m0, u0, mem, use)
      requires SameExcept(m0, mem, u0, a, k.virt, v) && KernelMapped(mem, a, k, v)
      requires Missing(mem, a, USER_DIRS, ENTRIES) <= |free| && !Present(PteOf(mem, a, v))
      modifies `free, `mem, `use
      ensures Valid() && Kept(m0, u0, mem, use) && SameExcept(m0, mem, u0, a, k.virt, v + 1) && KernelMapped(mem, a, k, v + 1)
      ensures |free| + Missing(old(mem), a, USER_DIRS, ENTRIES) == |old(free)| + Missing(mem, a, USER_DIRS, ENTRIES)
    {
      MissingSome(mem, a, USER_DIRS, ENTRIES, v / ENTRIES);
      MapKernelPage(a, v, Pte(k.phys + v - k.virt, WithP(k.perm)));
      MissingOneLess(old(mem), mem, a, USER_DIRS, ENTRIES, v / ENTRIES);
      KernelMappedStep(old(mem), mem, old(use), a, k, v);
      SameTrans(m0, old(mem), mem, u0, old(use), a, k.virt, v, v + 1);
    }

    /** setupkvm: a new directory with the kernel half mapped and no user pages. */
    method Setupkvm() returns (c: nat)
      requires Valid() && KmapsOk(kmap) && 1 + ENTRIES - USER_DIRS <= |free|
      modifies `free, `mem, `use
      ensures Valid() && IsDir(c) && c < |old(use)| && old(use)[c] == Free && Kept(old(mem), old(use), mem, use)
      ensures SameSpaces(old(mem), mem, old(use)) && KernelOnly(mem, c, kmap, |kmap|)
      ensures |old(free)| <= |free| + 1 + ENTRIES - USER_DIRS
    {
      c := NewSpace();
      var k := 0;
      while k < |kmap|
        invariant 0 <= k <= |kmap| && Valid() && IsDir(c) && Kept(old(mem), old(use), mem, use) && KernelOnly(mem, c, kmap, k)
        invariant SameExcept(old(mem), mem, old(use), c, 0, PAGES)
        invariant |free| + 1 + ENTRIES - USER_DIRS >= |old(free)| + Missing(mem, c, USER_DIRS, ENTRIES)
      {
        SetupTurn(c, k, old(mem), old(use));
        k := k + 1;
      }
    }

    /** One turn of setupkvm's loop. */
    method SetupTurn(c: nat, k: nat, ghost m0: seq<Frame>, ghost u0: seq<Use>)
      requires Valid() && IsDir(c) && KmapsOk(kmap) && k < |kmap| && Missing(mem, c, USER_DIRS, ENTRIES) <= |free|
      requires Kept(m0, u0, mem, use) && SameExcept(m0, mem, u0, c, 0, PAGES) && KernelOnly(mem, c, kmap, k)
      modifies `free, `mem, `use
      ensures Valid() && IsDir(c) && Kept(m0, u0, mem, use)
      ensures SameExcept(m0, mem, u0, c, 0, PAGES) && KernelOnly(mem, c, kmap, k + 1)
      ensures |free| + Missing(old(mem), c, USER_DIRS, ENTRIES) == |old(free)| + Missing(mem, c, USER_DIRS, ENTRIES)
    {
      ghost var m1, u1 := mem, use;
      assert KernelAbsent(mem, c, kmap[k]);
      MapKernelRange(c, kmap[k]);
      KernelOneMore(m1, mem, u1, c, kmap, k);
      SameTrans(m0, m1, mem, u0, u1, c, 0, PAGES, PAGES);
    }

    /** A zeroed directory. */
    method NewSpace() returns (c: nat)
      requires Valid() && KmapsOk(kmap) && free != []
      modifies `free, `mem, `use
      ensures Valid() && IsDir(c) && c < |old(use)| && old(use)[c] == Free && Kept(old(mem), old(use), mem, use)
      ensures SameExcept(old(mem), mem, old(use), c, 0, PAGES) && KernelOnly(mem, c, kmap, 0)
      ensures |free| + 1 == |old(free)| && Missing(mem, c, USER_DIRS, ENTRIES) <= ENTRIES - USER_DIRS
    {
      c := Kalloc();
      ghost var m1, u1 := mem, use;
      mem := mem[c := ZeroTable()];
      NewDir(m1, u1, c, mem);
      use := use[c := Dir];
      EmptyIsKernelOnly(mem, c, kmap);
      MissingAtMost(mem, c, USER_DIRS, ENTRIES);
    }

    /** One turn of copyuvm's loop. */
    method CopyPage(a: nat, c: nat, i: nat)
      requires Valid() && IsDir(a) && IsDir(c) && i < USER_PAGES && 1 + Needed(mem, c, i / ENTRIES) <= |free|
      requires Present(PteOf(mem, a, i)) && !Present(PteOf(mem, c, i))
      modifies `free, `mem, `use
      ensures Valid() && Kept(old(mem), old(use), mem, use) && SameExcept(old(mem), mem, old(use), c, i, i + 1)
      ensures Copied(old(mem), mem, a, c, i)
      ensures |free| + 1 == |old(free)| - Needed(old(mem), c, i / ENTRIES)
      ensures forall d :: 0 <= d < ENTRIES ==> (HasTable(mem, c, d) <==> HasTable(old(mem), c, d) || d == i / ENTRIES)
    {
      PageUse(mem, use, a, i);
      var p := PteOf(mem, a, i);
      var f := Kalloc();
      ghost var u1 := use;
      var page := mem[p.frame];
      Fill(f, page);
      ghost var m2 := mem;
      TablesSurvive(old(mem), m2, old(use), c, f);
      assert EntrySame(old(mem), m2, c, i);
      MapUserPage(c, i, f, p.flags);
      SameTrans(old(mem), m2, mem, old(use), u1, c, i, i, i + 1);
    }

    method CopyTurn(a: nat, c: nat, i: nat, n: nat, ghost m0: seq<Frame>, ghost u0: seq<Use>)
      requires Valid() && a < |u0| && u0[a] == Dir && Kept(m0, u0, mem, use) && IsDir(c) && i < n <= USER_PAGES
      requires SameExcept(m0, mem, u0, c, 0, PAGES) && CopiedUpTo(m0, mem, a, c, i) && a != c && Present(PteOf(m0, a, i))
      requires n - i + Missing(mem, c, 0, TablesOf(n)) <= |free| && KmapsOk(kmap) && KernelHalf(mem, c, kmap)
      modifies `free, `mem, `use
      ensures Valid() && Kept(m0, u0, mem, use) && IsDir(c) && KernelHalf(mem, c, kmap)
      ensures SameExcept(m0, mem, u0, c, 0, PAGES) && CopiedUpTo(m0, mem, a, c, i + 1)
      ensures n - (i + 1) + Missing(mem, c, 0, TablesOf(n)) <= |free|
    {
      assert EntrySame(m0, mem, a, i);
      MissingSome(mem, c, 0, TablesOf(n), i / ENTRIES);
      CopyPage(a, c, i);
      MissingOneLess(old(mem), mem, c, 0, TablesOf(n), i / ENTRIES);
      CopiedOneMore(m0, old(mem), mem, old(use), a, c, i);
      KernelHalfKept(old(mem), mem, old(use), c, kmap, i);
      SameTrans(m0, old(mem), mem, u0, old(use), c, 0, PAGES, PAGES);
    }

    /**
     * copyuvm: a new address space whose pages below sz hold the parent's flags and bytes, with no
     * other user page; every address space there was, the parent's included, stays as it is.
     */
    method Copyuvm(a: nat, sz: nat) returns (c: nat)
      requires Valid() && KmapsOk(kmap) && IsDir(a) && PageCount(sz) <= USER_PAGES
      requires forall w: nat :: w < PageCount(sz) ==> Present(PteOf(mem, a, w))
      requires 1 + ENTRIES - USER_DIRS + PageCount(sz) + TablesOf(PageCount(sz)) <= |free|
      modifies `free, `mem, `use
      ensures Valid() && IsDir(c) && c < |old(use)| && old(use)[c] == Free && Kept(old(mem), old(use), mem, use)
      ensures SameSpaces(old(mem), mem, old(use)) && CopiedUpTo(old(mem), mem, a, c, PageCount(sz)) && KernelHalf(mem, c, kmap)
      ensures forall w: nat :: w < PageCount(sz) ==> PteOf(mem, c, w).frame < |old(use)| && old(use)[PteOf(mem, c, w).frame] == Free
    {
      var n := PageCount(sz);
      c := Setupkvm();
      MissingAtMost(mem, c, 0, TablesOf(n));
      var i := 0;
      while i < n
        invariant 0 <= i <= n && Valid() && IsDir(c) && Kept(old(mem), old(use), mem, use) && KernelHalf(mem, c, kmap)
        invariant SameExcept(old(mem), mem, old(use), c, 0, PAGES) && CopiedUpTo(old(mem), mem, a, c, i)
        invariant n - i + Missing(mem, c, 0, TablesOf(n)) <= |free|
      {
        CopyTurn(a, c, i, n, old(mem), old(use));
        i := i + 1;
      }
      forall w: nat | w < n
        ensures PteOf(mem, c, w).frame < |old(use)| && old(use)[PteOf(mem, c, w).frame] == Free
      {
        assert Copied(old(mem), mem, a, c, w);
        NewPagesWereFree(old(mem), old(use), mem, use, c, w);
      }
    }

    /** One turn of allocuvm's loop: a zeroed, writable user page. */
    method AllocPage(a: nat, v: nat)
      requires Valid() && IsDir(a) && v < USER_PAGES && !Present(PteOf(mem, a, v)) && 1 + Needed(mem, a, v / ENTRIES) <= |free|
      modifies `free, `mem, `use
      ensures Valid() && Kept(old(mem), old(use), mem, use) && SameExcept(old(mem), mem, old(use), a, v, v + 1)
      ensures ZeroPage(mem, a, v) && |free| + 1 == |old(free)| - Needed(old(mem), a, v / ENTRIES)
      ensures forall d :: 0 <= d < ENTRIES ==> (HasTable(mem, a, d) <==> HasTable(old(mem), a, d) || d == v / ENTRIES)
    {
      var f := Kalloc();
      ghost var u1 := use;
      Fill(f, Filled(0));
      ghost var m2 := mem;
      TablesSurvive(old(mem), m2, old(use), a, f);
      assert EntrySame(old(mem), m2, a, v);
      MapUserPage(a, v, f, Flags(false, true, true, 0));
      SameTrans(old(mem), m2, mem, old(use), u1, a, v, v, v + 1);
    }

    method AllocTurn(a: nat, v: nat, lo: nat, n: nat, ghost m0: seq<Frame>, ghost u0: seq<Use>)
      requires Valid() && a < |u0| && u0[a] == Dir && Kept(m0, u0, mem, use) && lo <= v < n <= USER_PAGES
      requires SameExcept(m0, mem, u0, a, lo, v) && !Present(PteOf(m0, a, v))
      requires forall w: nat :: lo <= w < v ==> ZeroPage(mem, a, w)
      requires n - v + Missing(mem, a, lo / ENTRIES, TablesOf(n)) <= |free|
      modifies `free, `mem, `use
      ensures Valid() && Kept(m0, u0, mem, use) && SameExcept(m0, mem, u0, a, lo, v + 1)
      ensures forall w: nat :: lo <= w < v + 1 ==> ZeroPage(mem, a, w)
      ensures n - (v + 1) + Missing(mem, a, lo / ENTRIES, TablesOf(n)) <= |free|
    {
      assert EntrySame(m0, mem, a, v);
      MissingSome(mem, a, lo / ENTRIES, TablesOf(n), v / ENTRIES);
      AllocPage(a, v);
      MissingOneLess(old(mem), mem, a, lo / ENTRIES, TablesOf(n), v / ENTRIES);
      SameTrans(m0, old(mem), mem, u0, old(use), a, lo, v, v + 1);
      forall w: nat | lo <= w < v
        ensures ZeroPage(mem, a, w)
      {
        assert ZeroPage(old(mem), a, w) && EntrySame(old(mem), mem, a, w);
      }
    }

    /** allocuvm: grow from oldsz to newsz with zeroed pages; nothing else changes. */
    method Allocuvm(a: nat, oldsz: nat, newsz: nat) returns (r: nat)
      requires Valid() && IsDir(a)
      requires oldsz <= newsz < KERNBASE ==>
                 forall w: nat :: PageCount(oldsz) <= w < PageCount(newsz) ==> !Present(PteOf(mem, a, w))
      requires oldsz <= newsz < KERNBASE ==>
                 PageCount(newsz) - PageCount(oldsz) + Missing(mem, a, PageCount(oldsz) / ENTRIES, TablesOf(PageCount(newsz))) <= |free|
      modifies `free, `mem, `use
      ensures Valid() && Kept(old(mem), old(use), mem, use) && r == if newsz >= KERNBASE then 0 else if newsz < oldsz then oldsz else newsz
      ensures !(oldsz <= newsz < KERNBASE) ==> mem == old(mem) && free == old(free)
      ensures oldsz <= newsz < KERNBASE ==> SameExcept(old(mem), mem, old(use), a, PageCount(oldsz), PageCount(newsz))
      ensures oldsz <= newsz < KERNBASE ==> forall w: nat :: PageCount(oldsz) <= w < PageCount(newsz) ==> ZeroPage(mem, a, w)
    {
      SameMapsToSpaces(mem, mem, use);
      if newsz >= KERNBASE {
        return 0;
      }
      if newsz < oldsz {
        return oldsz;
      }
      var v, n := PageCount(oldsz), PageCount(newsz);
      while v < n
        invariant PageCount(oldsz) <= v <= n <= USER_PAGES && Valid() && Kept(old(mem), old(use), mem, use)
        invariant SameExcept(old(mem), mem, old(use), a, PageCount(oldsz), v)
        invariant forall w: nat :: PageCount(oldsz) <= w < v ==> ZeroPage(mem, a, w)
        invariant n - v + Missing(mem, a, PageCount(oldsz) / ENTRIES, TablesOf(n)) <= |free|
      {
        AllocTurn(a, v, PageCount(oldsz), n, old(mem), old(use));
        v := v + 1;
      }
      return newsz;
    }

    /** deallocuvm on one page that is there: its frame is freed and its entry cleared. */
    method DropPage(a: nat, v: nat) returns (f: nat)
      requires Valid() && IsDir(a) && v < USER_PAGES && HasTable(mem, a, v / ENTRIES) && Present(PteOf(mem, a, v))
      modifies `free, `mem, `use
      ensures Valid() && DirsStay(old(use), use) && SameExcept(old(mem), mem, old(use), a, v, v + 1)
      ensures !Present(PteOf(mem, a, v)) && free == [f] + old(free)
      ensures f < |old(use)| && old(use)[f] == Page(a, v) && use == old(use)[f := Free]
      ensures forall d :: 0 <= d < ENTRIES ==> (HasTable(mem, a, d) <==> HasTable(old(mem), a, d))
    {
      f := PteOf(mem, a, v).frame;
      UnmapPage(mem, use, a, v, f);
      SetPte(mem, use, a, v, NONE);
      TableUse(mem, use, a, v / ENTRIES);
      var tf := mem[a].e[v / ENTRIES].frame;
      mem := mem[tf := Entries(mem[tf].e[v % ENTRIES := NONE])];
      MapsToSpaces(old(mem), mem, old(use), a, v, NONE);
      use := use[f := Loose];
      ghost var m1, u1 := mem, use;
      TablesSurvive(old(mem), m1, old(use), a, tf);
      Kfree(f);
      TablesSurvive(m1, mem, u1, a, f);
      SameTrans(old(mem), m1, mem, old(use), u1, a, v, v + 1, v + 1);
      assert EntrySame(m1, mem, a, v);
    }

    /** One turn of deallocuvm's loop: past a missing table, or past one page. */
    method DropTurn(a: nat, v: nat, ghost lo: nat, end: nat, ghost m0: seq<Frame>, ghost u0: seq<Use>) returns (next: nat)
      requires Valid() && FramesOk(m0, u0) && a < |u0| && u0[a] == Dir && v < end <= USER_PAGES
      requires Dropping(m0, u0, mem, use, a, lo, v) && Resume(m0, a, v) == Max(lo, v)
      modifies `free, `mem, `use
      ensures Valid() && v < next && Resume(m0, a, next) == Max(lo, next)
      ensures Dropping(m0, u0, mem, use, a, lo, Min(next, end))
    {
      if !HasTable(mem, a, v / ENTRIES) {
        next := v + (ENTRIES - 1) + 1;
        SkipTable(m0, u0, mem, use, a, lo, v, Min(next, end));
      } else {
        next := v + 1;
        ghost var m1, u1, f := mem, use, 0;
        if Present(PteOf(mem, a, v)) {
          f := DropPage(a, v);
          DropOneMore(m0, u0, m1, u1, mem, use, a, lo, v, f);
        } else {
          NoDrop(m0, u0, mem, use, a, lo, v);
        }
      }
    }

    /**
     * deallocuvm: every page from the one the loop comes to rest on up to oldsz is gone, its frame on
     * the free list once, and nothing else has changed.
     */
    method Deallocuvm(a: nat, oldsz: nat, newsz: nat) returns (r: nat)
      requires Valid() && IsDir(a) && PageCount(oldsz) <= USER_PAGES
      modifies `free, `mem, `use
      ensures Valid() && r == if newsz >= oldsz then oldsz else newsz
      ensures newsz >= oldsz ==> mem == old(mem) && free == old(free) && use == old(use)
      ensures newsz < oldsz ==> Dropping(old(mem), old(use), mem, use, a, Resume(old(mem), a, PageCount(newsz)), PageCount(oldsz))
    {
      if newsz >= oldsz {
        return oldsz;
      }
      var v, end := PageCount(newsz), PageCount(oldsz);
      ghost var lo := Resume(mem, a, v);
      StartDropping(mem, use, a, lo, v);
      while v < end
        invariant Valid() && Resume(old(mem), a, v) == Max(lo, v)
        invariant Dropping(old(mem), old(use), mem, use, a, lo, Min(v, end))
        decreases if v < end then end - v else 0
      {
        v := DropTurn(a, v, lo, end, old(mem), old(use));
      }
      return newsz;
    }

    /** freevm: every frame of the address space, page, table or directory, is freed once, and no other is touched. */
    method Freevm(a: nat)
      requires Valid() && IsDir(a)
      modifies `free, `mem, `use
      ensures Valid() && |use| == |old(use)|
      ensures forall g :: 0 <= g < |use| ==> use[g] == if BelongsTo(old(use), a, g) then Free else old(use)[g]
      ensures SameExcept(old(mem), mem, old(use), a, 0, PAGES)
    {
      ghost var m0, u0 := mem, use;
      var sz := Deallocuvm(a, KERNBASE, 0);
      ghost var m1, u1 := mem, use;
      use := seq(|use|, g requires 0 <= g < |u1| => Dismantled(u1, a, g));
      Dismantle(m1, u1, a, use);
      TableUse(m1, u1, a, 0);
      var i := 0;
      while i < ENTRIES
        invariant 0 <= i <= ENTRIES && Valid() && IsTable(mem, a) && mem[a] == m1[a] && |use| == |u1|
        invariant Letting(u1, a, i, use) && SameExcept(m0, mem, u0, a, 0, PAGES)
      {
        FreeTable(a, i, m0, u0, m1, u1);
        i := i + 1;
      }
      ghost var m2, u2 := mem, use;
      Kfree(a);
      SameOthers(m0, m2, mem, u0, u2, a);
      AllGone(m0, u0, u1, a, u2, use);
    }

    /** One turn of freevm's loop. */
    method FreeTable(a: nat, i: nat, ghost m0: seq<Frame>, ghost u0: seq<Use>, ghost m1: seq<Frame>, ghost u1: seq<Use>)
      requires Valid() && i < ENTRIES && IsTable(mem, a) && FramesOk(m1, u1) && a < |u1| && u1[a] == Dir && mem[a] == m1[a]
      requires Letting(u1, a, i, use) && SameExcept(m0, mem, u0, a, 0, PAGES) && DirsStay(u0, u1)
      modifies `free, `mem, `use
      ensures Valid() && IsTable(mem, a) && mem[a] == m1[a] && Letting(u1, a, i + 1, use)
      ensures SameExcept(m0, mem, u0, a, 0, PAGES)
    {
      TableUse(m1, u1, a, i);
      if Present(mem[a].e[i]) {
        ghost var m2, u2 := mem, use;
        Kfree(mem[a].e[i].frame);
        SameOthers(m0, m2, mem, u0, u2, a);
        LetGoOneMore(m1, u1, a, i, m1[a].e[i].frame, u2, use);
      } else {
        LetGoNone(m1, u1, a, i, use);
      }
    }

    /** The memmove of one turn of copyout's loop. */
    method WriteUser(a: nat, v: nat, f: nat, off: nat, bytes: seq<Byte>)
      requires Valid() && IsDir(a) && Uva2ka(mem, a, v) == At(f) && off + |bytes| <= PGSIZE
      modifies `mem
      ensures Valid() && IsPage(old(mem), f) && mem == old(mem)[f := Bytes(Splice(old(mem)[f].data, off, bytes))]
      ensures f < |use| && use[f] == Page(a, v) && SameMaps(old(mem), mem, use)
    {
      UserPagesAreLow(mem, use, a, v);
      PageUse(mem, use, a, v);
      WritePage(mem, use, f, Bytes(Splice(mem[f].data, off, bytes)));
      mem := mem[f := Bytes(Splice(mem[f].data, off, bytes))];
    }

    /**
     * copyout: NoTable, where the source reads through a null entry, exactly when the call is not
     * Defined, and then nothing is promised. Otherwise a flat write of the first k bytes of p at va,
     * all of them on success; it stops at the first page that the user may not touch, and touches no
     * other space.
     */
    method Copyout(a: nat, va: nat, p: seq<Byte>) returns (r: Reach, k: nat)
      requires Valid() && IsDir(a)
      modifies `mem
      ensures r.NoTable? <==> !Defined(old(mem), a, va, |p|)
      ensures !r.NoTable? ==>
                && Valid() && k <= |p| && FlatWrite(old(mem), mem, a, va, p, k) && OthersKept(use, old(mem), mem, a)
                && SameMaps(old(mem), mem, use) && OpenUpTo(old(mem), a, va, k)
      ensures r.At? ==> k == |p|
      ensures r.Refused? ==> k < |p| && Uva2ka(old(mem), a, (va + k) / PGSIZE) == Refused
    {
      k, r := 0, At(0);
      while k < |p|
        invariant k <= |p| && Valid() && r.At? && SameMaps(old(mem), mem, use)
        invariant FlatWrite(old(mem), mem, a, va, p, k) && OthersKept(use, old(mem), mem, a)
        invariant OpenUpTo(old(mem), a, va, k) && SameTables(old(mem), mem, a)
      {
        var v, off := (va + k) / PGSIZE, (va + k) % PGSIZE;
        r := Uva2ka(mem, a, v);
        SameReach(old(mem), mem, use, a, v);
        if !r.At? {
          StopsHere(old(mem), a, va, |p|, k);
          return;
        }
        var n := if PGSIZE - off > |p| - k then |p| - k else PGSIZE - off;
        CopyoutTurn(a, va, p, k, n, v, r.f, off, old(mem));
        OpenMore(old(mem), a, va, k, n);
        k := k + n;
      }
      OpenIsDefined(old(mem), a, va, |p|);
    }

    method CopyoutTurn(a: nat, va: nat, p: seq<Byte>, k: nat, n: nat, v: nat, f: nat, off: nat, ghost m0: seq<Frame>)
      requires Valid() && IsDir(a) && k + n <= |p| && v * PGSIZE + off == va + k && off + n <= PGSIZE && Uva2ka(mem, a, v) == At(f)
      requires SameMaps(m0, mem, use) && FlatWrite(m0, mem, a, va, p, k) && OthersKept(use, m0, mem, a)
      modifies `mem
      ensures Valid() && SameMaps(m0, mem, use) && FlatWrite(m0, mem, a, va, p, k + n) && OthersKept(use, m0, mem, a)
      ensures SameTables(old(mem), mem, a)
    {
      WriteUser(a, v, f, off, p[k..k + n]);
      TablesSurvive(old(mem), mem, use, a, f);
      FlatWriteMore(use, m0, old(mem), mem, a, va, p, k, n, v, f, off);
    }
  }

  ghost predicate SameTables(mem: seq<Frame>, m: seq<Frame>, a: nat) {
    forall d :: 0 <= d < ENTRIES ==> (HasTable(m, a, d) <==> HasTable(mem, a, d))
  }

  lemma SameReach(m0: seq<Frame>, m: seq<Frame>, use: seq<Use>, a: nat, v: nat)
    requires a < |use| && use[a] == Dir && SameMaps(m0, m, use) && SameTables(m0, m, a)
    ensures Uva2ka(m, a, v) == Uva2ka(m0, a, v)
  {
  }

  lemma StopsHere(m0: seq<Frame>, a: nat, va: nat, len: nat, k: nat)
    requires k < len && OpenUpTo(m0, a, va, k) && !Open(m0, a, va + k)
    ensures Uva2ka(m0, a, (va + k) / PGSIZE).NoTable? <==> !Defined(m0, a, va, len)
  {
    forall x: nat | va <= x < va + k
      ensures TableAt(m0, a, x)
    {
      assert Open(m0, a, x);
    }
    forall j: nat | k < j
      ensures !OpenUpTo(m0, a, va, j)
    {
      assert !Open(m0, a, va + k);
    }
    assert va + k - va == k;
    assert TableAt(m0, a, va + k) <==> !Uva2ka(m0, a, (va + k) / PGSIZE).NoTable?;
  }

  lemma OpenIsDefined(m0: seq<Frame>, a: nat, va: nat, len: nat)
    requires OpenUpTo(m0, a, va, len)
    ensures Defined(m0, a, va, len)
  {
    forall x: nat | va <= x < va + len
      ensures TableAt(m0, a, x)
    {
      assert Open(m0, a, x);
    }
  }

  /** n more addresses in the page that va + k is in. */
  lemma OpenMore(m0: seq<Frame>, a: nat, va: nat, k: nat, n: nat)
    requires OpenUpTo(m0, a, va, k) && Open(m0, a, va + k) && n <= PGSIZE - (va + k) % PGSIZE
    ensures OpenUpTo(m0, a, va, k + n)
  {
    forall x: nat | va + k <= x < va + k + n
      ensures x / PGSIZE == (va + k) / PGSIZE
    {
    }
  }

  /** The frame is the directory, a table or a user page of space a. */
  ghost predicate BelongsTo(use: seq<Use>, a: nat, g: nat)
    requires g < |use|
  {
    g == a || (use[g].Table? && use[g].dir == a) || (use[g].Page? && use[g].dir == a)
  }

  /** A frame's use while freevm frees the tables: those before entry i are free. */
  function LetGo(use: seq<Use>, a: nat, i: nat, g: nat): Use
    requires g < |use|
  {
    if use[g].Table? && use[g].dir == a && use[g].d < i then Free else Dismantled(use, a, g)
  }

  /** The first i tables of the dismantled space are free. */
  ghost predicate Letting(u1: seq<Use>, a: nat, i: nat, u: seq<Use>) {
    |u| == |u1| && forall g :: 0 <= g < |u| ==> u[g] == LetGo(u1, a, i, g)
  }

  lemma LetGoOneMore(m1: seq<Frame>, u1: seq<Use>, a: nat, i: nat, f: nat, u2: seq<Use>, u: seq<Use>)
    requires FramesOk(m1, u1) && a < |u1| && u1[a] == Dir && i < ENTRIES && f < |u1| == |u2| && u1[f] == Table(a, i)
    requires Letting(u1, a, i, u2) && u == u2[f := Free]
    ensures Letting(u1, a, i + 1, u)
  {
    forall g | 0 <= g < |u|
      ensures u[g] == LetGo(u1, a, i + 1, g)
    {
      if u1[g] == Table(a, i) {
        assert FrameOk(m1, u1, g) && FrameOk(m1, u1, f);
      }
    }
  }

  lemma LetGoNone(m1: seq<Frame>, u1: seq<Use>, a: nat, i: nat, u: seq<Use>)
    requires FramesOk(m1, u1) && a < |u1| && u1[a] == Dir && i < ENTRIES && IsTable(m1, a) && !Present(m1[a].e[i]) && |u| == |u1|
    requires Letting(u1, a, i, u)
    ensures Letting(u1, a, i + 1, u)
  {
    forall g | 0 <= g < |u|
      ensures u[g] == LetGo(u1, a, i + 1, g)
    {
      assert FrameOk(m1, u1, g);
    }
  }

  lemma AllGone(m0: seq<Frame>, u0: seq<Use>, u1: seq<Use>, a: nat, u2: seq<Use>, u: seq<Use>)
    requires FramesOk(m0, u0) && a < |u0| == |u1| == |u2| && u0[a] == Dir && u == u2[a := Free]
    requires forall g :: 0 <= g < |u1| ==> u1[g] == DroppedUse(u0, a, 0, USER_PAGES, g)
    requires Letting(u1, a, ENTRIES, u2)
    ensures forall g :: 0 <= g < |u| ==> u[g] == if BelongsTo(u0, a, g) then Free else u0[g]
  {
    forall g | 0 <= g < |u|
      ensures u[g] == if BelongsTo(u0, a, g) then Free else u0[g]
    {
      assert FrameOk(m0, u0, g);
    }
  }

  /** Nothing happens to the spaces other than a. */
  lemma SameOthers(m0: seq<Frame>, m1: seq<Frame>, m2: seq<Frame>, u0: seq<Use>, u1: seq<Use>, a: nat)
    requires SameExcept(m0, m1, u0, a, 0, PAGES) && SameSpaces(m1, m2, u1)
    requires forall b: nat :: b < |u0| && u0[b] == Dir && b != a ==> b < |u1| && u1[b] == Dir
    ensures SameExcept(m0, m2, u0, a, 0, PAGES)
  {
    forall b: nat, w: nat | b < |u0| && u0[b] == Dir && w < PAGES && b != a
      ensures EntrySame(m0, m2, b, w)
    {
      assert EntrySame(m0, m1, b, w);
      assert EntrySame(m1, m2, b, w);
    }
  }

  /** deallocuvm clears its whole range exactly when no page it strides over at the start was there. */
  lemma DeallocIsComplete(m0: seq<Frame>, u0: seq<Use>, m: seq<Frame>, u: seq<Use>, a: nat, s: nat, e: nat)
    requires a < |u0| && u0[a] == Dir && s <= e <= USER_PAGES && Dropping(m0, u0, m, u, a, Resume(m0, a, s), e)
    ensures (forall w: nat :: s <= w < e ==> !Present(PteOf(m, a, w))) <==>
            (forall w: nat :: s <= w < Min(e, Resume(m0, a, s)) ==> !Present(PteOf(m0, a, w)))
  {
    forall w: nat | s <= w < Min(e, Resume(m0, a, s))
      ensures PteOf(m, a, w) == PteOf(m0, a, w)
    {
      assert EntrySame(m0, m, a, w);
    }
  }

  /** From the start of a table, or inside one that is there, nothing is strided over. */
  lemma NothingStridden(m0: seq<Frame>, a: nat, s: nat)
    requires s % ENTRIES == 0 || HasTable(m0, a, s / ENTRIES)
    ensures Resume(m0, a, s) == s
  {
  }

  /** From inside a missing table, the first pages of the next one are. */
  lemma NextTableStridden(m0: seq<Frame>, a: nat, s: nat)
    requires s < USER_PAGES - ENTRIES && s % ENTRIES != 0 && !HasTable(m0, a, s / ENTRIES)
    ensures s / ENTRIES * ENTRIES + ENTRIES < s + ENTRIES <= Resume(m0, a, s)
  {
  }

  /** A space whose only page is the first of its second table: deallocuvm down to one page strides over it. */
  lemma StrideLeavesPage() returns (m0: seq<Frame>, u0: seq<Use>)
    ensures FramesOk(m0, u0) && |u0| == 3 && u0[0] == Dir && Present(PteOf(m0, 0, ENTRIES)) && ENTRIES < Resume(m0, 0, 1)
    ensures forall m, u :: Dropping(m0, u0, m, u, 0, Resume(m0, 0, 1), USER_PAGES) ==> Present(PteOf(m, 0, ENTRIES))
  {
    var flags := Flags(true, true, true, 0);
    var dir := ZeroTable().e[1 := Pte(1, flags)];
    var table := ZeroTable().e[0 := Pte(2, flags)];
    m0, u0 := [Entries(dir), Entries(table), Filled(0)], [Dir, Table(0, 1), Page(0, ENTRIES)];
    assert HasTable(m0, 0, 1) && PteOf(m0, 0, ENTRIES) == Pte(2, flags);
    assert FrameOk(m0, u0, 0) && FrameOk(m0, u0, 1) && FrameOk(m0, u0, 2);
    assert Resume(m0, 0, 1) == Resume(m0, 0, 1 + ENTRIES) == 1 + ENTRIES;
    forall m, u | Dropping(m0, u0, m, u, 0, Resume(m0, 0, 1), USER_PAGES)
      ensures Present(PteOf(m, 0, ENTRIES))
    {
      assert EntrySame(m0, m, 0, ENTRIES);
    }
  }

  function Max(x: nat, y: nat): nat {
    if x < y then y else x
  }

  function Min(x: nat, y: nat): nat {
    if x < y then x else y
  }

  /**
   * Where deallocuvm's loop, started at page v, first looks at a page: at once when v's table is
   * there or v begins a table, and otherwise a whole table's worth of pages further on.
   */
  ghost function Resume(mem: seq<Frame>, a: nat, v: nat): (r: nat)
    ensures v <= r
    decreases USER_PAGES - v
  {
    if v >= USER_PAGES || v % ENTRIES == 0 || HasTable(mem, a, v / ENTRIES) then v else Resume(mem, a, v + ENTRIES)
  }

  /** A frame's use once pages lo up to hi of space a have been dropped. */
  function DroppedUse(use: seq<Use>, a: nat, lo: nat, hi: nat, g: nat): Use
    requires g < |use|
  {
    if use[g].Page? && use[g].dir == a && lo <= use[g].v < hi then Free else use[g]
  }

  ghost predicate Dropping(m0: seq<Frame>, u0: seq<Use>, m: seq<Frame>, u: seq<Use>, a: nat, lo: nat, hi: nat) {
    && |u| == |u0| && (forall g :: 0 <= g < |u| ==> u[g] == DroppedUse(u0, a, lo, hi, g))
    && SameExcept(m0, m, u0, a, lo, hi)
    && (forall w: nat :: lo <= w < hi ==> !Present(PteOf(m, a, w)))
    && (forall d :: 0 <= d < ENTRIES ==> (HasTable(m, a, d) <==> HasTable(m0, a, d)))
  }

  lemma StartDropping(m0: seq<Frame>, u0: seq<Use>, a: nat, lo: nat, v: nat)
    requires FramesOk(m0, u0) && v <= lo
    ensures Dropping(m0, u0, m0, u0, a, lo, v)
  {
    SameMapsToSpaces(m0, m0, u0);
  }

  /** No frame is used for a page that is not there. */
  lemma AbsentIsUnused(m0: seq<Frame>, u0: seq<Use>, a: nat, v: nat, g: nat)
    requires FramesOk(m0, u0) && g < |u0| && !Present(PteOf(m0, a, v))
    ensures u0[g] != Page(a, v)
  {
    assert FrameOk(m0, u0, g);
  }

  /** Pages v up to hi are not there, so passing them drops nothing. */
  lemma PassAbsent(m0: seq<Frame>, u0: seq<Use>, m: seq<Frame>, u: seq<Use>, a: nat, lo: nat, v: nat, hi: nat)
    requires FramesOk(m0, u0) && a < |u0| && u0[a] == Dir && Dropping(m0, u0, m, u, a, lo, v) && v <= hi <= USER_PAGES
    requires forall w: nat :: v <= w < hi && lo <= w ==> !Present(PteOf(m, a, w))
    ensures Dropping(m0, u0, m, u, a, lo, hi)
  {
    forall w: nat | v <= w < hi && lo <= w
      ensures !Present(PteOf(m0, a, w))
    {
      assert EntrySame(m0, m, a, w);
    }
    forall g: nat | g < |u|
      ensures u[g] == DroppedUse(u0, a, lo, hi, g)
    {
      if u0[g].Page? && u0[g].dir == a && lo <= u0[g].v && v <= u0[g].v < hi {
        AbsentIsUnused(m0, u0, a, u0[g].v, g);
      }
    }
  }

  lemma SkipTable(m0: seq<Frame>, u0: seq<Use>, m: seq<Frame>, u: seq<Use>, a: nat, lo: nat, v: nat, hi: nat)
    requires FramesOk(m0, u0) && a < |u0| && u0[a] == Dir && Dropping(m0, u0, m, u, a, lo, v) && v < hi <= USER_PAGES
    requires !HasTable(m, a, v / ENTRIES) && Resume(m0, a, v) == Max(lo, v) && hi <= v + ENTRIES
    ensures Dropping(m0, u0, m, u, a, lo, hi) && Resume(m0, a, v + ENTRIES) == Max(lo, v + ENTRIES)
  {
    if lo <= v {
      assert v % ENTRIES == 0;
    }
    PassAbsent(m0, u0, m, u, a, lo, v, hi);
  }

  lemma NoDrop(m0: seq<Frame>, u0: seq<Use>, m: seq<Frame>, u: seq<Use>, a: nat, lo: nat, v: nat)
    requires FramesOk(m0, u0) && a < |u0| && u0[a] == Dir && Dropping(m0, u0, m, u, a, lo, v) && v < USER_PAGES
    requires HasTable(m, a, v / ENTRIES) && Resume(m0, a, v) == Max(lo, v) && !Present(PteOf(m, a, v))
    ensures Dropping(m0, u0, m, u, a, lo, v + 1) && Resume(m0, a, v + 1) == Max(lo, v + 1)
  {
    PassAbsent(m0, u0, m, u, a, lo, v, v + 1);
  }

  lemma DropOneMore(m0: seq<Frame>, u0: seq<Use>, m1: seq<Frame>, u1: seq<Use>, m: seq<Frame>, u: seq<Use>, a: nat, lo: nat, v: nat, f: nat)
    requires FramesOk(m0, u0) && a < |u0| && u0[a] == Dir && Dropping(m0, u0, m1, u1, a, lo, v) && v < USER_PAGES
    requires HasTable(m1, a, v / ENTRIES) && Resume(m0, a, v) == Max(lo, v)
    requires f < |u1| && u1[f] == Page(a, v) && u == u1[f := Free] && SameExcept(m1, m, u1, a, v, v + 1) && !Present(PteOf(m, a, v))
    requires FramesOk(m1, u1) && forall d :: 0 <= d < ENTRIES ==> (HasTable(m, a, d) <==> HasTable(m1, a, d))
    ensures Dropping(m0, u0, m, u, a, lo, v + 1) && Resume(m0, a, v + 1) == Max(lo, v + 1)
  {
    assert lo <= v;
    SameTrans(m0, m1, m, u0, u1, a, lo, v, v + 1);
    forall w: nat | lo <= w < v
      ensures !Present(PteOf(m, a, w))
    {
      assert EntrySame(m1, m, a, w);
    }
    forall g: nat | g < |u|
      ensures u[g] == DroppedUse(u0, a, lo, v + 1, g)
    {
      if u0[g] == Page(a, v) {
        assert FrameOk(m1, u1, g) && FrameOk(m1, u1, f);
      }
    }
  }

  /** A write to a frame that is not part of an address space leaves all tables where they are. */
  lemma TablesSurvive(mem: seq<Frame>, m: seq<Frame>, use: seq<Use>, a: nat, f: nat)
    requires FramesOk(mem, use) && a < |use| && use[a] == Dir && f < |use| && |m| == |mem|
    requires use[f] != Dir && (use[f].Table? ==> IsTable(m, f)) && forall g :: 0 <= g < |mem| && g != f ==> m[g] == mem[g]
    ensures forall d :: 0 <= d < ENTRIES ==> (HasTable(m, a, d) <==> HasTable(mem, a, d))
  {
    forall d | 0 <= d < ENTRIES
      ensures HasTable(m, a, d) <==> HasTable(mem, a, d)
    {
      TableUse(mem, use, a, d);
    }
  }
}
