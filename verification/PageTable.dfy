/**
 * Two-level page tables over physical frames: vm.c on the frame allocator of kalloc.c. Addresses
 * are page numbers; a frame holds either bytes or 1024 table entries.
 */
module PageTable {

  const PGSIZE := 4096
  const ENTRIES := 1024           // NPDENTRIES and NPTENTRIES
  const USER_DIRS := 512          // directory entries below KERNBASE
  const USER_PAGES := 0x8_0000    // KERNBASE / PGSIZE
  const PAGES := 0x10_0000

  type Byte = x: int | 0 <= x < 256

  /** The low bits of an entry: PTE_P, PTE_W, PTE_U, and the rest. */
  datatype Flags = Flags(p: bool, w: bool, u: bool, rest: nat)

  datatype Pte = Pte(frame: nat, flags: Flags)

  const NONE := Pte(0, Flags(false, false, false, 0))

  predicate Present(p: Pte) {
    p.flags.p
  }

  predicate IsUser(p: Pte) {
    p.flags.u
  }

  /** flags | PTE_P */
  function WithP(flags: Flags): Flags {
    flags.(p := true)
  }

  datatype Frame = Bytes(data: seq<Byte>) | Entries(e: seq<Pte>)

  /** What a frame is used for: Loose is allocated and not yet part of an address space. */
  datatype Use = Free | Loose | Dir | Table(dir: nat, d: nat) | Page(dir: nat, v: nat)

  predicate IsTable(mem: seq<Frame>, f: nat) {
    f < |mem| && mem[f].Entries? && |mem[f].e| == ENTRIES
  }

  predicate IsPage(mem: seq<Frame>, f: nat) {
    f < |mem| && mem[f].Bytes? && |mem[f].data| == PGSIZE
  }

  /** The table for directory entry d is there. */
  predicate HasTable(mem: seq<Frame>, a: nat, d: nat) {
    IsTable(mem, a) && d < ENTRIES && Present(mem[a].e[d]) && IsTable(mem, mem[a].e[d].frame)
  }

  /** The entry that maps page v in the address space of directory a. */
  function PteOf(mem: seq<Frame>, a: nat, v: nat): Pte {
    if HasTable(mem, a, v / ENTRIES) then mem[mem[a].e[v / ENTRIES].frame].e[v % ENTRIES] else NONE
  }

  // Every frame has one use

  ghost predicate DirEntryOk(mem: seq<Frame>, use: seq<Use>, a: nat, d: nat)
    requires IsTable(mem, a) && d < ENTRIES
  {
    Present(mem[a].e[d]) ==> mem[a].e[d].frame < |use| && use[mem[a].e[d].frame] == Table(a, d)
  }

  ghost predicate TableEntryOk(mem: seq<Frame>, use: seq<Use>, f: nat, a: nat, d: nat, t: nat)
    requires IsTable(mem, f) && t < ENTRIES
  {
    var p := mem[f].e[t];
    Present(p) ==> if d < USER_DIRS then p.frame < |use| && use[p.frame] == Page(a, ENTRIES * d + t) else !IsUser(p)
  }

  ghost predicate FrameOk(mem: seq<Frame>, use: seq<Use>, f: nat)
    requires |mem| == |use| && f < |use|
  {
    match use[f]
    case Dir => IsTable(mem, f) && forall d :: 0 <= d < ENTRIES ==> DirEntryOk(mem, use, f, d)
    case Table(a, d) =>
      && HasTable(mem, a, d) && a < |use| && use[a] == Dir && mem[a].e[d].frame == f
      && forall t :: 0 <= t < ENTRIES ==> TableEntryOk(mem, use, f, a, d, t)
    case Page(a, v) =>
      && a < |use| && use[a] == Dir && v < USER_PAGES && IsPage(mem, f)
      && Present(PteOf(mem, a, v)) && PteOf(mem, a, v).frame == f
    case _ => true
  }

  ghost predicate FramesOk(mem: seq<Frame>, use: seq<Use>) {
    |mem| == |use| && forall f :: 0 <= f < |use| ==> FrameOk(mem, use, f)
  }

  // What each kind of write keeps

  function ZeroTable(): (t: Frame)
    ensures t.Entries? && |t.e| == ENTRIES && forall i :: 0 <= i < ENTRIES ==> t.e[i] == NONE
  {
    Entries(seq(ENTRIES, i => NONE))
  }

  /** Where directory b's entry e leads, when it leads anywhere. */
  lemma TableUse(mem: seq<Frame>, use: seq<Use>, b: nat, e: nat)
    requires FramesOk(mem, use) && b < |use| && use[b] == Dir && e < ENTRIES
    ensures IsTable(mem, b) && (Present(mem[b].e[e]) ==> HasTable(mem, b, e) && use[mem[b].e[e].frame] == Table(b, e))
  {
    assert FrameOk(mem, use, b);
    assert DirEntryOk(mem, use, b, e);
    if Present(mem[b].e[e]) {
      assert FrameOk(mem, use, mem[b].e[e].frame);
    }
  }

  /** No entry of frame g but the i-th leads to frame h. */
  ghost predicate NotThrough(use: seq<Use>, h: nat, g: nat, i: nat)
    requires h < |use| && g < |use|
  {
    match use[h]
    case Table(b, e) => b != g || e == i
    case Page(b, w) => use[g] != Table(b, w / ENTRIES) || w % ENTRIES == i
    case _ => true
  }

  ghost predicate SameEntries(x: Frame, y: Frame, i: nat) {
    x.Entries? ==> y.Entries? && |y.e| == |x.e| && forall t :: 0 <= t < |x.e| && t != i ==> y.e[t] == x.e[t]
  }

  ghost predicate EntryOk(mem: seq<Frame>, use: seq<Use>, g: nat, t: nat)
    requires g < |use| && t < ENTRIES
  {
    match use[g]
    case Dir => IsTable(mem, g) && DirEntryOk(mem, use, g, t)
    case Table(a, d) => IsTable(mem, g) && TableEntryOk(mem, use, g, a, d, t)
    case _ => true
  }

  /** The entry that leads to a table or a user page is there. */
  ghost predicate LinkedFrom(mem: seq<Frame>, use: seq<Use>, g: nat)
    requires g < |use|
  {
    match use[g]
    case Table(a, d) => HasTable(mem, a, d) && a < |use| && use[a] == Dir && mem[a].e[d].frame == g
    case Page(a, v) => a < |use| && use[a] == Dir && IsPage(mem, g) && Present(PteOf(mem, a, v)) && PteOf(mem, a, v).frame == g
    case _ => true
  }

  /** A frame used as before, with the same entries but the i-th: it is in order as long as that entry is, what
      leads to it is there, and every frame its other entries lead to is used as before. */
  lemma FrameStays(mem: seq<Frame>, use: seq<Use>, m: seq<Frame>, u: seq<Use>, g: nat, i: nat)
    requires |m| == |u| == |mem| == |use| && g < |u| && FrameOk(mem, use, g) && u[g] == use[g]
    requires SameEntries(mem[g], m[g], i) && LinkedFrom(m, u, g) && (i < ENTRIES ==> EntryOk(m, u, g, i))
    requires forall h :: 0 <= h < |u| ==> u[h] == use[h] || NotThrough(use, h, g, i)
    ensures FrameOk(m, u, g)
  {
    match u[g]
    case Dir =>
      forall e | 0 <= e < ENTRIES
        ensures DirEntryOk(m, u, g, e)
      {
        assert DirEntryOk(mem, use, g, e);
      }
    case Table(b, e) =>
      forall t | 0 <= t < ENTRIES
        ensures TableEntryOk(m, u, g, b, e, t)
      {
        assert TableEntryOk(mem, use, g, b, e, t);
      }
    case _ =>
  }

  /** The address spaces of mem and m map the same. */
  ghost predicate SameMaps(mem: seq<Frame>, m: seq<Frame>, use: seq<Use>) {
    forall b: nat, w: nat :: b < |use| && use[b] == Dir && w < PAGES ==> PteOf(m, b, w) == PteOf(mem, b, w)
  }

  /** walkpgdir hangs a new, empty table into directory a. */
  lemma AddTable(mem: seq<Frame>, use: seq<Use>, a: nat, d: nat, f: nat, m: seq<Frame>, u: seq<Use>)
    requires FramesOk(mem, use) && a < |use| && use[a] == Dir && d < ENTRIES && f < |use| && use[f] == Loose
    requires IsTable(mem, a) && !Present(mem[a].e[d])
    requires m == mem[f := ZeroTable()][a := Entries(mem[a].e[d := Pte(f, Flags(true, true, true, 0))])] && u == use[f := Table(a, d)]
    ensures FramesOk(m, u) && SameMaps(mem, m, use)
  {
    forall b: nat, w: nat | b < |use| && use[b] == Dir && w < PAGES
      ensures PteOf(m, b, w) == PteOf(mem, b, w)
    {
      TableUse(mem, use, b, w / ENTRIES);
    }
    forall g | 0 <= g < |u|
      ensures FrameOk(m, u, g)
    {
      assert FrameOk(mem, use, g);
      if g != f {
        FrameStays(mem, use, m, u, g, if g == a then d else ENTRIES);
      }
    }
  }

  /** The memory after the entry for page v of directory a is set to p. */
  function WithPte(mem: seq<Frame>, a: nat, v: nat, p: Pte): seq<Frame>
    requires HasTable(mem, a, v / ENTRIES)
  {
    var f := mem[a].e[v / ENTRIES].frame;
    mem[f := Entries(mem[f].e[v % ENTRIES := p])]
  }

  ghost predicate OneMapChanged(mem: seq<Frame>, m: seq<Frame>, use: seq<Use>, a: nat, v: nat, p: Pte) {
    forall b: nat, w: nat :: b < |use| && use[b] == Dir && w < PAGES ==>
      PteOf(m, b, w) == if b == a && w == v then p else PteOf(mem, b, w)
  }

  lemma SetPte(mem: seq<Frame>, use: seq<Use>, a: nat, v: nat, p: Pte)
    requires FramesOk(mem, use) && a < |use| && use[a] == Dir && v < PAGES && HasTable(mem, a, v / ENTRIES)
    ensures OneMapChanged(mem, WithPte(mem, a, v, p), use, a, v, p)
  {
    TableUse(mem, use, a, v / ENTRIES);
    forall b: nat, w: nat | b < |use| && use[b] == Dir && w < PAGES
      ensures PteOf(WithPte(mem, a, v, p), b, w) == if b == a && w == v then p else PteOf(mem, b, w)
    {
      TableUse(mem, use, b, w / ENTRIES);
    }
  }

  /** A loose frame becomes page v of address space a. */
  lemma MapPage(mem: seq<Frame>, use: seq<Use>, a: nat, v: nat, f: nat, flags: Flags)
    requires FramesOk(mem, use) && a < |use| && use[a] == Dir && v < USER_PAGES && HasTable(mem, a, v / ENTRIES)
    requires f < |use| && use[f] == Loose && IsPage(mem, f) && !Present(PteOf(mem, a, v)) && flags.p
    ensures FramesOk(WithPte(mem, a, v, Pte(f, flags)), use[f := Page(a, v)])
  {
    var m, u := WithPte(mem, a, v, Pte(f, flags)), use[f := Page(a, v)];
    SetPte(mem, use, a, v, Pte(f, flags));
    TableUse(mem, use, a, v / ENTRIES);
    forall g | 0 <= g < |u|
      ensures FrameOk(m, u, g)
    {
      if g != f {
        FrameStays(mem, use, m, u, g, if g == mem[a].e[v / ENTRIES].frame then v % ENTRIES else ENTRIES);
      }
    }
  }

  /** Page v leaves address space a, and its frame is loose. */
  lemma UnmapPage(mem: seq<Frame>, use: seq<Use>, a: nat, v: nat, f: nat)
    requires FramesOk(mem, use) && a < |use| && use[a] == Dir && v < USER_PAGES && HasTable(mem, a, v / ENTRIES)
    requires Present(PteOf(mem, a, v)) && PteOf(mem, a, v).frame == f
    ensures f < |use| && use[f] == Page(a, v) && FramesOk(WithPte(mem, a, v, NONE), use[f := Loose])
  {
    TableUse(mem, use, a, v / ENTRIES);
    var tf := mem[a].e[v / ENTRIES].frame;
    assert FrameOk(mem, use, tf);
    assert TableEntryOk(mem, use, tf, a, v / ENTRIES, v % ENTRIES);
    var m, u := WithPte(mem, a, v, NONE), use[f := Loose];
    SetPte(mem, use, a, v, NONE);
    forall g | 0 <= g < |u|
      ensures FrameOk(m, u, g)
    {
      if g != f {
        FrameStays(mem, use, m, u, g, if g == mem[a].e[v / ENTRIES].frame then v % ENTRIES else ENTRIES);
      }
    }
  }

  /** A mapping of the kernel half refers to a frame without owning it. */
  lemma MapKernel(mem: seq<Frame>, use: seq<Use>, a: nat, v: nat, p: Pte)
    requires FramesOk(mem, use) && a < |use| && use[a] == Dir && USER_PAGES <= v < PAGES && HasTable(mem, a, v / ENTRIES)
    requires !IsUser(p)
    ensures FramesOk(WithPte(mem, a, v, p), use)
  {
    var m := WithPte(mem, a, v, p);
    SetPte(mem, use, a, v, p);
    TableUse(mem, use, a, v / ENTRIES);
    forall g | 0 <= g < |use|
      ensures FrameOk(m, use, g)
    {
      FrameStays(mem, use, m, use, g, if g == mem[a].e[v / ENTRIES].frame then v % ENTRIES else ENTRIES);
    }
  }

  /** Page w of space b has the same entry, and as a present user page the same bytes. */
  ghost predicate EntrySame(mem: seq<Frame>, m: seq<Frame>, b: nat, w: nat) {
    && PteOf(m, b, w) == PteOf(mem, b, w)
    && (w < USER_PAGES && Present(PteOf(mem, b, w)) ==>
          var f := PteOf(mem, b, w).frame;
          f < |mem| && f < |m| && m[f] == mem[f])
  }

  /** All address spaces stay as they are, but for pages lo up to hi of space a. */
  ghost predicate SameExcept(mem: seq<Frame>, m: seq<Frame>, use: seq<Use>, a: nat, lo: nat, hi: nat) {
    forall b: nat, w: nat :: b < |use| && use[b] == Dir && w < PAGES && !(b == a && lo <= w < hi) ==> EntrySame(mem, m, b, w)
  }

  ghost predicate SameSpaces(mem: seq<Frame>, m: seq<Frame>, use: seq<Use>) {
    SameExcept(mem, m, use, 0, 0, 0)
  }

  /** The frame of a present user page is used for that page and no other. */
  lemma PageUse(mem: seq<Frame>, use: seq<Use>, b: nat, w: nat)
    requires FramesOk(mem, use) && b < |use| && use[b] == Dir && w < USER_PAGES && Present(PteOf(mem, b, w))
    ensures var f := PteOf(mem, b, w).frame; f < |use| && use[f] == Page(b, w) && IsPage(mem, f)
  {
    TableUse(mem, use, b, w / ENTRIES);
    var tf := mem[b].e[w / ENTRIES].frame;
    assert FrameOk(mem, use, tf);
    assert TableEntryOk(mem, use, tf, b, w / ENTRIES, w % ENTRIES);
    assert FrameOk(mem, use, PteOf(mem, b, w).frame);
  }

  /** No frame is mapped as two user pages, of one address space or of two. */
  lemma PagesDisjoint(mem: seq<Frame>, use: seq<Use>, a: nat, v: nat, b: nat, w: nat)
    requires FramesOk(mem, use) && a < |use| && b < |use| && use[a] == Dir && use[b] == Dir && v < USER_PAGES && w < USER_PAGES
    requires Present(PteOf(mem, a, v)) && Present(PteOf(mem, b, w)) && (a, v) != (b, w)
    ensures PteOf(mem, a, v).frame != PteOf(mem, b, w).frame
  {
    PageUse(mem, use, a, v);
    PageUse(mem, use, b, w);
  }

  /** Maps kept but for one, and page frames kept: the spaces are the same but for that page. */
  lemma MapsToSpaces(mem: seq<Frame>, m: seq<Frame>, use: seq<Use>, a: nat, v: nat, p: Pte)
    requires FramesOk(mem, use) && |m| == |mem| && OneMapChanged(mem, m, use, a, v, p)
    requires forall f :: 0 <= f < |use| && use[f].Page? && use[f] != Page(a, v) ==> m[f] == mem[f]
    ensures SameExcept(mem, m, use, a, v, v + 1)
  {
    forall b: nat, w: nat | b < |use| && use[b] == Dir && w < PAGES && !(b == a && v <= w < v + 1)
      ensures EntrySame(mem, m, b, w)
    {
      if w < USER_PAGES && Present(PteOf(mem, b, w)) {
        PageUse(mem, use, b, w);
      }
    }
  }

  lemma SameMapsToSpaces(mem: seq<Frame>, m: seq<Frame>, use: seq<Use>)
    requires FramesOk(mem, use) && |m| == |mem| && SameMaps(mem, m, use)
    requires forall f :: 0 <= f < |use| && use[f].Page? ==> m[f] == mem[f]
    ensures SameSpaces(mem, m, use)
  {
    forall b: nat, w: nat | b < |use| && use[b] == Dir && w < PAGES
      ensures EntrySame(mem, m, b, w)
    {
      if w < USER_PAGES && Present(PteOf(mem, b, w)) {
        PageUse(mem, use, b, w);
      }
    }
  }

  lemma SameTrans(m0: seq<Frame>, m1: seq<Frame>, m2: seq<Frame>, u0: seq<Use>, u1: seq<Use>, a: nat, lo: nat, mid: nat, hi: nat)
    requires SameExcept(m0, m1, u0, a, lo, mid) && SameExcept(m1, m2, u1, a, lo, hi) && mid <= hi
    requires forall b: nat :: b < |u0| && u0[b] == Dir ==> b < |u1| && u1[b] == Dir
    ensures SameExcept(m0, m2, u0, a, lo, hi)
  {
    forall b: nat, w: nat | b < |u0| && u0[b] == Dir && w < PAGES && !(b == a && lo <= w < hi)
      ensures EntrySame(m0, m2, b, w)
    {
      assert EntrySame(m0, m1, b, w);
      assert EntrySame(m1, m2, b, w);
    }
  }

  /** A frame that is free or loose can hold anything and be either. */
  lemma ChangeLoose(mem: seq<Frame>, use: seq<Use>, f: nat, x: Frame, now: Use)
    requires FramesOk(mem, use) && f < |use| && (use[f] == Free || use[f] == Loose) && (now == Free || now == Loose)
    ensures FramesOk(mem[f := x], use[f := now]) && SameSpaces(mem, mem[f := x], use)
  {
    var m, u := mem[f := x], use[f := now];
    forall b: nat, w: nat | b < |use| && use[b] == Dir && w < PAGES
      ensures PteOf(m, b, w) == PteOf(mem, b, w)
    {
      TableUse(mem, use, b, w / ENTRIES);
    }
    SameMapsToSpaces(mem, m, use);
    forall g | 0 <= g < |u|
      ensures FrameOk(m, u, g)
    {
      if g != f {
        FrameStays(mem, use, m, u, g, ENTRIES);
      }
    }
  }

  /** New bytes in a user page change no mapping. */
  lemma WritePage(mem: seq<Frame>, use: seq<Use>, f: nat, x: Frame)
    requires FramesOk(mem, use) && f < |use| && use[f].Page? && x.Bytes? && |x.data| == PGSIZE
    ensures FramesOk(mem[f := x], use) && SameMaps(mem, mem[f := x], use)
  {
    var m := mem[f := x];
    forall b: nat, w: nat | b < |use| && use[b] == Dir && w < PAGES
      ensures PteOf(m, b, w) == PteOf(mem, b, w)
    {
      TableUse(mem, use, b, w / ENTRIES);
    }
    forall g | 0 <= g < |use|
      ensures FrameOk(m, use, g)
    {
      assert FrameOk(mem, use, g);
      FrameStays(mem, use, m, use, g, ENTRIES);
    }
  }

  /** Only pages below KERNBASE are open to the user. */
  lemma UserPagesAreLow(mem: seq<Frame>, use: seq<Use>, a: nat, v: nat)
    requires FramesOk(mem, use) && a < |use| && use[a] == Dir && Present(PteOf(mem, a, v)) && IsUser(PteOf(mem, a, v))
    ensures v < USER_PAGES
  {
    TableUse(mem, use, a, v / ENTRIES);
    var tf := mem[a].e[v / ENTRIES].frame;
    assert FrameOk(mem, use, tf);
    assert TableEntryOk(mem, use, tf, a, v / ENTRIES, v % ENTRIES);
  }

  /** A loose frame becomes an empty directory. */
  lemma NewDir(mem: seq<Frame>, use: seq<Use>, f: nat, m: seq<Frame>)
    requires FramesOk(mem, use) && f < |use| && use[f] == Loose && m == mem[f := ZeroTable()]
    ensures FramesOk(m, use[f := Dir]) && SameSpaces(mem, m, use)
    ensures forall w: nat :: w < PAGES ==> PteOf(m, f, w) == NONE
  {
    var u := use[f := Dir];
    ChangeLoose(mem, use, f, ZeroTable(), Loose);
    assert use[f := Loose] == use;
    forall g | 0 <= g < |u|
      ensures FrameOk(m, u, g)
    {
      assert FrameOk(m, use, g);
      if g == f {
        assert forall e :: 0 <= e < ENTRIES ==> m[f].e[e] == NONE;
      } else {
        FrameStays(m, use, m, u, g, ENTRIES);
      }
    }
  }

  /** The use of each frame once directory a and its tables have been let go. */
  function Dismantled(use: seq<Use>, a: nat, g: nat): Use
    requires g < |use|
  {
    if g == a || (use[g].Table? && use[g].dir == a) then Loose else use[g]
  }

  /** Without user pages, a directory and its tables can be let go together. */
  lemma Dismantle(mem: seq<Frame>, use: seq<Use>, a: nat, u: seq<Use>)
    requires FramesOk(mem, use) && a < |use| && use[a] == Dir
    requires forall w: nat :: w < USER_PAGES ==> !Present(PteOf(mem, a, w))
    requires |u| == |use| && forall g :: 0 <= g < |u| ==> u[g] == Dismantled(use, a, g)
    ensures FramesOk(mem, u)
  {
    forall g | 0 <= g < |u|
      ensures FrameOk(mem, u, g)
    {
      assert FrameOk(mem, use, g);
      if u[g] == use[g] {
        FrameStays(mem, use, mem, u, g, ENTRIES);
      }
    }
  }
}
