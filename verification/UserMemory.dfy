/** User memory as uva2ka and copyout of vm.c reach it: one flat array behind the page table. */
module UserMemory {
  import opened PageTable

  /** What uva2ka finds: the page's frame, a page the user may not touch, or no page table to look in. */
  datatype Reach = At(f: nat) | Refused | NoTable

  function Uva2ka(mem: seq<Frame>, a: nat, v: nat): Reach {
    if !HasTable(mem, a, v / ENTRIES) then NoTable
    else if Present(PteOf(mem, a, v)) && IsUser(PteOf(mem, a, v)) then At(PteOf(mem, a, v).frame)
    else Refused
  }

  // User memory as one flat array

  /** The user may touch address x. */
  ghost predicate Open(mem: seq<Frame>, a: nat, x: nat) {
    Uva2ka(mem, a, x / PGSIZE).At?
  }

  ghost function ByteAt(mem: seq<Frame>, a: nat, x: nat): Byte {
    var f := PteOf(mem, a, x / PGSIZE).frame;
    if IsPage(mem, f) then mem[f].data[x % PGSIZE] else 0
  }

  /** Address x holds what it held in m0, or the byte of p written to it. */
  ghost predicate Written(m0: seq<Frame>, m: seq<Frame>, a: nat, va: nat, p: seq<Byte>, k: nat, x: nat)
    requires k <= |p|
  {
    Uva2ka(m, a, x / PGSIZE) == Uva2ka(m0, a, x / PGSIZE) && ByteAt(m, a, x) == if va <= x < va + k then p[x - va] else ByteAt(m0, a, x)
  }

  ghost predicate FlatWrite(m0: seq<Frame>, m: seq<Frame>, a: nat, va: nat, p: seq<Byte>, k: nat)
    requires k <= |p|
  {
    forall x: nat :: Open(m0, a, x) ==> Written(m0, m, a, va, p, k, x)
  }

  /** The first k addresses from va on are open. */
  ghost predicate OpenUpTo(mem: seq<Frame>, a: nat, va: nat, k: nat) {
    forall x: nat :: va <= x < va + k ==> Open(mem, a, x)
  }

  /** copyout never looks for a page in a table that is not there: uva2ka would read through a null entry. */
  ghost predicate Defined(mem: seq<Frame>, a: nat, va: nat, len: nat) {
    forall x: nat :: va <= x < va + len && OpenUpTo(mem, a, va, x - va) ==> TableAt(mem, a, x)
  }

  /** The table for the page of address x is there. */
  ghost predicate TableAt(mem: seq<Frame>, a: nat, x: nat) {
    HasTable(mem, a, x / PGSIZE / ENTRIES)
  }

  /** Only pages of space a are written. */
  ghost predicate OthersKept(use: seq<Use>, m0: seq<Frame>, m: seq<Frame>, a: nat) {
    |m| == |m0| == |use| && forall g :: 0 <= g < |m| && !(use[g].Page? && use[g].dir == a) ==> m[g] == m0[g]
  }

  function Splice(data: seq<Byte>, off: nat, s: seq<Byte>): seq<Byte>
    requires off + |s| <= |data|
  {
    data[..off] + s + data[off + |s|..]
  }

  /** One page's share of the copy. */
  lemma WriteShare(use: seq<Use>, m1: seq<Frame>, m2: seq<Frame>, a: nat, v: nat, f: nat, off: nat, s: seq<Byte>, x: nat)
    requires FramesOk(m1, use) && a < |use| && use[a] == Dir && Uva2ka(m1, a, v) == At(f) && Open(m1, a, x)
    requires IsPage(m1, f) && off + |s| <= PGSIZE && m2 == m1[f := Bytes(Splice(m1[f].data, off, s))]
    requires SameMaps(m1, m2, use)
    ensures Uva2ka(m2, a, x / PGSIZE) == Uva2ka(m1, a, x / PGSIZE)
    ensures ByteAt(m2, a, x) == if v * PGSIZE + off <= x < v * PGSIZE + off + |s| then s[x - v * PGSIZE - off] else ByteAt(m1, a, x)
  {
    var w := x / PGSIZE;
    UserPagesAreLow(m1, use, a, v);
    UserPagesAreLow(m1, use, a, w);
    PageUse(m1, use, a, v);
    PageUse(m1, use, a, w);
    assert PteOf(m2, a, w) == PteOf(m1, a, w);
    TableUse(m1, use, a, w / ENTRIES);
  }

  /** The bytes of p from k on, as far as they fit in the page, join the k bytes already there. */
  lemma FlatWriteMore(use: seq<Use>, m0: seq<Frame>, m1: seq<Frame>, m2: seq<Frame>, a: nat, va: nat, p: seq<Byte>, k: nat, n: nat, v: nat, f: nat, off: nat)
    requires FramesOk(m1, use) && a < |use| && use[a] == Dir && k + n <= |p|
    requires FlatWrite(m0, m1, a, va, p, k) && SameMaps(m1, m2, use)
    requires v * PGSIZE + off == va + k && off + n <= PGSIZE && Uva2ka(m1, a, v) == At(f) && IsPage(m1, f)
    requires m2 == m1[f := Bytes(Splice(m1[f].data, off, p[k..k + n]))]
    ensures FlatWrite(m0, m2, a, va, p, k + n)
  {
    forall x: nat | Open(m0, a, x)
      ensures Written(m0, m2, a, va, p, k + n, x)
    {
      assert Written(m0, m1, a, va, p, k, x);
      WriteShare(use, m1, m2, a, v, f, off, p[k..k + n], x);
    }
  }
}
