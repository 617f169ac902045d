/** Which disk blocks belong to which inode (fs.c, classic layout).

    An inode refers to blocks through NSLOTS slots: its NDIRECT direct addresses, the
    address of its indirect block, and the words of that block. The `View` is the ghost
    picture of this: the bitmap as booleans, every inode's slots as numbers, and for
    each data block in use the one slot that holds it. */
module FileBlocks {
  import opened Blocks
  import opened Bitmap

  const NDIRECT := 12
  const NINDIRECT := 128            // BSIZE / sizeof(uint)
  const MAXFILE := 140              // NDIRECT + NINDIRECT
  const NSLOTS := 141

  datatype Layout = Layout(size: nat, bmapstart: nat, nmeta: nat)

  /** The boot block, superblock, log, inode and bitmap blocks are the first nmeta blocks. */
  predicate GoodLayout(l: Layout) {
    l.bmapstart + l.size / BPB < l.nmeta <= l.size < WORD_LIMIT
  }

  const T_DIR := 1

  /** The in-memory inode. */
  datatype Inode = Inode(kind: nat, size: nat, addrs: seq<nat>)

  datatype View = View(used: seq<bool>, slots: seq<seq<nat>>, owner: map<nat, (nat, nat)>)

  /** The slot that holds the file's bn-th block. */
  function SlotOf(bn: nat): nat {
    if bn < NDIRECT then bn else bn + 1
  }

  // ---------------------------------------------------------------- every block has one owner

  ghost predicate Shaped(v: View, l: Layout) {
    |v.used| == l.size && forall i :: 0 <= i < |v.slots| ==> |v.slots[i]| == NSLOTS
  }

  /** The owner of b is a slot that holds b. */
  ghost predicate OwnerHolds(v: View, b: nat)
    requires b in v.owner && forall i :: 0 <= i < |v.slots| ==> |v.slots[i]| == NSLOTS
  {
    var (i, s) := v.owner[b];
    i < |v.slots| && s < NSLOTS && v.slots[i][s] == b
  }

  /** A slot in use is the owner of its block. */
  ghost predicate SlotOwns(v: View, i: nat, s: nat)
    requires i < |v.slots| && s < |v.slots[i]|
  {
    v.slots[i][s] != 0 ==> v.slots[i][s] in v.owner && v.owner[v.slots[i][s]] == (i, s)
  }

  /** Conservation: a bit is set iff the block is metadata, held by exactly one slot, or just allocated (pending). */
  ghost predicate Owned(v: View, l: Layout, pending: set<nat>) {
    && Shaped(v, l)
    && (forall b :: 0 <= b < l.size ==> (v.used[b] <==> b < l.nmeta || b in v.owner || b in pending))
    && (forall b :: b in v.owner ==> l.nmeta <= b < l.size && b !in pending && OwnerHolds(v, b))
    && (forall b :: b in pending ==> l.nmeta <= b < l.size)
    && (forall i: nat, s: nat :: i < |v.slots| && s < NSLOTS ==> SlotOwns(v, i, s))
  }

  function PutSlot(v: View, i: nat, s: nat, b: nat): View
    requires i < |v.slots| && s < |v.slots[i]|
  {
    var row: seq<nat> := v.slots[i][s := b];
    v.(slots := v.slots[i := row])
  }

  /** A pending block becomes the block of an empty slot. */
  function Claim(v: View, i: nat, s: nat, b: nat): View
    requires i < |v.slots| && s < |v.slots[i]|
  {
    PutSlot(v, i, s, b).(owner := v.owner[b := (i, s)])
  }

  /** The block of a slot becomes pending. */
  function Disown(v: View, i: nat, s: nat): View
    requires i < |v.slots| && s < |v.slots[i]|
  {
    PutSlot(v, i, s, 0).(owner := v.owner - {v.slots[i][s]})
  }

  /** Only the slot of block bn may change, and the slot of the indirect block when that block is not there yet. */
  ghost predicate OnlyThisSlot(before: seq<seq<nat>>, after: seq<seq<nat>>, i: nat, bn: nat) {
    && |after| == |before|
    && forall j: nat, s: nat :: j < |before| && s < |before[j]| ==>
         s < |after[j]| && (SlotMayChange(before, i, bn, j, s) || after[j][s] == before[j][s])
  }

  ghost predicate SlotMayChange(before: seq<seq<nat>>, i: nat, bn: nat, j: nat, s: nat)
    requires j < |before| && s < |before[j]|
  {
    j == i && before[j][s] == 0 && (s == SlotOf(bn) || (s == NDIRECT && NDIRECT <= bn))
  }

  lemma ClaimKeepsOwned(v: View, l: Layout, pending: set<nat>, i: nat, s: nat, b: nat)
    requires Owned(v, l, pending) && b in pending && 0 < l.nmeta
    requires i < |v.slots| && s < NSLOTS && v.slots[i][s] == 0
    ensures Owned(Claim(v, i, s, b), l, pending - {b})
  {
    var w := Claim(v, i, s, b);
    forall j: nat, t: nat | j < |w.slots| && t < NSLOTS
      ensures SlotOwns(w, j, t)
    {
      assert SlotOwns(v, j, t);
    }
    forall c | c in w.owner
      ensures l.nmeta <= c < l.size && c !in pending - {b} && OwnerHolds(w, c)
    {
      if c != b {
        assert OwnerHolds(v, c);
        var (j, t) := v.owner[c];
        assert v.slots[j][t] == c && w.slots[j][t] == c;
      }
    }
  }

  lemma DisownKeepsOwned(v: View, l: Layout, pending: set<nat>, i: nat, s: nat)
    requires Owned(v, l, pending) && i < |v.slots| && s < NSLOTS && v.slots[i][s] != 0
    ensures l.nmeta <= v.slots[i][s] < l.size
    ensures Owned(Disown(v, i, s), l, pending + {v.slots[i][s]})
  {
    var w := Disown(v, i, s);
    assert SlotOwns(v, i, s);
    forall j: nat, t: nat | j < |w.slots| && t < NSLOTS
      ensures SlotOwns(w, j, t)
    {
      assert SlotOwns(v, j, t);
    }
    forall c | c in w.owner
      ensures OwnerHolds(w, c)
    {
      assert OwnerHolds(v, c);
      var (j, t) := v.owner[c];
      assert v.slots[j][t] == c && w.slots[j][t] == c;
    }
  }

  /** No block is held by two slots. */
  lemma SlotsDisjoint(v: View, l: Layout, pending: set<nat>, i: nat, s: nat, j: nat, t: nat)
    requires Owned(v, l, pending)
    requires i < |v.slots| && s < NSLOTS && j < |v.slots| && t < NSLOTS
    requires v.slots[i][s] != 0 && v.slots[i][s] == v.slots[j][t]
    ensures i == j && s == t
  {
    assert SlotOwns(v, i, s) && SlotOwns(v, j, t);
  }

  // ---------------------------------------------------------------- the view is what the disk says

  ghost predicate BitAgrees(l: Layout, disk: Image, used: seq<bool>, b: nat)
    requires GoodLayout(l) && |disk| == |used| == l.size && b < l.size
  {
    used[b] == Bit(disk, l.bmapstart, b)
  }

  ghost predicate BitsAgree(l: Layout, disk: Image, used: seq<bool>)
    requires GoodLayout(l)
  {
    |disk| == |used| == l.size && forall b: nat :: b < l.size ==> BitAgrees(l, disk, used, b)
  }

  ghost predicate WordAgrees(disk: Image, indirect: nat, slots: seq<nat>, k: nat)
    requires |slots| == NSLOTS && k < NINDIRECT && indirect < |disk|
  {
    slots[NDIRECT + 1 + k] == GetWord(disk[indirect], k)
  }

  /** The slots of one inode: its addresses, and the words of its indirect block when it has one. */
  ghost predicate SlotsAgree(disk: Image, ip: Inode, slots: seq<nat>) {
    && |ip.addrs| == NDIRECT + 1 && |slots| == NSLOTS
    && (forall s :: 0 <= s <= NDIRECT ==> slots[s] == ip.addrs[s])
    && (ip.addrs[NDIRECT] == 0 ==> forall s :: NDIRECT < s < NSLOTS ==> slots[s] == 0)
    && (ip.addrs[NDIRECT] != 0 ==>
          ip.addrs[NDIRECT] < |disk| && forall k: nat :: k < NINDIRECT ==> WordAgrees(disk, ip.addrs[NDIRECT], slots, k))
  }

  /** The byte at `off` of the file is in the file's mapped block. */
  ghost predicate ByteAgrees(disk: Image, slots: seq<nat>, file: seq<Byte>, off: nat)
    requires |slots| == NSLOTS && off < |file| <= MAXFILE * BSIZE
  {
    var a := slots[SlotOf(off / BSIZE)];
    a != 0 && a < |disk| && file[off] == disk[a][off % BSIZE]
  }

  /** The content of one file, every block of it mapped. */
  ghost predicate FileAgrees(disk: Image, slots: seq<nat>, file: seq<Byte>) {
    && |slots| == NSLOTS && |file| <= MAXFILE * BSIZE
    && forall off: nat :: off < |file| ==> ByteAgrees(disk, slots, file, off)
  }

  ghost predicate AllAgree(l: Layout, disk: Image, inodes: seq<Inode>, v: View, files: seq<seq<Byte>>) {
    && |v.slots| == |inodes| == |files|
    && forall i :: 0 <= i < |inodes| ==> SlotsAgree(disk, inodes[i], v.slots[i]) && FileAgrees(disk, v.slots[i], files[i])
  }

  /** Changing the bitmap leaves everything else as it was. */
  lemma DataUnchanged(l: Layout, d: Image, e: Image, inodes: seq<Inode>, v: View, pending: set<nat>, files: seq<seq<Byte>>)
    requires Owned(v, l, pending) && AllAgree(l, d, inodes, v, files) && |d| == |e| == l.size
    requires forall b :: b in v.owner ==> b < l.size && d[b] == e[b]
    ensures AllAgree(l, e, inodes, v, files)
  {
    forall i | 0 <= i < |inodes|
      ensures SlotsAgree(e, inodes[i], v.slots[i]) && FileAgrees(e, v.slots[i], files[i])
    {
      forall s | 0 <= s < NSLOTS && v.slots[i][s] != 0
        ensures v.slots[i][s] in v.owner
      {
        assert SlotOwns(v, i, s);
      }
      OneDataUnchanged(l, d, e, inodes[i], v, pending, files[i], i);
    }
  }

  lemma OneDataUnchanged(l: Layout, d: Image, e: Image, ip: Inode, v: View, pending: set<nat>, file: seq<Byte>, i: nat)
    requires Owned(v, l, pending) && |d| == |e| == l.size && i < |v.slots|
    requires SlotsAgree(d, ip, v.slots[i]) && FileAgrees(d, v.slots[i], file)
    requires forall s :: 0 <= s < NSLOTS && v.slots[i][s] != 0 && v.slots[i][s] < l.size ==> d[v.slots[i][s]] == e[v.slots[i][s]]
    ensures SlotsAgree(e, ip, v.slots[i]) && FileAgrees(e, v.slots[i], file)
  {
    forall k: nat | k < NINDIRECT && ip.addrs[NDIRECT] != 0
      ensures WordAgrees(e, ip.addrs[NDIRECT], v.slots[i], k)
    {
      assert WordAgrees(d, ip.addrs[NDIRECT], v.slots[i], k);
      assert v.slots[i][NDIRECT] == ip.addrs[NDIRECT];
    }
    forall off: nat | off < |file|
      ensures ByteAgrees(e, v.slots[i], file, off)
    {
      assert ByteAgrees(d, v.slots[i], file, off);
    }
  }

  // ---------------------------------------------------------------- what each write does to the picture

  lemma BitsAfterPut(l: Layout, disk: Image, used: seq<bool>, b: nat, on: bool)
    requires GoodLayout(l) && BitsAgree(l, disk, used) && b < l.size
    ensures var k := BitmapBlock(l.bmapstart, b);
            k < l.nmeta && BitsAgree(l, disk[k := PutBitInBlock(disk[k], b % BPB, on)], used[b := on])
  {
    var k := BitmapBlock(l.bmapstart, b);
    var e := disk[k := PutBitInBlock(disk[k], b % BPB, on)];
    var u := used[b := on];
    forall c: nat | c < l.size
      ensures BitAgrees(l, e, u, c)
    {
      assert BitAgrees(l, disk, used, c);
      BitAfterPut(disk, l.bmapstart, b, on, c);
    }
  }

  lemma BitsAfterDataWrite(l: Layout, disk: Image, used: seq<bool>, a: nat, data: Block)
    requires GoodLayout(l) && BitsAgree(l, disk, used) && l.nmeta <= a < l.size
    ensures BitsAgree(l, disk[a := data], used)
  {
    var e := disk[a := data];
    forall c: nat | c < l.size
      ensures BitAgrees(l, e, used, c)
    {
      assert BitAgrees(l, disk, used, c);
    }
  }

  function PutAddr(inodes: seq<Inode>, i: nat, s: nat, b: nat): seq<Inode>
    requires i < |inodes| && s < |inodes[i].addrs|
  {
    inodes[i := inodes[i].(addrs := inodes[i].addrs[s := b])]
  }

  /** A zeroed block becomes a direct block, or an indirect block that lists nothing. */
  lemma ClaimAddr(l: Layout, disk: Image, inodes: seq<Inode>, v: View, pending: set<nat>, files: seq<seq<Byte>>, i: nat, s: nat, b: nat)
    requires Owned(v, l, pending) && AllAgree(l, disk, inodes, v, files) && |disk| == l.size
    requires i < |inodes| && s <= NDIRECT && v.slots[i][s] == 0 && b != 0 && b < l.size && disk[b] == ZeroBlock()
    ensures AllAgree(l, disk, PutAddr(inodes, i, s, b), Claim(v, i, s, b), files)
  {
    var w := Claim(v, i, s, b);
    forall k: nat | k < NINDIRECT && s == NDIRECT
      ensures WordAgrees(disk, b, w.slots[i], k)
    {
      ZeroBlockWords(k);
    }
    forall k: nat | k < NINDIRECT && s != NDIRECT && inodes[i].addrs[NDIRECT] != 0
      ensures WordAgrees(disk, inodes[i].addrs[NDIRECT], w.slots[i], k)
    {
      assert WordAgrees(disk, inodes[i].addrs[NDIRECT], v.slots[i], k);
    }
    FileKeepsAgreeing(disk, v.slots[i], w.slots[i], files[i]);
  }

  /** A file does not notice a slot that was empty. */
  lemma FileKeepsAgreeing(disk: Image, slots: seq<nat>, slots': seq<nat>, file: seq<Byte>)
    requires FileAgrees(disk, slots, file) && |slots'| == NSLOTS
    requires forall s :: 0 <= s < NSLOTS && slots[s] != 0 ==> slots'[s] == slots[s]
    ensures FileAgrees(disk, slots', file)
  {
    forall off: nat | off < |file|
      ensures ByteAgrees(disk, slots', file, off)
    {
      assert ByteAgrees(disk, slots, file, off);
    }
  }

  /** A word is stored in the indirect block. */
  lemma ClaimWord(l: Layout, disk: Image, inodes: seq<Inode>, v: View, pending: set<nat>, files: seq<seq<Byte>>, i: nat, k: nat, b: nat)
    requires Owned(v, l, pending) && AllAgree(l, disk, inodes, v, files) && |disk| == l.size < WORD_LIMIT
    requires i < |inodes| && k < NINDIRECT && b < l.size
    requires inodes[i].addrs[NDIRECT] != 0 && v.slots[i][NDIRECT + 1 + k] == 0
    ensures var ind := inodes[i].addrs[NDIRECT];
            && l.nmeta <= ind < l.size
            && AllAgree(l, disk[ind := PutWord(disk[ind], k, b)], inodes, Claim(v, i, NDIRECT + 1 + k, b), files)
  {
    var ind, s := inodes[i].addrs[NDIRECT], NDIRECT + 1 + k;
    var e, w := disk[ind := PutWord(disk[ind], k, b)], Claim(v, i, s, b);
    assert v.slots[i][NDIRECT] == ind && SlotOwns(v, i, NDIRECT);
    forall j | 0 <= j < |inodes|
      ensures SlotsAgree(e, inodes[j], w.slots[j]) && FileAgrees(e, w.slots[j], files[j])
    {
      forall t | 0 <= t < NSLOTS && v.slots[j][t] != 0 && (j, t) != (i, NDIRECT)
        ensures v.slots[j][t] != ind
      {
        if v.slots[j][t] == ind {
          SlotsDisjoint(v, l, pending, i, NDIRECT, j, t);
        }
      }
      if j != i {
        OneDataUnchanged(l, disk, e, inodes[j], v, pending, files[j], j);
      } else {
        forall t: nat | t < NINDIRECT
          ensures WordAgrees(e, ind, w.slots[i], t)
        {
          assert WordAgrees(disk, ind, v.slots[i], t);
        }
        FileSeesOtherBlocks(disk, e, ind, v.slots[i], files[i]);
        FileKeepsAgreeing(e, v.slots[i], w.slots[i], files[i]);
      }
    }
  }

  /** A write to the indirect block is not a write to a data block of the file. */
  lemma FileSeesOtherBlocks(d: Image, e: Image, ind: nat, slots: seq<nat>, file: seq<Byte>)
    requires FileAgrees(d, slots, file) && |d| == |e| && ind < |d|
    requires forall b :: 0 <= b < |d| && b != ind ==> d[b] == e[b]
    requires forall t :: 0 <= t < NSLOTS && t != NDIRECT && slots[t] != 0 ==> slots[t] != ind
    ensures FileAgrees(e, slots, file)
  {
    forall off: nat | off < |file|
      ensures ByteAgrees(e, slots, file, off)
    {
      assert ByteAgrees(d, slots, file, off);
    }
  }

  /** Bytes [off, off+|src|) of the file replaced, the file extended when they go past its end. */
  function Overwrite(file: seq<Byte>, off: nat, src: seq<Byte>): (r: seq<Byte>)
    requires off <= |file|
    ensures |r| == if off + |src| <= |file| then |file| else off + |src|
    ensures forall k :: 0 <= k < |r| ==>
              r[k] == if off <= k < off + |src| then src[k - off] else file[k]
  {
    file[..off] + src + (if off + |src| <= |file| then file[off + |src|..] else [])
  }

  function Splice(data: Block, o: nat, src: seq<Byte>): (r: Block)
    requires o + |src| <= BSIZE
    ensures forall k :: 0 <= k < BSIZE ==> r[k] == if o <= k < o + |src| then src[k - o] else data[k]
  {
    data[..o] + src + data[o + |src|..]
  }

  /** Writing part of a mapped block writes that part of the file, and of no other file. */
  lemma WriteChunk(l: Layout, disk: Image, inodes: seq<Inode>, v: View, pending: set<nat>, files: seq<seq<Byte>>, i: nat, off: nat, src: seq<Byte>)
    requires Owned(v, l, pending) && AllAgree(l, disk, inodes, v, files) && |disk| == l.size
    requires i < |inodes| && off <= |files[i]| && off % BSIZE + |src| <= BSIZE && off + |src| <= MAXFILE * BSIZE && 0 < |src|
    requires v.slots[i][SlotOf(off / BSIZE)] != 0
    ensures var a := v.slots[i][SlotOf(off / BSIZE)];
            && l.nmeta <= a < l.size
            && AllAgree(l, disk[a := Splice(disk[a], off % BSIZE, src)], inodes, v, files[i := Overwrite(files[i], off, src)])
  {
    var s := SlotOf(off / BSIZE);
    var a := v.slots[i][s];
    assert SlotOwns(v, i, s);
    var e := disk[a := Splice(disk[a], off % BSIZE, src)];
    forall j | 0 <= j < |inodes|
      ensures SlotsAgree(e, inodes[j], v.slots[j])
      ensures FileAgrees(e, v.slots[j], if j == i then Overwrite(files[i], off, src) else files[j])
    {
      forall t | 0 <= t < NSLOTS && v.slots[j][t] != 0 && (j, t) != (i, s)
        ensures v.slots[j][t] != a
      {
        if v.slots[j][t] == a {
          SlotsDisjoint(v, l, pending, i, s, j, t);
        }
      }
      if j != i {
        OneDataUnchanged(l, disk, e, inodes[j], v, pending, files[j], j);
      } else {
        forall k: nat | k < NINDIRECT && inodes[i].addrs[NDIRECT] != 0
          ensures WordAgrees(e, inodes[i].addrs[NDIRECT], v.slots[i], k)
        {
          assert WordAgrees(disk, inodes[i].addrs[NDIRECT], v.slots[i], k);
          assert v.slots[i][NDIRECT] == inodes[i].addrs[NDIRECT];
        }
        OverwriteAgrees(disk, e, v.slots[i], files[i], off, src);
      }
    }
  }

  lemma OverwriteAgrees(d: Image, e: Image, slots: seq<nat>, file: seq<Byte>, off: nat, src: seq<Byte>)
    requires FileAgrees(d, slots, file) && |d| == |e| && off <= |file|
    requires off % BSIZE + |src| <= BSIZE && off + |src| <= MAXFILE * BSIZE && 0 < |src|
    requires var a := slots[SlotOf(off / BSIZE)]; a != 0 && a < |d| && e == d[a := Splice(d[a], off % BSIZE, src)]
    requires forall t :: 0 <= t < NSLOTS && slots[t] != 0 && t != SlotOf(off / BSIZE) ==> slots[t] != slots[SlotOf(off / BSIZE)]
    ensures FileAgrees(e, slots, Overwrite(file, off, src))
  {
    var r := Overwrite(file, off, src);
    forall k: nat | k < |r|
      ensures ByteAgrees(e, slots, r, k)
    {
      if off <= k < off + |src| {
        assert k / BSIZE == off / BSIZE && k % BSIZE == off % BSIZE + (k - off);
      } else {
        assert ByteAgrees(d, slots, file, k);
        if k / BSIZE == off / BSIZE {
          assert k % BSIZE - off % BSIZE == k - off;
        }
      }
    }
  }

  /** A direct address and its slot are cleared together. */
  lemma AddrCleared(d: Image, e: Image, ip: Inode, slots: seq<nat>, s: nat)
    requires SlotsAgree(d, ip, slots) && s < NDIRECT && |d| == |e|
    requires ip.addrs[NDIRECT] != 0 ==> d[ip.addrs[NDIRECT]] == e[ip.addrs[NDIRECT]]
    ensures SlotsAgree(e, ip.(addrs := ip.addrs[s := 0]), slots[s := 0])
  {
    var slots' := slots[s := 0];
    forall k: nat | k < NINDIRECT && ip.addrs[NDIRECT] != 0
      ensures WordAgrees(e, ip.addrs[NDIRECT], slots', k)
    {
      assert WordAgrees(d, ip.addrs[NDIRECT], slots, k);
    }
  }

  /** The inodes and slots of everyone but i are the same. */
  ghost predicate SameOthers(i: nat, inodes: seq<Inode>, inodes': seq<Inode>, v: View, v': View) {
    && |inodes| == |inodes'| == |v.slots| == |v'.slots|
    && forall j :: 0 <= j < |inodes| && j != i ==> inodes[j] == inodes'[j] && v.slots[j] == v'.slots[j]
  }

  /** When one inode has given up every slot, the blocks still in use are exactly those of the others. */
  lemma FreedExactly(l: Layout, inodes: seq<Inode>, inodes': seq<Inode>, v: View, v': View, i: nat)
    requires 0 < l.nmeta && Owned(v, l, {}) && Owned(v', l, {}) && SameOthers(i, inodes, inodes', v, v')
    requires i < |v.slots| && forall s :: 0 <= s < NSLOTS ==> v'.slots[i][s] == 0
    ensures forall b :: b in v'.owner <==> b in v.owner && v.owner[b].0 != i
    ensures forall b :: 0 <= b < l.size ==> (v'.used[b] <==> v.used[b] && !(b in v.owner && v.owner[b].0 == i))
  {
    forall b | b in v'.owner
      ensures b in v.owner && v.owner[b].0 != i
    {
      assert OwnerHolds(v', b);
      var (j, t) := v'.owner[b];
      assert j != i && SlotOwns(v, j, t);
    }
    forall b | b in v.owner && v.owner[b].0 != i
      ensures b in v'.owner
    {
      assert OwnerHolds(v, b);
      var (j, t) := v.owner[b];
      assert SlotOwns(v', j, t);
    }
  }
}
