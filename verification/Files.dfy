/** fs.c's block allocator, bmap, itrunc, readi and writei in the classic layout.

    The class works on the flat block array that the buffer cache and the log implement.
    Its ghost fields are the view of block ownership and the files as byte strings; each
    method says what it does to those. */
module Files {
  import opened Blocks
  import opened Bitmap
  import opened FileBlocks

  /** balloc and bmap panic when no block is free. */
  datatype Alloc = Block(b: nat) | OutOfBlocks

  class FileSystem {
    const layout: Layout
    var disk: Image
    var inodes: seq<Inode>          // the inode cache
    var dinodes: seq<Inode>         // the inodes on the disk
    ghost var view: View
    ghost var files: seq<seq<Byte>>

    /** The bitmap agrees with the view, in which every block in use has one owner. */
    ghost predicate BlocksOk(pending: set<nat>)
      reads this
    {
      GoodLayout(layout) && Owned(view, layout, pending) && BitsAgree(layout, disk, view.used)
    }

    ghost predicate Inv(pending: set<nat>)
      reads this
    {
      BlocksOk(pending) && AllAgree(layout, disk, inodes, view, files)
    }

    /** Between calls: no block is pending, the sizes are those of the files, and the inodes on the disk are the
        ones in memory. */
    ghost predicate Valid()
      reads this
    {
      && Inv({}) && dinodes == inodes
      && forall i :: 0 <= i < |inodes| ==> inodes[i].size == |files[i]|
    }

    /** mkfs: a disk of zeros, the metadata blocks marked in the bitmap, n empty inodes. */
    constructor (l: Layout, n: nat)
      requires GoodLayout(l) && l.nmeta < BPB
      ensures Valid() && layout == l && |inodes| == n
      ensures forall i :: 0 <= i < n ==> files[i] == []
      ensures forall b :: 0 <= b < l.size ==> (view.used[b] <==> b < l.nmeta)
    {
      layout := l;
      var image;
      ghost var used;
      image, used := MarkMeta(l);
      var empty: seq<nat> := seq(NDIRECT + 1, s => 0);
      inodes := seq(n, i => Inode(0, 0, empty));
      dinodes := seq(n, i => Inode(0, 0, empty));
      files := seq(n, i => []);
      ghost var slots: seq<nat> := seq(NSLOTS, s => 0);
      disk := image;
      view := View(used, seq(n, i => slots), map[]);
    }

    /** mkfs's bitmap. */
    static method MarkMeta(l: Layout) returns (image: Image, ghost used: seq<bool>)
      requires GoodLayout(l) && l.nmeta < BPB
      ensures BitsAgree(l, image, used) && forall b :: 0 <= b < l.size ==> (used[b] <==> b < l.nmeta)
    {
      image := seq(l.size, b => ZeroBlock());
      used := seq(l.size, b => false);
      forall b: nat | b < l.size
        ensures BitAgrees(l, image, used, b)
      {
        TestBitOfZero(b % 8);
      }
      var i := 0;
      while i < l.nmeta
        invariant 0 <= i <= l.nmeta && BitsAgree(l, image, used)
        invariant forall b :: 0 <= b < l.size ==> (used[b] <==> b < i)
      {
        BitsAfterPut(l, image, used, i, true);
        image := image[l.bmapstart := PutBitInBlock(image[l.bmapstart], i, true)];
        used := used[i := true];
        i := i + 1;
      }
    }

    /** balloc's search: the first clear bit, or layout.size when every bit is set. */
    method FindFree() returns (b: nat)
      requires BlocksOk({})
      ensures b <= layout.size && (b < layout.size ==> !view.used[b])
      ensures forall c :: 0 <= c < b ==> view.used[c]
    {
      b := 0;
      while b < layout.size
        invariant b % BPB == 0
        invariant forall c :: 0 <= c < b && c < layout.size ==> view.used[c]
        decreases layout.size - b
      {
        var data := disk[BitmapBlock(layout.bmapstart, b)];
        var bi := 0;
        while bi < BPB && b + bi < layout.size
          invariant bi <= BPB
          invariant forall c :: 0 <= c < b + bi && c < layout.size ==> view.used[c]
        {
          assert BitAgrees(layout, disk, view.used, b + bi);
          BitOfBlock(b, bi);
          if !TestBit(data[bi / 8], bi % 8) {
            b := b + bi;
            return;
          }
          bi := bi + 1;
        }
        b := b + BPB;
      }
      b := layout.size;
    }

    /** balloc: the first free block, marked and zeroed. Nothing that has an owner changes. */
    method Balloc() returns (r: Alloc)
      requires Inv({})
      modifies `disk, `view
      ensures r.OutOfBlocks? ==> Inv({}) && disk == old(disk) && view == old(view) && forall b :: 0 <= b < layout.size ==> view.used[b]
      ensures r.Block? ==>
                && layout.nmeta <= r.b < layout.size && Inv({r.b})
                && !old(view.used[r.b]) && (forall c :: 0 <= c < r.b ==> old(view.used[c]))
                && view == old(view).(used := old(view.used)[r.b := true])
                && disk[r.b] == ZeroBlock()
                && (forall c :: layout.nmeta <= c < layout.size && c != r.b ==> disk[c] == old(disk)[c])
    {
      var b := FindFree();
      if b == layout.size {
        return OutOfBlocks;
      }
      var k := BitmapBlock(layout.bmapstart, b);
      BitsAfterPut(layout, disk, view.used, b, true);
      disk := disk[k := PutBitInBlock(disk[k], b % BPB, true)];
      view := view.(used := view.used[b := true]);
      BitsAfterDataWrite(layout, disk, view.used, b, ZeroBlock());
      disk := disk[b := ZeroBlock()];
      DataUnchanged(layout, old(disk), disk, inodes, old(view), {}, files);
      UsedKeepsOwned(old(view), b);
      return Block(b);
    }

    lemma UsedKeepsOwned(v: View, b: nat)
      requires Owned(v, layout, {}) && b < layout.size && !v.used[b]
      ensures Owned(v.(used := v.used[b := true]), layout, {b})
    {
      var w := v.(used := v.used[b := true]);
      forall c | c in w.owner
        ensures OwnerHolds(w, c)
      {
        assert OwnerHolds(v, c);
      }
      forall i: nat, s: nat | i < |w.slots| && s < NSLOTS
        ensures SlotOwns(w, i, s)
      {
        assert SlotOwns(v, i, s);
      }
    }

    /** bfree of a block no slot holds any more: its bit is set, so "freeing free block" cannot happen. */
    method Bfree(b: nat, ghost pending: set<nat>)
      requires BlocksOk(pending) && b in pending
      modifies `disk, `view
      ensures BlocksOk(pending - {b})
      ensures old(Bit(disk, layout.bmapstart, b))
      ensures view == old(view).(used := old(view.used)[b := false])
      ensures forall c :: layout.nmeta <= c < layout.size ==> disk[c] == old(disk)[c]
    {
      var k := BitmapBlock(layout.bmapstart, b);
      assert BitAgrees(layout, disk, view.used, b);
      BitsAfterPut(layout, disk, view.used, b, false);
      disk := disk[k := PutBitInBlock(disk[k], b % BPB, false)];
      view := view.(used := view.used[b := false]);
      FreedKeepsOwned(old(view), b, pending);
    }

    lemma FreedKeepsOwned(v: View, b: nat, pending: set<nat>)
      requires Owned(v, layout, pending) && b in pending
      ensures Owned(v.(used := v.used[b := false]), layout, pending - {b})
    {
      var w := v.(used := v.used[b := false]);
      forall c | c in w.owner
        ensures OwnerHolds(w, c)
      {
        assert OwnerHolds(v, c);
      }
      forall i: nat, s: nat | i < |w.slots| && s < NSLOTS
        ensures SlotOwns(w, i, s)
      {
        assert SlotOwns(v, i, s);
      }
    }

    /** Every bit of the bitmap is set. */
    ghost predicate DiskFull()
      reads this
    {
      |view.used| == layout.size && forall b :: 0 <= b < layout.size ==> view.used[b]
    }

    /** ip->addrs[s] = balloc() for an empty address. */
    method AllocAddr(i: nat, s: nat) returns (r: Alloc)
      requires Inv({}) && i < |inodes| && s <= NDIRECT && view.slots[i][s] == 0
      modifies `disk, `view, `inodes
      ensures Inv({})
      ensures r.OutOfBlocks? ==> inodes == old(inodes) && view == old(view) && DiskFull()
      ensures r.Block? ==> r.b != 0 && r.b < layout.size && inodes == PutAddr(old(inodes), i, s, r.b)
      ensures r.Block? ==> view.slots == PutSlot(old(view), i, s, r.b).slots
    {
      r := Balloc();
      if r.Block? {
        ClaimAddr(layout, disk, inodes, view, {r.b}, files, i, s, r.b);
        ClaimKeepsOwned(view, layout, {r.b}, i, s, r.b);
        inodes := PutAddr(inodes, i, s, r.b);
        view := Claim(view, i, s, r.b);
        assert {r.b} - {r.b} == {};
      }
    }

    /** The pending block b becomes the k-th word of the inode's indirect block. */
    method SetWord(i: nat, k: nat, b: nat)
      requires Inv({b}) && i < |inodes| && k < NINDIRECT
      requires inodes[i].addrs[NDIRECT] != 0 && view.slots[i][NDIRECT + 1 + k] == 0
      modifies `disk, `view
      ensures Inv({}) && view == Claim(old(view), i, NDIRECT + 1 + k, b)
    {
      var ind := inodes[i].addrs[NDIRECT];
      ClaimWord(layout, disk, inodes, view, {b}, files, i, k, b);
      ClaimKeepsOwned(view, layout, {b}, i, NDIRECT + 1 + k, b);
      BitsAfterDataWrite(layout, disk, view.used, ind, PutWord(disk[ind], k, b));
      disk := disk[ind := PutWord(disk[ind], k, b)];
      view := Claim(view, i, NDIRECT + 1 + k, b);
      assert {b} - {b} == {};
    }

    /** a[k] = balloc() for an empty word of the inode's indirect block. */
    method AllocWord(i: nat, k: nat) returns (r: Alloc)
      requires Inv({}) && i < |inodes| && k < NINDIRECT
      requires inodes[i].addrs[NDIRECT] != 0 && view.slots[i][NDIRECT + 1 + k] == 0
      modifies `disk, `view
      ensures Inv({})
      ensures r.OutOfBlocks? ==> view == old(view) && DiskFull()
      ensures r.Block? ==> r.b != 0 && view.slots == PutSlot(old(view), i, NDIRECT + 1 + k, r.b).slots
    {
      r := Balloc();
      if r.Block? {
        SetWord(i, k, r.b);
      }
    }

    /** bmap: the address of the file's bn-th block, allocated if there is none. A block already there is found
        without any change; no file's content changes. */
    method Bmap(i: nat, bn: nat) returns (r: Alloc)
      requires Inv({}) && i < |inodes| && bn < MAXFILE
      modifies `disk, `view, `inodes
      ensures Inv({})
      ensures r.Block? ==> r.b != 0 && r.b == view.slots[i][SlotOf(bn)]
      ensures old(view.slots[i][SlotOf(bn)]) != 0 ==> r.Block? && disk == old(disk) && view == old(view) && inodes == old(inodes)
      ensures OnlyThisSlot(old(view.slots), view.slots, i, bn) && (r.OutOfBlocks? ==> DiskFull())
      ensures |inodes| == |old(inodes)| && inodes[i].size == old(inodes[i].size)
      ensures forall j :: 0 <= j < |inodes| && j != i ==> inodes[j] == old(inodes[j])
    {
      if bn < NDIRECT {
        var addr := inodes[i].addrs[bn];
        if addr == 0 {
          r := AllocAddr(i, bn);
        } else {
          r := Block(addr);
        }
        return;
      }
      if inodes[i].addrs[NDIRECT] == 0 {
        assert view.slots[i][SlotOf(bn)] == 0;
        r := AllocAddr(i, NDIRECT);
        if r.OutOfBlocks? {
          return;
        }
      }
      r := BmapWord(i, bn - NDIRECT);
    }

    /** bmap's second half: word k of the indirect block. */
    method BmapWord(i: nat, k: nat) returns (r: Alloc)
      requires Inv({}) && i < |inodes| && k < NINDIRECT && inodes[i].addrs[NDIRECT] != 0
      modifies `disk, `view
      ensures Inv({})
      ensures r.Block? ==> r.b != 0 && view.slots == PutSlot(old(view), i, NDIRECT + 1 + k, r.b).slots
      ensures old(view.slots[i][NDIRECT + 1 + k]) != 0 ==>
                r == Block(old(view.slots[i][NDIRECT + 1 + k])) && disk == old(disk) && view == old(view)
      ensures r.OutOfBlocks? ==> view == old(view) && DiskFull()
    {
      var ind := inodes[i].addrs[NDIRECT];
      assert WordAgrees(disk, ind, view.slots[i], k);
      var addr := GetWord(disk[ind], k);
      if addr == 0 {
        r := AllocWord(i, k);
      } else {
        r := Block(addr);
        assert view.slots[i][NDIRECT + 1 + k := addr] == view.slots[i];
      }
    }

    /** readi: the file's bytes from off on, at most n of them, or a refusal when off is past the end or off+n
        overflows. Reading changes nothing: every block below the size is already mapped. */
    method ReadI(i: nat, off: nat, n: nat) returns (r: ReadResult)
      requires Valid() && i < |inodes| && off < WORD_LIMIT && n < WORD_LIMIT
      modifies `disk, `view, `inodes
      ensures Valid() && disk == old(disk) && view == old(view) && inodes == old(inodes)
      ensures r.Refused? <==> |files[i]| < off || WORD_LIMIT <= off + n
      ensures r.Bytes? ==> r.data == Slice(files[i], off, n)
    {
      if off > inodes[i].size || (off + n) % WORD_LIMIT < off {
        return Refused;
      }
      var left := if off + n > inodes[i].size then inodes[i].size - off else n;
      var dst: seq<Byte> := [];
      while |dst| < left
        invariant Valid() && disk == old(disk) && view == old(view) && inodes == old(inodes)
        invariant |dst| <= left && dst == files[i][off..off + |dst|]
        decreases left - |dst|
      {
        var o := off + |dst|;
        var chunk := ReadOne(i, o, left - |dst|);
        assert files[i][off..o + |chunk|] == files[i][off..o] + files[i][o..o + |chunk|];
        dst := dst + chunk;
      }
      return Bytes(dst);
    }

    /** One round of readi's loop: the bytes from o on that are in o's block, at most n of them. */
    method ReadOne(i: nat, o: nat, n: nat) returns (chunk: seq<Byte>)
      requires Inv({}) && i < |inodes| && 0 < n && o + n <= |files[i]|
      modifies `disk, `view, `inodes
      ensures Inv({}) && disk == old(disk) && view == old(view) && inodes == old(inodes)
      ensures 0 < |chunk| <= n && chunk == files[i][o..o + |chunk|]
    {
      assert ByteAgrees(disk, view.slots[i], files[i], o);
      var a := Bmap(i, o / BSIZE);
      var m := if n < BSIZE - o % BSIZE then n else BSIZE - o % BSIZE;
      ChunkOfFile(disk, view.slots[i], files[i], o, m);
      chunk := disk[a.b][o % BSIZE..o % BSIZE + m];
    }

    /** writei: bytes off..off+|src| of the file replaced, the file extended when they pass its end; refused when off
        is past the end, off+n overflows, or the file would grow past MAXFILE blocks. No other file changes, every
        block below the size stays mapped, and the inode on the disk is updated whenever the one in memory is. */
    method WriteI(i: nat, src: seq<Byte>, off: nat) returns (r: WriteResult)
      requires Valid() && i < |inodes| && off < WORD_LIMIT && |src| < WORD_LIMIT
      modifies `disk, `view, `inodes, `dinodes, `files
      ensures r.Rejected? <==> |old(files[i])| < off || MAXFILE * BSIZE < off + |src|
      ensures r.Rejected? ==> Valid() && disk == old(disk) && view == old(view) && inodes == old(inodes) && files == old(files)
      ensures r.Wrote? ==> Valid() && files == old(files)[i := Overwrite(old(files[i]), off, src)]
      ensures r.NoSpace? ==>
                && Inv({}) && DiskFull() && |old(files[i])| < off + |src|
                && exists t :: 0 <= t < |src| && files == old(files)[i := Overwrite(old(files[i]), off, src[..t])]
    {
      if off > inodes[i].size || (off + |src|) % WORD_LIMIT < off {
        return Rejected;
      }
      if off + |src| > MAXFILE * BSIZE {
        return Rejected;
      }
      var done;
      ghost var tot;
      done, tot := WriteBlocks(i, src, off);
      if !done {
        return NoSpace;
      }
      if 0 < |src| && off + |src| > inodes[i].size {
        inodes := inodes[i := inodes[i].(size := off + |src|)];
        dinodes := dinodes[i := inodes[i]];      // iupdate
      }
      return Wrote(|src|);
    }

    /** writei's loop: `tot` bytes are written. Only blocks past the end of the file are new, so an inode that
        changes is one that grows. */
    method WriteBlocks(i: nat, src: seq<Byte>, off: nat) returns (done: bool, ghost tot: nat)
      requires Inv({}) && i < |inodes| && off <= |files[i]| && off + |src| <= MAXFILE * BSIZE
      modifies `disk, `view, `inodes, `files
      ensures Inv({}) && |inodes| == |old(inodes)|
      ensures tot <= |src| && files == old(files)[i := Overwrite(old(files[i]), off, src[..tot])]
      ensures if done then src[..tot] == src else tot < |src| && DiskFull()
      ensures forall j :: 0 <= j < |inodes| && j != i ==> inodes[j] == old(inodes[j])
      ensures inodes[i].size == old(inodes[i].size)
      ensures off + |src| <= |old(files[i])| ==> done && inodes == old(inodes)
    {
      ghost var f0 := files[i];
      assert Overwrite(f0, off, src[..0]) == f0 && files[i := f0] == files;
      var n := 0;
      done, tot := true, 0;
      while n < |src| && done
        invariant Inv({}) && |inodes| == |old(inodes)|
        invariant tot <= n <= |src| && files == old(files)[i := Overwrite(f0, off, src[..tot])]
        invariant if done then tot == n else tot < n && DiskFull()
        invariant inodes[i].size == old(inodes[i].size)
        invariant forall j :: 0 <= j < |inodes| && j != i ==> inodes[j] == old(inodes[j])
        invariant off + n <= |f0| ==> done && inodes == old(inodes)
        decreases |src| - n
      {
        done, n := WriteNext(i, src, off, n, f0, old(files));
        if done {
          tot := n;
        }
      }
    }

    /** One round of writei's loop, after `tot` bytes; `next` counts the bytes it is to bring that to. */
    method WriteNext(i: nat, src: seq<Byte>, off: nat, tot: nat, ghost f0: seq<Byte>, ghost files0: seq<seq<Byte>>)
      returns (done: bool, next: nat)
      requires Inv({}) && i < |inodes| && off <= |f0| && tot < |src| && off + |src| <= MAXFILE * BSIZE
      requires i < |files0| && files == files0[i := Overwrite(f0, off, src[..tot])]
      modifies `disk, `view, `inodes, `files
      ensures Inv({}) && |inodes| == |old(inodes)| && tot < next <= |src|
      ensures files == files0[i := Overwrite(f0, off, src[..if done then next else tot])]
      ensures forall j :: 0 <= j < |inodes| && j != i ==> inodes[j] == old(inodes[j])
      ensures inodes[i].size == old(inodes[i].size)
      ensures off + next <= |f0| ==> done && inodes == old(inodes)
      ensures !done ==> DiskFull()
    {
      var o := off + tot;
      var m := if |src| - tot < BSIZE - o % BSIZE then |src| - tot else BSIZE - o % BSIZE;
      OverwriteMore(f0, off, src, tot, m);
      done := WriteOne(i, o, src[tot..tot + m]);
      next := tot + m;
    }

    /** One block: its address, and the bytes into it. */
    method WriteOne(i: nat, o: nat, chunk: seq<Byte>) returns (done: bool)
      requires Inv({}) && i < |inodes| && o <= |files[i]| && o % BSIZE + |chunk| <= BSIZE && 0 < |chunk|
      requires o + |chunk| <= MAXFILE * BSIZE
      modifies `disk, `view, `inodes, `files
      ensures Inv({}) && |inodes| == |old(inodes)|
      ensures files == if done then old(files)[i := Overwrite(old(files[i]), o, chunk)] else old(files)
      ensures forall j :: 0 <= j < |inodes| && j != i ==> inodes[j] == old(inodes[j])
      ensures inodes[i].size == old(inodes[i].size)
      ensures o < |old(files[i])| ==> done && inodes == old(inodes)
      ensures !done ==> DiskFull()
    {
      assert o < |files[i]| ==> ByteAgrees(disk, view.slots[i], files[i], o);
      var a := Bmap(i, o / BSIZE);
      done := a.Block?;
      if done {
        PutChunk(i, o, a.b, chunk);
      }
    }

    /** memmove into the block's buffer and log_write. */
    method PutChunk(i: nat, o: nat, a: nat, chunk: seq<Byte>)
      requires Inv({}) && i < |inodes| && o <= |files[i]| && o % BSIZE + |chunk| <= BSIZE && 0 < |chunk|
      requires o + |chunk| <= MAXFILE * BSIZE && a == view.slots[i][SlotOf(o / BSIZE)] != 0
      modifies `disk, `files
      ensures Inv({}) && files == old(files)[i := Overwrite(old(files[i]), o, chunk)]
    {
      WriteChunk(layout, disk, inodes, view, {}, files, i, o, chunk);
      BitsAfterDataWrite(layout, disk, view.used, a, Splice(disk[a], o % BSIZE, chunk));
      disk := disk[a := Splice(disk[a], o % BSIZE, chunk)];
      files := files[i := Overwrite(files[i], o, chunk)];
    }

    /** Every inode but i agrees with the disk. */
    ghost predicate OthersAgree(i: nat)
      reads this
    {
      && |view.slots| == |inodes| == |files|
      && forall j :: 0 <= j < |inodes| && j != i ==>
           SlotsAgree(disk, inodes[j], view.slots[j]) && FileAgrees(disk, view.slots[j], files[j])
    }

    /** bfree of the block in slot s of inode i, which the view then shows empty. */
    method FreeSlot(i: nat, s: nat, b: nat)
      requires BlocksOk({}) && OthersAgree(i) && i < |inodes| && s < NSLOTS && b == view.slots[i][s] != 0
      modifies `disk, `view
      ensures BlocksOk({}) && OthersAgree(i) && SameOthers(i, inodes, inodes, old(view), view)
      ensures view.slots[i] == old(view.slots[i])[s := 0]
      ensures forall c :: layout.nmeta <= c < layout.size ==> disk[c] == old(disk)[c]
    {
      DisownKeepsOwned(view, layout, {}, i, s);
      view := Disown(view, i, s);
      assert {} + {b} == {b} && {b} - {b} == {};
      Bfree(b, {b});
      forall j | 0 <= j < |inodes| && j != i
        ensures SlotsAgree(disk, inodes[j], view.slots[j]) && FileAgrees(disk, view.slots[j], files[j])
      {
        forall t | 0 <= t < NSLOTS && view.slots[j][t] != 0
          ensures layout.nmeta <= view.slots[j][t] < layout.size
        {
          assert SlotOwns(view, j, t);
        }
        OneDataUnchanged(layout, old(disk), disk, inodes[j], view, {}, files[j], j);
      }
    }

    /** itrunc's first loop: the direct blocks. */
    method FreeDirect(i: nat)
      requires BlocksOk({}) && OthersAgree(i) && i < |inodes| && SlotsAgree(disk, inodes[i], view.slots[i])
      modifies `disk, `view, `inodes
      ensures BlocksOk({}) && OthersAgree(i) && SlotsAgree(disk, inodes[i], view.slots[i])
      ensures SameOthers(i, old(inodes), inodes, old(view), view)
      ensures forall s :: 0 <= s < NDIRECT ==> inodes[i].addrs[s] == 0
    {
      var s := 0;
      while s < NDIRECT
        invariant 0 <= s <= NDIRECT
        invariant BlocksOk({}) && OthersAgree(i) && SameOthers(i, old(inodes), inodes, old(view), view)
        invariant SlotsAgree(disk, inodes[i], view.slots[i])
        invariant forall t :: 0 <= t < s ==> inodes[i].addrs[t] == 0
      {
        var b := inodes[i].addrs[s];
        if b != 0 {
          ghost var d, ip, slots := disk, inodes[i], view.slots[i];
          assert slots[NDIRECT] == ip.addrs[NDIRECT] && SlotOwns(view, i, NDIRECT);
          FreeSlot(i, s, b);
          AddrCleared(d, disk, ip, slots, s);
          inodes := PutAddr(inodes, i, s, 0);
        }
        s := s + 1;
      }
    }

    /** itrunc's second loop: the blocks the indirect block lists, then the indirect block itself. The words are not
        cleared, so until the address is, the disk still lists freed blocks. */
    method FreeIndirect(i: nat)
      requires BlocksOk({}) && OthersAgree(i) && i < |inodes| && SlotsAgree(disk, inodes[i], view.slots[i])
      requires forall s :: 0 <= s < NDIRECT ==> inodes[i].addrs[s] == 0
      modifies `disk, `view, `inodes
      ensures BlocksOk({}) && OthersAgree(i) && SlotsAgree(disk, inodes[i], view.slots[i])
      ensures SameOthers(i, old(inodes), inodes, old(view), view)
      ensures forall s :: 0 <= s < NSLOTS ==> view.slots[i][s] == 0
    {
      var ind := inodes[i].addrs[NDIRECT];
      if ind == 0 {
        return;
      }
      assert view.slots[i][NDIRECT] == ind && SlotOwns(view, i, NDIRECT);
      FreeWords(i, ind);
      FreeSlot(i, NDIRECT, ind);
      inodes := PutAddr(inodes, i, NDIRECT, 0);
    }

    method FreeWords(i: nat, ind: nat)
      requires BlocksOk({}) && OthersAgree(i) && i < |inodes| && layout.nmeta <= ind < layout.size
      requires Cleared(view.slots[i], 0) && WordsFrom(disk, ind, view.slots[i], 0) && view.slots[i][NDIRECT] == ind
      modifies `disk, `view
      ensures BlocksOk({}) && OthersAgree(i) && SameOthers(i, inodes, inodes, old(view), view)
      ensures Cleared(view.slots[i], NINDIRECT) && view.slots[i][NDIRECT] == ind
    {
      var data := disk[ind];
      var j := 0;
      while j < NINDIRECT
        invariant 0 <= j <= NINDIRECT
        invariant BlocksOk({}) && OthersAgree(i) && SameOthers(i, inodes, inodes, old(view), view)
        invariant view.slots[i][NDIRECT] == ind && disk[ind] == data
        invariant Cleared(view.slots[i], j) && WordsFrom(disk, ind, view.slots[i], j)
      {
        FreeWord(i, ind, data, j);
        j := j + 1;
      }
    }

    /** One round of itrunc's second loop: the block of word j. */
    method FreeWord(i: nat, ind: nat, data: Block, j: nat)
      requires BlocksOk({}) && OthersAgree(i) && i < |inodes| && j < NINDIRECT
      requires layout.nmeta <= ind < layout.size && disk[ind] == data
      requires Cleared(view.slots[i], j) && WordsFrom(disk, ind, view.slots[i], j)
      modifies `disk, `view
      ensures BlocksOk({}) && OthersAgree(i) && SameOthers(i, inodes, inodes, old(view), view)
      ensures view.slots[i][NDIRECT] == old(view.slots[i])[NDIRECT] && disk[ind] == data
      ensures Cleared(view.slots[i], j + 1) && WordsFrom(disk, ind, view.slots[i], j + 1)
    {
      ghost var d, slots := disk, view.slots[i];
      assert WordAgrees(disk, ind, slots, j);
      var b := GetWord(data, j);
      if b != 0 {
        FreeSlot(i, NDIRECT + 1 + j, b);
        forall k: nat | j < k < NINDIRECT
          ensures WordAgrees(disk, ind, view.slots[i], k)
        {
          assert WordAgrees(d, ind, slots, k);
        }
      }
    }

    /** itrunc: the file is empty and exactly its blocks, the indirect block included, are free again. */
    method ITrunc(i: nat)
      requires Valid() && i < |inodes|
      modifies `disk, `view, `inodes, `dinodes, `files
      ensures Valid() && files == old(files)[i := []]
      ensures forall b :: 0 <= b < layout.size ==>
                (view.used[b] <==> old(view.used[b]) && !(b in old(view.owner) && old(view.owner)[b].0 == i))
      ensures forall b :: b in view.owner <==> b in old(view.owner) && old(view.owner)[b].0 != i
    {
      ghost var v0, inodes0 := view, inodes;
      FreeDirect(i);
      FreeIndirect(i);
      FreedExactly(layout, inodes0, inodes, v0, view, i);
      files := files[i := []];
      inodes := inodes[i := inodes[i].(size := 0)];
      dinodes := dinodes[i := inodes[i]];      // iupdate
    }
  }

  /** The direct slots and the slots of the first j words are empty. */
  ghost predicate Cleared(slots: seq<nat>, j: nat) {
    |slots| == NSLOTS && forall s :: 0 <= s < NSLOTS && (s < NDIRECT || NDIRECT < s <= NDIRECT + j) ==> slots[s] == 0
  }

  /** The words from j on are those of the indirect block. */
  ghost predicate WordsFrom(disk: Image, ind: nat, slots: seq<nat>, j: nat) {
    |slots| == NSLOTS && ind < |disk| && forall k: nat :: j <= k < NINDIRECT ==> WordAgrees(disk, ind, slots, k)
  }

  datatype ReadResult = Refused | Bytes(data: seq<Byte>)
  datatype WriteResult = Rejected | NoSpace | Wrote(n: nat)

  /** The bytes of a file from off on, at most n of them. */
  function Slice(file: seq<Byte>, off: nat, n: nat): seq<Byte>
    requires off <= |file|
  {
    if off + n <= |file| then file[off..off + n] else file[off..]
  }

  lemma ChunkOfFile(disk: Image, slots: seq<nat>, file: seq<Byte>, o: nat, m: nat)
    requires FileAgrees(disk, slots, file) && o + m <= |file| && o % BSIZE + m <= BSIZE && 0 < m
    ensures var a := slots[SlotOf(o / BSIZE)];
            a != 0 && a < |disk| && disk[a][o % BSIZE..o % BSIZE + m] == file[o..o + m]
  {
    assert ByteAgrees(disk, slots, file, o);
    var chunk := disk[slots[SlotOf(o / BSIZE)]][o % BSIZE..o % BSIZE + m];
    forall t | 0 <= t < m
      ensures chunk[t] == file[o..o + m][t]
    {
      assert (o + t) / BSIZE == o / BSIZE && (o + t) % BSIZE == o % BSIZE + t;
      assert ByteAgrees(disk, slots, file, o + t);
    }
  }

  /** What has been written is what is read back, and the rest of the file is read as before. */
  lemma ReadBack(f: seq<Byte>, off: nat, src: seq<Byte>, from: nat, n: nat)
    requires off <= |f| && from <= |f|
    ensures Slice(Overwrite(f, off, src), off, |src|) == src
    ensures (from + n <= off || off + |src| <= from) && from + n <= |f| ==> Slice(Overwrite(f, off, src), from, n) == Slice(f, from, n)
  {
    var g := Overwrite(f, off, src);
    assert g[off..off + |src|] == src;
    if (from + n <= off || off + |src| <= from) && from + n <= |f| {
      assert g[from..from + n] == f[from..from + n];
    }
  }

  /** Two adjacent overwrites are one. */
  lemma OverwriteMore(f: seq<Byte>, off: nat, src: seq<Byte>, tot: nat, m: nat)
    requires off <= |f| && tot + m <= |src|
    ensures off + tot <= |Overwrite(f, off, src[..tot])|
    ensures Overwrite(Overwrite(f, off, src[..tot]), off + tot, src[tot..tot + m]) == Overwrite(f, off, src[..tot + m])
  {
  }

  lemma BitOfBlock(b: nat, bi: nat)
    requires b % BPB == 0 && bi < BPB
    ensures (b + bi) / BPB == b / BPB && (b + bi) % BPB == bi && (b + bi) % 8 == bi % 8
  {
    WithinByte(b + bi);
  }
}
