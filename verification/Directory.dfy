/** Directories (fs.c): a file of 16-byte entries, a 2-byte inode number and a 14-byte name each, as a finite map
    from names to inode numbers. An entry with inode number 0 is free. */
module Directory {
  import opened Blocks
  import opened FileBlocks
  import opened Files

  const DIRSIZ := 14
  const ENTRY := 16         // sizeof(struct dirent)

  type Name = seq<Byte>     // a C string without its NUL

  // ---------------------------------------------------------------- one entry

  /** A fixed-width field read as a C string: up to the first NUL, if any. */
  function CString(field: seq<Byte>): (r: Name)
    ensures |r| <= |field|
  {
    if field == [] || field[0] == 0 then [] else [field[0]] + CString(field[1..])
  }

  /** What strncmp and strncpy with DIRSIZ see of a name. */
  function Cut(name: Name): (r: Name)
    ensures |r| <= DIRSIZ
  {
    if |name| <= DIRSIZ then name else name[..DIRSIZ]
  }

  /** The field strncpy fills: the cut name, then NULs. */
  function Pad(name: Name): (field: seq<Byte>)
    ensures |field| == DIRSIZ
  {
    Cut(name) + seq(DIRSIZ - |Cut(name)|, i => 0)
  }

  function Inum(e: seq<Byte>): nat
    requires |e| == ENTRY
  {
    e[0] as int + 256 * e[1] as int
  }

  function NameOf(e: seq<Byte>): Name
    requires |e| == ENTRY
  {
    CString(e[2..])
  }

  /** The entry dirlink writes; the inode number is stored in 16 bits. */
  function MakeEntry(name: Name, inum: nat): (e: seq<Byte>)
    ensures |e| == ENTRY
  {
    [inum % 256, inum / 256 % 256] + Pad(name)
  }

  lemma {:induction false} CStringOfPadded(s: seq<Byte>, zeros: nat)
    requires 0 !in s
    ensures CString(s + seq(zeros, i => 0)) == s
  {
    var f := s + seq(zeros, i => 0);
    if s != [] {
      CStringOfPadded(s[1..], zeros);
      assert f[1..] == s[1..] + seq(zeros, i => 0);
    }
  }

  /** An entry holds the cut name and the low 16 bits of the inode number. */
  lemma EntryRoundTrip(name: Name, inum: nat)
    requires 0 !in name
    ensures NameOf(MakeEntry(name, inum)) == Cut(name)
    ensures Inum(MakeEntry(name, inum)) == inum % 0x1_0000
  {
    assert MakeEntry(name, inum)[2..] == Pad(name);
    CStringOfPadded(Cut(name), DIRSIZ - |Cut(name)|);
  }

  // ---------------------------------------------------------------- a directory as a map

  function EntryAt(dir: seq<Byte>, k: nat): (e: seq<Byte>)
    requires ENTRY * k + ENTRY <= |dir|
    ensures |e| == ENTRY
  {
    dir[ENTRY * k..ENTRY * k + ENTRY]
  }

  predicate InUse(dir: seq<Byte>, k: nat)
    requires ENTRY * k + ENTRY <= |dir|
  {
    Inum(EntryAt(dir, k)) != 0
  }

  function NameAt(dir: seq<Byte>, k: nat): Name
    requires ENTRY * k + ENTRY <= |dir|
  {
    NameOf(EntryAt(dir, k))
  }

  /** Whole entries, and no name twice. */
  ghost predicate DirOk(dir: seq<Byte>) {
    && |dir| % ENTRY == 0
    && forall j: nat, k: nat :: j < k && ENTRY * k + ENTRY <= |dir| && InUse(dir, j) && InUse(dir, k) ==>
         NameAt(dir, j) != NameAt(dir, k)
  }

  /** The bindings of the first n entries. */
  function MapOf(dir: seq<Byte>, n: nat): map<Name, nat>
    requires ENTRY * n <= |dir|
  {
    if n == 0 then map[]
    else if InUse(dir, n - 1) then MapOf(dir, n - 1)[NameAt(dir, n - 1) := Inum(EntryAt(dir, n - 1))]
    else MapOf(dir, n - 1)
  }

  function DirMap(dir: seq<Byte>): map<Name, nat> {
    MapOf(dir, |dir| / ENTRY)
  }

  lemma {:induction false} MapOfHas(dir: seq<Byte>, n: nat, k: nat)
    requires DirOk(dir) && k < n && ENTRY * n <= |dir| && InUse(dir, k)
    ensures NameAt(dir, k) in MapOf(dir, n) && MapOf(dir, n)[NameAt(dir, k)] == Inum(EntryAt(dir, k))
  {
    if k < n - 1 {
      MapOfHas(dir, n - 1, k);
    }
  }

  lemma {:induction false} MapOfLacks(dir: seq<Byte>, n: nat, name: Name)
    requires ENTRY * n <= |dir|
    requires forall k: nat :: k < n && InUse(dir, k) ==> NameAt(dir, k) != name
    ensures name !in MapOf(dir, n)
  {
    if n > 0 {
      MapOfLacks(dir, n - 1, name);
    }
  }

  /** A binding comes from an entry in use. */
  lemma {:induction false} MapOfFrom(dir: seq<Byte>, n: nat, name: Name) returns (k: nat)
    requires ENTRY * n <= |dir| && name in MapOf(dir, n)
    ensures k < n && InUse(dir, k) && NameAt(dir, k) == name
  {
    if InUse(dir, n - 1) && NameAt(dir, n - 1) == name {
      k := n - 1;
    } else {
      k := MapOfFrom(dir, n - 1, name);
    }
  }

  // ---------------------------------------------------------------- changing one entry

  /** The other entries after entry k has been written. */
  lemma EntriesAfterWrite(dir: seq<Byte>, k: nat, e: seq<Byte>, j: nat)
    requires |dir| % ENTRY == 0 && |e| == ENTRY && ENTRY * k <= |dir| && ENTRY * j + ENTRY <= |Overwrite(dir, ENTRY * k, e)|
    ensures j == k || ENTRY * j + ENTRY <= |dir|
    ensures EntryAt(Overwrite(dir, ENTRY * k, e), j) == if j == k then e else EntryAt(dir, j)
  {
  }

  /** Writing a free entry adds its binding, unless what is written is itself free. */
  lemma {:induction false} MapAfterAdd(dir: seq<Byte>, k: nat, e: seq<Byte>, n: nat, after: seq<Byte>)
    requires |dir| % ENTRY == 0 && |e| == ENTRY && ENTRY * k <= |dir| && after == Overwrite(dir, ENTRY * k, e)
    requires ENTRY * k + ENTRY <= |dir| ==> !InUse(dir, k)
    requires forall j: nat :: ENTRY * j + ENTRY <= |dir| && InUse(dir, j) ==> NameAt(dir, j) != NameOf(e)
    requires ENTRY * n <= |dir|
    ensures MapOf(after, n)
         == if k < n && Inum(e) != 0 then MapOf(dir, n)[NameOf(e) := Inum(e)] else MapOf(dir, n)
  {
    if n > 0 {
      MapAfterAdd(dir, k, e, n - 1, after);
      EntriesAfterWrite(dir, k, e, n - 1);
      assert InUse(after, n - 1) <==> if n - 1 == k then Inum(e) != 0 else InUse(dir, n - 1);
      if k < n - 1 && InUse(dir, n - 1) {
        TwoBindings(MapOf(dir, n - 1), NameOf(e), Inum(e), NameAt(dir, n - 1), Inum(EntryAt(dir, n - 1)));
      }
    }
  }

  lemma TwoBindings(m: map<Name, nat>, x: Name, i: nat, y: Name, j: nat)
    requires x != y
    ensures m[x := i][y := j] == m[y := j][x := i]
  {
  }

  /** Clearing an entry removes the binding. */
  lemma {:induction false} MapAfterErase(dir: seq<Byte>, k: nat, e: seq<Byte>, n: nat)
    requires DirOk(dir) && |e| == ENTRY && Inum(e) == 0 && ENTRY * k + ENTRY <= |dir| && InUse(dir, k)
    requires ENTRY * n <= |dir|
    ensures MapOf(Overwrite(dir, ENTRY * k, e), n) == MapOf(dir, n) - {NameAt(dir, k)}
  {
    if n > 0 {
      MapAfterErase(dir, k, e, n - 1);
      EntriesAfterWrite(dir, k, e, n - 1);
      var m, x, y, j := MapOf(dir, n - 1), NameAt(dir, k), NameAt(dir, n - 1), Inum(EntryAt(dir, n - 1));
      if n - 1 == k {
        assert m[x := j] - {x} == m - {x};
      } else if InUse(dir, n - 1) {
        EraseOther(m, x, y, j);
      }
    }
  }

  lemma EraseOther(m: map<Name, nat>, x: Name, y: Name, j: nat)
    requires x != y
    ensures m[y := j] - {x} == (m - {x})[y := j]
  {
  }

  /** A map with one more binding; inode number 0 marks a free entry and so binds nothing. */
  function Bind(m: map<Name, nat>, name: Name, inum: nat): map<Name, nat> {
    if inum == 0 then m else m[name := inum]
  }

  lemma AddBinding(dir: seq<Byte>, k: nat, name: Name, inum: nat)
    requires DirOk(dir) && ENTRY * k <= |dir| && 0 !in name
    requires ENTRY * k + ENTRY <= |dir| ==> !InUse(dir, k)
    requires Cut(name) !in DirMap(dir)
    ensures var e := MakeEntry(name, inum); var after := Overwrite(dir, ENTRY * k, e);
            DirOk(after) && DirMap(after) == Bind(DirMap(dir), Cut(name), inum % 0x1_0000)
  {
    var e := MakeEntry(name, inum);
    var after := Overwrite(dir, ENTRY * k, e);
    EntryRoundTrip(name, inum);
    var n := |dir| / ENTRY;
    forall j: nat | ENTRY * j + ENTRY <= |dir| && InUse(dir, j)
      ensures NameAt(dir, j) != Cut(name)
    {
      MapOfHas(dir, n, j);
    }
    MapAfterAdd(dir, k, e, n, after);
    if k == n {
      EntriesAfterWrite(dir, k, e, n);
    }
    NamesAfterWrite(dir, k, e);
  }

  lemma EraseBinding(dir: seq<Byte>, k: nat)
    requires DirOk(dir) && ENTRY * k + ENTRY <= |dir| && InUse(dir, k)
    ensures var after := Overwrite(dir, ENTRY * k, seq(ENTRY, i => 0));
            DirOk(after) && DirMap(after) == DirMap(dir) - {NameAt(dir, k)}
  {
    MapAfterErase(dir, k, seq(ENTRY, i => 0), |dir| / ENTRY);
    NamesAfterWrite(dir, k, seq(ENTRY, i => 0));
  }

  lemma NamesAfterWrite(dir: seq<Byte>, k: nat, e: seq<Byte>)
    requires DirOk(dir) && |e| == ENTRY && ENTRY * k <= |dir|
    requires Inum(e) != 0 ==> forall j: nat :: ENTRY * j + ENTRY <= |dir| && InUse(dir, j) ==> NameAt(dir, j) != NameOf(e)
    ensures DirOk(Overwrite(dir, ENTRY * k, e))
  {
    var after := Overwrite(dir, ENTRY * k, e);
    assert |after| == |dir| || |after| == |dir| + ENTRY;
    forall i: nat, j: nat | i < j && ENTRY * j + ENTRY <= |after| && InUse(after, i) && InUse(after, j)
      ensures NameAt(after, i) != NameAt(after, j)
    {
      EntriesAfterWrite(dir, k, e, i);
      EntriesAfterWrite(dir, k, e, j);
      assert (i == k || InUse(dir, i)) && (j == k || InUse(dir, j));
    }
  }

  // ---------------------------------------------------------------- the operations

  /** strncmp(name, field, DIRSIZ) == 0 */
  method NameCmp(name: Name, field: seq<Byte>) returns (equal: bool)
    requires |field| == DIRSIZ && 0 !in name
    ensures equal <==> Cut(name) == CString(field)
  {
    var i := 0;
    while i < DIRSIZ && i < |name| && name[i] == field[i]
      invariant 0 <= i <= DIRSIZ && i <= |name| && name[..i] == field[..i]
    {
      i := i + 1;
    }
    CStringPrefix(field, i, name[..i]);
    if i == DIRSIZ {
      return true;
    }
    if i == |name| {
      return field[i] == 0;
    }
    assert name[i] in name;
    return false;
  }

  lemma {:induction false} CStringPrefix(field: seq<Byte>, i: nat, p: seq<Byte>)
    requires i <= |field| && field[..i] == p && 0 !in p
    ensures CString(field) == p + CString(field[i..])
  {
    if i > 0 {
      assert field[0] == p[0] && field[1..][..i - 1] == p[1..] && field[1..][i - 1..] == field[i..];
      CStringPrefix(field[1..], i - 1, p[1..]);
    }
  }

  datatype LookupResult = NotFound | Found(inum: nat, off: nat)

  /** readi of one entry. */
  method ReadEntry(fs: FileSystem, dp: nat, k: nat) returns (de: seq<Byte>)
    requires fs.Valid() && dp < |fs.inodes| && ENTRY * k + ENTRY <= |fs.files[dp]|
    modifies fs`disk, fs`view, fs`inodes
    ensures fs.Valid() && fs.disk == old(fs.disk) && fs.view == old(fs.view) && fs.inodes == old(fs.inodes)
    ensures de == EntryAt(fs.files[dp], k)
  {
    var r := fs.ReadI(dp, ENTRY * k, ENTRY);
    de := r.data;
  }

  /** dirlookup: map lookup, with the offset of the entry. The file system is not changed. */
  method DirLookup(fs: FileSystem, dp: nat, name: Name) returns (r: LookupResult)
    requires fs.Valid() && dp < |fs.inodes| && DirOk(fs.files[dp]) && 0 !in name
    modifies fs`disk, fs`view, fs`inodes
    ensures fs.Valid() && fs.disk == old(fs.disk) && fs.view == old(fs.view) && fs.inodes == old(fs.inodes)
    ensures r.NotFound? <==> Cut(name) !in DirMap(fs.files[dp])
    ensures r.Found? ==> r.inum == DirMap(fs.files[dp])[Cut(name)] && IsEntry(fs.files[dp], r.off, Cut(name))
  {
    ghost var dir := fs.files[dp];
    var k, de := FindEntry(fs, dp, name);
    if de == [] {
      MapOfLacks(dir, |dir| / ENTRY, Cut(name));
      return NotFound;
    }
    MapOfHas(dir, |dir| / ENTRY, k);
    return Found(Inum(de), ENTRY * k);
  }

  /** dirlookup's loop: the first entry in use with this name, or [] when there is none. */
  method FindEntry(fs: FileSystem, dp: nat, name: Name) returns (k: nat, de: seq<Byte>)
    requires fs.Valid() && dp < |fs.inodes| && |fs.files[dp]| % ENTRY == 0 && 0 !in name
    modifies fs`disk, fs`view, fs`inodes
    ensures fs.Valid() && fs.disk == old(fs.disk) && fs.view == old(fs.view) && fs.inodes == old(fs.inodes)
    ensures ENTRY * k <= |fs.files[dp]|
    ensures forall j: nat :: j < k && InUse(fs.files[dp], j) ==> NameAt(fs.files[dp], j) != Cut(name)
    ensures de == [] ==> ENTRY * k == |fs.files[dp]|
    ensures de != [] ==>
              && ENTRY * k + ENTRY <= |fs.files[dp]| && de == EntryAt(fs.files[dp], k)
              && Inum(de) != 0 && NameOf(de) == Cut(name)
  {
    k := 0;
    ghost var dir := fs.files[dp];
    while ENTRY * k < fs.inodes[dp].size
      invariant fs.Valid() && fs.disk == old(fs.disk) && fs.view == old(fs.view) && fs.inodes == old(fs.inodes)
      invariant fs.files[dp] == dir && ENTRY * k <= |dir|
      invariant forall j: nat :: j < k && InUse(dir, j) ==> NameAt(dir, j) != Cut(name)
    {
      de := ReadEntry(fs, dp, k);
      if Inum(de) != 0 {
        var equal := NameCmp(name, de[2..]);
        if equal {
          return;
        }
      }
      k := k + 1;
    }
    de := [];
  }

  /** The byte offset of an entry in use with this name. */
  ghost predicate IsEntry(dir: seq<Byte>, off: nat, name: Name) {
    off % ENTRY == 0 && off + ENTRY <= |dir| && InUse(dir, off / ENTRY) && NameAt(dir, off / ENTRY) == name
  }

  datatype LinkResult = Linked | Exists | Panics

  /** dirlink: fails exactly when the name is present, else adds exactly one binding, in the first free entry or at
      the end. No other file changes. */
  method DirLink(fs: FileSystem, dp: nat, name: Name, inum: nat) returns (r: LinkResult)
    requires fs.Valid() && dp < |fs.inodes| && DirOk(fs.files[dp]) && 0 !in name
    modifies fs
    ensures r.Exists? <==> Cut(name) in DirMap(old(fs.files[dp]))
    ensures r.Exists? ==> fs.Valid() && fs.files == old(fs.files)
    ensures r.Panics? ==> fs.DiskFull() || MAXFILE * BSIZE < |old(fs.files[dp])| + ENTRY
    ensures r.Linked? ==>
              && fs.Valid() && |fs.files| == |old(fs.files)|
              && (forall i :: 0 <= i < |fs.files| && i != dp ==> fs.files[i] == old(fs.files[i]))
              && DirOk(fs.files[dp])
              && DirMap(fs.files[dp]) == Bind(DirMap(old(fs.files[dp])), Cut(name), inum % 0x1_0000)
  {
    var present := DirLookup(fs, dp, name);
    if present.Found? {
      return Exists;
    }
    var k := FindFreeEntry(fs, dp);
    AddBinding(fs.files[dp], k, name, inum);
    var w := fs.WriteI(dp, MakeEntry(name, inum), ENTRY * k);
    return if w.Wrote? then Linked else Panics;
  }

  /** dirlink's search for a free entry; the end of the directory when there is none. */
  method FindFreeEntry(fs: FileSystem, dp: nat) returns (k: nat)
    requires fs.Valid() && dp < |fs.inodes| && DirOk(fs.files[dp])
    modifies fs`disk, fs`view, fs`inodes
    ensures fs.Valid() && fs.disk == old(fs.disk) && fs.view == old(fs.view) && fs.inodes == old(fs.inodes)
    ensures ENTRY * k <= |fs.files[dp]|
    ensures ENTRY * k + ENTRY <= |fs.files[dp]| ==> !InUse(fs.files[dp], k)
    ensures forall j: nat :: j < k ==> InUse(fs.files[dp], j)
  {
    k := 0;
    while ENTRY * k < fs.inodes[dp].size
      invariant fs.Valid() && fs.disk == old(fs.disk) && fs.view == old(fs.view) && fs.inodes == old(fs.inodes)
      invariant 0 <= k && ENTRY * k <= |fs.files[dp]|
      invariant forall j: nat :: j < k ==> InUse(fs.files[dp], j)
    {
      var de := ReadEntry(fs, dp, k);
      if Inum(de) == 0 {
        return;
      }
      k := k + 1;
    }
  }

  /** The erase in unlink: removes exactly the binding that dirlookup found at this offset. */
  method Erase(fs: FileSystem, dp: nat, off: nat, ghost name: Name)
    requires fs.Valid() && dp < |fs.inodes| && DirOk(fs.files[dp]) && IsEntry(fs.files[dp], off, name)
    modifies fs
    ensures fs.Valid() && |fs.files| == |old(fs.files)|
    ensures forall i :: 0 <= i < |fs.files| && i != dp ==> fs.files[i] == old(fs.files[i])
    ensures DirOk(fs.files[dp]) && DirMap(fs.files[dp]) == DirMap(old(fs.files[dp])) - {name}
  {
    EraseBinding(fs.files[dp], off / ENTRY);
    var w := fs.WriteI(dp, seq(ENTRY, i => 0), off);
  }
}
