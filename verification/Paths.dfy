/** Path names (fs.c): skipelem, and namex's walk down the directories. */
module Paths {
  import opened Blocks
  import opened FileBlocks
  import opened Files
  import opened Directory

  const SLASH: Byte := 47
  const ROOTINO := 1

  type Path = seq<Byte>     // a C string without its NUL

  // ---------------------------------------------------------------- what the elements of a path are

  /** The path cut at every slash, empty pieces included. */
  function Pieces(path: Path): (ps: seq<Name>)
    ensures |ps| >= 1
  {
    if path == [] then [[]]
    else
      var rest := Pieces(path[1..]);
      if path[0] == SLASH then [[]] + rest else [[path[0]] + rest[0]] + rest[1..]
  }

  function NonEmpty(ps: seq<Name>): seq<Name> {
    if ps == [] then [] else if ps[0] == [] then NonEmpty(ps[1..]) else [ps[0]] + NonEmpty(ps[1..])
  }

  /** The elements of a path: its non-empty pieces. */
  function Elements(path: Path): seq<Name> {
    NonEmpty(Pieces(path))
  }

  function CutAll(elems: seq<Name>): seq<Name> {
    if elems == [] then [] else [Cut(elems[0])] + CutAll(elems[1..])
  }

  /** A leading slash adds no element. */
  lemma LeadingSlash(path: Path)
    requires path != [] && path[0] == SLASH
    ensures Elements(path) == Elements(path[1..])
  {
    assert Pieces(path)[1..] == Pieces(path[1..]);
  }

  lemma {:induction false} PiecesOfElem(elem: Name, rest: Path)
    requires SLASH !in elem && (rest == [] || rest[0] == SLASH)
    ensures Pieces(elem + rest) == [elem] + Pieces(rest)[1..]
  {
    var path := elem + rest;
    if elem == [] {
      assert path == rest;
      if rest != [] {
        assert Pieces(rest)[0] == [];
      }
      assert Pieces(rest) == [[]] + Pieces(rest)[1..];
    } else {
      assert path[1..] == elem[1..] + rest;
      PiecesOfElem(elem[1..], rest);
      assert elem == [elem[0]] + elem[1..];
    }
  }

  /** A maximal run of other characters is the first element. */
  lemma FirstElem(elem: Name, rest: Path)
    requires elem != [] && SLASH !in elem && (rest == [] || rest[0] == SLASH)
    ensures Elements(elem + rest) == [elem] + Elements(rest)
  {
    PiecesOfElem(elem, rest);
    var ps := Pieces(rest);
    assert ps[0] == [];
    assert ([elem] + ps[1..])[1..] == ps[1..];
  }

  // ---------------------------------------------------------------- skipelem

  lemma HasElem(path: Path)
    requires path != [] && path[0] != SLASH
    ensures Elements(path) != []
  {
    assert Pieces(path)[0] != [];
  }

  lemma SplitAt(path: Path, s: nat, e: nat)
    requires s < e <= |path| && SLASH !in path[s..e] && (e < |path| ==> path[e] == SLASH)
    ensures Elements(path[s..]) == [path[s..e]] + Elements(path[e..])
  {
    assert path[s..] == path[s..e] + path[e..];
    FirstElem(path[s..e], path[e..]);
  }

  datatype Step = NoMore | Elem(next: nat, name: Name)

  method SkipSlashes(path: Path, i: nat) returns (j: nat)
    requires i <= |path|
    ensures i <= j <= |path| && (j < |path| ==> path[j] != SLASH)
    ensures Elements(path[j..]) == Elements(path[i..])
  {
    j := i;
    while j < |path| && path[j] == SLASH
      invariant i <= j <= |path|
      invariant Elements(path[j..]) == Elements(path[i..])
    {
      LeadingSlash(path[j..]);
      assert path[j..][1..] == path[j + 1..];
      j := j + 1;
    }
  }

  /** skipelem: the first element, cut to DIRSIZ, and the rest of the path without leading slashes; nothing exactly
      when no element is left. */
  method SkipElem(path: Path, i: nat) returns (r: Step)
    requires i <= |path|
    ensures r.NoMore? <==> Elements(path[i..]) == []
    ensures r.Elem? ==>
              && i < r.next <= |path| && (r.next < |path| ==> path[r.next] != SLASH)
              && Elements(path[i..]) != [] && r.name == Cut(Elements(path[i..])[0])
              && Elements(path[r.next..]) == Elements(path[i..])[1..]
              && forall c :: c in r.name ==> c in path
  {
    var s := SkipSlashes(path, i);
    if s == |path| {
      return NoMore;
    }
    var e := s;
    while e < |path| && path[e] != SLASH
      invariant s <= e <= |path|
      invariant SLASH !in path[s..e]
    {
      e := e + 1;
    }
    var name := if e - s >= DIRSIZ then path[s..s + DIRSIZ] else path[s..e];
    assert e - s >= DIRSIZ ==> path[s..e][..DIRSIZ] == path[s..s + DIRSIZ];
    SplitAt(path, s, e);
    var j := SkipSlashes(path, e);
    return Elem(j, name);
  }

  // ---------------------------------------------------------------- namex

  /** Every directory is well formed and lists existing inodes. */
  ghost predicate TreeOk(fs: FileSystem)
    reads fs
  {
    && fs.Valid()
    && forall i :: 0 <= i < |fs.inodes| && fs.inodes[i].kind == T_DIR ==>
         DirOk(fs.files[i]) && forall name :: name in DirMap(fs.files[i]) ==> DirMap(fs.files[i])[name] < |fs.inodes|
  }

  datatype Resolved = Missing | At(inum: nat)

  /** Following names from an inode by map lookup: every step but the last must be in a directory. */
  ghost function Resolve(inodes: seq<Inode>, files: seq<seq<Byte>>, i: nat, names: seq<Name>): Resolved
    requires |inodes| == |files|
    decreases |names|
  {
    if names == [] then At(i)
    else if i >= |inodes| || inodes[i].kind != T_DIR || names[0] !in DirMap(files[i]) then Missing
    else Resolve(inodes, files, DirMap(files[i])[names[0]], names[1..])
  }

  /** The directory that holds the last name. */
  ghost function ResolveParent(inodes: seq<Inode>, files: seq<seq<Byte>>, i: nat, names: seq<Name>): Resolved
    requires |inodes| == |files|
  {
    if names == [] then Missing
    else match Resolve(inodes, files, i, names[..|names| - 1])
         case Missing => Missing
         case At(p) => if p < |inodes| && inodes[p].kind == T_DIR then At(p) else Missing
  }

  lemma ParentOfRest(inodes: seq<Inode>, files: seq<seq<Byte>>, i: nat, names: seq<Name>)
    requires |inodes| == |files| && |names| > 1 && i < |inodes| && inodes[i].kind == T_DIR
    ensures ResolveParent(inodes, files, i, names)
         == if names[0] in DirMap(files[i]) then ResolveParent(inodes, files, DirMap(files[i])[names[0]], names[1..]) else Missing
  {
    assert names[..|names| - 1][1..] == names[1..][..|names| - 2];
  }

  function Last(names: seq<Name>): Name
    requires names != []
  {
    names[|names| - 1]
  }

  /** namex without a parent: the inode that the path's elements, each cut to DIRSIZ, lead to by map lookup from
      the root or the current directory. */
  method Namei(fs: FileSystem, cwd: nat, path: Path) returns (r: Resolved)
    requires TreeOk(fs) && cwd < |fs.inodes| && ROOTINO < |fs.inodes| && 0 !in path
    modifies fs`disk, fs`view, fs`inodes
    ensures fs.Valid() && fs.disk == old(fs.disk) && fs.view == old(fs.view) && fs.inodes == old(fs.inodes)
    ensures r == Resolve(fs.inodes, fs.files, if path != [] && path[0] == SLASH then ROOTINO else cwd, CutAll(Elements(path)))
  {
    var ip: nat := if path != [] && path[0] == SLASH then ROOTINO else cwd;
    ghost var start := ip;
    var i := 0;
    assert path[0..] == path;
    while true
      invariant TreeOk(fs) && fs.disk == old(fs.disk) && fs.view == old(fs.view) && fs.inodes == old(fs.inodes)
      invariant i <= |path| && ip < |fs.inodes|
      invariant Resolve(fs.inodes, fs.files, ip, CutAll(Elements(path[i..])))
             == Resolve(fs.inodes, fs.files, start, CutAll(Elements(path)))
      decreases |path| - i
    {
      var step := SkipElem(path, i);
      if step.NoMore? {
        return At(ip);
      }
      if fs.inodes[ip].kind != T_DIR {
        return Missing;
      }
      var next := DirLookup(fs, ip, step.name);
      if next.NotFound? {
        return Missing;
      }
      ip := next.inum;
      i := step.next;
    }
  }

  /** namex for the parent: the directory of the path's last element, and that element. */
  method NameiParent(fs: FileSystem, cwd: nat, path: Path) returns (r: Resolved, name: Name)
    requires TreeOk(fs) && cwd < |fs.inodes| && ROOTINO < |fs.inodes| && 0 !in path
    modifies fs`disk, fs`view, fs`inodes
    ensures fs.Valid() && fs.disk == old(fs.disk) && fs.view == old(fs.view) && fs.inodes == old(fs.inodes)
    ensures r == ResolveParent(fs.inodes, fs.files, if path != [] && path[0] == SLASH then ROOTINO else cwd, CutAll(Elements(path)))
    ensures r.At? ==> CutAll(Elements(path)) != [] && name == Last(CutAll(Elements(path)))
  {
    var ip: nat := if path != [] && path[0] == SLASH then ROOTINO else cwd;
    ghost var start, all := ip, CutAll(Elements(path));
    var i := 0;
    name := [];
    assert path[0..] == path;
    while true
      invariant TreeOk(fs) && fs.disk == old(fs.disk) && fs.view == old(fs.view) && fs.inodes == old(fs.inodes)
      invariant i <= |path| && ip < |fs.inodes|
      invariant ResolveParent(fs.inodes, fs.files, ip, CutAll(Elements(path[i..]))) == ResolveParent(fs.inodes, fs.files, start, all)
      invariant CutAll(Elements(path[i..])) != [] ==> all != [] && Last(CutAll(Elements(path[i..]))) == Last(all)
      decreases |path| - i
    {
      ghost var names := CutAll(Elements(path[i..]));
      var step := SkipElem(path, i);
      if step.NoMore? {
        return Missing, [];
      }
      if fs.inodes[ip].kind != T_DIR {
        return Missing, [];
      }
      if step.next == |path| {
        assert path[step.next..] == [];
        assert names == [step.name];
        return At(ip), step.name;
      }
      HasElem(path[step.next..]);
      ParentOfRest(fs.inodes, fs.files, ip, names);
      var next := DirLookup(fs, ip, step.name);
      if next.NotFound? {
        return Missing, [];
      }
      ip := next.inum;
      i := step.next;
    }
  }
}
