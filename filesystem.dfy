// The filesystem both the pipeline and the browsing API work on: a finite
// map from absolute paths to nodes, and the Node `fs` calls the code makes
// (access, stat, lstat, readdir, unlink, rename, mkdir -p, symlink), each
// with the POSIX outcome it has on that map.

module FileSystem {
  import opened Wrappers
  import opened Paths

  /** A directory keeps its entries in the order `readdir` reports them;
      `readable` is false for a directory `readdir` cannot open. A file is
      `complete` unless a tool stopped part-way through writing it. */
  datatype Node =
    | File(complete: bool)
    | Dir(entries: seq<string>, readable: bool)
    | Symlink(target: string)

  type FS = map<Path, Node>

  /** Linux gives up on a chain of more than 40 symbolic links (ELOOP). */
  const MaxSymlinkHops: nat := 40

  function ErrnoMessage(code: string, syscall: string, p: Path): string
  {
    code + ", " + syscall + " '" + Render(p) + "'"
  }

  /** A failed two-path call names both paths. */
  function RenameMessage(code: string, from: Path, to: Path): string
  {
    ErrnoMessage(code, "rename", from) + " -> '" + Render(to) + "'"
  }

  /** `fs.lstat`: the node itself, a symbolic link not followed. */
  function Lstat(fs: FS, p: Path): Option<Node>
  {
    if p in fs then Some(fs[p]) else None
  }

  /** The path a chain of symbolic links ending at `p` leads to, resolving
      each link's target against the link's own directory. */
  function Follow(fs: FS, p: Path, hops: nat): (r: Option<Path>)
    ensures r.Some? ==> r.value in fs && !fs[r.value].Symlink?
    decreases hops
  {
    if p !in fs then None
    else if !fs[p].Symlink? then Some(p)
    else if hops == 0 then None
    else Follow(fs, Resolve(Up(p), fs[p].target), hops - 1)
  }

  /** `fs.stat`: the node at the end of the link chain. */
  function Stat(fs: FS, p: Path): (r: Option<Node>)
    ensures r.Some? ==> !r.value.Symlink?
    ensures p in fs && !fs[p].Symlink? ==> r == Some(fs[p])
    ensures p !in fs ==> r.None?
  {
    var q := Follow(fs, p, MaxSymlinkHops);
    if q.Some? then Some(fs[q.value]) else None
  }

  /** `Dirent.isDirectory()`: what the entry itself is: a link to a directory is not
      a directory. */
  predicate IsDirEntry(fs: FS, p: Path)
  {
    p in fs && fs[p].Dir?
  }

  /** `fs.access(p)` with the default existence mode. */
  predicate Exists(fs: FS, p: Path)
  {
    Stat(fs, p).Some?
  }

  /** `fs.readdir(p)`: the names the directory at the end of the link
      chain lists, in its order. */
  function ReadDir(fs: FS, p: Path): (r: Result<seq<string>>)
    ensures r.Ok? <==> Stat(fs, p).Some? && Stat(fs, p).value.Dir? && Stat(fs, p).value.readable
    ensures r.Ok? ==> r.value == Stat(fs, p).value.entries
  {
    match Stat(fs, p)
    case None => Err(ErrnoMessage("ENOENT: no such file or directory", "scandir", p))
    case Some(n) =>
      if !n.Dir? then Err(ErrnoMessage("ENOTDIR: not a directory", "scandir", p))
      else if !n.readable then Err(ErrnoMessage("EACCES: permission denied", "scandir", p))
      else Ok(n.entries)
  }

  /** The name list without `name`. */
  function Without(names: seq<string>, name: string): (r: seq<string>)
    ensures name !in r
    ensures forall x :: x in r <==> x in names && x != name
  {
    if |names| == 0 then []
    else (if names[0] == name then [] else [names[0]]) + Without(names[1..], name)
  }

  lemma {:induction false} WithoutAbsent(names: seq<string>, name: string)
    requires name !in names
    ensures Without(names, name) == names
  {
    if |names| > 0 {
      WithoutAbsent(names[1..], name);
      assert [names[0]] + names[1..] == names;
    }
  }

  lemma {:induction false} WithoutAppend(names: seq<string>, name: string)
    ensures Without(names + [name], name) == Without(names, name)
  {
    if |names| == 0 {
      assert Without([name][1..], name) == [];
    } else {
      assert (names + [name])[1..] == names[1..] + [name];
      WithoutAppend(names[1..], name);
    }
  }

  /** Records a node at `p` and lists its name in its directory. */
  function AddEntry(fs: FS, p: Path, n: Node): (r: FS)
    requires p != []
    ensures r.Keys == fs.Keys + {p}
    ensures r[p] == n
    ensures forall q :: q in fs && q != p && q != Up(p) ==> r[q] == fs[q]
    ensures Up(p) in fs && fs[Up(p)].Dir? && Up(p) != p ==>
      r[Up(p)] == fs[Up(p)].(entries := Listed(fs[Up(p)].entries, p[|p| - 1]))
  {
    var parent, name := Up(p), p[|p| - 1];
    var fs1 := fs[p := n];
    if parent in fs && fs[parent].Dir? then
      fs1[parent := fs[parent].(entries := Listed(fs[parent].entries, name))]
    else fs1
  }

  /** A directory's entries once `name` is created in it. */
  function Listed(entries: seq<string>, name: string): (r: seq<string>)
    ensures name in r
    ensures forall x :: x in r <==> x in entries || x == name
  {
    if name in entries then entries else entries + [name]
  }

  /** Forgets the node at `p` and drops its name from its directory. */
  function RemoveEntry(fs: FS, p: Path): (r: FS)
    requires p != []
    ensures r.Keys == fs.Keys - {p}
    ensures forall q :: q in r && q != Up(p) ==> r[q] == fs[q]
    ensures Up(p) in r ==> (if fs[Up(p)].Dir?
      then r[Up(p)] == fs[Up(p)].(entries := Without(fs[Up(p)].entries, p[|p| - 1]))
      else r[Up(p)] == fs[Up(p)])
  {
    var parent, name := Up(p), p[|p| - 1];
    var fs1 := fs - {p};
    if parent in fs1 && fs1[parent].Dir? then
      fs1[parent := fs1[parent].(entries := Without(fs1[parent].entries, name))]
    else fs1
  }

  /** Writing a file and then removing it leaves the tree as removing it
      alone would: the directory forgets the name again. */
  lemma AddThenRemove(fs: FS, p: Path, n: Node)
    requires p != []
    ensures RemoveEntry(AddEntry(fs, p, n), p) == RemoveEntry(fs, p)
  {
    var a := RemoveEntry(AddEntry(fs, p, n), p);
    var b := RemoveEntry(fs, p);
    var parent, name := Up(p), p[|p| - 1];
    assert parent != p;
    if parent in fs && fs[parent].Dir? {
      var e := fs[parent].entries;
      if name !in e {
        WithoutAppend(e, name);
      }
      assert a[parent] == b[parent];
    }
    assert a.Keys == b.Keys;
  }

  /** A file can be created at `p` when its directory exists. */
  predicate CanCreate(fs: FS, p: Path)
  {
    p != [] && Up(p) in fs && fs[Up(p)].Dir?
  }

  /** `fs.symlink(target, p)`: a new link at `p`; `refusal` is the error
      the system raises for reasons the tree does not record (permissions,
      a read-only or full filesystem), if any. */
  function MakeSymlink(fs: FS, target: string, p: Path, refusal: Option<string>): (r: Result<FS>)
    ensures r.Ok? <==> CanCreate(fs, p) && p !in fs && refusal.None?
    ensures r.Ok? ==> r.value == AddEntry(fs, p, Symlink(target))
  {
    if !CanCreate(fs, p) then Err(SymlinkMessage("ENOENT: no such file or directory", target, p))
    else if p in fs then Err(SymlinkMessage("EEXIST: file already exists", target, p))
    else if refusal.Some? then Err(refusal.value)
    else Ok(AddEntry(fs, p, Symlink(target)))
  }

  function SymlinkMessage(code: string, target: string, p: Path): string
  {
    code + ", symlink '" + target + "' -> '" + Render(p) + "'"
  }

  /** An `unlink` whose error is caught and ignored. */
  function UnlinkQuietly(fs: FS, p: Path, refusal: Option<string>): FS
  {
    match Unlink(fs, p, refusal)
    case Ok(fs1) => fs1
    case Err(_) => fs
  }

  /** `fs.unlink(p)`: removes anything but a directory; `refusal` is the
      error the system raises for reasons the tree does not record
      (EACCES or EPERM on the directory, EROFS), if any. */
  function Unlink(fs: FS, p: Path, refusal: Option<string>): (r: Result<FS>)
    ensures r.Ok? <==> p != [] && p in fs && !fs[p].Dir? && refusal.None?
    ensures r.Ok? ==> r.value == RemoveEntry(fs, p)
    ensures p != [] && p in fs && !fs[p].Dir? && refusal.Some? ==> r == Err(refusal.value)
  {
    if p == [] || p !in fs then Err(ErrnoMessage("ENOENT: no such file or directory", "unlink", p))
    else if fs[p].Dir? then Err(ErrnoMessage("EISDIR: illegal operation on a directory", "unlink", p))
    else if refusal.Some? then Err(refusal.value)
    else Ok(RemoveEntry(fs, p))
  }

  /** `fs.rename(from, to)`: the node (a link itself, not its target)
      moves, replacing whatever non-directory sits at `to`. */
  function Rename(fs: FS, from: Path, to: Path): (r: Result<FS>)
    ensures r.Ok? <==> (from != [] && from in fs &&
      (from == to || (CanCreate(fs, to) && !IsPrefix(from, to) && (to in fs ==> !fs[to].Dir?))))
    ensures r.Ok? && from != to ==>
      r.value == AddEntry(RemoveEntry(fs, from), to, fs[from])
    ensures r.Ok? && from == to ==> r.value == fs
  {
    if from == [] || from !in fs then Err(RenameMessage("ENOENT: no such file or directory", from, to))
    else if from == to then Ok(fs)
    else if !CanCreate(fs, to) then Err(RenameMessage("ENOENT: no such file or directory", from, to))
    else if IsPrefix(from, to) then Err(RenameMessage("EINVAL: invalid argument", from, to))
    else if to in fs && fs[to].Dir? then Err(RenameMessage("EISDIR: illegal operation on a directory", from, to))
    else Ok(AddEntry(RemoveEntry(fs, from), to, fs[from]))
  }

  /** `fs.mkdir(p, { recursive: true })`: creates every missing directory
      on the way; fails when something other than a directory is in the
      way. */
  function MkdirP(fs: FS, p: Path): (r: Result<FS>)
    ensures r.Ok? ==> p == [] || (p in r.value && r.value[p].Dir?)
    decreases |p|
  {
    if p == [] then Ok(fs)
    else
      match MkdirP(fs, Up(p))
      case Err(m) => Err(m)
      case Ok(fs1) =>
        if p in fs1 then
          if fs1[p].Dir? then Ok(fs1)
          else Err(ErrnoMessage("EEXIST: file already exists", "mkdir", p))
        else
          Ok(AddEntry(fs1, p, Dir([], true)))
  }

  /** `mkdir -p` only adds readable directories on the way to `p` and
      changes no node off that way. */
  lemma {:induction false} MkdirPKeeps(fs: FS, p: Path)
    ensures MkdirP(fs, p).Ok? ==> MkdirKeeps(fs, p, MkdirP(fs, p).value)
    decreases |p|
  {
    if p != [] {
      MkdirPKeeps(fs, Up(p));
      var m := MkdirP(fs, Up(p));
      if m.Ok? {
        if p in m.value {
          if m.value[p].Dir? {
            MkdirExisting(fs, m.value, p);
          }
        } else {
          MkdirAdded(fs, m.value, p);
        }
      }
    }
  }

  /** What `mkdir -p` of `p` keeps: every node stays with its kind, and
      changes only on the way to `p`; what it adds are readable
      directories on the way to `p`. */
  ghost predicate MkdirKeeps(fs: FS, p: Path, r: FS)
  {
    fs.Keys <= r.Keys &&
    (forall q :: q in r && q !in fs ==> IsPrefix(q, p) && r[q].Dir? && r[q].readable) &&
    (forall q :: q in fs && !fs[q].Dir? ==> r[q] == fs[q]) &&
    (forall q :: q in fs ==> SameKind(fs[q], r[q])) &&
    (forall q :: q in fs && !IsPrefix(q, p) ==> r[q] == fs[q])
  }

  lemma MkdirExisting(fs: FS, fs1: FS, p: Path)
    requires p != [] && MkdirKeeps(fs, Up(p), fs1)
    ensures MkdirKeeps(fs, p, fs1)
  {
    assert IsPrefix(Up(p), p);
    forall q | q in fs1 && q !in fs ensures IsPrefix(q, p) {
      PrefixTransitive(q, Up(p), p);
    }
    forall q | q in fs && !IsPrefix(q, p) ensures fs1[q] == fs[q] {
      if IsPrefix(q, Up(p)) {
        PrefixTransitive(q, Up(p), p);
      }
    }
  }

  lemma MkdirAdded(fs: FS, fs1: FS, p: Path)
    requires p != [] && p !in fs1 && MkdirKeeps(fs, Up(p), fs1)
    ensures MkdirKeeps(fs, p, AddEntry(fs1, p, Dir([], true)))
  {
    var r := AddEntry(fs1, p, Dir([], true));
    assert IsPrefix(Up(p), p);
    forall q | q in r && q !in fs ensures IsPrefix(q, p) && r[q].Dir? && r[q].readable {
      if q != p {
        assert q in fs1;
        PrefixTransitive(q, Up(p), p);
      }
    }
    forall q | q in fs ensures SameKind(fs[q], r[q]) {
      assert SameKind(fs[q], fs1[q]);
    }
    forall q | q in fs && !IsPrefix(q, p) ensures r[q] == fs[q] {
      if IsPrefix(q, Up(p)) {
        PrefixTransitive(q, Up(p), p);
      }
    }
  }

  lemma PrefixTransitive<T>(a: seq<T>, b: seq<T>, c: seq<T>)
    requires IsPrefix(a, b) && IsPrefix(b, c)
    ensures IsPrefix(a, c)
  {
    assert c[..|a|] == c[..|b|][..|a|];
  }

  /** Two nodes of the same kind, a link with the same target: they differ
      at most in a directory's listing. */
  predicate SameKind(a: Node, b: Node)
  {
    match a
    case File(_) => b.File?
    case Dir(_, r) => b.Dir? && b.readable == r
    case Symlink(t) => b == Symlink(t)
  }

  /** Every node of `small` is in `big` with the same kind. */
  predicate Within(small: FS, big: FS)
  {
    forall q :: q in small ==> q in big && SameKind(small[q], big[q])
  }

  lemma RemoveWithin(fs: FS, p: Path)
    requires p != []
    ensures Within(RemoveEntry(fs, p), fs)
  {
  }

  lemma WithinTransitive(a: FS, b: FS, c: FS)
    requires Within(a, b) && Within(b, c)
    ensures Within(a, c)
  {
  }

  /** Creating a node where there was none keeps every other node and its
      kind. */
  lemma AddEntryWithin(fs: FS, p: Path, n: Node)
    requires p != [] && p !in fs
    ensures Within(fs, AddEntry(fs, p, n))
  {
  }

  lemma MkdirPWithin(fs: FS, p: Path)
    requires MkdirP(fs, p).Ok?
    ensures Within(fs, MkdirP(fs, p).value)
  {
    MkdirPKeeps(fs, p);
  }

  /** Following links only ever looks at kinds and targets, so a tree
      holding fewer nodes resolves no path that the larger one does not,
      and resolves it to the same place. */
  lemma {:induction false} FollowWithin(small: FS, big: FS, p: Path, hops: nat)
    requires Within(small, big)
    ensures Follow(small, p, hops).Some? ==> Follow(big, p, hops) == Follow(small, p, hops)
    decreases hops
  {
    if p in small && small[p].Symlink? && hops > 0 {
      FollowWithin(small, big, Resolve(Up(p), small[p].target), hops - 1);
    }
  }

  /** Hence removing nodes never makes a path accessible. */
  lemma ExistsWithin(small: FS, big: FS, p: Path)
    requires Within(small, big)
    ensures Exists(small, p) ==> Exists(big, p)
  {
    FollowWithin(small, big, p, MaxSymlinkHops);
  }

  // ---------------------------------------------------------------------
  // well-formed trees

  /** A tree as a real filesystem holds it: "/" is a directory, every path
      is normalised, every other node is listed by its directory, and a
      directory lists only nodes that exist. */
  ghost predicate Consistent(fs: FS)
  {
    [] in fs && fs[[]].Dir? && (forall p :: p in fs ==> ValidPath(p)) &&
    ParentsList(fs) && ListingsExist(fs)
  }

  /** `p` is "/" or is listed by its directory. */
  ghost predicate InParent(fs: FS, p: Path)
  {
    p != [] ==> Up(p) in fs && fs[Up(p)].Dir? && p[|p| - 1] in fs[Up(p)].entries
  }

  ghost predicate ParentsList(fs: FS)
  {
    forall p {:trigger InParent(fs, p)} :: p in fs ==> InParent(fs, p)
  }

  ghost predicate ListingsExist(fs: FS)
  {
    forall p, n :: p in fs && fs[p].Dir? && n in fs[p].entries ==> p + [n] in fs
  }

  /** Every name a directory lists is a plain segment. */
  ghost predicate NamesValid(fs: FS)
  {
    forall p, n :: p in fs && fs[p].Dir? && n in fs[p].entries ==> ValidSegment(n)
  }

  lemma ConsistentNamesValid(fs: FS)
    requires Consistent(fs)
    ensures NamesValid(fs)
  {
    forall p, n | p in fs && fs[p].Dir? && n in fs[p].entries ensures ValidSegment(n) {
      assert p + [n] in fs;
      assert ValidPath(p + [n]);
      assert (p + [n])[|p|] == n;
    }
  }

  /** When directories list only plain names, so does `readdir`, through
      links or not. */
  lemma ReadDirListsValid(fs: FS, p: Path)
    requires NamesValid(fs) && ReadDir(fs, p).Ok?
    ensures forall n :: n in ReadDir(fs, p).value ==> ValidSegment(n)
  {
    var d := Follow(fs, p, MaxSymlinkHops).value;
    assert ReadDir(fs, p).value == fs[d].entries;
  }

  /** A rename to a plain name keeps every listed name plain. */
  lemma RenameNamesValid(fs: FS, from: Path, to: Path)
    requires NamesValid(fs) && Rename(fs, from, to).Ok?
    requires to != [] && ValidSegment(to[|to| - 1])
    ensures NamesValid(Rename(fs, from, to).value)
  {
    if from != to {
      var fs1 := RemoveEntry(fs, from);
      assert NamesValid(fs1) by {
        forall p, n | p in fs1 && fs1[p].Dir? && n in fs1[p].entries ensures ValidSegment(n) {
          assert fs[p].Dir? && n in fs[p].entries;
        }
      }
    }
  }

  lemma UpLast(p: Path)
    requires p != []
    ensures Up(p) + [p[|p| - 1]] == p
  {
  }

  /** Creating a node in an existing directory, in place of nothing or of
      a non-directory, keeps the tree well formed. */
  lemma AddEntryConsistent(fs: FS, p: Path, n: Node)
    requires Consistent(fs) && CanCreate(fs, p) && ValidPath(p)
    requires p in fs ==> !fs[p].Dir?
    requires n.Dir? ==> n.entries == []
    ensures Consistent(AddEntry(fs, p, n))
  {
    AddEntryParents(fs, p, n);
    AddEntryListings(fs, p, n);
  }

  lemma AddEntryParents(fs: FS, p: Path, n: Node)
    requires ParentsList(fs) && CanCreate(fs, p)
    requires p in fs ==> !fs[p].Dir?
    ensures ParentsList(AddEntry(fs, p, n))
  {
    var r := AddEntry(fs, p, n);
    forall q | q in r ensures InParent(r, q) {
      if q != p && q != [] {
        assert q in fs && InParent(fs, q);
        assert Up(q) in fs && fs[Up(q)].Dir?;
        assert Up(q) != p;
        if Up(q) != Up(p) {
          assert r[Up(q)] == fs[Up(q)];
        }
      }
    }
  }

  lemma AddEntryListings(fs: FS, p: Path, n: Node)
    requires ListingsExist(fs) && CanCreate(fs, p)
    requires n.Dir? ==> n.entries == []
    ensures ListingsExist(AddEntry(fs, p, n))
  {
    var r := AddEntry(fs, p, n);
    UpLast(p);
    forall q, m | q in r && r[q].Dir? && m in r[q].entries ensures q + [m] in r {
      if q == Up(p) {
        assert m == p[|p| - 1] || m in fs[q].entries;
      } else if q != p {
        assert r[q] == fs[q];
      }
    }
  }

  /** Removing a non-directory keeps the tree well formed. */
  lemma RemoveEntryConsistent(fs: FS, p: Path)
    requires Consistent(fs) && p in fs && p != [] && !fs[p].Dir?
    ensures Consistent(RemoveEntry(fs, p))
  {
    RemoveEntryParents(fs, p);
    RemoveEntryListings(fs, p);
  }

  lemma RemoveEntryParents(fs: FS, p: Path)
    requires ParentsList(fs) && p in fs && p != [] && !fs[p].Dir?
    ensures ParentsList(RemoveEntry(fs, p))
  {
    var r := RemoveEntry(fs, p);
    UpLast(p);
    forall q | q in r ensures InParent(r, q) {
      if q != [] {
        assert q in fs && q != p && InParent(fs, q);
        assert Up(q) != p;
        UpLast(q);
        if Up(q) == Up(p) {
          assert q[|q| - 1] != p[|p| - 1];
        } else {
          assert r[Up(q)] == fs[Up(q)];
        }
      }
    }
  }

  lemma RemoveEntryListings(fs: FS, p: Path)
    requires ListingsExist(fs) && p in fs && p != [] && !fs[p].Dir?
    ensures ListingsExist(RemoveEntry(fs, p))
  {
    var r := RemoveEntry(fs, p);
    UpLast(p);
    forall q, m | q in r && r[q].Dir? && m in r[q].entries ensures q + [m] in r {
      if q == Up(p) {
        assert m != p[|p| - 1] && m in fs[q].entries;
        assert q + [m] != p;
      } else {
        assert r[q] == fs[q];
        assert q + [m] != p by {
          assert Up(q + [m]) == q;
        }
      }
    }
  }

  lemma UnlinkConsistent(fs: FS, p: Path, refusal: Option<string>)
    requires Consistent(fs)
    ensures Consistent(UnlinkQuietly(fs, p, refusal))
  {
    if Unlink(fs, p, refusal).Ok? {
      RemoveEntryConsistent(fs, p);
    }
  }

  /** `mkdir -p` of a normalised path keeps the tree well formed. */
  lemma {:induction false} MkdirPConsistent(fs: FS, p: Path)
    requires Consistent(fs) && ValidPath(p)
    ensures MkdirP(fs, p).Ok? ==> Consistent(MkdirP(fs, p).value)
    decreases |p|
  {
    if p != [] {
      MkdirPConsistent(fs, Up(p));
      var m := MkdirP(fs, Up(p));
      if m.Ok? && p !in m.value {
        AddEntryConsistent(m.value, p, Dir([], true));
      }
    }
  }

  /** Renaming a non-directory to a normalised path keeps the tree well
      formed. */
  lemma RenameConsistent(fs: FS, from: Path, to: Path)
    requires Consistent(fs) && ValidPath(to) && from in fs && !fs[from].Dir?
    ensures Rename(fs, from, to).Ok? ==> Consistent(Rename(fs, from, to).value)
  {
    if Rename(fs, from, to).Ok? && from != to {
      RemoveEntryConsistent(fs, from);
      var fs1 := RemoveEntry(fs, from);
      assert Up(to) != from;
      AddEntryConsistent(fs1, to, fs[from]);
    }
  }
}
