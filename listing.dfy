// The two read-only listings of the browsing API (src/api/files.js):
// `/list`, the visible entries of a directory with directories first and
// names ascending, and `/tree`, its visible subdirectories by name. Both
// are filter-map-sort chains over one `readdir`, so both are functions of
// the tree. Sizes and modification times are not modelled.

module Listing {
  import opened Wrappers
  import opened Paths
  import opened FileSystem
  import opened SafePaths
  import opened Sorting
  import Walker

  /** One entry of `/list`. */
  datatype Item = Item(name: string, path: string, isDirectory: bool)

  /** One entry of `/tree`. */
  datatype Branch = Branch(name: string, path: string, hasChildren: bool)

  // ---------------------------------------------------------------------
  // /list

  /** The item `/list` makes of one name, or None when it skips it. */
  function ListEntry(fs: FS, root: Path, dir: Path, name: string): Option<Item>
  {
    if Walker.Hidden(name) then None
    else
      var full := JoinPath(dir, name);
      if !Exists(fs, full) then None
      else Some(Item(name, Relative(root, full), IsDirEntry(fs, full)))
  }

  /** The items of the names, in `readdir` order, skipped ones dropped. */
  function ListItems(fs: FS, root: Path, dir: Path, names: seq<string>): seq<Item>
  {
    if names == [] then []
    else
      (match ListEntry(fs, root, dir, names[0])
       case None => []
       case Some(it) => [it]) + ListItems(fs, root, dir, names[1..])
  }

  /** The comparator of `/list`: directories first, then by name. */
  predicate ItemLe(a: Item, b: Item)
  {
    if a.isDirectory != b.isDirectory then a.isDirectory else NameLe(a.name, b.name)
  }

  /** `GET /list?path=requested`: the items, or the message of the 400. */
  function List(fs: FS, root: Path, requested: string): Result<seq<Item>>
  {
    match SafePath(root, requested)
    case Err(m) => Err(m)
    case Ok(dir) =>
      match ReadDir(fs, dir)
      case Err(m) => Err(m)
      case Ok(names) => Ok(Sort(ListItems(fs, root, dir, names), ItemLe))
  }

  lemma ItemLeOrders()
    ensures Total(ItemLe) && Transitive(ItemLe)
  {
    forall a, b ensures ItemLe(a, b) || ItemLe(b, a) {
      NameLeTotal(a.name, b.name);
    }
    forall a, b, c | ItemLe(a, b) && ItemLe(b, c) ensures ItemLe(a, c) {
      if a.isDirectory == b.isDirectory == c.isDirectory {
        NameLeTransitive(a.name, b.name, c.name);
      }
    }
  }

  /** Every name `readdir` gives yields an item exactly when it is not
      hidden and `stat` succeeds on it, and each item is the one its name
      makes. */
  lemma {:induction false} ListItemsMembers(fs: FS, root: Path, dir: Path, names: seq<string>, name: string)
    ensures (exists it :: it in ListItems(fs, root, dir, names) && it.name == name) <==>
      (name in names && !Walker.Hidden(name) && Exists(fs, JoinPath(dir, name)))
    ensures forall it :: it in ListItems(fs, root, dir, names) ==>
      it.name in names && ListEntry(fs, root, dir, it.name) == Some(it)
  {
    if names != [] {
      ListItemsMembers(fs, root, dir, names[1..], name);
      var rest := ListItems(fs, root, dir, names[1..]);
      var e := ListEntry(fs, root, dir, names[0]);
      if e.Some? {
        assert ListItems(fs, root, dir, names) == [e.value] + rest;
        if name == names[0] {
          assert e.value in ListItems(fs, root, dir, names);
        }
      } else {
        assert ListItems(fs, root, dir, names) == rest;
      }
    }
  }

  /** `/list` fails exactly when the guard refuses the path or `readdir`
      fails on it, and otherwise returns the items of its entries,
      reordered and nothing else. */
  lemma ListContents(fs: FS, root: Path, requested: string)
    ensures var r := List(fs, root, requested);
      (r.Err? <==> SafePath(root, requested).Err? || ReadDir(fs, SafePath(root, requested).value).Err?) &&
      (r.Ok? ==> var dir := SafePath(root, requested).value;
        multiset(r.value) == multiset(ListItems(fs, root, dir, ReadDir(fs, dir).value)))
  {
    var r := List(fs, root, requested);
    if r.Ok? {
      var dir := SafePath(root, requested).value;
      SortPermutes(ListItems(fs, root, dir, ReadDir(fs, dir).value), ItemLe);
    }
  }

  /** Every directory comes before every file, and names ascend among
      directories and among files. */
  lemma ListOrdered(fs: FS, root: Path, requested: string)
    ensures var r := List(fs, root, requested);
      r.Ok? ==> forall i, j :: 0 <= i < j < |r.value| ==>
        (r.value[i].isDirectory || !r.value[j].isDirectory) &&
        (r.value[i].isDirectory == r.value[j].isDirectory ==> NameLe(r.value[i].name, r.value[j].name))
  {
    var r := List(fs, root, requested);
    if r.Ok? {
      var dir := SafePath(root, requested).value;
      ItemLeOrders();
      SortSorted(ListItems(fs, root, dir, ReadDir(fs, dir).value), ItemLe);
    }
  }

  /** The item of a plain name in a directory below ROOT_DIR carries the
      entry's path relative to ROOT_DIR, which the guard accepts back as
      that very entry. */
  lemma ListedPath(fs: FS, root: Path, dir: Path, name: string)
    requires ValidPath(root) && ValidPath(dir) && IsPrefix(root, dir) && ValidSegment(name)
    requires ListEntry(fs, root, dir, name).Some?
    ensures var it := ListEntry(fs, root, dir, name).value;
      it.path == Join(dir[|root|..] + [name], '/') &&
      SafePath(root, it.path) == Ok(dir + [name])
  {
    var full := dir + [name];
    JoinChild(dir, name);
    assert IsPrefix(root, full) by {
      assert full[..|root|] == dir[..|root|];
    }
    assert ValidPath(full);
    assert full[|root|..] == dir[|root|..] + [name];
    SafePathOfRelative(root, full);
  }

  // ---------------------------------------------------------------------
  // /tree

  function TreeBranches(fs: FS, root: Path, dir: Path, names: seq<string>): seq<Branch>
  {
    if names == [] then []
    else
      var full := JoinPath(dir, names[0]);
      (if IsDirEntry(fs, full) && !Walker.Hidden(names[0])
       then [Branch(names[0], Relative(root, full), true)]
       else []) + TreeBranches(fs, root, dir, names[1..])
  }

  predicate BranchLe(a: Branch, b: Branch)
  {
    NameLe(a.name, b.name)
  }

  /** `GET /tree?path=requested`: the subdirectories, or the message of
      the 400. */
  function Tree(fs: FS, root: Path, requested: string): Result<seq<Branch>>
  {
    match SafePath(root, requested)
    case Err(m) => Err(m)
    case Ok(dir) =>
      match ReadDir(fs, dir)
      case Err(m) => Err(m)
      case Ok(names) => Ok(Sort(TreeBranches(fs, root, dir, names), BranchLe))
  }

  /** A name yields a branch exactly when its entry is a directory and it
      is not hidden; every branch claims children and carries its path
      relative to ROOT_DIR. */
  lemma {:induction false} TreeBranchesMembers(fs: FS, root: Path, dir: Path, names: seq<string>, name: string)
    ensures (exists b :: b in TreeBranches(fs, root, dir, names) && b.name == name) <==>
      (name in names && !Walker.Hidden(name) && IsDirEntry(fs, JoinPath(dir, name)))
    ensures forall b :: b in TreeBranches(fs, root, dir, names) ==>
      b == Branch(b.name, Relative(root, JoinPath(dir, b.name)), true)
  {
    if names != [] {
      TreeBranchesMembers(fs, root, dir, names[1..], name);
      var rest := TreeBranches(fs, root, dir, names[1..]);
      var full := JoinPath(dir, names[0]);
      if IsDirEntry(fs, full) && !Walker.Hidden(names[0]) {
        var b := Branch(names[0], Relative(root, full), true);
        assert TreeBranches(fs, root, dir, names) == [b] + rest;
        if name == names[0] {
          assert b in TreeBranches(fs, root, dir, names);
        }
      } else {
        assert TreeBranches(fs, root, dir, names) == rest;
      }
    }
  }

  /** `/tree` returns the branches of the directory's entries, reordered
      and nothing else, with names ascending. */
  lemma TreeContents(fs: FS, root: Path, requested: string)
    ensures var r := Tree(fs, root, requested);
      (r.Err? <==> SafePath(root, requested).Err? || ReadDir(fs, SafePath(root, requested).value).Err?) &&
      (r.Ok? ==> var dir := SafePath(root, requested).value;
        multiset(r.value) == multiset(TreeBranches(fs, root, dir, ReadDir(fs, dir).value)) &&
        forall i, j :: 0 <= i < j < |r.value| ==> NameLe(r.value[i].name, r.value[j].name))
  {
    var r := Tree(fs, root, requested);
    if r.Ok? {
      var dir := SafePath(root, requested).value;
      var bs := TreeBranches(fs, root, dir, ReadDir(fs, dir).value);
      SortPermutes(bs, BranchLe);
      assert Total(BranchLe) by {
        forall a, b ensures BranchLe(a, b) || BranchLe(b, a) {
          NameLeTotal(a.name, b.name);
        }
      }
      assert Transitive(BranchLe) by {
        forall a, b, c | BranchLe(a, b) && BranchLe(b, c) ensures BranchLe(a, c) {
          NameLeTransitive(a.name, b.name, c.name);
        }
      }
      SortSorted(bs, BranchLe);
    }
  }
}
