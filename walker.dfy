// The directory walker of the normalisation script
// (scripts/normalize-videos.js, walkDirectory): a depth-first traversal
// that skips dot-prefixed entries, refuses to enter the excluded top-level
// directories, hands every regular file to the caller and records a
// directory it cannot list as one error without stopping the walk.
//
// The traversal is given as the sequence of events it produces, in order:
// the callback calls and the error records the source interleaves.

module Walker {
  import opened Wrappers
  import opened Paths
  import opened FileSystem

  /** Top-level directories the walk never enters. */
  const ExcludedDirs: seq<string> := ["tags", ".trash", ".thumb"]

  /** One step of the walk: the callback runs on a regular file, or a
      directory that could not be listed is recorded with its absolute
      path and the `readdir` error message. */
  datatype Event = Visit(file: Path) | Unreadable(dir: Path, message: string)

  /** Dot-prefixed names are skipped. */
  predicate Hidden(name: string)
  {
    |name| > 0 && name[0] == '.'
  }

  predicate NoHidden(r: seq<string>)
  {
    forall i :: 0 <= i < |r| ==> !Hidden(r[i])
  }

  /** The nodes at or below `d`; it shrinks at every step down the tree,
      which is what bounds the walk. */
  function Under(fs: FS, d: Path): set<Path>
  {
    set q | q in fs.Keys && IsPrefix(d, q)
  }

  /** `walkDirectory(ROOT_DIR/rel)`. */
  function WalkDir(fs: FS, root: Path, rel: Path): seq<Event>
    decreases Under(fs, root + rel), 1, 0
  {
    if rel != [] && rel[0] in ExcludedDirs then []
    else
      match ReadDir(fs, root + rel)
      case Err(m) => [Unreadable(root + rel, m)]
      case Ok(names) => WalkEntries(fs, root, rel, names)
  }

  /** The loop over the entries `readdir` returned for ROOT_DIR/rel. */
  function WalkEntries(fs: FS, root: Path, rel: Path, names: seq<string>): seq<Event>
    requires root + rel in fs
    decreases Under(fs, root + rel), 0, |names|
  {
    if names == [] then []
    else
      var p := root + rel + [names[0]];
      var here :=
        if Hidden(names[0]) then []
        else if p in fs && fs[p].Dir? then
          UnderShrinks(fs, root + rel, names[0]);
          assert root + (rel + [names[0]]) == p;
          WalkDir(fs, root, rel + [names[0]])
        else if p in fs && fs[p].File? then [Visit(p)]
        else [];
      here + WalkEntries(fs, root, rel, names[1..])
  }

  lemma UnderShrinks(fs: FS, d: Path, name: string)
    requires d in fs
    ensures Under(fs, d + [name]) < Under(fs, d)
  {
    forall q | q in Under(fs, d + [name]) ensures q in Under(fs, d) {
      assert q[..|d|] == q[..|d| + 1][..|d|];
    }
    assert d !in Under(fs, d + [name]);
    assert d in Under(fs, d);
  }

  /** The path an event is about. */
  function EventPath(e: Event): Path
  {
    match e
    case Visit(p) => p
    case Unreadable(d, _) => d
  }

  /** What every event of a walk from `root` satisfies: it lies below the
      root along non-hidden names only; a directory reached below the top
      level is never one of the excluded ones; a visited path is a regular
      file; a recorded directory is one `readdir` fails on, with that
      failure's message. */
  predicate Admissible(fs: FS, root: Path, e: Event)
  {
    var p := EventPath(e);
    IsPrefix(root, p) &&
    var r := p[|root|..];
    NoHidden(r) &&
    match e
    case Visit(_) => |r| >= 1 && (|r| >= 2 ==> r[0] !in ExcludedDirs) && p in fs && fs[p].File?
    case Unreadable(_, m) => (|r| >= 1 ==> r[0] !in ExcludedDirs) && ReadDir(fs, p) == Err(m)
  }

  /** Every event of the walk of ROOT_DIR/rel lies below it and is
      admissible. */
  lemma {:induction false} WalkDirSound(fs: FS, root: Path, rel: Path)
    requires NoHidden(rel)
    ensures forall e :: e in WalkDir(fs, root, rel) ==>
      Admissible(fs, root, e) && IsPrefix(root + rel, EventPath(e))
    decreases Under(fs, root + rel), 1, 0
  {
    if !(rel != [] && rel[0] in ExcludedDirs) {
      match ReadDir(fs, root + rel)
      case Err(m) =>
        var e := Unreadable(root + rel, m);
        assert (root + rel)[|root|..] == rel;
        assert Admissible(fs, root, e);
      case Ok(names) =>
        WalkEntriesSound(fs, root, rel, names);
    }
  }

  lemma {:induction false} WalkEntriesSound(fs: FS, root: Path, rel: Path, names: seq<string>)
    requires root + rel in fs
    requires NoHidden(rel) && (rel != [] ==> rel[0] !in ExcludedDirs)
    ensures forall e :: e in WalkEntries(fs, root, rel, names) ==>
      Admissible(fs, root, e) && IsPrefix(root + rel, EventPath(e))
    decreases Under(fs, root + rel), 0, |names|
  {
    if names != [] {
      var name := names[0];
      var p := root + rel + [name];
      var child := rel + [name];
      assert root + child == p;
      assert p[|root|..] == child;
      assert IsPrefix(root, p);
      if !Hidden(name) {
        assert NoHidden(child);
        if p in fs && fs[p].Dir? {
          UnderShrinks(fs, root + rel, name);
          WalkDirSound(fs, root, child);
          forall e | e in WalkDir(fs, root, child)
            ensures IsPrefix(root + rel, EventPath(e))
          {
            PrefixTransitive(root + rel, p, EventPath(e));
          }
        } else if p in fs && fs[p].File? {
          assert Admissible(fs, root, Visit(p));
        }
      }
      WalkEntriesSound(fs, root, rel, names[1..]);
    }
  }

  /** A regular file listed, under a non-hidden name, in a directory the
      walk lists is visited. */
  lemma {:induction false} WalkEntriesVisitsFile(fs: FS, root: Path, rel: Path, names: seq<string>, i: nat)
    requires root + rel in fs
    requires i < |names| && !Hidden(names[i])
    requires root + rel + [names[i]] in fs && fs[root + rel + [names[i]]].File?
    ensures Visit(root + rel + [names[i]]) in WalkEntries(fs, root, rel, names)
    decreases i
  {
    if i > 0 {
      WalkEntriesVisitsFile(fs, root, rel, names[1..], i - 1);
    }
  }

  /** Everything the walk of a listed, non-hidden subdirectory produces is
      part of the walk of its parent: the walk covers the whole visible
      tree, and a failure below stops only that branch. */
  lemma {:induction false} WalkEntriesIncludesSubdir(fs: FS, root: Path, rel: Path, names: seq<string>, i: nat)
    requires root + rel in fs
    requires i < |names| && !Hidden(names[i])
    requires root + rel + [names[i]] in fs && fs[root + rel + [names[i]]].Dir?
    ensures forall e :: e in WalkDir(fs, root, rel + [names[i]]) ==> e in WalkEntries(fs, root, rel, names)
    decreases i
  {
    if i > 0 {
      WalkEntriesIncludesSubdir(fs, root, rel, names[1..], i - 1);
    } else {
      assert root + (rel + [names[0]]) == root + rel + [names[0]];
    }
  }

  /** Two trees that agree at and below a directory. */
  ghost predicate AgreeBelow(fs: FS, fs': FS, d: Path)
  {
    forall q :: IsPrefix(d, q) ==> Lstat(fs, q) == Lstat(fs', q)
  }

  /** The walk of a directory reads nothing outside it: a change anywhere
      else (a file created beside it, its parent's listing) leaves its walk
      as it was. A link at the top would read its target, which lies
      elsewhere. */
  lemma {:induction false} WalkDirFrame(fs: FS, fs': FS, root: Path, rel: Path)
    requires AgreeBelow(fs, fs', root + rel)
    requires root + rel in fs ==> !fs[root + rel].Symlink?
    ensures WalkDir(fs, root, rel) == WalkDir(fs', root, rel)
    decreases Under(fs, root + rel), 1, 0
  {
    assert IsPrefix(root + rel, root + rel);
    assert Lstat(fs, root + rel) == Lstat(fs', root + rel);
    if !(rel != [] && rel[0] in ExcludedDirs) {
      if ReadDir(fs, root + rel).Ok? {
        WalkEntriesFrame(fs, fs', root, rel, ReadDir(fs, root + rel).value);
      }
    }
  }

  lemma {:induction false} WalkEntriesFrame(fs: FS, fs': FS, root: Path, rel: Path, names: seq<string>)
    requires root + rel in fs && root + rel in fs'
    requires AgreeBelow(fs, fs', root + rel)
    ensures WalkEntries(fs, root, rel, names) == WalkEntries(fs', root, rel, names)
    decreases Under(fs, root + rel), 0, |names|
  {
    if names != [] {
      var p := root + rel + [names[0]];
      assert IsPrefix(root + rel, p);
      assert Lstat(fs, p) == Lstat(fs', p);
      if !Hidden(names[0]) && p in fs && fs[p].Dir? {
        UnderShrinks(fs, root + rel, names[0]);
        assert root + (rel + [names[0]]) == p;
        forall q | IsPrefix(p, q) ensures Lstat(fs, q) == Lstat(fs', q) {
          PrefixTransitive(root + rel, p, q);
        }
        WalkDirFrame(fs, fs', root, rel + [names[0]]);
      }
      WalkEntriesFrame(fs, fs', root, rel, names[1..]);
    }
  }
}
