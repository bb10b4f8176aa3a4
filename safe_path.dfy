// The browsing API's guard against path traversal (`safePath` in
// src/api/files.js): a requested path is resolved against ROOT_DIR and
// refused unless it stays there.
//
// As written the guard compares strings: the resolved path must merely
// begin with ROOT_DIR's characters, so a sibling directory whose name
// extends ROOT_DIR's last segment ("/srv/media2" beside "/srv/media")
// passes. SafePathAsWritten models that check and SiblingEscapes shows
// the input; SafePath compares whole segments, which is what the guard is
// for, and is the one the rest of the API uses.

module SafePaths {
  import opened Wrappers
  import opened Paths

  const AccessDenied: string := "Access denied: Path traversal attempt"

  /** `safePath(requested)` as written, ROOT_DIR being `Render(root)`. */
  function SafePathAsWritten(root: Path, requested: string): Result<Path>
  {
    var resolved := Resolve(root, requested);
    if StartsWith(Render(resolved), Render(root)) then Ok(resolved) else Err(AccessDenied)
  }

  /** `safePath(requested)` with the containment test on whole segments. */
  function SafePath(root: Path, requested: string): Result<Path>
  {
    var resolved := Resolve(root, requested);
    if IsPrefix(root, resolved) then Ok(resolved) else Err(AccessDenied)
  }

  /** The guard as written lets a request reach a sibling of ROOT_DIR. */
  lemma SiblingEscapes()
    ensures SafePathAsWritten(["srv", "media"], "../media2/x") == Ok(["srv", "media2", "x"])
    ensures !IsPrefix(["srv", "media"], ["srv", "media2", "x"])
    ensures SafePath(["srv", "media"], "../media2/x") == Err(AccessDenied)
  {
    var root: Path := ["srv", "media"];
    var r: Path := ["srv", "media2", "x"];
    SiblingResolves(root, "../media2/x");
    SiblingRenders();
    assert r[..|root|] != root by {
      assert r[..|root|][1] == "media2";
    }
  }

  lemma SiblingResolves(root: Path, req: string)
    requires root == ["srv", "media"] && req == "../media2/x"
    ensures Resolve(root, req) == ["srv", "media2", "x"]
  {
    var segs := ["..", "media2", "x"];
    SiblingSplits(req);
    assert Resolve(root, req) == Normalize(root, segs);
    assert segs[1..] == ["media2", "x"];
    assert Normalize(root, segs) == Normalize(["srv"], ["media2", "x"]);
    NormalizeValid(["srv"], ["media2", "x"]);
  }

  lemma SiblingSplits(req: string)
    requires req == "../media2/x"
    ensures Split(req, '/') == ["..", "media2", "x"]
  {
    assert req == ".." + ['/'] + ("media2" + ['/'] + "x");
    SplitNoSep("x", '/');
    SplitPiece("media2", "x", '/');
    SplitPiece("..", "media2" + ['/'] + "x", '/');
  }

  lemma SiblingRenders()
    ensures StartsWith(Render(["srv", "media2", "x"]), Render(["srv", "media"]))
  {
    var a: seq<string> := ["srv", "media2", "x"];
    var b: seq<string> := ["srv", "media"];
    assert a[1..] == ["media2", "x"];
    assert a[1..][1..] == ["x"];
    assert b[1..] == ["media"];
    assert Join(b, '/') == "srv/media";
    assert Join(a, '/') == "srv/" + "media2/x";
    assert Render(a)[..|Render(b)|] == Render(b);
  }

  /** The corrected guard accepts exactly the requests whose resolved path
      lies at or below ROOT_DIR, and every such path the guard as written
      accepts too: it only refuses more. */
  lemma SafePathContained(root: Path, requested: string)
    ensures SafePath(root, requested).Ok? <==> IsPrefix(root, Resolve(root, requested))
    ensures SafePath(root, requested).Ok? ==>
      SafePathAsWritten(root, requested) == SafePath(root, requested)
    ensures SafePath(root, requested).Err? ==> SafePath(root, requested).message == AccessDenied
  {
    var resolved := Resolve(root, requested);
    if IsPrefix(root, resolved) {
      RenderPrefix(root, resolved);
    }
  }

  /** A request of plain names goes down from ROOT_DIR by those names, and
      the empty request is ROOT_DIR itself. */
  lemma {:induction false} SafePathDescends(root: Path, names: seq<string>)
    requires ValidPath(root) && ValidPath(names)
    ensures SafePath(root, Join(names, '/')) == Ok(root + names)
  {
    if names == [] {
      assert Split("", '/') == [""];
      assert Normalize(root, [""]) == Normalize(root, []);
      assert root + names == root;
      assert (root + names)[..|root|] == root;
    } else {
      assert NoSeparator(names);
      SplitJoin(names, '/');
      JoinHead(names, '/');
      NormalizeValid(root, names);
      assert (root + names)[..|root|] == root;
    }
  }

  /** Every path below ROOT_DIR, written relative to it as the listings
      hand it out, is accepted back and leads to the same place. */
  lemma SafePathOfRelative(root: Path, p: Path)
    requires ValidPath(root) && ValidPath(p) && IsPrefix(root, p)
    ensures SafePath(root, Relative(root, p)) == Ok(p)
  {
    RelativeResolves(root, p);
  }
}
