// The breadcrumb of the page (public/js/app.js, `updateBreadcrumb`): a
// "Root" link with an empty path, then one link per "/"-separated part of
// the current path, each pointing at the path accumulated up to that part.
// The method builds the HTML the way the page does, appending one link per
// turn of its loop; the functions say which crumbs the page shows.

module Breadcrumb {
  import opened Paths

  /** A link of the breadcrumb: its `data-path` and its text. */
  datatype Crumb = Crumb(path: string, text: string)

  const RootCrumb: Crumb := Crumb("", "Root")

  /** `path ? path.split('/') : []` */
  function Parts(path: string): seq<string>
  {
    if path == "" then [] else Split(path, '/')
  }

  /** `accumulated` after the loop has gone over `parts`: each part added
      behind a "/", except while nothing has accumulated yet. */
  function Accumulated(parts: seq<string>): string
  {
    if parts == [] then ""
    else
      var before := Accumulated(parts[..|parts| - 1]);
      before + (if before != "" then "/" else "") + parts[|parts| - 1]
  }

  /** The crumbs shown for the parts: Root, then one per part. */
  function Trail(parts: seq<string>): (r: seq<Crumb>)
    ensures |r| == |parts| + 1 && r[0] == RootCrumb
  {
    if parts == [] then [RootCrumb]
    else Trail(parts[..|parts| - 1]) + [Crumb(Accumulated(parts), parts[|parts| - 1])]
  }

  /** The crumbs the page shows for `path`. */
  function Crumbs(path: string): seq<Crumb>
  {
    Trail(Parts(path))
  }

  /** The HTML of one link. */
  function Anchor(c: Crumb): string
  {
    "<a href=\"#\" data-path=\"" + c.path + "\">" + c.text + "</a>"
  }

  /** The links of the crumbs, " / " between each two. */
  function Html(crumbs: seq<Crumb>): string
    requires crumbs != []
  {
    if |crumbs| == 1 then Anchor(crumbs[0])
    else Html(crumbs[..|crumbs| - 1]) + " / " + Anchor(crumbs[|crumbs| - 1])
  }

  /** `updateBreadcrumb(path)`: the HTML put into the breadcrumb. */
  method UpdateBreadcrumb(path: string) returns (html: string)
    ensures html == Html(Crumbs(path))
  {
    var parts := if path != "" then Split(path, '/') else [];
    html := Anchor(RootCrumb);
    var accumulated := "";
    var k := 0;
    while k < |parts|
      invariant 0 <= k <= |parts|
      invariant accumulated == Accumulated(parts[..k])
      invariant html == Html(Trail(parts[..k]))
    {
      var part := parts[k];
      assert parts[..k + 1][..k] == parts[..k];
      accumulated := accumulated + (if accumulated != "" then "/" else "") + part;
      html := html + " / " + Anchor(Crumb(accumulated, part));
      TrailGrows(parts[..k + 1]);
      k := k + 1;
    }
    assert parts[..k] == parts;
  }

  // ---------------------------------------------------------------------
  // what the crumbs are

  /** One crumb per part after Root, crumb k + 1 labelled with part k and
      pointing at what has accumulated up to it. */
  lemma {:induction false} TrailShape(parts: seq<string>)
    ensures forall k :: 0 <= k < |parts| ==>
      Trail(parts)[k + 1] == Crumb(Accumulated(parts[..k + 1]), parts[k])
  {
    if parts != [] {
      var init := parts[..|parts| - 1];
      TrailShape(init);
      forall k | 0 <= k < |init|
        ensures Trail(parts)[k + 1] == Crumb(Accumulated(parts[..k + 1]), parts[k])
      {
        assert init[..k + 1] == parts[..k + 1];
      }
      assert parts[..|parts|] == parts;
    }
  }

  /** Each turn of the loop adds the next crumb at the end, and the HTML
      grows by exactly its link. */
  lemma TrailGrows(parts: seq<string>)
    requires parts != []
    ensures Html(Trail(parts)) ==
      Html(Trail(parts[..|parts| - 1])) + " / " + Anchor(Crumb(Accumulated(parts), parts[|parts| - 1]))
  {
    TrailShape(parts[..|parts| - 1]);
    var t := Trail(parts);
    assert t[..|t| - 1] == Trail(parts[..|parts| - 1]);
  }

  /** An empty path shows Root alone; otherwise there is one crumb per "/"
      in the path, plus two. */
  lemma CrumbCount(path: string)
    ensures path == "" ==> Crumbs(path) == [RootCrumb]
    ensures path != "" ==> |Crumbs(path)| == Count(path, '/') + 2
  {
    var parts := Parts(path);
    TrailShape(parts);
    if path != "" {
      JoinSplit(path, '/');
      JoinCount(parts, '/');
    }
  }

  /** What has accumulated only grows: each crumb's path starts with the
      path of the crumb before it. */
  lemma {:induction false} TrailNests(parts: seq<string>, k: nat)
    requires k < |parts|
    ensures StartsWith(Trail(parts)[k + 1].path, Trail(parts)[k].path)
  {
    TrailShape(parts);
    var a := Accumulated(parts[..k + 1]);
    if k > 0 {
      assert parts[..k + 1][..k] == parts[..k];
      var before := Accumulated(parts[..k]);
      assert a == before + (if before != "" then "/" else "") + parts[k];
      assert a[..|before|] == before;
    }
  }

  /** When the first part is not empty, the path accumulated over some
      parts is those parts joined with "/". */
  lemma {:induction false} AccumulatedJoins(parts: seq<string>)
    requires parts != [] && parts[0] != ""
    ensures Accumulated(parts) == Join(parts, '/')
  {
    var init := parts[..|parts| - 1];
    if |parts| > 1 {
      AccumulatedJoins(init);
      assert init[0] == parts[0];
      assert Join(init, '/') != "" by {
        JoinHeadPrefix(init);
      }
      JoinAppend(init, [parts[|parts| - 1]], '/');
      assert init + [parts[|parts| - 1]] == parts;
    } else {
      assert init == [];
    }
  }

  lemma JoinHeadPrefix(xs: seq<string>)
    requires xs != []
    ensures |Join(xs, '/')| >= |xs[0]|
  {
  }

  /** For a path that does not start with "/", the last crumb points at
      the whole path. */
  lemma LastCrumbIsPath(path: string)
    requires path != "" && path[0] != '/'
    ensures Crumbs(path)[|Crumbs(path)| - 1].path == path
  {
    var parts := Parts(path);
    TrailShape(parts);
    assert parts[0] != "" by {
      assert path == [path[0]] + path[1..];
      SplitPrepend(path[0], path[1..], '/');
    }
    AccumulatedJoins(parts);
    JoinSplit(path, '/');
    assert parts[..|parts|] == parts;
  }

  /** A path with a leading "/" shows an empty crumb after Root, and the
      "/" is lost from the paths: "/a" gives Root, an empty crumb pointing
      at "" and "a" pointing at "a". */
  lemma LeadingSlashDropped()
    ensures Crumbs("/a") == [RootCrumb, Crumb("", ""), Crumb("a", "a")]
  {
    SplitNoSep("a", '/');
    assert "/a"[1..] == "a";
    assert Split("/a", '/') == ["", "a"];
    assert Accumulated([""]) == "";
    assert ["", "a"][..1] == [""];
    assert Accumulated(["", "a"]) == "a";
  }
}
