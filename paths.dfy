// String and path helpers shared by the pipeline and the browsing API: the
// JavaScript `split`/`join` pair, the extension rules of Node's
// `path.extname`/`path.parse`, and Node's POSIX `path.resolve` /
// `path.relative` on paths held as sequences of segments.

module Paths {

  /** An absolute path, as the segments after the leading "/". */
  type Path = seq<string>

  // ---------------------------------------------------------------------
  // split / join

  /** `xs.join(sep)` */
  function Join(xs: seq<string>, sep: char): string
  {
    if |xs| == 0 then ""
    else if |xs| == 1 then xs[0]
    else xs[0] + [sep] + Join(xs[1..], sep)
  }

  /** A join begins with its first piece. */
  lemma JoinFirst(xs: seq<string>, sep: char)
    ensures xs != [] ==> |Join(xs, sep)| >= |xs[0]| && Join(xs, sep)[..|xs[0]|] == xs[0]
  {
  }

  /** `s.split(sep)` for a one-character separator: never empty, and the
      pieces hold no separator. */
  function Split(s: string, sep: char): (r: seq<string>)
    ensures |r| >= 1
    ensures forall i :: 0 <= i < |r| ==> sep !in r[i]
  {
    if |s| == 0 then [""]
    else
      var rest := Split(s[1..], sep);
      if s[0] == sep then [""] + rest
      else [[s[0]] + rest[0]] + rest[1..]
  }

  /** Number of occurrences of `c` in `s`. */
  function Count(s: string, c: char): nat
  {
    if |s| == 0 then 0 else (if s[0] == c then 1 else 0) + Count(s[1..], c)
  }

  lemma CountAppend(a: string, b: string, c: char)
    ensures Count(a + b, c) == Count(a, c) + Count(b, c)
  {
    if |a| > 0 {
      assert (a + b)[1..] == a[1..] + b;
      CountAppend(a[1..], b, c);
    } else {
      assert a + b == b;
    }
  }

  lemma CountAbsent(s: string, c: char)
    requires c !in s
    ensures Count(s, c) == 0
  {
    if |s| > 0 {
      CountAbsent(s[1..], c);
    }
  }

  /** Joining pieces that hold no separator puts exactly one separator
      between each two of them. */
  lemma {:induction false} JoinCount(xs: seq<string>, sep: char)
    requires |xs| >= 1
    requires forall i :: 0 <= i < |xs| ==> sep !in xs[i]
    ensures Count(Join(xs, sep), sep) == |xs| - 1
  {
    CountAbsent(xs[0], sep);
    if |xs| > 1 {
      JoinCount(xs[1..], sep);
      CountAppend(xs[0] + [sep], Join(xs[1..], sep), sep);
      CountAppend(xs[0], [sep], sep);
      assert Count([sep], sep) == 1 by {
        assert [sep][1..] == [];
      }
    }
  }

  lemma SplitPrepend(c: char, s: string, sep: char)
    requires c != sep
    ensures Split([c] + s, sep) == [[c] + Split(s, sep)[0]] + Split(s, sep)[1..]
  {
    assert ([c] + s)[1..] == s;
  }

  /** Splitting then joining gives back the string. */
  lemma {:induction false} JoinSplit(s: string, sep: char)
    ensures Join(Split(s, sep), sep) == s
  {
    if |s| > 0 {
      var rest := Split(s[1..], sep);
      JoinSplit(s[1..], sep);
      if s[0] == sep {
        assert Split(s, sep) == [""] + rest;
        assert ([""] + rest)[1..] == rest;
      } else {
        var r := Split(s, sep);
        assert r == [[s[0]] + rest[0]] + rest[1..];
        if |rest| == 1 {
          assert r == [[s[0]] + rest[0]];
        } else {
          assert r[1..] == rest[1..];
          assert Join(rest, sep) == rest[0] + [sep] + Join(rest[1..], sep);
        }
        assert s == [s[0]] + s[1..];
      }
    }
  }

  /** Joining then splitting gives back the pieces, when none holds the
      separator. */
  lemma {:induction false} SplitJoin(xs: seq<string>, sep: char)
    requires |xs| >= 1
    requires forall i :: 0 <= i < |xs| ==> sep !in xs[i]
    ensures Split(Join(xs, sep), sep) == xs
  {
    if |xs| == 1 {
      SplitNoSep(xs[0], sep);
    } else {
      SplitJoin(xs[1..], sep);
      SplitPiece(xs[0], Join(xs[1..], sep), sep);
      assert [xs[0]] + xs[1..] == xs;
    }
  }

  lemma {:induction false} SplitNoSep(s: string, sep: char)
    requires sep !in s
    ensures Split(s, sep) == [s]
  {
    if |s| > 0 {
      SplitNoSep(s[1..], sep);
      assert [s[0]] + s[1..] == s;
    }
  }

  lemma {:induction false} SplitPiece(a: string, b: string, sep: char)
    requires sep !in a
    ensures Split(a + [sep] + b, sep) == [a] + Split(b, sep)
  {
    if |a| == 0 {
      assert a + [sep] + b == [sep] + b;
      assert ([sep] + b)[1..] == b;
    } else {
      var s := a + [sep] + b;
      assert s[0] == a[0] && s[0] != sep;
      assert s[1..] == a[1..] + [sep] + b;
      SplitPiece(a[1..], b, sep);
      var rest := Split(s[1..], sep);
      assert rest[0] == a[1..] && rest[1..] == Split(b, sep);
      assert [a[0]] + a[1..] == a;
    }
  }

  lemma {:induction false} JoinAppend(xs: seq<string>, ys: seq<string>, sep: char)
    requires |xs| >= 1 && |ys| >= 1
    ensures Join(xs + ys, sep) == Join(xs, sep) + [sep] + Join(ys, sep)
  {
    var zs := xs + ys;
    assert zs[0] == xs[0];
    if |xs| == 1 {
      assert zs[1..] == ys;
      assert Join(zs, sep) == xs[0] + [sep] + Join(ys, sep);
    } else {
      JoinAppend(xs[1..], ys, sep);
      assert zs[1..] == xs[1..] + ys;
      calc {
        Join(zs, sep);
        xs[0] + [sep] + Join(xs[1..] + ys, sep);
        xs[0] + [sep] + (Join(xs[1..], sep) + [sep] + Join(ys, sep));
        (xs[0] + [sep] + Join(xs[1..], sep)) + [sep] + Join(ys, sep);
      }
    }
  }

  // ---------------------------------------------------------------------
  // prefixes, case

  predicate StartsWith(s: string, prefix: string)
  {
    |prefix| <= |s| && s[..|prefix|] == prefix
  }

  predicate IsPrefix<T(==)>(a: seq<T>, b: seq<T>)
  {
    |a| <= |b| && b[..|a|] == a
  }

  /** ASCII `toLowerCase`. */
  function LowerChar(c: char): char
  {
    if 'A' <= c <= 'Z' then (c as int + 32) as char else c
  }

  function Lower(s: string): (r: string)
    ensures |r| == |s|
    ensures forall i :: 0 <= i < |s| ==> r[i] == LowerChar(s[i])
  {
    if |s| == 0 then "" else [LowerChar(s[0])] + Lower(s[1..])
  }

  // ---------------------------------------------------------------------
  // extension rules of path.extname / path.parse

  /** Index of the last `c` in `s`, or -1. */
  function LastIndexOf(s: string, c: char): (r: int)
    ensures -1 <= r < |s|
    ensures r >= 0 ==> s[r] == c
    ensures forall j :: r < j < |s| ==> s[j] != c
  {
    if |s| == 0 then -1
    else if s[|s| - 1] == c then |s| - 1
    else LastIndexOf(s[..|s| - 1], c)
  }

  /** `path.extname(base)`: from the last dot to the end, unless there is
      no dot, the only dot that counts is the name's first character, or
      the name is "..". */
  function ExtName(base: string): (r: string)
  {
    var i := LastIndexOf(base, '.');
    if i <= 0 || base == ".." then "" else base[i..]
  }

  /** `path.parse(base).name`: the name without its extension. */
  function StemName(base: string): (r: string)
  {
    base[..|base| - |ExtName(base)|]
  }

  lemma StemExt(base: string)
    ensures StemName(base) + ExtName(base) == base
    ensures ExtName(base) == "" || ExtName(base)[0] == '.'
    ensures ExtName(base) != "" ==> '.' !in ExtName(base)[1..]
  {
    var i := LastIndexOf(base, '.');
    if !(i <= 0 || base == "..") {
      assert base[..i] + base[i..] == base;
      assert forall j :: 1 <= j < |base[i..]| ==> base[i..][j] == base[i + j];
    }
  }

  // ---------------------------------------------------------------------
  // path.resolve / path.relative (POSIX)

  /** A segment as a normalised absolute path holds it. */
  predicate ValidSegment(s: string)
  {
    s != "" && s != "." && s != ".." && '/' !in s
  }

  predicate ValidPath(p: Path)
  {
    forall i :: 0 <= i < |p| ==> ValidSegment(p[i])
  }

  predicate NoSeparator(segs: seq<string>)
  {
    forall i :: 0 <= i < |segs| ==> '/' !in segs[i]
  }

  /** The string form of an absolute path. */
  function Render(p: Path): string
  {
    "/" + Join(p, '/')
  }

  /** Applies the segments of a path to a directory stack: empty and "."
      segments are dropped, ".." pops (never above "/"). */
  function Normalize(stack: Path, segs: seq<string>): (r: Path)
    requires NoSeparator(segs)
    ensures ValidPath(stack) ==> ValidPath(r)
    decreases |segs|
  {
    if segs == [] then stack
    else if segs[0] == "" || segs[0] == "." then Normalize(stack, segs[1..])
    else if segs[0] == ".." then Normalize(Up(stack), segs[1..])
    else Normalize(stack + [segs[0]], segs[1..])
  }

  /** The parent directory; "/" is its own parent. */
  function Up(p: Path): (r: Path)
    ensures ValidPath(p) ==> ValidPath(r)
    ensures r == if p == [] then [] else p[..|p| - 1]
  {
    if p == [] then [] else p[..|p| - 1]
  }

  /** `path.basename`: the last segment; "" for "/". */
  function BaseName(p: Path): (r: string)
  {
    if p == [] then "" else p[|p| - 1]
  }

  /** `path.resolve(Render(base), p)`. */
  function Resolve(base: Path, p: string): (r: Path)
    ensures ValidPath(base) ==> ValidPath(r)
  {
    if |p| > 0 && p[0] == '/' then Normalize([], Split(p, '/'))
    else Normalize(base, Split(p, '/'))
  }

  /** `path.join(Render(base), p)` for a relative `p`. */
  function JoinPath(base: Path, p: string): (r: Path)
    ensures ValidPath(base) ==> ValidPath(r)
  {
    Normalize(base, Split(p, '/'))
  }

  /** Joining a plain name adds it as one segment. */
  lemma JoinChild(dir: Path, name: string)
    requires ValidPath(dir) && ValidSegment(name)
    ensures JoinPath(dir, name) == dir + [name]
  {
    SplitNoSep(name, '/');
    NormalizeValid(dir, [name]);
  }

  function CommonPrefixLen(a: Path, b: Path): (k: nat)
    ensures k <= |a| && k <= |b|
    ensures a[..k] == b[..k]
    ensures k < |a| && k < |b| ==> a[k] != b[k]
  {
    if |a| == 0 || |b| == 0 || a[0] != b[0] then 0
    else
      var k := CommonPrefixLen(a[1..], b[1..]);
      assert a[..k + 1] == [a[0]] + a[1..][..k];
      assert b[..k + 1] == [b[0]] + b[1..][..k];
      k + 1
  }

  function Ups(n: nat): (r: seq<string>)
    ensures |r| == n
    ensures forall i :: 0 <= i < n ==> r[i] == ".."
  {
    if n == 0 then [] else [".."] + Ups(n - 1)
  }

  /** `path.relative(Render(from), Render(to))`: up to the common ancestor,
      then down to the target. */
  function Relative(from: Path, to: Path): (r: string)
    ensures IsPrefix(from, to) ==> r == Join(to[|from|..], '/')
    ensures !IsPrefix(from, to) ==> |r| >= 2 && r[..2] == ".."
  {
    var k := CommonPrefixLen(from, to);
    assert IsPrefix(from, to) ==> k == |from| && Ups(|from| - k) + to[k..] == to[|from|..];
    JoinFirst(Ups(|from| - k) + to[k..], '/');
    Join(Ups(|from| - k) + to[k..], '/')
  }

  lemma {:induction false} NormalizeUps(stack: Path, n: nat, rest: seq<string>)
    requires ValidPath(stack) && n <= |stack| && NoSeparator(rest)
    ensures Normalize(stack, Ups(n) + rest) == Normalize(stack[..|stack| - n], rest)
  {
    if n > 0 {
      var segs := Ups(n) + rest;
      assert segs[0] == "..";
      assert segs[1..] == Ups(n - 1) + rest;
      assert Normalize(stack, segs) == Normalize(Up(stack), segs[1..]);
      NormalizeUps(Up(stack), n - 1, rest);
      assert Up(stack)[..|stack| - 1 - (n - 1)] == stack[..|stack| - n];
    } else {
      assert Ups(0) + rest == rest;
      assert stack[..|stack|] == stack;
    }
  }

  lemma {:induction false} NormalizeValid(stack: Path, segs: seq<string>)
    requires ValidPath(stack) && ValidPath(segs)
    ensures Normalize(stack, segs) == stack + segs
    decreases |segs|
  {
    if segs != [] {
      NormalizeValid(stack + [segs[0]], segs[1..]);
      assert stack + [segs[0]] + segs[1..] == stack + segs;
    }
  }

  /** Resolving the relative path from `from` to `to` against `from`
      reaches `to`: the two Node functions are inverse on normalised
      paths. */
  lemma RelativeResolves(from: Path, to: Path)
    requires ValidPath(from) && ValidPath(to)
    ensures Resolve(from, Relative(from, to)) == to
  {
    var k := CommonPrefixLen(from, to);
    var segs := Ups(|from| - k) + to[k..];
    forall i | 0 <= i < |segs| ensures '/' !in segs[i] {
      if i >= |from| - k {
        assert segs[i] == to[k + i - (|from| - k)];
      }
    }
    if |segs| == 0 {
      assert from[..k] == from;
      assert to[..k] == to;
      assert Split(Join(segs, '/'), '/') == [""];
      assert Normalize(from, [""]) == Normalize(from, []);
    } else {
      ResolveSegments(from, to, k, segs);
    }
  }

  lemma ResolveSegments(from: Path, to: Path, k: nat, segs: seq<string>)
    requires ValidPath(from) && ValidPath(to)
    requires k <= |from| && k <= |to| && from[..k] == to[..k]
    requires segs == Ups(|from| - k) + to[k..] && |segs| > 0 && NoSeparator(segs)
    ensures Resolve(from, Join(segs, '/')) == to
  {
    assert segs[0] != "" && segs[0][0] != '/' by {
      if |from| - k > 0 {
        assert segs[0] == "..";
      } else {
        assert segs[0] == to[k];
      }
    }
    ResolveJoin(from, segs);
    NormalizeClimb(from, to, k);
  }

  /** Resolving the joined segments walks them one by one. */
  lemma ResolveJoin(base: Path, segs: seq<string>)
    requires |segs| > 0 && NoSeparator(segs) && segs[0] != "" && segs[0][0] != '/'
    ensures Resolve(base, Join(segs, '/')) == Normalize(base, segs)
  {
    JoinHead(segs, '/');
    SplitJoin(segs, '/');
  }

  /** Climbing from `from` to the common prefix, then descending along
      the rest of `to`, reaches `to`. */
  lemma NormalizeClimb(from: Path, to: Path, k: nat)
    requires ValidPath(from) && ValidPath(to)
    requires k <= |from| && k <= |to| && from[..k] == to[..k]
    ensures Normalize(from, Ups(|from| - k) + to[k..]) == to
  {
    var rest := to[k..];
    assert NoSeparator(rest) by {
      forall i | 0 <= i < |rest| ensures '/' !in rest[i] {
        assert rest[i] == to[k + i];
      }
    }
    NormalizeUps(from, |from| - k, rest);
    assert from[..|from| - (|from| - k)] == to[..k];
    assert ValidPath(to[..k]) && ValidPath(rest);
    NormalizeValid(to[..k], rest);
    assert to[..k] + rest == to;
  }

  lemma JoinHead(xs: seq<string>, sep: char)
    requires |xs| >= 1 && xs[0] != ""
    ensures |Join(xs, sep)| > 0 && Join(xs, sep)[0] == xs[0][0]
  {
  }

  /** Extending a path extends its string form. */
  lemma RenderPrefix(root: Path, p: Path)
    requires IsPrefix(root, p)
    ensures StartsWith(Render(p), Render(root))
  {
    if |root| > 0 && |p| > |root| {
      assert p == root + p[|root|..];
      JoinAppend(root, p[|root|..], '/');
    } else if |root| == |p| {
      assert p == root;
    }
  }
}
