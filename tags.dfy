// Tags in the browsing API (src/api/files.js). A file carries tag T when
// ROOT_DIR/tags/T is a visible directory holding a symbolic link named
// after the file. The functions here are what `getTagsForFile`,
// `removeAllSymlinks` and the POST `/tags` route do to the tree; the
// FileStore class of the FilesApi module runs the same loops step by step.

module Tagging {
  import opened Wrappers
  import opened Paths
  import opened FileSystem
  import opened SafePaths
  import Walker

  const TagsDirName: string := "tags"

  const PathRequired: string := "File path required"
  const PathAndTagsRequired: string := "File path and tags array required"
  const CannotTagDirectories: string := "Cannot tag directories"
  /** The `error` field of the 400 that lists failed links. */
  const SomeLinksFailed: string := "Some symlinks failed to create"

  /** `path.join(ROOT_DIR, 'tags')` */
  function TagsDir(root: Path): Path
  {
    root + [TagsDirName]
  }

  /** `path.join(tagsDir, tag)` */
  function TagDir(root: Path, tag: string): Path
  {
    JoinPath(TagsDir(root), tag)
  }

  /** `path.join(tagsDir, tag, fileName)` */
  function LinkPath(root: Path, tag: string, fileName: string): Path
  {
    JoinPath(TagDir(root, tag), fileName)
  }

  /** The message `fs.stat` fails with on a path it cannot reach. */
  function StatMissing(p: Path): string
  {
    ErrnoMessage("ENOENT: no such file or directory", "stat", p)
  }

  /** A name in tags/ the helpers look into: a visible directory entry. */
  predicate IsTagDir(fs: FS, root: Path, name: string)
  {
    !Walker.Hidden(name) && IsDirEntry(fs, TagDir(root, name))
  }

  /** The entry `name` of tags/ tags the file called `fileName`. */
  predicate Tags(fs: FS, root: Path, name: string, fileName: string)
  {
    IsTagDir(fs, root, name) &&
    LinkPath(root, name, fileName) in fs && fs[LinkPath(root, name, fileName)].Symlink?
  }

  // ---------------------------------------------------------------------
  // getTagsForFile

  /** The names among the first entries of tags/ that tag the file, in
      `readdir` order. */
  function TagsAmong(fs: FS, root: Path, names: seq<string>, fileName: string): seq<string>
  {
    if names == [] then []
    else
      var last := names[|names| - 1];
      TagsAmong(fs, root, names[..|names| - 1], fileName) +
        (if Tags(fs, root, last, fileName) then [last] else [])
  }

  /** `getTagsForFile(filePath)` for a file called `fileName`: nothing
      when tags/ cannot be listed. */
  function TagsOf(fs: FS, root: Path, fileName: string): seq<string>
  {
    match ReadDir(fs, TagsDir(root))
    case Err(_) => []
    case Ok(names) => TagsAmong(fs, root, names, fileName)
  }

  lemma {:induction false} TagsAmongMembers(fs: FS, root: Path, names: seq<string>, fileName: string, t: string)
    ensures t in TagsAmong(fs, root, names, fileName) <==> t in names && Tags(fs, root, t, fileName)
  {
    if names != [] {
      var init := names[..|names| - 1];
      TagsAmongMembers(fs, root, init, fileName, t);
      assert names == init + [names[|names| - 1]];
    }
  }

  /** The file's tags are exactly the visible directories of a listable
      tags/ that hold a link named after it. */
  lemma TagsOfMembers(fs: FS, root: Path, fileName: string, t: string)
    ensures t in TagsOf(fs, root, fileName) <==>
      ReadDir(fs, TagsDir(root)).Ok? && t in ReadDir(fs, TagsDir(root)).value && Tags(fs, root, t, fileName)
  {
    if ReadDir(fs, TagsDir(root)).Ok? {
      TagsAmongMembers(fs, root, ReadDir(fs, TagsDir(root)).value, fileName, t);
    }
  }

  /** In a normalised tree below a normalised ROOT_DIR the tag paths of
      plain names are the plain segment lists. */
  lemma TagPaths(root: Path, t: string, fileName: string)
    requires ValidPath(root) && ValidSegment(t) && ValidSegment(fileName)
    ensures TagDir(root, t) == root + [TagsDirName, t]
    ensures LinkPath(root, t, fileName) == root + [TagsDirName, t, fileName]
    ensures ValidPath(LinkPath(root, t, fileName))
  {
    assert ValidPath(TagsDir(root));
    JoinChild(TagsDir(root), t);
    JoinChild(TagDir(root, t), fileName);
  }

  // ---------------------------------------------------------------------
  // removeAllSymlinks

  /** The link paths `removeAllSymlinks` tries, one per visible directory
      among the first entries of tags/. */
  function TagLinks(fs: FS, root: Path, names: seq<string>, fileName: string): seq<Path>
  {
    if names == [] then []
    else
      var last := names[|names| - 1];
      TagLinks(fs, root, names[..|names| - 1], fileName) +
        (if IsTagDir(fs, root, last) then [LinkPath(root, last, fileName)] else [])
  }

  /** Quiet `unlink`s of the paths, in order; `refuseUnlink` is what the
      system answers to removing each path, beyond what the tree records. */
  function UnlinkAll(fs: FS, links: seq<Path>, refuseUnlink: Path -> Option<string>): FS
  {
    if links == [] then fs
    else
      var last := links[|links| - 1];
      UnlinkQuietly(UnlinkAll(fs, links[..|links| - 1], refuseUnlink), last, refuseUnlink(last))
  }

  /** `removeAllSymlinks(fileName)` */
  function RemoveLinks(fs: FS, root: Path, fileName: string, refuseUnlink: Path -> Option<string>): FS
  {
    match ReadDir(fs, TagsDir(root))
    case Err(_) => fs
    case Ok(names) => UnlinkAll(fs, TagLinks(fs, root, names, fileName), refuseUnlink)
  }

  lemma {:induction false} TagLinksMembers(fs: FS, root: Path, names: seq<string>, fileName: string, t: string)
    requires t in names && IsTagDir(fs, root, t)
    ensures LinkPath(root, t, fileName) in TagLinks(fs, root, names, fileName)
  {
    var init := names[..|names| - 1];
    if t != names[|names| - 1] {
      assert names == init + [names[|names| - 1]];
      TagLinksMembers(fs, root, init, fileName, t);
    }
  }

  /** The directories holding the paths: the only nodes whose listing an
      unlink of them may change. */
  ghost function Parents(links: seq<Path>): set<Path>
  {
    set l | l in links && l != [] :: Up(l)
  }

  /** The quiet unlinks remove exactly the listed non-directories the
      system does not refuse to remove, keep the kind of everything else,
      change nothing outside the listings of the paths' directories, and
      keep the tree well formed. */
  lemma {:induction false} UnlinkAllEffect(fs: FS, links: seq<Path>, refuseUnlink: Path -> Option<string>)
    ensures var r := UnlinkAll(fs, links, refuseUnlink);
      (forall q :: q in r <==> q in fs && !(q in links && q != [] && !fs[q].Dir? && refuseUnlink(q).None?)) &&
      Within(r, fs) &&
      (forall q :: q in r && q !in Parents(links) ==> r[q] == fs[q]) &&
      (forall q :: q in r && !fs[q].Dir? ==> r[q] == fs[q])
    ensures Consistent(fs) ==> Consistent(UnlinkAll(fs, links, refuseUnlink))
  {
    if links != [] {
      var init, last := links[..|links| - 1], links[|links| - 1];
      UnlinkAllEffect(fs, init, refuseUnlink);
      var fs1 := UnlinkAll(fs, init, refuseUnlink);
      assert links == init + [last];
      if Consistent(fs) {
        UnlinkConsistent(fs1, last, refuseUnlink(last));
      }
      if Unlink(fs1, last, refuseUnlink(last)).Ok? {
        RemoveWithin(fs1, last);
        WithinTransitive(RemoveEntry(fs1, last), fs1, fs);
      }
    }
  }

  /** `removeAllSymlinks` only removes nodes, keeps every other
      non-directory as it was and keeps the tree well formed. */
  lemma RemoveLinksKeeps(fs: FS, root: Path, fileName: string, refuseUnlink: Path -> Option<string>)
    ensures var r := RemoveLinks(fs, root, fileName, refuseUnlink);
      Within(r, fs) && (forall q :: q in r && !fs[q].Dir? ==> r[q] == fs[q]) &&
      (Consistent(fs) ==> Consistent(r))
  {
    if ReadDir(fs, TagsDir(root)).Ok? {
      UnlinkAllEffect(fs, TagLinks(fs, root, ReadDir(fs, TagsDir(root)).value, fileName), refuseUnlink);
    }
  }

  /** In a well-formed tree `removeAllSymlinks` removes nothing but nodes
      two levels below tags/. */
  lemma RemoveLinksDepth(fs: FS, root: Path, fileName: string, q: Path, refuseUnlink: Path -> Option<string>)
    requires Consistent(fs) && ValidPath(root) && ValidSegment(fileName)
    requires q in fs && q !in RemoveLinks(fs, root, fileName, refuseUnlink)
    ensures |q| == |root| + 3
  {
    var names := ReadDir(fs, TagsDir(root)).value;
    var links := TagLinks(fs, root, names, fileName);
    UnlinkAllEffect(fs, links, refuseUnlink);
    LinkDepth(fs, root, names, fileName, q);
  }

  /** After `removeAllSymlinks` the file keeps exactly the tags whose
      link the system refused to unlink (the error being swallowed); when
      none is refused, no tag is left. */
  lemma RemoveLinksClears(fs: FS, root: Path, fileName: string, refuseUnlink: Path -> Option<string>)
    requires Consistent(fs) && ValidSegment(fileName)
    ensures forall t :: t in TagsOf(RemoveLinks(fs, root, fileName, refuseUnlink), root, fileName) <==>
      t in TagsOf(fs, root, fileName) && refuseUnlink(LinkPath(root, t, fileName)).Some?
    ensures (forall t :: refuseUnlink(LinkPath(root, t, fileName)).None?) ==>
      TagsOf(RemoveLinks(fs, root, fileName, refuseUnlink), root, fileName) == []
  {
    var fs' := RemoveLinks(fs, root, fileName, refuseUnlink);
    if ReadDir(fs, TagsDir(root)).Ok? {
      assert ValidPath(root) by {
        assert ValidPath(TagsDir(root));
        assert forall i :: 0 <= i < |root| ==> root[i] == TagsDir(root)[i];
      }
      forall t ensures t in TagsOf(fs', root, fileName) <==>
        t in TagsOf(fs, root, fileName) && refuseUnlink(LinkPath(root, t, fileName)).Some?
      {
        RemovedUntagged(fs, root, fileName, t, refuseUnlink);
        if t in TagsOf(fs, root, fileName) && refuseUnlink(LinkPath(root, t, fileName)).Some? {
          RefusedLinkKept(fs, root, fileName, t, refuseUnlink);
        }
      }
      if TagsOf(fs', root, fileName) != [] {
        assert TagsOf(fs', root, fileName)[0] in TagsOf(fs', root, fileName);
      }
    } else {
      assert TagsOf(fs', root, fileName) == [];
      assert TagsOf(fs, root, fileName) == [];
    }
  }

  /** A tag left after the removals was on the file, and its link is one
      the system refused to unlink. */
  lemma RemovedUntagged(fs: FS, root: Path, fileName: string, t: string, refuseUnlink: Path -> Option<string>)
    requires Consistent(fs) && ValidSegment(fileName) && ValidPath(root)
    requires ReadDir(fs, TagsDir(root)).Ok?
    ensures t in TagsOf(RemoveLinks(fs, root, fileName, refuseUnlink), root, fileName) ==>
      t in TagsOf(fs, root, fileName) && refuseUnlink(LinkPath(root, t, fileName)).Some?
  {
    var fs' := RemoveLinks(fs, root, fileName, refuseUnlink);
    var tagsDir := TagsDir(root);
    var names := ReadDir(fs, tagsDir).value;
    var links := TagLinks(fs, root, names, fileName);
    UnlinkAllEffect(fs, links, refuseUnlink);
    RemoveLinksKeeps(fs, root, fileName, refuseUnlink);
    TagsOfMembers(fs', root, fileName, t);
    if t in TagsOf(fs', root, fileName) {
      ListedTagValid(fs', root, t);
      assert fs[tagsDir].Dir?;
      assert tagsDir !in Parents(links) by {
        if tagsDir in Parents(links) {
          var l :| l in links && l != [] && Up(l) == tagsDir;
          LinkDepth(fs, root, names, fileName, l);
        }
      }
      assert fs'[tagsDir] == fs[tagsDir];
      assert t in names;
      TagPaths(root, t, fileName);
      assert IsTagDir(fs, root, t);
      TagLinksMembers(fs, root, names, fileName, t);
      var link := LinkPath(root, t, fileName);
      assert SameKind(fs'[link], fs[link]);
      TagsOfMembers(fs, root, fileName, t);
    }
  }

  /** A tag whose link the system refuses to unlink is still reported
      after `removeAllSymlinks`. */
  lemma RefusedLinkKept(fs: FS, root: Path, fileName: string, t: string, refuseUnlink: Path -> Option<string>)
    requires Consistent(fs) && ValidSegment(fileName)
    requires t in TagsOf(fs, root, fileName) && refuseUnlink(LinkPath(root, t, fileName)).Some?
    ensures t in TagsOf(RemoveLinks(fs, root, fileName, refuseUnlink), root, fileName)
  {
    var fs' := RemoveLinks(fs, root, fileName, refuseUnlink);
    TagsOfMembers(fs, root, fileName, t);
    var names := ReadDir(fs, TagsDir(root)).value;
    UnlinkAllEffect(fs, TagLinks(fs, root, names, fileName), refuseUnlink);
    RemoveLinksKeeps(fs, root, fileName, refuseUnlink);
    assert Within(fs', fs') by {
      forall q | q in fs' ensures SameKind(fs'[q], fs'[q]) {
      }
    }
    TagKept(fs, fs', fs', root, fileName, t);
  }

  /** Every path `removeAllSymlinks` tries lies two levels below tags/. */
  lemma {:induction false} LinkDepth(fs: FS, root: Path, names: seq<string>, fileName: string, l: Path)
    requires Consistent(fs) && ValidSegment(fileName) && ValidPath(root)
    requires ReadDir(fs, TagsDir(root)).Ok?
    requires forall n :: n in names ==> n in ReadDir(fs, TagsDir(root)).value
    requires l in TagLinks(fs, root, names, fileName)
    ensures |l| == |root| + 3
  {
    var init, last := names[..|names| - 1], names[|names| - 1];
    if l in TagLinks(fs, root, init, fileName) {
      LinkDepth(fs, root, init, fileName, l);
    } else {
      ConsistentNamesValid(fs);
      ReadDirListsValid(fs, TagsDir(root));
      TagPaths(root, last, fileName);
    }
  }

  /** A tree that lists no more in tags/ and holds no more below it, each
      node of the same kind, tags the file with no more tags. */
  lemma TagsOfShrinks(big: FS, small: FS, root: Path, f: string)
    requires Consistent(big) && NamesValid(small) && ValidPath(root) && ValidSegment(f)
    requires TagsDir(root) in small ==>
      (TagsDir(root) in big && SameKind(small[TagsDir(root)], big[TagsDir(root)]) &&
       (small[TagsDir(root)].Dir? ==>
         forall n :: n in small[TagsDir(root)].entries ==> n in big[TagsDir(root)].entries))
    requires forall q :: q in small && |q| > |root| + 1 && IsPrefix(TagsDir(root), q) ==>
      q in big && SameKind(small[q], big[q])
    ensures forall t :: t in TagsOf(small, root, f) ==> t in TagsOf(big, root, f)
  {
    forall t | t in TagsOf(small, root, f) ensures t in TagsOf(big, root, f) {
      var tagsDir := TagsDir(root);
      TagsOfMembers(small, root, f, t);
      ReadDirListsValid(small, tagsDir);
      TagPaths(root, t, f);
      var tagDir, link := TagDir(root, t), LinkPath(root, t, f);
      assert IsPrefix(tagsDir, tagDir) && IsPrefix(tagsDir, link);
      assert SameKind(small[tagDir], big[tagDir]) && SameKind(small[link], big[link]);
      // tags/ in `big` lists the tag directory, so it is a directory in both trees
      assert InParent(big, tagDir) && Up(tagDir) == tagsDir;
      assert small[tagsDir].Dir?;
      TagsOfMembers(big, root, f, t);
    }
  }

  // ---------------------------------------------------------------------
  // POST /tags

  /** `a.filter(x => !b.includes(x))` */
  function Minus(a: seq<string>, b: seq<string>): (r: seq<string>)
    ensures forall x :: x in r <==> x in a && x !in b
  {
    if a == [] then []
    else (if a[0] in b then [] else [a[0]]) + Minus(a[1..], b)
  }

  /** The link paths of the tags, in order: below a normalised ROOT_DIR,
      plain names give ROOT_DIR/tags/<tag>/<fileName>. */
  function LinksFor(root: Path, tags: seq<string>, fileName: string): (r: seq<Path>)
    ensures |r| == |tags|
    ensures ValidPath(root) && ValidSegment(fileName) ==>
      forall i :: 0 <= i < |tags| && ValidSegment(tags[i]) ==> r[i] == root + [TagsDirName, tags[i], fileName]
  {
    LinkPathsPlain(root, tags, fileName);
    seq(|tags|, i requires 0 <= i < |tags| => LinkPath(root, tags[i], fileName))
  }

  lemma LinkPathsPlain(root: Path, tags: seq<string>, fileName: string)
    ensures ValidPath(root) && ValidSegment(fileName) ==>
      forall i :: 0 <= i < |tags| && ValidSegment(tags[i]) ==>
        LinkPath(root, tags[i], fileName) == root + [TagsDirName, tags[i], fileName]
  {
    if ValidPath(root) && ValidSegment(fileName) {
      forall i | 0 <= i < |tags| && ValidSegment(tags[i])
        ensures LinkPath(root, tags[i], fileName) == root + [TagsDirName, tags[i], fileName]
      {
        TagPaths(root, tags[i], fileName);
      }
    }
  }

  /** An entry of the `errors` array of the 400. */
  datatype TagError = TagError(tag: string, error: string)

  /** The loop of additions so far: the tree, the failed links, and the
      error a failed `mkdir` threw out of the loop. */
  datatype Adding = Adding(fs: FS, errors: seq<TagError>, thrown: Option<string>)

  /** One turn of the addition loop. */
  function AddLink(s: Adding, root: Path, tag: string, full: Path, fileName: string,
                   refuse: Path -> Option<string>): Adding
  {
    if s.thrown.Some? then s
    else
      var tagDir := TagDir(root, tag);
      match MkdirP(s.fs, tagDir)
      case Err(m) => Adding(s.fs, s.errors, Some(m))
      case Ok(fs1) =>
        var link := JoinPath(tagDir, fileName);
        if link in fs1 then Adding(fs1, s.errors, None)
        else
          match MakeSymlink(fs1, Relative(tagDir, full), link, refuse(link))
          case Err(m) => Adding(fs1, s.errors + [TagError(tag, m)], None)
          case Ok(fs2) => Adding(fs2, s.errors, None)
  }

  function AddLinks(s: Adding, root: Path, tags: seq<string>, full: Path, fileName: string,
                    refuse: Path -> Option<string>): Adding
  {
    if tags == [] then s
    else AddLink(AddLinks(s, root, tags[..|tags| - 1], full, fileName, refuse),
                 root, tags[|tags| - 1], full, fileName, refuse)
  }

  /** The response of POST /tags: the requested tags on success, the
      failed links beside them, or the message of a plain 400. */
  datatype TagsReply =
    | TagsSaved(tags: seq<string>)
    | TagsPartly(errors: seq<TagError>, tags: seq<string>)
    | TagsRefused(error: string)

  /** POST /tags with body `{ path: filePath, tags }`: `filePath` is "" when
      missing, `tags` None when not an array, `refuse` is what the system
      answers to creating each link and `refuseUnlink` to removing one. */
  function UpdateTags(fs: FS, root: Path, filePath: string, tags: Option<seq<string>>,
                      refuse: Path -> Option<string>, refuseUnlink: Path -> Option<string>): (FS, TagsReply)
  {
    if filePath == "" || tags.None? then (fs, TagsRefused(PathAndTagsRequired))
    else
      match SafePath(root, filePath)
      case Err(m) => (fs, TagsRefused(m))
      case Ok(full) =>
        var fileName := BaseName(full);
        match Stat(fs, full)
        case None => (fs, TagsRefused(StatMissing(full)))
        case Some(n) =>
          if n.Dir? then (fs, TagsRefused(CannotTagDirectories))
          else
            var current := TagsOf(fs, root, fileName);
            var fs1 := UnlinkAll(fs, LinksFor(root, Minus(current, tags.value), fileName), refuseUnlink);
            var s := AddLinks(Adding(fs1, [], None), root, Minus(tags.value, current), full, fileName, refuse);
            if s.thrown.Some? then (s.fs, TagsRefused(s.thrown.value))
            else if s.errors != [] then (s.fs, TagsPartly(s.errors, tags.value))
            else (s.fs, TagsSaved(tags.value))
  }

  /** GET /tags?path=filePath */
  function QueryTags(fs: FS, root: Path, filePath: string): Result<seq<string>>
  {
    if filePath == "" then Err(PathRequired)
    else
      match SafePath(root, filePath)
      case Err(m) => Err(m)
      case Ok(full) => Ok(TagsOf(fs, root, BaseName(full)))
  }

  /** A tag is added when requested and not yet there, removed when there
      and not requested, never both. */
  lemma TagChanges(current: seq<string>, requested: seq<string>, t: string)
    ensures !(t in Minus(requested, current) && t in Minus(current, requested))
    ensures t in Minus(requested, current) || t in Minus(current, requested) <==>
      (t in requested) != (t in current)
  {
  }

  /** A request without a path or a tags array, outside ROOT_DIR, on a path
      `stat` cannot reach or on a directory is refused before the tree is
      touched. */
  lemma UpdateTagsValidates(fs: FS, root: Path, filePath: string, tags: Option<seq<string>>,
                            refuse: Path -> Option<string>, refuseUnlink: Path -> Option<string>)
    requires filePath == "" || tags.None? || SafePath(root, filePath).Err? ||
      Stat(fs, SafePath(root, filePath).value).None? || Stat(fs, SafePath(root, filePath).value).value.Dir?
    ensures var (fs', reply) := UpdateTags(fs, root, filePath, tags, refuse, refuseUnlink);
      fs' == fs && reply.TagsRefused? &&
      (filePath == "" || tags.None? ==> reply.error == PathAndTagsRequired)
  {
  }

  // ---------------------------------------------------------------------
  // what the addition loop does to the tree

  /** A node the addition loop for `tags` may have created: a directory on
      the way to a tag directory (readable, as `mkdir` makes it), or a link
      named after the file in one of them. */
  ghost predicate NewNode(fs: FS, root: Path, tags: seq<string>, fileName: string, q: Path)
    requires q in fs
  {
    (IsPrefix(q, TagsDir(root)) && fs[q].Dir? && fs[q].readable) ||
    (|q| == |root| + 2 && IsPrefix(TagsDir(root), q) && q[|root| + 1] in tags &&
     fs[q].Dir? && fs[q].readable) ||
    (|q| == |root| + 3 && IsPrefix(TagsDir(root), q) && q[|root| + 1] in tags &&
     q[|root| + 2] == fileName && fs[q].Symlink?)
  }

  /** One turn keeps every node and its kind, keeps the tree well formed
      and only appends errors; once a `mkdir` has thrown it does nothing. */
  lemma AddLinkKeeps(s: Adding, root: Path, tag: string, full: Path, fileName: string,
                     refuse: Path -> Option<string>)
    requires Consistent(s.fs) && ValidPath(root) && ValidSegment(tag) && ValidSegment(fileName)
    ensures Within(s.fs, AddLink(s, root, tag, full, fileName, refuse).fs)
    ensures Consistent(AddLink(s, root, tag, full, fileName, refuse).fs)
    ensures IsPrefix(s.errors, AddLink(s, root, tag, full, fileName, refuse).errors)
    ensures s.thrown.Some? ==> AddLink(s, root, tag, full, fileName, refuse) == s
  {
    var r := AddLink(s, root, tag, full, fileName, refuse);
    if s.thrown.None? {
      TagPaths(root, tag, fileName);
      var tagDir := TagDir(root, tag);
      var link := LinkPath(root, tag, fileName);
      MkdirPConsistent(s.fs, tagDir);
      var m := MkdirP(s.fs, tagDir);
      if m.Err? {
        assert r.fs == s.fs && r.errors == s.errors;
      } else {
        var fs1 := m.value;
        MkdirPWithin(s.fs, tagDir);
        assert link == JoinPath(tagDir, fileName);
        if link in fs1 {
          assert r.fs == fs1 && r.errors == s.errors;
        } else {
          var made := MakeSymlink(fs1, Relative(tagDir, full), link, refuse(link));
          if made.Err? {
            assert r.fs == fs1 && r.errors == s.errors + [TagError(tag, made.message)];
          } else {
            assert r.fs == AddEntry(fs1, link, Symlink(Relative(tagDir, full))) && r.errors == s.errors;
            LinkKeeps(s.fs, fs1, link, Relative(tagDir, full));
          }
        }
      }
    }
  }

  lemma LinkKeeps(fs0: FS, fs1: FS, link: Path, target: string)
    requires Consistent(fs1) && Within(fs0, fs1) && ValidPath(link)
    requires CanCreate(fs1, link) && link !in fs1
    ensures Consistent(AddEntry(fs1, link, Symlink(target)))
    ensures Within(fs0, AddEntry(fs1, link, Symlink(target)))
  {
    AddEntryConsistent(fs1, link, Symlink(target));
    AddEntryWithin(fs1, link, Symlink(target));
    WithinTransitive(fs0, fs1, AddEntry(fs1, link, Symlink(target)));
  }

  /** The directories `mkdir -p` makes for a tag. */
  lemma MkdirTagNew(fs: FS, root: Path, tag: string, fileName: string)
    requires ValidPath(root) && ValidSegment(tag) && ValidSegment(fileName)
    requires MkdirP(fs, TagDir(root, tag)).Ok?
    ensures var fs1 := MkdirP(fs, TagDir(root, tag)).value;
      forall q :: q in fs1 && q !in fs ==> NewNode(fs1, root, [tag], fileName, q)
  {
    TagPaths(root, tag, fileName);
    var tagDir := TagDir(root, tag);
    var fs1 := MkdirP(fs, tagDir).value;
    MkdirPKeeps(fs, tagDir);
    forall q | q in fs1 && q !in fs ensures NewNode(fs1, root, [tag], fileName, q) {
      if |q| == |root| + 2 {
        assert q == tagDir;
      } else {
        assert IsPrefix(q, TagsDir(root)) by {
          assert TagsDir(root) == tagDir[..|root| + 1];
        }
      }
    }
  }

  /** One turn creates only the tag's directory, the directories above it
      and its link. */
  lemma AddLinkNew(s: Adding, root: Path, tag: string, full: Path, fileName: string,
                   refuse: Path -> Option<string>)
    requires ValidPath(root) && ValidSegment(tag) && ValidSegment(fileName)
    ensures var r := AddLink(s, root, tag, full, fileName, refuse);
      forall q :: q in r.fs && q !in s.fs ==> NewNode(r.fs, root, [tag], fileName, q)
  {
    var r := AddLink(s, root, tag, full, fileName, refuse);
    if s.thrown.None? && MkdirP(s.fs, TagDir(root, tag)).Ok? {
      TagPaths(root, tag, fileName);
      var tagDir := TagDir(root, tag);
      var link := LinkPath(root, tag, fileName);
      var fs1 := MkdirP(s.fs, tagDir).value;
      MkdirTagNew(s.fs, root, tag, fileName);
      AddLinkShape(s, root, tag, full, fileName, refuse);
      if r.fs != fs1 {
        LinkNew(s.fs, fs1, root, tag, fileName, link, Relative(tagDir, full));
      }
    }
  }

  /** Once the tag's directory exists, a turn either leaves the tree as
      `mkdir` made it or adds the link where there was none. */
  lemma AddLinkShape(s: Adding, root: Path, tag: string, full: Path, fileName: string,
                     refuse: Path -> Option<string>)
    requires ValidPath(root) && ValidSegment(tag) && ValidSegment(fileName)
    requires s.thrown.None? && MkdirP(s.fs, TagDir(root, tag)).Ok?
    ensures var r := AddLink(s, root, tag, full, fileName, refuse);
      var fs1 := MkdirP(s.fs, TagDir(root, tag)).value;
      var link := LinkPath(root, tag, fileName);
      r.fs == fs1 || (link !in fs1 && r.fs == AddEntry(fs1, link, Symlink(Relative(TagDir(root, tag), full))))
  {
  }

  lemma LinkNew(fs0: FS, fs1: FS, root: Path, tag: string, fileName: string, link: Path, target: string)
    requires link == root + [TagsDirName, tag, fileName]
    requires forall q :: q in fs1 && q !in fs0 ==> NewNode(fs1, root, [tag], fileName, q)
    requires link !in fs1
    ensures var fs2 := AddEntry(fs1, link, Symlink(target));
      forall q :: q in fs2 && q !in fs0 ==> NewNode(fs2, root, [tag], fileName, q)
  {
    var fs2 := AddEntry(fs1, link, Symlink(target));
    forall q | q in fs2 && q !in fs0 ensures NewNode(fs2, root, [tag], fileName, q) {
      if q != link {
        assert q in fs1;
        assert NewNode(fs1, root, [tag], fileName, q);
        assert SameKind(fs1[q], fs2[q]);
      } else {
        assert q[|root| + 1] == tag && q[|root| + 2] == fileName;
        assert IsPrefix(TagsDir(root), q) by {
          assert q[..|root| + 1] == TagsDir(root);
        }
      }
    }
  }

  /** A turn that neither threw nor failed a link leaves the tag's
      directory and something at its link path. */
  lemma AddLinkDone(s: Adding, root: Path, tag: string, full: Path, fileName: string,
                    refuse: Path -> Option<string>)
    requires ValidPath(root) && ValidSegment(tag) && ValidSegment(fileName)
    requires s.thrown.None?
    ensures var r := AddLink(s, root, tag, full, fileName, refuse);
      r.thrown.None? && r.errors == s.errors ==>
        TagDir(root, tag) in r.fs && r.fs[TagDir(root, tag)].Dir? && LinkPath(root, tag, fileName) in r.fs
  {
    TagPaths(root, tag, fileName);
    var tagDir := TagDir(root, tag);
    var m := MkdirP(s.fs, tagDir);
    if m.Ok? {
      var link := LinkPath(root, tag, fileName);
      assert Up(link) == tagDir;
      assert link != tagDir;
    }
  }

  /** The whole loop keeps every node and its kind, keeps the tree well
      formed and only appends errors. */
  lemma {:induction false} AddLinksKeeps(s: Adding, root: Path, tags: seq<string>, full: Path, fileName: string,
                                         refuse: Path -> Option<string>)
    requires Consistent(s.fs) && ValidPath(root) && ValidSegment(fileName)
    requires forall t :: t in tags ==> ValidSegment(t)
    ensures var r := AddLinks(s, root, tags, full, fileName, refuse);
      Within(s.fs, r.fs) && Consistent(r.fs) && IsPrefix(s.errors, r.errors) &&
      (s.thrown.Some? ==> r == s)
  {
    if tags != [] {
      var init, last := tags[..|tags| - 1], tags[|tags| - 1];
      AddLinksKeeps(s, root, init, full, fileName, refuse);
      var mid := AddLinks(s, root, init, full, fileName, refuse);
      AddLinkKeeps(mid, root, last, full, fileName, refuse);
      var r := AddLinks(s, root, tags, full, fileName, refuse);
      WithinTransitive(s.fs, mid.fs, r.fs);
      assert IsPrefix(s.errors, r.errors) by {
        PrefixTransitive(s.errors, mid.errors, r.errors);
      }
    }
  }

  /** The whole loop creates only directories on the way to the tags'
      directories and links named after the file in them. */
  lemma {:induction false} AddLinksNew(s: Adding, root: Path, tags: seq<string>, full: Path, fileName: string,
                                       refuse: Path -> Option<string>)
    requires Consistent(s.fs) && ValidPath(root) && ValidSegment(fileName)
    requires forall t :: t in tags ==> ValidSegment(t)
    ensures var r := AddLinks(s, root, tags, full, fileName, refuse);
      forall q :: q in r.fs && q !in s.fs ==> NewNode(r.fs, root, tags, fileName, q)
  {
    if tags != [] {
      var init, last := tags[..|tags| - 1], tags[|tags| - 1];
      AddLinksNew(s, root, init, full, fileName, refuse);
      AddLinksKeeps(s, root, init, full, fileName, refuse);
      var mid := AddLinks(s, root, init, full, fileName, refuse);
      AddLinkKeeps(mid, root, last, full, fileName, refuse);
      AddLinkNew(mid, root, last, full, fileName, refuse);
      var r := AddLinks(s, root, tags, full, fileName, refuse);
      forall q | q in r.fs && q !in s.fs ensures NewNode(r.fs, root, tags, fileName, q) {
        if q in mid.fs {
          assert NewNode(mid.fs, root, init, fileName, q);
          assert SameKind(mid.fs[q], r.fs[q]);
        } else {
          assert NewNode(r.fs, root, [last], fileName, q);
        }
      }
    }
  }

  /** A loop that ran to the end without a failed link has given every
      tag its directory and something at its link path. */
  lemma {:induction false} AddLinksDone(s: Adding, root: Path, tags: seq<string>, full: Path, fileName: string,
                                        refuse: Path -> Option<string>)
    requires Consistent(s.fs) && ValidPath(root) && ValidSegment(fileName)
    requires forall t :: t in tags ==> ValidSegment(t)
    requires AddLinks(s, root, tags, full, fileName, refuse).thrown.None?
    requires AddLinks(s, root, tags, full, fileName, refuse).errors == s.errors
    ensures var r := AddLinks(s, root, tags, full, fileName, refuse);
      forall t :: t in tags ==>
        TagDir(root, t) in r.fs && r.fs[TagDir(root, t)].Dir? && LinkPath(root, t, fileName) in r.fs
  {
    if tags != [] {
      var init, last := tags[..|tags| - 1], tags[|tags| - 1];
      AddLinksKeeps(s, root, init, full, fileName, refuse);
      var mid := AddLinks(s, root, init, full, fileName, refuse);
      AddLinkKeeps(mid, root, last, full, fileName, refuse);
      var r := AddLinks(s, root, tags, full, fileName, refuse);
      assert mid.thrown.None?;
      assert |mid.errors| == |s.errors|;
      assert mid.errors == s.errors;
      AddLinkDone(mid, root, last, full, fileName, refuse);
      AddLinksDone(s, root, init, full, fileName, refuse);
      forall t | t in tags
        ensures TagDir(root, t) in r.fs && r.fs[TagDir(root, t)].Dir? && LinkPath(root, t, fileName) in r.fs
      {
        if t != last {
          assert t in init;
          assert SameKind(mid.fs[TagDir(root, t)], r.fs[TagDir(root, t)]);
        }
      }
    }
  }

  // ---------------------------------------------------------------------
  // what POST /tags leaves behind

  /** A visible tag directory listed by `readdir` of tags/ in a
      well-formed tree has a plain name, and tags/ is then a directory
      itself, not a link, that lists it. */
  lemma ListedTagValid(fs: FS, root: Path, t: string)
    requires Consistent(fs)
    requires ReadDir(fs, TagsDir(root)).Ok? && t in ReadDir(fs, TagsDir(root)).value
    requires IsTagDir(fs, root, t)
    ensures ValidSegment(t) && ValidPath(root)
    ensures fs[TagsDir(root)].Dir? && t in fs[TagsDir(root)].entries
  {
    ConsistentNamesValid(fs);
    ReadDirListsValid(fs, TagsDir(root));
    assert ValidPath(TagsDir(root));
    assert forall i :: 0 <= i < |root| ==> root[i] == TagsDir(root)[i];
    JoinChild(TagsDir(root), t);
    assert InParent(fs, TagDir(root, t));
    assert Up(TagDir(root, t)) == TagsDir(root);
  }

  /** A tag the file had whose link survived the removals is still there
      after the additions. */
  lemma TagKept(fs: FS, fs1: FS, fs2: FS, root: Path, f: string, t: string)
    requires Consistent(fs) && Consistent(fs2) && ValidSegment(f)
    requires t in TagsOf(fs, root, f)
    requires forall q :: q in fs && fs[q].Dir? ==> q in fs1
    requires Within(fs1, fs) && Within(fs1, fs2)
    requires LinkPath(root, t, f) in fs1
    ensures t in TagsOf(fs2, root, f)
  {
    TagsOfMembers(fs, root, f, t);
    ListedTagValid(fs, root, t);
    TagPaths(root, t, f);
    var tagsDir, tagDir, link := TagsDir(root), TagDir(root, t), LinkPath(root, t, f);
    assert tagsDir in fs1 && tagDir in fs1 && link in fs1;
    assert fs1[tagsDir].Dir? && fs1[tagsDir].readable by {
      assert SameKind(fs1[tagsDir], fs[tagsDir]);
    }
    assert fs1[tagDir].Dir? by {
      assert SameKind(fs1[tagDir], fs[tagDir]);
    }
    assert fs1[link].Symlink? by {
      assert SameKind(fs1[link], fs[link]);
    }
    assert SameKind(fs1[tagsDir], fs2[tagsDir]) && SameKind(fs1[tagDir], fs2[tagDir]);
    assert SameKind(fs1[link], fs2[link]);
    assert InParent(fs2, tagDir);
    assert Up(tagDir) == tagsDir;
    TagsOfMembers(fs2, root, f, t);
  }

  /** A requested tag the additions reached ends up on the file, provided
      whatever already sat at its link path was a link and tags/ was
      readable. */
  lemma TagAdded(fs: FS, fs1: FS, fs2: FS, root: Path, f: string, t: string, toAdd: seq<string>)
    requires Consistent(fs2) && ValidPath(root) && ValidSegment(f) && ValidSegment(t) && !Walker.Hidden(t)
    requires t in toAdd
    requires TagDir(root, t) in fs2 && fs2[TagDir(root, t)].Dir? && LinkPath(root, t, f) in fs2
    requires forall q :: q in fs2 && q !in fs1 ==> NewNode(fs2, root, toAdd, f, q)
    requires Within(fs1, fs) && Within(fs1, fs2)
    requires LinkPath(root, t, f) in fs ==> fs[LinkPath(root, t, f)].Symlink?
    requires TagsDir(root) in fs && fs[TagsDir(root)].Dir? ==> fs[TagsDir(root)].readable
    ensures t in TagsOf(fs2, root, f)
  {
    TagPaths(root, t, f);
    var tagsDir, tagDir, link := TagsDir(root), TagDir(root, t), LinkPath(root, t, f);
    assert Up(tagDir) == tagsDir;
    assert InParent(fs2, tagDir);
    assert fs2[link].Symlink? by {
      if link in fs1 {
        assert SameKind(fs1[link], fs[link]) && SameKind(fs1[link], fs2[link]);
      } else {
        assert NewNode(fs2, root, toAdd, f, link);
        assert !IsPrefix(link, tagsDir);
      }
    }
    assert fs2[tagsDir].readable by {
      if tagsDir in fs1 {
        assert SameKind(fs1[tagsDir], fs[tagsDir]) && SameKind(fs1[tagsDir], fs2[tagsDir]);
      } else {
        assert NewNode(fs2, root, toAdd, f, tagsDir);
      }
    }
    TagsOfMembers(fs2, root, f, t);
  }

  /** A tag on the file afterwards that the additions did not ask for was
      on it before, and its link survived the removals. */
  lemma TagWasThere(fs: FS, fs1: FS, fs2: FS, root: Path, f: string, t: string, toAdd: seq<string>)
    requires Consistent(fs) && Consistent(fs2) && ValidSegment(f)
    requires t !in toAdd
    requires Within(fs1, fs) && Within(fs1, fs2)
    requires forall q :: q in fs2 && q !in fs1 ==> NewNode(fs2, root, toAdd, f, q)
    requires TagsDir(root) in fs && fs[TagsDir(root)].Dir? ==> fs[TagsDir(root)].readable
    requires t in TagsOf(fs2, root, f)
    ensures t in TagsOf(fs, root, f) && LinkPath(root, t, f) in fs1
  {
    TagsOfMembers(fs2, root, f, t);
    ListedTagValid(fs2, root, t);
    TagPaths(root, t, f);
    var tagsDir, tagDir, link := TagsDir(root), TagDir(root, t), LinkPath(root, t, f);
    assert tagDir in fs1;
    assert link in fs1;
    assert SameKind(fs1[tagDir], fs[tagDir]) && SameKind(fs1[tagDir], fs2[tagDir]);
    assert SameKind(fs1[link], fs[link]) && SameKind(fs1[link], fs2[link]);
    assert InParent(fs, tagDir);
    assert Up(tagDir) == tagsDir;
    TagsOfMembers(fs, root, f, t);
  }

  /** The file's links are the only paths the removals try, one per tag. */
  lemma RemovedLinks(fs: FS, root: Path, f: string, current: seq<string>, toRemove: seq<string>, t: string)
    requires Consistent(fs) && ValidSegment(f) && current == TagsOf(fs, root, f)
    requires forall u :: u in toRemove ==> u in current
    requires t in current
    ensures LinkPath(root, t, f) in LinksFor(root, toRemove, f) <==> t in toRemove
  {
    var links := LinksFor(root, toRemove, f);
    TagsOfMembers(fs, root, f, t);
    ListedTagValid(fs, root, t);
    TagPaths(root, t, f);
    if LinkPath(root, t, f) in links {
      var i :| 0 <= i < |links| && links[i] == LinkPath(root, t, f);
      var u := toRemove[i];
      TagsOfMembers(fs, root, f, u);
      ListedTagValid(fs, root, u);
      TagPaths(root, u, f);
      assert LinkPath(root, u, f)[|root| + 1] == u;
    }
  }

  /** A request that saved its tags leaves the file with exactly the
      requested tags and the dropped tags whose link the system refused to
      unlink, when the requested names are plain visible names, tags/ (if
      there) is readable and nothing but links sits at the requested link
      paths. */
  lemma TagsAfterUpdate(fs: FS, root: Path, filePath: string, ts: seq<string>, full: Path,
                        refuse: Path -> Option<string>, refuseUnlink: Path -> Option<string>)
    requires Consistent(fs) && ValidPath(root)
    requires SafePath(root, filePath) == Ok(full)
    requires forall t :: t in ts ==> ValidSegment(t) && !Walker.Hidden(t)
    requires TagsDir(root) in fs && fs[TagsDir(root)].Dir? ==> fs[TagsDir(root)].readable
    requires forall t :: t in ts && LinkPath(root, t, BaseName(full)) in fs ==>
      fs[LinkPath(root, t, BaseName(full))].Symlink?
    ensures var (fs', reply) := UpdateTags(fs, root, filePath, Some(ts), refuse, refuseUnlink);
      reply.TagsSaved? ==>
        reply.tags == ts &&
        forall t :: t in TagsOf(fs', root, BaseName(full)) <==>
          t in ts ||
          (t in TagsOf(fs, root, BaseName(full)) && refuseUnlink(LinkPath(root, t, BaseName(full))).Some?)
  {
    var (fs', reply) := UpdateTags(fs, root, filePath, Some(ts), refuse, refuseUnlink);
    if reply.TagsSaved? {
      var f := BaseName(full);
      assert full != [];
      assert ValidSegment(f) by {
        assert ValidPath(full);
      }
      var current := TagsOf(fs, root, f);
      var toRemove, toAdd := Minus(current, ts), Minus(ts, current);
      var links := LinksFor(root, toRemove, f);
      var fs1 := UnlinkAll(fs, links, refuseUnlink);
      var s := AddLinks(Adding(fs1, [], None), root, toAdd, full, f, refuse);
      assert fs' == s.fs && s.thrown.None? && s.errors == [];
      UnlinkAllEffect(fs, links, refuseUnlink);
      AddLinksKeeps(Adding(fs1, [], None), root, toAdd, full, f, refuse);
      AddLinksNew(Adding(fs1, [], None), root, toAdd, full, f, refuse);
      AddLinksDone(Adding(fs1, [], None), root, toAdd, full, f, refuse);
      TagsAfterSteps(fs, fs1, fs', root, f, ts, links, toAdd, refuseUnlink);
    }
  }

  /** The reasoning of TagsAfterUpdate on the trees before the loops,
      between them and after them. */
  lemma TagsAfterSteps(fs: FS, fs1: FS, fs2: FS, root: Path, f: string, ts: seq<string>,
                       links: seq<Path>, toAdd: seq<string>, refuseUnlink: Path -> Option<string>)
    requires Consistent(fs) && Consistent(fs2) && ValidPath(root) && ValidSegment(f)
    requires links == LinksFor(root, Minus(TagsOf(fs, root, f), ts), f)
    requires toAdd == Minus(ts, TagsOf(fs, root, f))
    requires forall q :: q in fs1 <==>
      q in fs && !(q in links && q != [] && !fs[q].Dir? && refuseUnlink(q).None?)
    requires Within(fs1, fs) && Within(fs1, fs2)
    requires forall q :: q in fs2 && q !in fs1 ==> NewNode(fs2, root, toAdd, f, q)
    requires forall t :: t in toAdd ==>
      TagDir(root, t) in fs2 && fs2[TagDir(root, t)].Dir? && LinkPath(root, t, f) in fs2
    requires forall t :: t in ts ==> ValidSegment(t) && !Walker.Hidden(t)
    requires TagsDir(root) in fs && fs[TagsDir(root)].Dir? ==> fs[TagsDir(root)].readable
    requires forall t :: t in ts && LinkPath(root, t, f) in fs ==> fs[LinkPath(root, t, f)].Symlink?
    ensures forall t :: t in TagsOf(fs2, root, f) <==>
      t in ts || (t in TagsOf(fs, root, f) && refuseUnlink(LinkPath(root, t, f)).Some?)
  {
    var current := TagsOf(fs, root, f);
    var toRemove := Minus(current, ts);
    forall t ensures t in TagsOf(fs2, root, f) <==>
      t in ts || (t in current && refuseUnlink(LinkPath(root, t, f)).Some?)
    {
      if t in ts && t !in current {
        TagAdded(fs, fs1, fs2, root, f, t, toAdd);
      } else if t in current && (t in ts || refuseUnlink(LinkPath(root, t, f)).Some?) {
        RemovedLinks(fs, root, f, current, toRemove, t);
        TagsOfMembers(fs, root, f, t);
        TagKept(fs, fs1, fs2, root, f, t);
      } else if t in TagsOf(fs2, root, f) {
        TagWasThere(fs, fs1, fs2, root, f, t, toAdd);
        RemovedLinks(fs, root, f, current, toRemove, t);
        TagsOfMembers(fs, root, f, t);
        ListedTagValid(fs, root, t);
        TagPaths(root, t, f);
      }
    }
  }

  /** A link a turn creates is relative to its tag directory and leads
      from there back to the tagged file. */
  lemma CreatedLinkLeadsToFile(s: Adding, root: Path, tag: string, full: Path, fileName: string,
                               refuse: Path -> Option<string>)
    requires ValidPath(root) && ValidSegment(tag) && ValidSegment(fileName) && ValidPath(full)
    ensures var r := AddLink(s, root, tag, full, fileName, refuse);
      var link := LinkPath(root, tag, fileName);
      link !in s.fs && link in r.fs ==>
        r.fs[link].Symlink? && Resolve(Up(link), r.fs[link].target) == full
  {
    TagPaths(root, tag, fileName);
    var tagDir := TagDir(root, tag);
    var link := LinkPath(root, tag, fileName);
    assert Up(link) == tagDir;
    MkdirPKeeps(s.fs, tagDir);
    RelativeResolves(tagDir, full);
  }
}
