// The routes of src/api/files.js that change or inspect tags and the trash,
// run the way the handlers run them: `getTagsForFile` and
// `removeAllSymlinks` loop over the entries of ROOT_DIR/tags, POST /tags
// loops over the links to remove and then over the links to add, and
// POST /trash chains the link removal, `mkdir` and `rename`. Each method is
// proved to leave the tree and to answer exactly as the functions of the
// Tagging and Trashing modules say, whose properties are proved there.

module FilesApi {
  import opened Wrappers
  import opened Paths
  import opened FileSystem
  import opened SafePaths
  import opened Tagging
  import opened Trashing
  import Walker

  /** The server's view of the directory tree below ROOT_DIR. */
  class FileStore {
    const root: Path
    var fs: FS

    constructor (root: Path, fs: FS)
      ensures this.root == root && this.fs == fs
    {
      this.root := root;
      this.fs := fs;
    }

    /** `getTagsForFile(filePath)`: the visible directories of tags/ that
        hold a link named after the file, in listing order, or none when
        tags/ cannot be listed. */
    method GetTagsForFile(filePath: Path) returns (tags: seq<string>)
      ensures tags == TagsOf(fs, root, BaseName(filePath))
    {
      var fileName := BaseName(filePath);
      tags := [];
      match ReadDir(fs, TagsDir(root)) {
        case Err(_) =>
        case Ok(names) =>
          var i := 0;
          while i < |names|
            invariant 0 <= i <= |names|
            invariant tags == TagsAmong(fs, root, names[..i], fileName)
          {
            var name := names[i];
            if !Walker.Hidden(name) && IsDirEntry(fs, TagDir(root, name)) {
              match Lstat(fs, JoinPath(TagDir(root, name), fileName)) {
                case Some(n) =>
                  if n.Symlink? {
                    tags := tags + [name];
                  }
                case None =>
              }
            }
            assert names[..i + 1][..i] == names[..i];
            i := i + 1;
          }
          assert names[..i] == names;
      }
    }

    /** `removeAllSymlinks(fileName)`: a quiet `unlink` of the link named
        after the file in every visible directory tags/ listed when the
        loop began; `refuseUnlink` is what the system answers to each
        unlink. */
    method RemoveAllSymlinks(fileName: string, refuseUnlink: Path -> Option<string>)
      modifies this`fs
      ensures fs == RemoveLinks(old(fs), root, fileName, refuseUnlink)
    {
      match ReadDir(fs, TagsDir(root)) {
        case Err(_) =>
        case Ok(names) =>
          // the entry kinds come with the listing, taken before any unlink
          var listed := fs;
          var i := 0;
          while i < |names|
            invariant 0 <= i <= |names|
            invariant fs == UnlinkAll(listed, TagLinks(listed, root, names[..i], fileName), refuseUnlink)
          {
            var name := names[i];
            RemoveStep(listed, root, names, i, fileName, refuseUnlink);
            if !Walker.Hidden(name) && IsDirEntry(listed, TagDir(root, name)) {
              var link := JoinPath(TagDir(root, name), fileName);
              fs := UnlinkQuietly(fs, link, refuseUnlink(link));
            }
            i := i + 1;
          }
          assert names[..i] == names;
      }
    }

    /** GET /tags?path=filePath */
    method QueryTagsRoute(filePath: string) returns (r: Result<seq<string>>)
      ensures r == QueryTags(fs, root, filePath)
    {
      if filePath == "" {
        return Err(PathRequired);
      }
      match SafePath(root, filePath) {
        case Err(m) =>
          r := Err(m);
        case Ok(full) =>
          var tags := GetTagsForFile(full);
          r := Ok(tags);
      }
    }

    /** POST /tags with body `{ path: filePath, tags }` (`filePath` "" when
        missing, `tags` None when not an array); `refuse` is what the system
        answers to creating each link, `refuseUnlink` to removing one. */
    method PostTags(filePath: string, tags: Option<seq<string>>, refuse: Path -> Option<string>, refuseUnlink: Path -> Option<string>)
      returns (reply: TagsReply)
      modifies this`fs
      ensures (fs, reply) == UpdateTags(old(fs), root, filePath, tags, refuse, refuseUnlink)
    {
      if filePath == "" || tags.None? {
        return TagsRefused(PathAndTagsRequired);
      }
      var full;
      match SafePath(root, filePath) {
        case Err(m) =>
          return TagsRefused(m);
        case Ok(p) =>
          full := p;
      }
      var fileName := BaseName(full);
      match Stat(fs, full) {
        case None =>
          return TagsRefused(StatMissing(full));
        case Some(n) =>
          if n.Dir? {
            return TagsRefused(CannotTagDirectories);
          }
      }
      var current := GetTagsForFile(full);
      var toAdd := Minus(tags.value, current);
      var toRemove := Minus(current, tags.value);
      RemoveTagLinks(toRemove, fileName, refuseUnlink);
      reply := AddTagLinks(toAdd, full, fileName, refuse);
      if reply.TagsSaved? {
        reply := TagsSaved(tags.value);
      } else if reply.TagsPartly? {
        reply := TagsPartly(reply.errors, tags.value);
      }
    }

    /** The removal loop of POST /tags: a quiet `unlink` of the file's link
        in each tag to drop. */
    method RemoveTagLinks(toRemove: seq<string>, fileName: string, refuseUnlink: Path -> Option<string>)
      modifies this`fs
      ensures fs == UnlinkAll(old(fs), LinksFor(root, toRemove, fileName), refuseUnlink)
    {
      var i := 0;
      while i < |toRemove|
        invariant 0 <= i <= |toRemove|
        invariant fs == UnlinkAll(old(fs), LinksFor(root, toRemove[..i], fileName), refuseUnlink)
      {
        var links := LinksFor(root, toRemove[..i], fileName);
        var next := LinksFor(root, toRemove[..i + 1], fileName);
        assert next == links + [LinkPath(root, toRemove[i], fileName)];
        assert next[..|next| - 1] == links;
        var link := JoinPath(TagDir(root, toRemove[i]), fileName);
        fs := UnlinkQuietly(fs, link, refuseUnlink(link));
        i := i + 1;
      }
      assert toRemove[..i] == toRemove;
    }

    /** The addition loop of POST /tags: `mkdir -p` of each new tag's
        directory (a failure ends the request), then a link to the file
        unless something is already there, a failed link recorded and the
        loop going on. The tags in the reply are filled in by the caller. */
    method AddTagLinks(toAdd: seq<string>, full: Path, fileName: string, refuse: Path -> Option<string>)
      returns (reply: TagsReply)
      modifies this`fs
      ensures var s := AddLinks(Adding(old(fs), [], None), root, toAdd, full, fileName, refuse);
        fs == s.fs &&
        (s.thrown.Some? ==> reply == TagsRefused(s.thrown.value)) &&
        (s.thrown.None? && s.errors != [] ==> reply.TagsPartly? && reply.errors == s.errors) &&
        (s.thrown.None? && s.errors == [] ==> reply.TagsSaved?)
    {
      ghost var start := Adding(fs, [], None);
      var errors := [];
      var i := 0;
      while i < |toAdd|
        invariant 0 <= i <= |toAdd|
        invariant AddLinks(start, root, toAdd[..i], full, fileName, refuse) == Adding(fs, errors, None)
      {
        var tag := toAdd[i];
        var tagDir := TagDir(root, tag);
        assert toAdd[..i + 1][..i] == toAdd[..i];
        match MkdirP(fs, tagDir) {
          case Err(m) =>
            AddLinksStuck(start, root, toAdd, full, fileName, refuse, i + 1);
            return TagsRefused(m);
          case Ok(fs1) =>
            fs := fs1;
            var link := JoinPath(tagDir, fileName);
            if link !in fs {
              match MakeSymlink(fs, Relative(tagDir, full), link, refuse(link)) {
                case Err(m) =>
                  errors := errors + [TagError(tag, m)];
                case Ok(fs2) =>
                  fs := fs2;
              }
            }
        }
        i := i + 1;
      }
      assert toAdd[..i] == toAdd;
      if errors != [] {
        reply := TagsPartly(errors, []);
      } else {
        reply := TagsSaved([]);
      }
    }

    /** POST /trash with body `{ path: filePath }` (`filePath` "" when
        missing); `refuseUnlink` is what the system answers to removing
        each of the file's links. */
    method PostTrash(filePath: string, refuseUnlink: Path -> Option<string>) returns (reply: TrashReply)
      modifies this`fs
      ensures (fs, reply) == Trash(old(fs), root, filePath, refuseUnlink)
    {
      if filePath == "" {
        return TrashRefused(PathRequired);
      }
      var src;
      match SafePath(root, filePath) {
        case Err(m) =>
          return TrashRefused(m);
        case Ok(p) =>
          src := p;
      }
      match Stat(fs, src) {
        case None =>
          return TrashRefused(StatMissing(src));
        case Some(n) =>
          if n.Dir? {
            return TrashRefused(CannotTrashDirectories);
          }
      }
      var fileName := BaseName(src);
      RemoveAllSymlinks(fileName, refuseUnlink);
      match MkdirP(fs, TrashDir(root)) {
        case Ok(fs1) =>
          fs := fs1;
        case Err(_) =>
      }
      match Rename(fs, src, JoinPath(TrashDir(root), fileName)) {
        case Err(m) =>
          reply := TrashRefused(m);
        case Ok(fs3) =>
          fs := fs3;
          reply := Trashed(MovedMessage(fileName));
      }
    }
  }

  /** Once a `mkdir` has thrown, the later turns of the addition loop
      change nothing. */
  lemma {:induction false} AddLinksStuck(s: Adding, root: Path, tags: seq<string>, full: Path, fileName: string,
                                         refuse: Path -> Option<string>, k: nat)
    requires k <= |tags|
    requires AddLinks(s, root, tags[..k], full, fileName, refuse).thrown.Some?
    ensures AddLinks(s, root, tags, full, fileName, refuse) == AddLinks(s, root, tags[..k], full, fileName, refuse)
    decreases |tags|
  {
    if k < |tags| {
      var init := tags[..|tags| - 1];
      assert init[..k] == tags[..k];
      AddLinksStuck(s, root, init, full, fileName, refuse, k);
    } else {
      assert tags[..k] == tags;
    }
  }

  /** One turn of the loop of `removeAllSymlinks`: the next entry adds its
      link to the ones unlinked when it is a visible directory. */
  lemma RemoveStep(fs: FS, root: Path, names: seq<string>, i: nat, fileName: string, refuseUnlink: Path -> Option<string>)
    requires i < |names|
    ensures var links := TagLinks(fs, root, names[..i], fileName);
      UnlinkAll(fs, TagLinks(fs, root, names[..i + 1], fileName), refuseUnlink) ==
        if IsTagDir(fs, root, names[i])
        then UnlinkQuietly(UnlinkAll(fs, links, refuseUnlink), LinkPath(root, names[i], fileName),
                           refuseUnlink(LinkPath(root, names[i], fileName)))
        else UnlinkAll(fs, links, refuseUnlink)
  {
    assert names[..i + 1][..i] == names[..i];
    assert names[..i + 1][i] == names[i];
    var links := TagLinks(fs, root, names[..i], fileName);
    if IsTagDir(fs, root, names[i]) {
      var more := links + [LinkPath(root, names[i], fileName)];
      assert TagLinks(fs, root, names[..i + 1], fileName) == more;
      assert more[..|more| - 1] == links;
      assert UnlinkAll(fs, more, refuseUnlink) ==
        UnlinkQuietly(UnlinkAll(fs, links, refuseUnlink), LinkPath(root, names[i], fileName),
                      refuseUnlink(LinkPath(root, names[i], fileName)));
    } else {
      assert links + [] == links;
      assert TagLinks(fs, root, names[..i + 1], fileName) == links;
    }
  }
}
