// POST /api/files/trash (src/api/files.js): a file leaves its tags and
// moves into ROOT_DIR/.trash under its own name, replacing whatever file
// of that name was trashed before.

module Trashing {
  import opened Wrappers
  import opened Paths
  import opened FileSystem
  import opened SafePaths
  import opened Tagging

  const TrashDirName: string := ".trash"
  const CannotTrashDirectories: string := "Cannot trash directories"

  /** `path.join(ROOT_DIR, '.trash')` */
  function TrashDir(root: Path): Path
  {
    root + [TrashDirName]
  }

  /** The `message` of a success. */
  function MovedMessage(fileName: string): string
  {
    "Moved " + fileName + " to trash"
  }

  datatype TrashReply =
    | Trashed(message: string)
    | TrashRefused(error: string)

  /** POST /trash with body `{ path: filePath }`, `filePath` being "" when
      missing; `refuseUnlink` is what the system answers to removing each
      of the file's links. */
  function Trash(fs: FS, root: Path, filePath: string, refuseUnlink: Path -> Option<string>): (FS, TrashReply)
  {
    if filePath == "" then (fs, TrashRefused(PathRequired))
    else
      match SafePath(root, filePath)
      case Err(m) => (fs, TrashRefused(m))
      case Ok(src) =>
        match Stat(fs, src)
        case None => (fs, TrashRefused(StatMissing(src)))
        case Some(n) =>
          if n.Dir? then (fs, TrashRefused(CannotTrashDirectories))
          else MoveToTrash(fs, root, src, refuseUnlink)
  }

  /** What POST /trash does to a file that passed its checks: drop the
      file's links, make .trash (a failure ignored), then rename the file
      into it (a failure reported, the links being gone already). */
  function MoveToTrash(fs: FS, root: Path, src: Path, refuseUnlink: Path -> Option<string>): (FS, TrashReply)
  {
    var fileName := BaseName(src);
    var fs2 := MakeTrash(RemoveLinks(fs, root, fileName, refuseUnlink), root);
    match Rename(fs2, src, JoinPath(TrashDir(root), fileName))
    case Err(m) => (fs2, TrashRefused(m))
    case Ok(fs3) => (fs3, Trashed(MovedMessage(fileName)))
  }

  /** `mkdir -p` of .trash, its failure ignored. */
  function MakeTrash(fs: FS, root: Path): FS
  {
    match MkdirP(fs, TrashDir(root))
    case Ok(fs1) => fs1
    case Err(_) => fs
  }

  /** A request without a path, outside ROOT_DIR, on a path `stat` cannot
      reach or on a directory is refused with the tree untouched; any other
      request moves the file. */
  lemma TrashValidates(fs: FS, root: Path, filePath: string, refuseUnlink: Path -> Option<string>)
    ensures var (fs', reply) := Trash(fs, root, filePath, refuseUnlink);
      var src := SafePath(root, filePath);
      (filePath == "" ==> fs' == fs && reply == TrashRefused(PathRequired)) &&
      (filePath != "" && src.Err? ==> fs' == fs && reply == TrashRefused(AccessDenied)) &&
      (filePath != "" && src.Ok? && Stat(fs, src.value).None? ==>
        fs' == fs && reply == TrashRefused(StatMissing(src.value))) &&
      (filePath != "" && src.Ok? && Stat(fs, src.value).Some? && Stat(fs, src.value).value.Dir? ==>
        fs' == fs && reply == TrashRefused(CannotTrashDirectories)) &&
      (filePath != "" && src.Ok? && Stat(fs, src.value).Some? && !Stat(fs, src.value).value.Dir? ==>
        (fs', reply) == MoveToTrash(fs, root, src.value, refuseUnlink))
  {
    SafePathContained(root, filePath);
  }

  /** A success moved the very node at the path (a link itself, not what
      it leads to) to .trash under its own name, and nothing is left at
      the old path unless it already was that place. */
  lemma TrashMoves(fs: FS, root: Path, src: Path, refuseUnlink: Path -> Option<string>)
    requires Consistent(fs) && ValidPath(root) && ValidPath(src)
    requires Stat(fs, src).Some? && !Stat(fs, src).value.Dir?
    ensures var (fs', reply) := MoveToTrash(fs, root, src, refuseUnlink);
      var dest := TrashDir(root) + [BaseName(src)];
      reply.Trashed? ==>
        reply.message == MovedMessage(BaseName(src)) &&
        src in fs && dest in fs' && fs'[dest] == fs[src] &&
        (src != dest ==> src !in fs')
  {
    var (fs', reply) := MoveToTrash(fs, root, src, refuseUnlink);
    if reply.Trashed? {
      var f := BaseName(src);
      var fs2 := MakeTrash(RemoveLinks(fs, root, f, refuseUnlink), root);
      var dest := JoinPath(TrashDir(root), f);
      assert Rename(fs2, src, dest).Ok?;
      JoinChild(TrashDir(root), f);
      PreparedKeepsFile(fs, root, f, src, refuseUnlink);
    }
  }

  /** The file, if still there once its links are gone and .trash is
      made, is the node it was. */
  lemma PreparedKeepsFile(fs: FS, root: Path, f: string, src: Path, refuseUnlink: Path -> Option<string>)
    requires Consistent(fs) && ValidPath(root) && ValidSegment(f)
    requires src in fs && !fs[src].Dir?
    ensures var fs2 := MakeTrash(RemoveLinks(fs, root, f, refuseUnlink), root);
      src in fs2 ==> fs2[src] == fs[src]
  {
    var fs1 := RemoveLinks(fs, root, f, refuseUnlink);
    RemoveLinksKeeps(fs, root, f, refuseUnlink);
    MakeTrashKeeps(fs1, root);
    if src !in fs1 {
      RemoveLinksDepth(fs, root, f, src, refuseUnlink);
    }
  }

  /** Making .trash keeps every node's kind and every non-directory, and
      adds only directories on the way to it. */
  lemma MakeTrashKeeps(fs1: FS, root: Path)
    ensures var fs2 := MakeTrash(fs1, root);
      Within(fs1, fs2) &&
      (forall q :: q in fs1 && !fs1[q].Dir? ==> fs2[q] == fs1[q]) &&
      (forall q :: q in fs2 && q !in fs1 ==> IsPrefix(q, TrashDir(root)) && fs2[q].Dir?)
  {
    if MkdirP(fs1, TrashDir(root)).Ok? {
      MkdirPKeeps(fs1, TrashDir(root));
      MkdirPWithin(fs1, TrashDir(root));
    }
  }

  /** After a success the trashed file carries no tag but those it had
      whose link the system refused to unlink; when none is refused, no
      tag at all. */
  lemma TrashClearsTags(fs: FS, root: Path, src: Path, refuseUnlink: Path -> Option<string>)
    requires Consistent(fs) && ValidPath(root) && ValidPath(src)
    ensures var (fs', reply) := MoveToTrash(fs, root, src, refuseUnlink);
      reply.Trashed? ==> forall t :: t in TagsOf(fs', root, BaseName(src)) ==>
        t in TagsOf(fs, root, BaseName(src)) && refuseUnlink(LinkPath(root, t, BaseName(src))).Some?
  {
    var (fs', reply) := MoveToTrash(fs, root, src, refuseUnlink);
    if reply.Trashed? {
      var f := BaseName(src);
      assert src != [];
      var fs2 := MakeTrash(RemoveLinks(fs, root, f, refuseUnlink), root);
      var dest := JoinPath(TrashDir(root), f);
      JoinChild(TrashDir(root), f);
      PreparedClear(fs, root, f, refuseUnlink);
      RenameShrinks(fs2, root, f, src, dest);
    }
  }

  /** Once the links are removed and .trash is made the tree is still well
      formed and the file carries only tags it had whose link the system
      refused to unlink. */
  lemma PreparedClear(fs: FS, root: Path, f: string, refuseUnlink: Path -> Option<string>)
    requires Consistent(fs) && ValidPath(root) && ValidSegment(f)
    ensures var fs2 := MakeTrash(RemoveLinks(fs, root, f, refuseUnlink), root);
      Consistent(fs2) &&
      (forall t :: t in TagsOf(fs2, root, f) ==>
        t in TagsOf(fs, root, f) && refuseUnlink(LinkPath(root, t, f)).Some?)
  {
    var fs1 := RemoveLinks(fs, root, f, refuseUnlink);
    var fs2 := MakeTrash(fs1, root);
    RemoveLinksKeeps(fs, root, f, refuseUnlink);
    RemoveLinksClears(fs, root, f, refuseUnlink);
    MakeTrashShrinks(fs1, root, f);
  }

  /** Making .trash adds no tag, keeps the tree well formed and keeps
      every non-directory. */
  lemma MakeTrashShrinks(fs1: FS, root: Path, f: string)
    requires Consistent(fs1) && ValidPath(root) && ValidSegment(f)
    ensures Consistent(MakeTrash(fs1, root))
    ensures forall t :: t in TagsOf(MakeTrash(fs1, root), root, f) ==> t in TagsOf(fs1, root, f)
  {
    if MkdirP(fs1, TrashDir(root)).Ok? {
      MkdirPConsistent(fs1, TrashDir(root));
      MkdirShrinks(fs1, root, f);
    }
  }

  lemma MkdirShrinks(fs1: FS, root: Path, f: string)
    requires ValidPath(root) && ValidSegment(f)
    requires MkdirP(fs1, TrashDir(root)).Ok? && Consistent(fs1)
    ensures forall t :: t in TagsOf(MkdirP(fs1, TrashDir(root)).value, root, f) ==> t in TagsOf(fs1, root, f)
  {
    MkdirTrashFrame(fs1, root);
    assert ValidPath(TrashDir(root));
    MkdirPConsistent(fs1, TrashDir(root));
    ConsistentNamesValid(MkdirP(fs1, TrashDir(root)).value);
    UnchangedBelowTags(fs1, MkdirP(fs1, TrashDir(root)).value, root, f);
  }

  /** Making .trash changes nothing at or below tags/. */
  lemma MkdirTrashFrame(fs1: FS, root: Path)
    requires MkdirP(fs1, TrashDir(root)).Ok?
    ensures var fs2 := MkdirP(fs1, TrashDir(root)).value;
      TagsDir(root) in fs2 ==> TagsDir(root) in fs1 && fs2[TagsDir(root)] == fs1[TagsDir(root)]
    ensures var fs2 := MkdirP(fs1, TrashDir(root)).value;
      forall q :: q in fs2 && |q| > |root| + 1 && IsPrefix(TagsDir(root), q) ==>
        q in fs1 && SameKind(fs2[q], fs1[q])
  {
    var fs2 := MkdirP(fs1, TrashDir(root)).value;
    MkdirPKeeps(fs1, TrashDir(root));
    assert !IsPrefix(TagsDir(root), TrashDir(root)) by {
      assert TrashDir(root)[|root|] != TagsDir(root)[|root|];
    }
    forall q | q in fs2 && IsPrefix(TagsDir(root), q) ensures q in fs1 && fs2[q] == fs1[q] {
      assert !IsPrefix(q, TrashDir(root)) by {
        if |q| <= |root| + 1 {
          assert q == TagsDir(root);
        }
      }
    }
  }

  /** A tree that agrees on tags/ and keeps the kind of every node below
      it tags the file with no more tags. */
  lemma UnchangedBelowTags(fs1: FS, fs2: FS, root: Path, f: string)
    requires Consistent(fs1) && NamesValid(fs2) && ValidPath(root) && ValidSegment(f)
    requires TagsDir(root) in fs2 ==> TagsDir(root) in fs1 && fs2[TagsDir(root)] == fs1[TagsDir(root)]
    requires forall q :: q in fs2 && |q| > |root| + 1 && IsPrefix(TagsDir(root), q) ==>
      q in fs1 && SameKind(fs2[q], fs1[q])
    ensures forall t :: t in TagsOf(fs2, root, f) ==> t in TagsOf(fs1, root, f)
  {
    TagsOfShrinks(fs1, fs2, root, f);
  }

  /** Moving a node into .trash adds no tag. */
  lemma RenameShrinks(fs2: FS, root: Path, f: string, src: Path, dest: Path)
    requires Consistent(fs2) && ValidPath(root) && ValidSegment(f) && dest == TrashDir(root) + [f]
    requires Rename(fs2, src, dest).Ok?
    ensures forall t :: t in TagsOf(Rename(fs2, src, dest).value, root, f) ==> t in TagsOf(fs2, root, f)
  {
    if src != dest {
      MovedShrinks(fs2, root, f, src, dest);
    }
  }

  lemma MovedShrinks(fs2: FS, root: Path, f: string, src: Path, dest: Path)
    requires ValidPath(root) && ValidSegment(f) && dest == TrashDir(root) + [f] && src != dest
    requires Rename(fs2, src, dest).Ok? && Consistent(fs2)
    ensures forall t :: t in TagsOf(Rename(fs2, src, dest).value, root, f) ==> t in TagsOf(fs2, root, f)
  {
    var fs3 := Rename(fs2, src, dest).value;
    var mid := RemoveEntry(fs2, src);
    assert fs3 == AddEntry(mid, dest, fs2[src]);
    assert Up(dest) == TrashDir(root);
    assert TagsDir(root) != dest && TagsDir(root) != Up(dest) by {
      assert TrashDir(root)[|root|] != TagsDir(root)[|root|];
    }
    forall q | q in fs3 && |q| > |root| + 1 && IsPrefix(TagsDir(root), q)
      ensures q in fs2 && SameKind(fs3[q], fs2[q])
    {
      assert q != dest && q != Up(dest) by {
        assert q[|root|] == TagsDir(root)[|root|];
      }
      assert fs3[q] == mid[q];
    }
    ConsistentNamesValid(fs2);
    RenameNamesValid(fs2, src, dest);
    TagsOfShrinks(fs2, fs3, root, f);
  }
}
