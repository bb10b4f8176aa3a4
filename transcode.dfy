// The transcode job of the normalisation script
// (scripts/normalize-videos.js, transcodeToMp4) as a function of the tree
// it starts from and of how ffmpeg's run ends, with the crash-safety
// properties the job is built for: the output appears only through the
// final rename, the temporary file never outlives an attempt, and the
// source video is never touched.

module Transcoding {
  import opened Wrappers
  import opened Paths
  import opened FileSystem
  import opened MediaJobs
  import Walker

  /** Prefix of the message a failed transcode throws. */
  const TranscodeFailed: string := "Transcode failed: "

  /** `transcodeToMp4(input)` on the tree `fs`, with `run` the way ffmpeg's
      encode ends. */
  function Transcode(fs: FS, input: Path, run: ToolRun): Step
    requires input != [] && IsSourceVideo(input)
  {
    if Exists(fs, OutputPath(input)) then Step(fs, Skipped)
    else if Exists(fs, TempPath(input)) then Step(fs, Skipped)
    else Encode(fs, OutputPath(input), TempPath(input), run, EncodeCommand(input, TempPath(input)))
  }

  /** The part of the job after both `access` checks have failed: clear
      the temporary path `tmp`, run the encode `cmd` into it, then rename
      it to the output `out`. */
  function Encode(fs: FS, out: Path, tmp: Path, run: ToolRun, cmd: string): Step
    requires tmp != []
  {
    var written := ToolWrites(UnlinkQuietly(fs, tmp, None), tmp, run);
    match run
    case ToolFailed(stderr, _) =>
      Step(UnlinkQuietly(written, tmp, None), Threw(TranscodeFailed + ExecFailure(cmd, stderr)))
    case ToolOk =>
      match Rename(written, tmp, out)
      case Ok(renamed) => Step(renamed, Produced(out))
      case Err(m) => Step(UnlinkQuietly(written, tmp, None), Threw(TranscodeFailed + m))
  }

  /** The output and the temporary path: two names in one directory. */
  predicate Siblings(out: Path, tmp: Path)
  {
    out != [] && tmp != [] && out != tmp && |out| == |tmp| && Up(out) == Up(tmp)
  }

  lemma JobSiblings(input: Path)
    requires input != [] && IsSourceVideo(input)
    ensures Siblings(OutputPath(input), TempPath(input))
  {
    JobPathShape(input);
    JobPathsDistinct(input);
  }

  /** The crash-recovery `unlink` runs only once `access` has failed on the
      temporary path, so the path is absent or a link leading nowhere: the
      cleanup removes at most such a dangling link, never a file. */
  lemma CleanupRemovesOnlyDanglingLink(fs: FS, tmp: Path)
    requires tmp != [] && !Exists(fs, tmp)
    ensures tmp !in UnlinkQuietly(fs, tmp, None)
    ensures tmp !in fs ==> UnlinkQuietly(fs, tmp, None) == fs
    ensures tmp in fs ==> fs[tmp].Symlink? && UnlinkQuietly(fs, tmp, None) == RemoveEntry(fs, tmp)
  {
    if tmp in fs {
      assert !fs[tmp].Dir? && !fs[tmp].File?;
    }
  }

  /** A job that fails leaves no node the tree did not have, and no node of
      another kind. */
  lemma FailureWithin(fs: FS, tmp: Path, run: ToolRun)
    requires tmp != [] && !Exists(fs, tmp)
    ensures var final := UnlinkQuietly(ToolWrites(UnlinkQuietly(fs, tmp, None), tmp, run), tmp, None);
      Within(final, fs) && tmp !in final
  {
    var fs1 := UnlinkQuietly(fs, tmp, None);
    CleanupRemovesOnlyDanglingLink(fs, tmp);
    assert Within(fs1, fs) by {
      if tmp in fs {
        RemoveWithin(fs, tmp);
      }
    }
    var written := ToolWrites(fs1, tmp, run);
    var final := UnlinkQuietly(written, tmp, None);
    if written != fs1 {
      AddThenRemove(fs1, tmp, File(run.ToolOk?));
      RemoveWithin(fs1, tmp);
      WithinTransitive(final, fs1, fs);
    }
  }

  /** An attempt is never skipped, returns only `out`, and every error it
      throws carries the "Transcode failed: " prefix. */
  lemma EncodeOutcome(fs: FS, out: Path, tmp: Path, run: ToolRun, cmd: string)
    requires tmp != []
    ensures var r := Encode(fs, out, tmp, run, cmd);
      !r.outcome.Skipped? && (r.outcome.Produced? ==> r.outcome.path == out) &&
      (r.outcome.Threw? ==> StartsWith(r.outcome.message, TranscodeFailed))
  {
    var r := Encode(fs, out, tmp, run, cmd);
    if r.outcome.Threw? {
      assert r.outcome.message[..|TranscodeFailed|] == TranscodeFailed;
    }
  }

  lemma TranscodeSkipped(fs: FS, input: Path, run: ToolRun)
    requires input != [] && IsSourceVideo(input)
    requires Exists(fs, OutputPath(input)) || Exists(fs, TempPath(input))
    ensures Transcode(fs, input, run) == Step(fs, Skipped)
  {
  }

  /** An attempt never leaves the temporary file behind, whatever the
      run's outcome. */
  lemma EncodeRemovesTemp(fs: FS, out: Path, tmp: Path, run: ToolRun, cmd: string)
    requires Siblings(out, tmp) && !Exists(fs, tmp)
    ensures tmp !in Encode(fs, out, tmp, run, cmd).fs
  {
    FailureWithin(fs, tmp, run);
    var written := ToolWrites(UnlinkQuietly(fs, tmp, None), tmp, run);
    if run.ToolOk? && Rename(written, tmp, out).Ok? {
      assert Rename(written, tmp, out).value.Keys == written.Keys - {tmp} + {out};
    }
  }

  /** After an attempt the output is accessible exactly when the attempt
      returned it, and then it is a finished file; a failed attempt adds
      nothing. */
  lemma EncodeOutput(fs: FS, out: Path, tmp: Path, run: ToolRun, cmd: string)
    requires Siblings(out, tmp) && !Exists(fs, out) && !Exists(fs, tmp)
    ensures var r := Encode(fs, out, tmp, run, cmd);
      (Exists(r.fs, out) <==> r.outcome == Produced(out)) &&
      (r.outcome.Produced? ==> run.ToolOk? && r.fs[out] == File(true)) &&
      (r.outcome.Threw? ==> Within(r.fs, fs))
  {
    var r := Encode(fs, out, tmp, run, cmd);
    var written := ToolWrites(UnlinkQuietly(fs, tmp, None), tmp, run);
    if run.ToolOk? && Rename(written, tmp, out).Ok? {
      assert tmp in written;
      assert written[tmp] == File(true);
      assert r.fs[out] == File(true);
    } else {
      FailureWithin(fs, tmp, run);
      ExistsWithin(r.fs, fs, out);
    }
  }

  /** A successful encode is always followed by a successful rename. */
  lemma EncodeSucceeds(fs: FS, out: Path, tmp: Path, cmd: string)
    requires Siblings(out, tmp) && !Exists(fs, out) && !Exists(fs, tmp) && CanCreate(fs, tmp)
    ensures Encode(fs, out, tmp, ToolOk, cmd).outcome == Produced(out)
  {
    var fs1 := UnlinkQuietly(fs, tmp, None);
    CleanupRemovesOnlyDanglingLink(fs, tmp);
    assert Up(tmp) != tmp;
    assert CanCreate(fs1, tmp);
    var written := ToolWrites(fs1, tmp, ToolOk);
    assert written == AddEntry(fs1, tmp, File(true));
    assert CanCreate(written, out);
    assert !IsPrefix(tmp, out);
    assert out in written ==> !written[out].Dir? by {
      if out in written {
        assert out in fs && written[out] == fs[out];
      }
    }
  }

  /** Only three places change: the temporary path, the output path and
      their directory's listing. */
  lemma EncodeFrame(fs: FS, out: Path, tmp: Path, run: ToolRun, cmd: string, q: Path)
    requires Siblings(out, tmp) && q != out && q != tmp && q != Up(tmp)
    ensures Lstat(Encode(fs, out, tmp, run, cmd).fs, q) == Lstat(fs, q)
  {
    var fs1 := UnlinkQuietly(fs, tmp, None);
    var written := ToolWrites(fs1, tmp, run);
    assert Lstat(fs1, q) == Lstat(fs, q);
    assert Lstat(written, q) == Lstat(fs, q);
    assert Lstat(UnlinkQuietly(written, tmp, None), q) == Lstat(fs, q);
  }

  /** The job is skipped exactly when the output or the temporary path is
      accessible, and a skipped job changes nothing: an earlier result is
      never overwritten, and a temporary file left behind blocks the input. */
  lemma TranscodeSkips(fs: FS, input: Path, run: ToolRun)
    requires input != [] && IsSourceVideo(input)
    ensures var r := Transcode(fs, input, run);
      (r.outcome.Skipped? <==> Exists(fs, OutputPath(input)) || Exists(fs, TempPath(input))) &&
      (r.outcome.Skipped? ==> r.fs == fs)
  {
    if !Exists(fs, OutputPath(input)) && !Exists(fs, TempPath(input)) {
      EncodeOutcome(fs, OutputPath(input), TempPath(input), run, EncodeCommand(input, TempPath(input)));
    }
  }

  /** An attempt that reaches ffmpeg never leaves the temporary file
      behind, whatever the run's outcome. */
  lemma TranscodeRemovesTemp(fs: FS, input: Path, run: ToolRun)
    requires input != [] && IsSourceVideo(input)
    requires !Exists(fs, OutputPath(input)) && !Exists(fs, TempPath(input))
    ensures TempPath(input) !in Transcode(fs, input, run).fs
  {
    JobSiblings(input);
    EncodeRemovesTemp(fs, OutputPath(input), TempPath(input), run, EncodeCommand(input, TempPath(input)));
  }

  /** After an attempt the output is accessible exactly when the job
      returned it, and then it is a finished file: a failed or interrupted
      encode never shows up under the final name. */
  lemma TranscodeOutput(fs: FS, input: Path, run: ToolRun)
    requires input != [] && IsSourceVideo(input)
    requires !Exists(fs, OutputPath(input)) && !Exists(fs, TempPath(input))
    ensures var r := Transcode(fs, input, run);
      (Exists(r.fs, OutputPath(input)) <==> r.outcome == Produced(OutputPath(input))) &&
      (r.outcome.Produced? ==> run.ToolOk? && r.fs[OutputPath(input)] == File(true)) &&
      (r.outcome.Threw? ==> Within(r.fs, fs))
  {
    JobSiblings(input);
    EncodeOutput(fs, OutputPath(input), TempPath(input), run, EncodeCommand(input, TempPath(input)));
  }

  /** A successful encode is always followed by a successful rename: the
      temporary file sits beside the output, whose directory exists, and
      nothing but a dangling link can be in the output's place. */
  lemma TranscodeSucceeds(fs: FS, input: Path)
    requires input != [] && IsSourceVideo(input)
    requires !Exists(fs, OutputPath(input)) && !Exists(fs, TempPath(input))
    requires CanCreate(fs, TempPath(input))
    ensures Transcode(fs, input, ToolOk).outcome == Produced(OutputPath(input))
  {
    JobSiblings(input);
    EncodeSucceeds(fs, OutputPath(input), TempPath(input), EncodeCommand(input, TempPath(input)));
  }

  /** Only three places change: the temporary path, the output path and
      their directory's listing. */
  lemma TranscodeFrame(fs: FS, input: Path, run: ToolRun, q: Path)
    requires input != [] && IsSourceVideo(input)
    requires q != OutputPath(input) && q != TempPath(input) && q != Up(input)
    ensures Lstat(Transcode(fs, input, run).fs, q) == Lstat(fs, q)
  {
    if !Exists(fs, OutputPath(input)) && !Exists(fs, TempPath(input)) {
      JobSiblings(input);
      JobPathShape(input);
      EncodeFrame(fs, OutputPath(input), TempPath(input), run, EncodeCommand(input, TempPath(input)), q);
    } else {
      TranscodeSkipped(fs, input, run);
    }
  }

  /** Hence the source video itself is never modified, moved or removed. */
  lemma TranscodeKeepsSource(fs: FS, input: Path, run: ToolRun)
    requires input != [] && IsSourceVideo(input)
    ensures Lstat(Transcode(fs, input, run).fs, input) == Lstat(fs, input)
  {
    JobPathShape(input);
    JobPathsDistinct(input);
    assert |Up(input)| < |input|;
    TranscodeFrame(fs, input, run, input);
  }

  /** A second run over an input the first run produced an output for is
      skipped and changes nothing. */
  lemma TranscodeOnce(fs: FS, input: Path, run: ToolRun, again: ToolRun)
    requires input != [] && IsSourceVideo(input)
    requires Transcode(fs, input, run).outcome.Produced?
    ensures var fs1 := Transcode(fs, input, run).fs;
      Transcode(fs1, input, again) == Step(fs1, Skipped)
  {
    TranscodeSkips(fs, input, run);
    TranscodeOutput(fs, input, run);
  }

  /** The job only ever returns the output path, and every error it
      throws carries the "Transcode failed: " prefix. */
  lemma TranscodeMessage(fs: FS, input: Path, run: ToolRun)
    requires input != [] && IsSourceVideo(input)
    ensures var r := Transcode(fs, input, run);
      (r.outcome.Produced? ==> r.outcome.path == OutputPath(input)) &&
      (r.outcome.Threw? ==> StartsWith(r.outcome.message, TranscodeFailed))
  {
    if !Exists(fs, OutputPath(input)) && !Exists(fs, TempPath(input)) {
      EncodeOutcome(fs, OutputPath(input), TempPath(input), run, EncodeCommand(input, TempPath(input)));
    }
  }

  /** A transcode changes nothing at or below a directory that does not
      contain the video: so the walk of every directory the traversal
      enters after a callback, none of which contains the file that
      callback got, reads the same tree as it would have before. */
  lemma TranscodeKeepsWalk(fs: FS, input: Path, run: ToolRun, root: Path, rel: Path)
    requires input != [] && IsSourceVideo(input)
    requires root + rel in fs && fs[root + rel].Dir? && !IsPrefix(root + rel, Up(input))
    ensures Walker.WalkDir(Transcode(fs, input, run).fs, root, rel) == Walker.WalkDir(fs, root, rel)
  {
    var d := root + rel;
    var out, tmp := OutputPath(input), TempPath(input);
    var fs' := Transcode(fs, input, run).fs;
    JobPathShape(input);
    forall q | IsPrefix(d, q) ensures Lstat(fs, q) == Lstat(fs', q) {
      KeepsBelow(fs, input, run, d, q);
    }
    Walker.WalkDirFrame(fs, fs', root, rel);
  }

  lemma KeepsBelow(fs: FS, input: Path, run: ToolRun, d: Path, q: Path)
    requires input != [] && IsSourceVideo(input)
    requires d in fs && fs[d].Dir? && !IsPrefix(d, Up(input)) && IsPrefix(d, q)
    ensures Lstat(Transcode(fs, input, run).fs, q) == Lstat(fs, q)
  {
    JobPathShape(input);
    if q == OutputPath(input) || q == TempPath(input) {
      PrefixOfChild(d, q, Up(input));
      assert Exists(fs, q);
      TranscodeSkipped(fs, input, run);
    } else {
      assert q != Up(input);
      TranscodeFrame(fs, input, run, q);
    }
  }

  /** A directory that does not hold `parent` holds none of its entries
      but, at most, the entry itself. */
  lemma PrefixOfChild(d: Path, q: Path, parent: Path)
    requires q != [] && Up(q) == parent && IsPrefix(d, q) && !IsPrefix(d, parent)
    ensures d == q
  {
  }
}
