// The thumbnail job of the normalisation script
// (scripts/normalize-videos.js, generateThumbnail): probe the duration,
// skip a thumbnail that is already there, create the mirrored directory
// below ROOT_DIR/.thumb and extract one frame into it.

module Thumbnails {
  import opened Wrappers
  import opened Paths
  import opened FileSystem
  import opened MediaJobs

  /** Prefix of every error the job throws. */
  const ThumbFailed: string := "Failed to generate thumbnail: "
  /** Prefix the duration probe adds to its command's failure. */
  const DurationFailed: string := "Failed to get video duration: "

  /** `generateThumbnail(video)` on the tree `fs`, with `probe` and
      `extract` the way ffprobe's and ffmpeg's runs end. */
  function Thumbnail(fs: FS, root: Path, video: Path, probe: ProbeRun, extract: ToolRun): Step
    requires Candidate(root, video)
  {
    match probe
    case ProbeFailed(stderr) =>
      Step(fs, Threw(ThumbFailed + DurationFailed + ExecFailure(ProbeCommand(video), stderr)))
    case ProbeOk(midpoint) =>
      var thumb := ThumbPath(root, video);
      if Exists(fs, thumb) then Step(fs, Skipped)
      else
        match MkdirP(fs, Up(thumb))
        case Err(m) => Step(fs, Threw(ThumbFailed + m))
        case Ok(fs1) =>
          var written := ToolWrites(fs1, thumb, extract);
          match extract
          case ToolOk => Step(written, Produced(thumb))
          case ToolFailed(stderr, _) =>
            Step(written, Threw(ThumbFailed + ExecFailure(ExtractCommand(midpoint, video, thumb), stderr)))
  }

  /** The probe runs before the existence check: a video whose duration
      cannot be read fails even when its thumbnail exists, and the tree is
      left as it was; every error carries the job's prefix. */
  lemma ThumbnailProbeFirst(fs: FS, root: Path, video: Path, probe: ProbeRun, extract: ToolRun)
    requires Candidate(root, video)
    ensures var r := Thumbnail(fs, root, video, probe, extract);
      (probe.ProbeFailed? ==> (r.fs == fs &&
        r.outcome == Threw(ThumbFailed + DurationFailed + ExecFailure(ProbeCommand(video), probe.stderr)))) &&
      (r.outcome.Threw? ==> StartsWith(r.outcome.message, ThumbFailed))
  {
    var r := Thumbnail(fs, root, video, probe, extract);
    if r.outcome.Threw? {
      assert r.outcome.message[..|ThumbFailed|] == ThumbFailed;
    }
  }

  /** Once the probe succeeds, the job is skipped exactly when the
      thumbnail is accessible, and a skipped job changes nothing. */
  lemma ThumbnailSkips(fs: FS, root: Path, video: Path, midpoint: string, extract: ToolRun)
    requires Candidate(root, video)
    ensures var r := Thumbnail(fs, root, video, ProbeOk(midpoint), extract);
      (r.outcome.Skipped? <==> Exists(fs, ThumbPath(root, video))) &&
      (r.outcome.Skipped? ==> r.fs == fs)
  {
    var r := Thumbnail(fs, root, video, ProbeOk(midpoint), extract);
    var thumb := ThumbPath(root, video);
    if !Exists(fs, thumb) && MkdirP(fs, Up(thumb)).Ok? {
      assert !r.outcome.Skipped? by {
        match extract
        case ToolOk =>
        case ToolFailed(_, _) =>
      }
    }
  }

  /** A produced thumbnail is a finished file at the mirrored path below
      ROOT_DIR/.thumb, and it is produced exactly when the probe, the
      directory creation and the extraction all succeed on a missing
      thumbnail. */
  lemma ThumbnailProduced(fs: FS, root: Path, video: Path, probe: ProbeRun, extract: ToolRun)
    requires Candidate(root, video)
    ensures var r := Thumbnail(fs, root, video, probe, extract);
      var thumb := ThumbPath(root, video);
      (r.outcome.Produced? <==>
        probe.ProbeOk? && extract.ToolOk? && !Exists(fs, thumb) && MkdirP(fs, Up(thumb)).Ok?) &&
      (r.outcome.Produced? ==> (r.outcome.path == thumb && thumb in r.fs && r.fs[thumb] == File(true) &&
        IsPrefix(root + [ThumbDirName], thumb)))
  {
    var r := Thumbnail(fs, root, video, probe, extract);
    var thumb := ThumbPath(root, video);
    ThumbPathShape(root, video);
    assert thumb[..|root| + 1] == root + [ThumbDirName];
    if r.outcome.Produced? {
      var fs1 := MkdirP(fs, Up(thumb)).value;
      assert thumb != [] && Up(thumb) in fs1 && fs1[Up(thumb)].Dir?;
    }
  }

  /** The job changes nothing but the chain of directories leading to the
      thumbnail and the thumbnail itself: every other node, the video
      included, keeps its place and content. */
  lemma ThumbnailFrame(fs: FS, root: Path, video: Path, probe: ProbeRun, extract: ToolRun, q: Path)
    requires Candidate(root, video)
    requires !IsPrefix(q, ThumbPath(root, video))
    ensures Lstat(Thumbnail(fs, root, video, probe, extract).fs, q) == Lstat(fs, q)
  {
    var thumb := ThumbPath(root, video);
    if probe.ProbeOk? && !Exists(fs, thumb) && MkdirP(fs, Up(thumb)).Ok? {
      var fs1 := MkdirP(fs, Up(thumb)).value;
      MkdirPKeeps(fs, Up(thumb));
      assert !IsPrefix(q, Up(thumb)) by {
        if IsPrefix(q, Up(thumb)) {
          PrefixTransitive(q, Up(thumb), thumb);
        }
      }
      assert Lstat(fs1, q) == Lstat(fs, q);
      assert q != thumb && q != Up(thumb);
    }
  }

  /** In particular the video itself is never touched. */
  lemma ThumbnailKeepsVideo(fs: FS, root: Path, video: Path, probe: ProbeRun, extract: ToolRun)
    requires Candidate(root, video)
    ensures Lstat(Thumbnail(fs, root, video, probe, extract).fs, video) == Lstat(fs, video)
  {
    var thumb := ThumbPath(root, video);
    ThumbPathShape(root, video);
    assert thumb[|root|] == ThumbDirName;
    ThumbnailFrame(fs, root, video, probe, extract, video);
  }

  /** ffmpeg writes straight to the final name, so an extraction that dies
      part-way fails the job but leaves a truncated thumbnail behind. */
  lemma PartialThumbnailLeft(fs: FS, root: Path, video: Path, midpoint: string, stderr: string)
    requires Candidate(root, video)
    requires !Exists(fs, ThumbPath(root, video)) && MkdirP(fs, Up(ThumbPath(root, video))).Ok?
    ensures var r := Thumbnail(fs, root, video, ProbeOk(midpoint), ToolFailed(stderr, true));
      r.outcome.Threw? && ThumbPath(root, video) in r.fs && r.fs[ThumbPath(root, video)] == File(false)
  {
    var thumb := ThumbPath(root, video);
    var fs1 := MkdirP(fs, Up(thumb)).value;
    ThumbPathShape(root, video);
    assert thumb != [] && Up(thumb) in fs1 && fs1[Up(thumb)].Dir?;
  }

  /** Every later run then skips that truncated thumbnail. */
  lemma PartialThumbnailSticks(fs: FS, root: Path, video: Path, midpoint: string, stderr: string, later: ProbeRun, again: ToolRun)
    requires Candidate(root, video)
    requires !Exists(fs, ThumbPath(root, video)) && MkdirP(fs, Up(ThumbPath(root, video))).Ok?
    requires later.ProbeOk?
    ensures var fs' := Thumbnail(fs, root, video, ProbeOk(midpoint), ToolFailed(stderr, true)).fs;
      Thumbnail(fs', root, video, later, again) == Step(fs', Skipped)
  {
    var thumb := ThumbPath(root, video);
    var fs' := Thumbnail(fs, root, video, ProbeOk(midpoint), ToolFailed(stderr, true)).fs;
    PartialThumbnailLeft(fs, root, video, midpoint, stderr);
    assert Exists(fs', thumb);
    ThumbnailSkips(fs', root, video, later.midpoint, again);
  }
}
