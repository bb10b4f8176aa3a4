// The normalisation script itself (scripts/normalize-videos.js): the
// tree it works on and the module-level `results` it fills, as a class
// whose methods change them step by step, each proved to do what the
// functions of the Transcoding, Thumbnails and Aggregator modules say.
//
// ffmpeg and ffprobe are not run: `encode`, `probe` and `extract` say how
// each run on a given video ends, and `installed` whether both tools are
// on the PATH.

module NormalizeVideos {
  import opened Wrappers
  import opened Paths
  import opened FileSystem
  import opened MediaJobs
  import opened Walker
  import opened Transcoding
  import opened Thumbnails
  import opened Aggregator

  /** How `main` ends: after printing its summary, or by exiting early. */
  datatype Exit = Completed | Aborted(message: string)

  const RootMissing: string := "ROOT_DIR does not exist: "
  const ToolsMissing: string := "ffmpeg and ffprobe must be installed"

  /** The tally `main` starts from: fresh result lists over the tree. */
  function Fresh(fs: FS): Tally
  {
    Tally(fs, [], [], [], [])
  }

  /** `main()` on the tree `fs` below ROOT_DIR `root`. The walk of phase 1
      reads the tree as it is once the thumbnail directory exists; see
      TranscodeKeepsWalk for why the transcodes running inside the walk do
      not change what it reads. */
  function Main(root: Path, fs: FS, installed: bool,
                encode: Path -> ToolRun, probe: Path -> ProbeRun, extract: Path -> ToolRun): (Exit, Tally)
  {
    if !Exists(fs, root) then (Aborted(RootMissing + Render(root)), Fresh(fs))
    else if !installed then (Aborted(ToolsMissing), Fresh(fs))
    else
      match MkdirP(fs, root + [ThumbDirName])
      case Err(m) => (Aborted(m), Fresh(fs))
      case Ok(fs1) =>
        WalkPhase1Candidates(fs1, root, encode);
        var t1 := Phase1(Fresh(fs1), root, WalkDir(fs1, root, []), encode);
        (Completed, Phase2(t1, root, t1.mp4Files, probe, extract))
  }

  /** `main` exits early exactly when ROOT_DIR is missing, a tool is
      missing or the thumbnail directory cannot be created, and then it has
      changed nothing and recorded nothing. */
  lemma MainAborts(root: Path, fs: FS, installed: bool,
                   encode: Path -> ToolRun, probe: Path -> ProbeRun, extract: Path -> ToolRun)
    ensures var (exit, t) := Main(root, fs, installed, encode, probe, extract);
      (exit.Aborted? <==> !Exists(fs, root) || !installed || MkdirP(fs, root + [ThumbDirName]).Err?) &&
      (exit.Aborted? ==> t == Fresh(fs))
  {
  }

  /** A completed run records at least one error per directory the walk
      could not list, and at most one entry per unreadable directory,
      legacy video and collected .mp4 file; the files collected are every
      .mp4 the walk met plus every output produced. */
  lemma MainTotals(root: Path, fs: FS, installed: bool,
                   encode: Path -> ToolRun, probe: Path -> ProbeRun, extract: Path -> ToolRun)
    requires Main(root, fs, installed, encode, probe, extract).0.Completed?
    ensures var fs1 := MkdirP(fs, root + [ThumbDirName]).value;
      var events := WalkDir(fs1, root, []);
      var t1 := Phase1(Fresh(fs1), root, events, encode);
      var t := Main(root, fs, installed, encode, probe, extract).1;
      |t.errors| >= Unreadables(events) &&
      |t.transcoded| + |t.thumbnails| + |t.errors| <=
        Unreadables(events) + SourceVisits(events) + |t1.mp4Files| &&
      |t1.mp4Files| == Mp4Visits(events) + |t.transcoded|
  {
    var fs1 := MkdirP(fs, root + [ThumbDirName]).value;
    var events := WalkDir(fs1, root, []);
    WalkPhase1Candidates(fs1, root, encode);
    var t1 := Phase1(Fresh(fs1), root, events, encode);
    Phase1Counts(Fresh(fs1), root, events, encode);
    Phase2Counts(t1, root, t1.mp4Files, probe, extract);
  }

  class Pipeline {
    /** ROOT_DIR */
    const root: Path
    /** The tree below and around ROOT_DIR. */
    var fs: FS
    /** `results.transcoded`, `results.thumbnails`, `results.errors` */
    var transcoded: seq<TranscodeRecord>
    var thumbnails: seq<string>
    var errors: seq<ErrorRecord>

    constructor (root: Path, fs: FS)
      ensures this.root == root && this.fs == fs
      ensures transcoded == [] && thumbnails == [] && errors == []
    {
      this.root := root;
      this.fs := fs;
      transcoded := [];
      thumbnails := [];
      errors := [];
    }

    /** `transcodeToMp4(input)`, with `run` the way the encode ends. */
    method TranscodeToMp4(input: Path, run: ToolRun) returns (r: JobOutcome)
      requires input != [] && IsSourceVideo(input)
      modifies this`fs
      ensures Step(fs, r) == Transcode(old(fs), input, run)
    {
      var out := OutputPath(input);
      var tmp := TempPath(input);
      if Exists(fs, out) {
        return Skipped;
      }
      if Exists(fs, tmp) {
        return Skipped;
      }
      // the crash-recovery cleanup, whose error is ignored
      fs := UnlinkQuietly(fs, tmp, None);
      fs := ToolWrites(fs, tmp, run);
      if run.ToolFailed? {
        fs := UnlinkQuietly(fs, tmp, None);
        return Threw(TranscodeFailed + ExecFailure(EncodeCommand(input, tmp), run.stderr));
      }
      var renamed := Rename(fs, tmp, out);
      if renamed.Err? {
        fs := UnlinkQuietly(fs, tmp, None);
        return Threw(TranscodeFailed + renamed.message);
      }
      fs := renamed.value;
      return Produced(out);
    }

    /** `generateThumbnail(video)`, with `probe` and `extract` the way the
        two tool runs end. */
    method GenerateThumbnail(video: Path, probe: ProbeRun, extract: ToolRun) returns (r: JobOutcome)
      requires Candidate(root, video)
      modifies this`fs
      ensures Step(fs, r) == Thumbnail(old(fs), root, video, probe, extract)
    {
      if probe.ProbeFailed? {
        return Threw(ThumbFailed + DurationFailed + ExecFailure(ProbeCommand(video), probe.stderr));
      }
      var thumb := ThumbPath(root, video);
      if Exists(fs, thumb) {
        return Skipped;
      }
      var made := MkdirP(fs, Up(thumb));
      if made.Err? {
        return Threw(ThumbFailed + made.message);
      }
      fs := ToolWrites(made.value, thumb, extract);
      if extract.ToolFailed? {
        return Threw(ThumbFailed + ExecFailure(ExtractCommand(probe.midpoint, video, thumb), extract.stderr));
      }
      return Produced(thumb);
    }

    /** What the first loop of `main` does with one event of the walk:
        the callback the walk runs on a file, or the error the walk
        records for a directory it cannot list. */
    method HandleEvent(e: Event, encode: Path -> ToolRun, collected: seq<Path>) returns (mp4Files: seq<Path>)
      modifies this`fs, this`transcoded, this`errors
      ensures Tally(fs, transcoded, thumbnails, errors, mp4Files)
        == Phase1Step(Tally(old(fs), old(transcoded), thumbnails, old(errors), collected), root, e, encode)
    {
      mp4Files := collected;
      match e {
        case Unreadable(d, m) =>
          errors := errors + [ErrorRecord(Render(d), m)];
        case Visit(p) =>
          if IsSourceVideo(p) {
            SourceVisitStep(Tally(fs, transcoded, thumbnails, errors, collected), root, p, encode);
            var outcome := TranscodeToMp4(p, encode(p));
            mp4Files := RecordTranscodeOutcome(p, outcome, mp4Files);
          } else if IsMp4(p) {
            mp4Files := mp4Files + [p];
          }
      }
    }

    /** How the callback records a transcode job's outcome. */
    method RecordTranscodeOutcome(p: Path, outcome: JobOutcome, collected: seq<Path>) returns (mp4Files: seq<Path>)
      modifies this`transcoded, this`errors
      ensures Tally(fs, transcoded, thumbnails, errors, mp4Files)
        == RecordTranscode(Tally(fs, old(transcoded), thumbnails, old(errors), collected), root, p, Step(fs, outcome))
    {
      mp4Files := collected;
      match outcome {
        case Produced(out) =>
          transcoded := transcoded + [TranscodeRecord(Relative(root, p), Relative(root, out))];
          mp4Files := mp4Files + [out];
        case Threw(m) =>
          errors := errors + [ErrorRecord(Relative(root, p), TranscodeFailed + m)];
        case Skipped =>
      }
    }

    /** The first loop of `main`: every event of the walk, in order. */
    method TranscodePhase(events: seq<Event>, encode: Path -> ToolRun) returns (mp4Files: seq<Path>)
      modifies this`fs, this`transcoded, this`errors
      ensures Tally(fs, transcoded, thumbnails, errors, mp4Files)
        == Phase1(Tally(old(fs), old(transcoded), thumbnails, old(errors), []), root, events, encode)
    {
      ghost var start := Tally(fs, transcoded, thumbnails, errors, []);
      mp4Files := [];
      var i := 0;
      while i < |events|
        invariant 0 <= i <= |events|
        invariant Tally(fs, transcoded, thumbnails, errors, mp4Files) == Phase1(start, root, events[..i], encode)
      {
        mp4Files := HandleEvent(events[i], encode, mp4Files);
        Phase1Advance(start, root, events, i, encode);
        i := i + 1;
      }
      assert events[..|events|] == events;
    }

    /** The second loop of `main`: a thumbnail for every collected file,
        going on after every failure. */
    method ThumbnailPhase(files: seq<Path>, probe: Path -> ProbeRun, extract: Path -> ToolRun)
      requires AllCandidates(root, files)
      modifies this`fs, this`thumbnails, this`errors
      ensures Tally(fs, transcoded, thumbnails, errors, files)
        == Phase2(Tally(old(fs), transcoded, old(thumbnails), old(errors), files), root, files, probe, extract)
    {
      ghost var start := Tally(fs, transcoded, thumbnails, errors, files);
      var j := 0;
      CandidatesPrefix(root, files, 0);
      while j < |files|
        invariant 0 <= j <= |files|
        invariant AllCandidates(root, files[..j])
        invariant Tally(fs, transcoded, thumbnails, errors, files) == Phase2(start, root, files[..j], probe, extract)
      {
        CandidatesPrefix(root, files, j + 1);
        CandidatesPrefix(root, files, j);
        assert files[..j + 1][..j] == files[..j];
        var video := files[j];
        ghost var before := Tally(fs, transcoded, thumbnails, errors, files);
        var outcome := GenerateThumbnail(video, probe(video), extract(video));
        match outcome {
          case Produced(thumb) =>
            thumbnails := thumbnails + [Relative(root, thumb)];
          case Threw(m) =>
            errors := errors + [ErrorRecord(Relative(root, video), ThumbnailFailed + m)];
          case Skipped =>
        }
        assert Tally(fs, transcoded, thumbnails, errors, files) == Phase2Step(before, root, video, probe, extract);
        j := j + 1;
      }
      assert files[..|files|] == files;
    }

    /** `main()`: check ROOT_DIR and the tools, create the thumbnail
        directory, transcode during the walk while collecting .mp4 files,
        then make a thumbnail for each collected file. */
    method Run(installed: bool, encode: Path -> ToolRun, probe: Path -> ProbeRun, extract: Path -> ToolRun)
      returns (exit: Exit)
      requires transcoded == [] && thumbnails == [] && errors == []
      modifies this
      ensures var (e, t) := Main(root, old(fs), installed, encode, probe, extract);
        exit == e && fs == t.fs && transcoded == t.transcoded && thumbnails == t.thumbnails && errors == t.errors
    {
      if !Exists(fs, root) {
        return Aborted(RootMissing + Render(root));
      }
      if !installed {
        return Aborted(ToolsMissing);
      }
      var made := MkdirP(fs, root + [ThumbDirName]);
      if made.Err? {
        return Aborted(made.message);
      }
      fs := made.value;
      var events := WalkDir(fs, root, []);
      WalkPhase1Candidates(fs, root, encode);
      var mp4Files := TranscodePhase(events, encode);
      ThumbnailPhase(mp4Files, probe, extract);
      return Completed;
    }
  }
}
