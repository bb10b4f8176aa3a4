// The accumulation logic of the normalisation script's `main`
// (scripts/normalize-videos.js): phase 1 runs over the walk's events,
// transcoding legacy videos and collecting the .mp4 files; phase 2 makes a
// thumbnail for each collected file. Both thread the tree and the three
// `results` lists through one step per element, which is what the two
// loops of the Pipeline class are proved against.

module Aggregator {
  import opened Paths
  import opened FileSystem
  import opened MediaJobs
  import opened Walker
  import opened Transcoding
  import opened Thumbnails

  /** An entry of `results.transcoded`, both paths relative to ROOT_DIR. */
  datatype TranscodeRecord = TranscodeRecord(input: string, output: string)

  /** An entry of `results.errors`. */
  datatype ErrorRecord = ErrorRecord(path: string, error: string)

  /** The tree, the three result lists and `main`'s own `mp4Files`. */
  datatype Tally = Tally(
    fs: FS,
    transcoded: seq<TranscodeRecord>,
    thumbnails: seq<string>,
    errors: seq<ErrorRecord>,
    mp4Files: seq<Path>)

  /** Prefix `main` puts before a thumbnail job's error. */
  const ThumbnailFailed: string := "Thumbnail failed: "

  /** What phase 1 does with one event of the walk. A transcode error is
      recorded under "Transcode failed: " again, on top of the prefix the
      job already put there. */
  function Phase1Step(t: Tally, root: Path, e: Event, encode: Path -> ToolRun): Tally
  {
    match e
    case Unreadable(d, m) => t.(errors := t.errors + [ErrorRecord(Render(d), m)])
    case Visit(p) =>
      if IsSourceVideo(p) then
        SourceVideoNonEmpty(p);
        RecordTranscode(t, root, p, Transcode(t.fs, p, encode(p)))
      else if IsMp4(p) then t.(mp4Files := t.mp4Files + [p])
      else t
  }

  /** How the outcome of one transcode job enters the tally. */
  function RecordTranscode(t: Tally, root: Path, p: Path, s: Step): Tally
  {
    match s.outcome
    case Produced(out) =>
      t.(fs := s.fs,
         transcoded := t.transcoded + [TranscodeRecord(Relative(root, p), Relative(root, out))],
         mp4Files := t.mp4Files + [out])
    case Threw(m) =>
      t.(fs := s.fs, errors := t.errors + [ErrorRecord(Relative(root, p), TranscodeFailed + m)])
    case Skipped => t.(fs := s.fs)
  }

  /** Phase 1 over a sequence of events, one step after the other. */
  function Phase1(t: Tally, root: Path, es: seq<Event>, encode: Path -> ToolRun): Tally
  {
    if es == [] then t
    else Phase1Step(Phase1(t, root, es[..|es| - 1], encode), root, es[|es| - 1], encode)
  }

  /** What phase 2 does with one collected file. */
  function Phase2Step(t: Tally, root: Path, f: Path, probe: Path -> ProbeRun, extract: Path -> ToolRun): Tally
    requires Candidate(root, f)
  {
    Record(t, root, f, Thumbnail(t.fs, root, f, probe(f), extract(f)))
  }

  /** How the outcome of one thumbnail job enters the tally. */
  function Record(t: Tally, root: Path, f: Path, s: Step): Tally
  {
    match s.outcome
    case Produced(thumb) => t.(fs := s.fs, thumbnails := t.thumbnails + [Relative(root, thumb)])
    case Threw(m) => t.(fs := s.fs, errors := t.errors + [ErrorRecord(Relative(root, f), ThumbnailFailed + m)])
    case Skipped => t.(fs := s.fs)
  }

  predicate AllCandidates(root: Path, files: seq<Path>)
  {
    forall i :: 0 <= i < |files| ==> Candidate(root, files[i])
  }

  lemma CandidatesPrefix(root: Path, files: seq<Path>, j: nat)
    requires AllCandidates(root, files) && j <= |files|
    ensures AllCandidates(root, files[..j])
    ensures j < |files| ==> Candidate(root, files[j])
  {
    assert forall i :: 0 <= i < j ==> files[..j][i] == files[i];
  }

  /** Phase 2 over a sequence of files, one step after the other. */
  function Phase2(t: Tally, root: Path, files: seq<Path>, probe: Path -> ProbeRun, extract: Path -> ToolRun): Tally
    requires AllCandidates(root, files)
  {
    if files == [] then t
    else
      Phase2Step(Phase2(t, root, files[..|files| - 1], probe, extract), root, files[|files| - 1], probe, extract)
  }

  /** Phase 1 over one more event is one more step. */
  lemma Phase1Advance(t: Tally, root: Path, es: seq<Event>, i: nat, encode: Path -> ToolRun)
    requires i < |es|
    ensures Phase1(t, root, es[..i + 1], encode) == Phase1Step(Phase1(t, root, es[..i], encode), root, es[i], encode)
  {
    assert es[..i + 1][..i] == es[..i];
  }

  /** A legacy video's step records the transcode job's outcome. */
  lemma SourceVisitStep(t: Tally, root: Path, p: Path, encode: Path -> ToolRun)
    requires IsSourceVideo(p)
    ensures p != []
    ensures Phase1Step(t, root, Visit(p), encode) == RecordTranscode(t, root, p, Transcode(t.fs, p, encode(p)))
  {
    SourceVideoNonEmpty(p);
  }

  /** Number of events of each kind. */
  function Unreadables(es: seq<Event>): nat
  {
    if es == [] then 0 else Unreadables(es[..|es| - 1]) + (if es[|es| - 1].Unreadable? then 1 else 0)
  }

  function SourceVisits(es: seq<Event>): nat
  {
    if es == [] then 0
    else SourceVisits(es[..|es| - 1]) + (if es[|es| - 1].Visit? && IsSourceVideo(es[|es| - 1].file) then 1 else 0)
  }

  function Mp4Visits(es: seq<Event>): nat
  {
    if es == [] then 0
    else Mp4Visits(es[..|es| - 1]) + (if es[|es| - 1].Visit? && IsMp4(es[|es| - 1].file) then 1 else 0)
  }

  /** What a legacy video's event does to the tally: its record and its
      output when the transcode is produced; one error under its relative
      path, with the message prefixed twice, when the job throws; nothing
      when the job is skipped. */
  ghost predicate TranscodeEntries(t: Tally, s: Tally, root: Path, p: Path)
  {
    p != [] && s.thumbnails == t.thumbnails &&
    ((s.transcoded == t.transcoded + [TranscodeRecord(Relative(root, p), Relative(root, OutputPath(p)))] &&
      s.mp4Files == t.mp4Files + [OutputPath(p)] && s.errors == t.errors) ||
     (s.transcoded == t.transcoded && s.mp4Files == t.mp4Files && |s.errors| == |t.errors| + 1 &&
      s.errors[..|t.errors|] == t.errors && s.errors[|t.errors|].path == Relative(root, p) &&
      StartsWith(s.errors[|t.errors|].error, TranscodeFailed + TranscodeFailed)) ||
     (s.transcoded == t.transcoded && s.mp4Files == t.mp4Files && s.errors == t.errors))
  }

  /** One event adds at most one entry to `transcoded` or `errors`, never
      to both: a legacy video as TranscodeEntries says; an .mp4 goes to
      `mp4Files` as it is; a directory that cannot be listed adds one error
      under its absolute path. */
  lemma Phase1StepEntries(t: Tally, root: Path, e: Event, encode: Path -> ToolRun)
    ensures var s := Phase1Step(t, root, e, encode);
      (e.Unreadable? ==> s == t.(errors := t.errors + [ErrorRecord(Render(e.dir), e.message)])) &&
      (e.Visit? && !IsSourceVideo(e.file) ==>
        s == (if IsMp4(e.file) then t.(mp4Files := t.mp4Files + [e.file]) else t)) &&
      (e.Visit? && IsSourceVideo(e.file) ==> TranscodeEntries(t, s, root, e.file))
  {
    if e.Visit? && IsSourceVideo(e.file) {
      SourceStepEntries(t, root, e.file, encode);
    }
  }

  lemma SourceStepEntries(t: Tally, root: Path, p: Path, encode: Path -> ToolRun)
    requires IsSourceVideo(p)
    ensures TranscodeEntries(t, Phase1Step(t, root, Visit(p), encode), root, p)
  {
    SourceVisitStep(t, root, p, encode);
    TranscodeMessage(t.fs, p, encode(p));
    RecordTranscodeEntries(t, root, p, Transcode(t.fs, p, encode(p)));
  }

  lemma RecordTranscodeEntries(t: Tally, root: Path, p: Path, r: Step)
    requires p != []
    requires r.outcome.Threw? ==> StartsWith(r.outcome.message, TranscodeFailed)
    requires r.outcome.Produced? ==> r.outcome.path == OutputPath(p)
    ensures TranscodeEntries(t, RecordTranscode(t, root, p, r), root, p)
  {
    if r.outcome.Threw? {
      var s := RecordTranscode(t, root, p, r);
      var m := r.outcome.message;
      assert s.errors[|t.errors|].error == TranscodeFailed + m;
      assert (TranscodeFailed + m)[..|TranscodeFailed + TranscodeFailed|]
        == TranscodeFailed + m[..|TranscodeFailed|];
    }
  }

  /** The bookkeeping of one event, in numbers: at most one entry in
      `transcoded` and `errors` together, one error for an unreadable
      directory, and one collected file per .mp4 met and per output
      produced. */
  lemma Phase1StepCounts(t: Tally, root: Path, e: Event, encode: Path -> ToolRun)
    ensures var s := Phase1Step(t, root, e, encode);
      s.thumbnails == t.thumbnails &&
      IsPrefix(t.transcoded, s.transcoded) && IsPrefix(t.errors, s.errors) && IsPrefix(t.mp4Files, s.mp4Files) &&
      |s.errors| >= |t.errors| + (if e.Unreadable? then 1 else 0) &&
      |s.errors| + |s.transcoded| <= |t.errors| + |t.transcoded| +
        (if e.Unreadable? || (e.Visit? && IsSourceVideo(e.file)) then 1 else 0) &&
      |s.mp4Files| == |t.mp4Files| + (if e.Visit? && IsMp4(e.file) then 1 else 0) + (|s.transcoded| - |t.transcoded|) &&
      (e.Visit? && IsMp4(e.file) ==> s.mp4Files == t.mp4Files + [e.file])
  {
    if e.Visit? && IsSourceVideo(e.file) {
      SourceStepEntries(t, root, e.file, encode);
      EntriesCounts(t, Phase1Step(t, root, e, encode), root, e.file);
      if IsMp4(e.file) {
        LowerMp4Exclusive(e.file);
      }
    } else {
      Phase1StepEntries(t, root, e, encode);
      if e.Visit? && IsMp4(e.file) {
        LowerMp4Exclusive(e.file);
      }
    }
  }

  lemma EntriesCounts(t: Tally, s: Tally, root: Path, p: Path)
    requires TranscodeEntries(t, s, root, p)
    ensures IsPrefix(t.transcoded, s.transcoded) && IsPrefix(t.errors, s.errors) && IsPrefix(t.mp4Files, s.mp4Files)
    ensures |s.errors| + |s.transcoded| <= |t.errors| + |t.transcoded| + 1
    ensures |s.mp4Files| == |t.mp4Files| + (|s.transcoded| - |t.transcoded|)
  {
  }

  /** Over a whole walk: nothing is ever removed from a list, the
      thumbnails stay untouched, every unreadable directory adds one error,
      each legacy video adds at most one entry, and `mp4Files` grows by
      exactly the .mp4 files met plus the outputs produced. */
  lemma {:induction false} Phase1Counts(t: Tally, root: Path, es: seq<Event>, encode: Path -> ToolRun)
    ensures var r := Phase1(t, root, es, encode);
      r.thumbnails == t.thumbnails &&
      IsPrefix(t.transcoded, r.transcoded) && IsPrefix(t.errors, r.errors) && IsPrefix(t.mp4Files, r.mp4Files) &&
      |r.errors| >= |t.errors| + Unreadables(es) &&
      |r.errors| + |r.transcoded| <= |t.errors| + |t.transcoded| + Unreadables(es) + SourceVisits(es) &&
      |r.mp4Files| == |t.mp4Files| + Mp4Visits(es) + (|r.transcoded| - |t.transcoded|)
  {
    if es != [] {
      var front := es[..|es| - 1];
      var e := es[|es| - 1];
      Phase1Counts(t, root, front, encode);
      var m := Phase1(t, root, front, encode);
      Phase1StepCounts(m, root, e, encode);
      var r := Phase1(t, root, es, encode);
      assert r == Phase1Step(m, root, e, encode);
      PrefixTransitive(t.transcoded, m.transcoded, r.transcoded);
      PrefixTransitive(t.errors, m.errors, r.errors);
      PrefixTransitive(t.mp4Files, m.mp4Files, r.mp4Files);
    }
  }

  /** Every .mp4 file the walk meets is collected for phase 2. */
  lemma {:induction false} Phase1CollectsMp4s(t: Tally, root: Path, es: seq<Event>, encode: Path -> ToolRun, i: nat)
    requires i < |es| && es[i].Visit? && IsMp4(es[i].file)
    ensures es[i].file in Phase1(t, root, es, encode).mp4Files
  {
    var front := es[..|es| - 1];
    var m := Phase1(t, root, front, encode);
    Phase1StepCounts(m, root, es[|es| - 1], encode);
    var r := Phase1(t, root, es, encode);
    assert r == Phase1Step(m, root, es[|es| - 1], encode);
    if i < |es| - 1 {
      assert front[i] == es[i];
      Phase1CollectsMp4s(t, root, front, encode, i);
      assert r.mp4Files[..|m.mp4Files|] == m.mp4Files;
      assert es[i].file in r.mp4Files[..|m.mp4Files|];
    }
  }

  lemma LowerMp4Exclusive(p: Path)
    requires IsMp4(p)
    ensures !IsSourceVideo(p)
  {
  }

  /** Every file collected for phase 2 is a video below ROOT_DIR outside
      its thumbnail directory, when every visited file is. */
  lemma {:induction false} Phase1Candidates(t: Tally, root: Path, es: seq<Event>, encode: Path -> ToolRun)
    requires AllCandidates(root, t.mp4Files)
    requires VisitsCandidates(root, es)
    ensures AllCandidates(root, Phase1(t, root, es, encode).mp4Files)
  {
    if es != [] {
      var front := es[..|es| - 1];
      var e := es[|es| - 1];
      assert VisitsCandidates(root, front) by {
        forall i | 0 <= i < |front| && front[i].Visit? ensures Candidate(root, front[i].file) {
          assert front[i] == es[i];
        }
      }
      Phase1Candidates(t, root, front, encode);
      var m := Phase1(t, root, front, encode);
      var r := Phase1(t, root, es, encode);
      assert r == Phase1Step(m, root, e, encode);
      if e.Visit? {
        assert Candidate(root, e.file);
        if IsSourceVideo(e.file) {
          SourceStepEntries(m, root, e.file, encode);
          OutputCandidate(root, e.file);
          CandidatesGrow(root, m.mp4Files, r.mp4Files, OutputPath(e.file));
        } else {
          Phase1StepEntries(m, root, e, encode);
          CandidatesGrow(root, m.mp4Files, r.mp4Files, e.file);
        }
      } else {
        Phase1StepEntries(m, root, e, encode);
      }
    }
  }

  lemma CandidatesGrow(root: Path, a: seq<Path>, b: seq<Path>, x: Path)
    requires AllCandidates(root, a) && Candidate(root, x) && (b == a || b == a + [x])
    ensures AllCandidates(root, b)
  {
  }

  predicate VisitsCandidates(root: Path, es: seq<Event>)
  {
    forall i :: 0 <= i < |es| && es[i].Visit? ==> Candidate(root, es[i].file)
  }

  /** The walk of ROOT_DIR visits only such videos. */
  lemma WalkCandidates(fs: FS, root: Path)
    ensures VisitsCandidates(root, WalkDir(fs, root, []))
  {
    var es := WalkDir(fs, root, []);
    WalkDirSound(fs, root, []);
    forall i | 0 <= i < |es| && es[i].Visit? ensures Candidate(root, es[i].file) {
      assert es[i] in es;
      var r := es[i].file[|root|..];
      assert !Hidden(r[0]);
    }
  }

  /** Hence every file phase 1 collects from a walk of ROOT_DIR is one
      the thumbnail job accepts. */
  lemma WalkPhase1Candidates(fs: FS, root: Path, encode: Path -> ToolRun)
    ensures AllCandidates(root, Phase1(Tally(fs, [], [], [], []), root, WalkDir(fs, root, []), encode).mp4Files)
  {
    var t := Tally(fs, [], [], [], []);
    var es := WalkDir(fs, root, []);
    WalkCandidates(fs, root);
    assert AllCandidates(root, t.mp4Files);
    Phase1Candidates(t, root, es, encode);
  }

  /** One file adds at most one entry to `thumbnails` or `errors`; a
      thumbnail error carries both prefixes. */
  lemma Phase2StepEntries(t: Tally, root: Path, f: Path, probe: Path -> ProbeRun, extract: Path -> ToolRun)
    requires Candidate(root, f)
    ensures var s := Phase2Step(t, root, f, probe, extract);
      s.transcoded == t.transcoded && s.mp4Files == t.mp4Files &&
      ((|s.thumbnails| == |t.thumbnails| + 1 && s.thumbnails[..|t.thumbnails|] == t.thumbnails && s.errors == t.errors) ||
       (s.thumbnails == t.thumbnails && |s.errors| == |t.errors| + 1 && s.errors[..|t.errors|] == t.errors &&
        s.errors[|t.errors|].path == Relative(root, f) &&
        StartsWith(s.errors[|t.errors|].error, ThumbnailFailed + ThumbFailed)) ||
       (s.thumbnails == t.thumbnails && s.errors == t.errors)) &&
      (probe(f).ProbeFailed? ==> s.errors == t.errors + [ProbeFailure(root, f, probe(f).stderr)])
  {
    var r := Thumbnail(t.fs, root, f, probe(f), extract(f));
    ThumbnailProbeFirst(t.fs, root, f, probe(f), extract(f));
    RecordEntries(t, root, f, r);
  }

  lemma RecordEntries(t: Tally, root: Path, f: Path, r: Step)
    requires r.outcome.Threw? ==> StartsWith(r.outcome.message, ThumbFailed)
    ensures var s := Record(t, root, f, r);
      s.transcoded == t.transcoded && s.mp4Files == t.mp4Files &&
      ((|s.thumbnails| == |t.thumbnails| + 1 && s.thumbnails[..|t.thumbnails|] == t.thumbnails && s.errors == t.errors) ||
       (s.thumbnails == t.thumbnails && |s.errors| == |t.errors| + 1 && s.errors[..|t.errors|] == t.errors &&
        s.errors[|t.errors|].path == Relative(root, f) &&
        StartsWith(s.errors[|t.errors|].error, ThumbnailFailed + ThumbFailed)) ||
       (s.thumbnails == t.thumbnails && s.errors == t.errors)) &&
      (r.outcome.Threw? ==> s.errors == t.errors + [ErrorRecord(Relative(root, f), ThumbnailFailed + r.outcome.message)])
  {
    if r.outcome.Threw? {
      var s := Record(t, root, f, r);
      var m := r.outcome.message;
      assert s.errors[|t.errors|].error == ThumbnailFailed + m;
      assert (ThumbnailFailed + m)[..|ThumbnailFailed + ThumbFailed|]
        == ThumbnailFailed + m[..|ThumbFailed|];
    }
  }

  /** Phase 2 attempts every collected file and never stops on a failure:
      each file adds at most one entry, nothing is removed, and a file
      whose probe fails is recorded as an error wherever it stands in the
      list. */
  lemma {:induction false} Phase2Counts(t: Tally, root: Path, files: seq<Path>, probe: Path -> ProbeRun, extract: Path -> ToolRun)
    requires AllCandidates(root, files)
    ensures var r := Phase2(t, root, files, probe, extract);
      r.transcoded == t.transcoded && r.mp4Files == t.mp4Files &&
      IsPrefix(t.thumbnails, r.thumbnails) && IsPrefix(t.errors, r.errors) &&
      |r.thumbnails| + |r.errors| <= |t.thumbnails| + |t.errors| + |files|
  {
    if files != [] {
      var front := files[..|files| - 1];
      Phase2Counts(t, root, front, probe, extract);
      var m := Phase2(t, root, front, probe, extract);
      Phase2StepEntries(m, root, files[|files| - 1], probe, extract);
      var r := Phase2(t, root, files, probe, extract);
      assert IsPrefix(t.thumbnails, r.thumbnails) by {
        assert r.thumbnails[..|m.thumbnails|] == m.thumbnails;
        PrefixTransitive(t.thumbnails, m.thumbnails, r.thumbnails);
      }
      assert IsPrefix(t.errors, r.errors) by {
        assert r.errors[..|m.errors|] == m.errors;
        PrefixTransitive(t.errors, m.errors, r.errors);
      }
    }
  }

  /** The error phase 2 records for a file whose duration probe fails. */
  function ProbeFailure(root: Path, f: Path, stderr: string): ErrorRecord
  {
    ErrorRecord(Relative(root, f), ThumbnailFailed + (ThumbFailed + DurationFailed + ExecFailure(ProbeCommand(f), stderr)))
  }

  lemma Phase2LastProbeFailure(t: Tally, root: Path, files: seq<Path>, probe: Path -> ProbeRun, extract: Path -> ToolRun)
    requires AllCandidates(root, files) && files != []
    requires probe(files[|files| - 1]).ProbeFailed?
    ensures ProbeFailure(root, files[|files| - 1], probe(files[|files| - 1]).stderr) in Phase2(t, root, files, probe, extract).errors
  {
    var m := Phase2(t, root, files[..|files| - 1], probe, extract);
    Phase2StepEntries(m, root, files[|files| - 1], probe, extract);
  }

  /** Later files only append to the errors of earlier ones. */
  lemma {:induction false} Phase2Extends(t: Tally, root: Path, files: seq<Path>, probe: Path -> ProbeRun, extract: Path -> ToolRun, k: nat)
    requires AllCandidates(root, files) && k <= |files|
    ensures AllCandidates(root, files[..k])
    ensures IsPrefix(Phase2(t, root, files[..k], probe, extract).errors, Phase2(t, root, files, probe, extract).errors)
    decreases |files|
  {
    CandidatesPrefix(root, files, k);
    if k < |files| {
      var front := files[..|files| - 1];
      CandidatesPrefix(root, files, |files| - 1);
      assert front[..k] == files[..k];
      Phase2Extends(t, root, front, probe, extract, k);
      var m := Phase2(t, root, front, probe, extract);
      Phase2StepEntries(m, root, files[|files| - 1], probe, extract);
      var r := Phase2(t, root, files, probe, extract);
      assert r.errors[..|m.errors|] == m.errors;
      PrefixTransitive(Phase2(t, root, files[..k], probe, extract).errors, m.errors, r.errors);
    } else {
      assert files[..k] == files;
    }
  }

  /** A file whose probe fails is recorded as an error wherever it stands
      in the list. */
  lemma Phase2ReportsProbeFailures(t: Tally, root: Path, files: seq<Path>, probe: Path -> ProbeRun, extract: Path -> ToolRun, i: nat)
    requires AllCandidates(root, files)
    requires i < |files| && probe(files[i]).ProbeFailed?
    ensures ProbeFailure(root, files[i], probe(files[i]).stderr) in Phase2(t, root, files, probe, extract).errors
  {
    Phase2Extends(t, root, files, probe, extract, i + 1);
    var head := files[..i + 1];
    assert head[|head| - 1] == files[i];
    Phase2LastProbeFailure(t, root, head, probe, extract);
    PrefixMember(Phase2(t, root, head, probe, extract).errors, Phase2(t, root, files, probe, extract).errors);
  }

  lemma PrefixMember<T>(a: seq<T>, b: seq<T>)
    requires |a| <= |b| && b[..|a|] == a
    ensures forall x :: x in a ==> x in b
  {
    forall x | x in a ensures x in b {
      var k :| 0 <= k < |a| && a[k] == x;
      assert b[k] == x;
    }
  }
}
