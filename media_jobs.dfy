// The per-file jobs of the normalisation script
// (scripts/normalize-videos.js): the paths a transcode and a thumbnail
// job derive from their input, the command lines handed to ffprobe and
// ffmpeg, and the outcomes those tools and the jobs can have.

module MediaJobs {
  import opened Paths
  import opened FileSystem
  import ShellQuote

  /** Legacy containers that are transcoded. */
  const SourceExts: seq<string> := [".mov", ".wmv", ".flv"]
  const Mp4Ext: string := ".mp4"
  const ThumbExt: string := ".jpg"
  /** Suffix of the file ffmpeg writes before the rename. */
  const TempSuffix: string := ".tmp"
  /** Directory, below ROOT_DIR, that mirrors the tree with thumbnails. */
  const ThumbDirName: string := ".thumb"

  /** How an external tool run ends: success, or a non-zero exit with its
      standard error, having written part of its output file or not. */
  datatype ToolRun = ToolOk | ToolFailed(stderr: string, wrotePartial: bool)

  /** How the duration probe ends. On success the tool's output is parsed
      and halved; `midpoint` is the text JavaScript renders for that
      number (the floating-point value itself is not modelled). */
  datatype ProbeRun = ProbeOk(midpoint: string) | ProbeFailed(stderr: string)

  /** What a job returns: `null` (skipped), the path it produced, or the
      message of the error it throws. */
  datatype JobOutcome = Skipped | Produced(path: Path) | Threw(message: string)

  /** The tree after a job and what the job returned. */
  datatype Step = Step(fs: FS, outcome: JobOutcome)

  /** What an ffmpeg run leaves at its output path: the finished file after
      a successful run, a truncated one after a failure that wrote part of
      it, nothing when it cannot create the file. */
  function ToolWrites(fs: FS, out: Path, run: ToolRun): FS
  {
    if CanCreate(fs, out) && (run.ToolOk? || run.wrotePartial)
    then AddEntry(fs, out, File(run.ToolOk?))
    else fs
  }

  /** A video below ROOT_DIR and outside its thumbnail directory: what the
      thumbnail job is given. */
  predicate Candidate(root: Path, video: Path)
  {
    IsPrefix(root, video) && |video| > |root| && video[|root|] != ThumbDirName
  }

  /** `path.extname(filePath).toLowerCase()` */
  function Extension(p: Path): string
  {
    Lower(ExtName(BaseName(p)))
  }

  predicate IsSourceVideo(p: Path)
  {
    Extension(p) in SourceExts
  }

  predicate IsMp4(p: Path)
  {
    Extension(p) == Mp4Ext
  }

  /** `path.join(parsed.dir, parsed.name + MP4_EXT)` */
  function OutputPath(input: Path): Path
    requires input != []
  {
    Up(input) + [StemName(BaseName(input)) + Mp4Ext]
  }

  /** `outputPath + '.tmp'` */
  function TempPath(input: Path): Path
    requires input != []
  {
    Up(input) + [StemName(BaseName(input)) + Mp4Ext + TempSuffix]
  }

  /** `path.join(THUMB_DIR, path.join(parsed.dir, parsed.name + THUMB_EXT))`
      for the video's path relative to ROOT_DIR. */
  function ThumbPath(root: Path, video: Path): Path
    requires IsPrefix(root, video) && |video| > |root|
  {
    var rel := video[|root|..];
    root + [ThumbDirName] + Up(rel) + [StemName(BaseName(rel)) + ThumbExt]
  }

  /** The message of the error `execAsync` rejects with when a command
      exits non-zero. */
  function ExecFailure(cmd: string, stderr: string): string
  {
    "Command failed: " + cmd + "\n" + stderr
  }

  function ProbeCommand(video: Path): string
  {
    "ffprobe -v error -show_entries format=duration -of default=noprint_wrappers=1:nokey=1 "
      + ShellQuote.Quote(Render(video))
  }

  function EncodeCommand(input: Path, temp: Path): string
  {
    "ffmpeg -i " + ShellQuote.Quote(Render(input))
      + " -c:v libx264 -preset medium -crf 23 -c:a aac -movflags +faststart -f mp4 "
      + ShellQuote.Quote(Render(temp))
  }

  function ExtractCommand(midpoint: string, video: Path, thumb: Path): string
  {
    "ffmpeg -ss " + midpoint + " -i " + ShellQuote.Quote(Render(video))
      + " -vf scale=160:-1 -vframes 1 -q:v 2 " + ShellQuote.Quote(Render(thumb))
  }

  lemma LowerMp4()
    ensures Lower(Mp4Ext) == Mp4Ext
  {
    assert Lower(Mp4Ext) == [LowerChar('.'), LowerChar('m'), LowerChar('p'), LowerChar('4')];
  }

  /** The extension of `stem + ext`, for a non-empty stem and an extension
      that is a dot followed by at least one character and no other dot, is
      that extension. */
  lemma ExtNameOf(stem: string, ext: string)
    requires stem != "" && |ext| >= 2 && ext[0] == '.' && '.' !in ext[1..]
    ensures ExtName(stem + ext) == ext
    ensures StemName(stem + ext) == stem
  {
    var s := stem + ext;
    var i := LastIndexOf(s, '.');
    assert s[|stem|] == '.';
    assert forall j :: |stem| < j < |s| ==> s[j] == ext[1..][j - |stem| - 1];
    assert i == |stem|;
    assert s[i..] == ext;
    assert |s| >= 3;
  }

  /** Only a named file can be a legacy video. */
  lemma SourceVideoNonEmpty(p: Path)
    requires IsSourceVideo(p)
    ensures p != []
  {
  }

  /** A legacy video's name splits into a non-empty stem and a four-letter
      extension that is not ".mp4". */
  lemma SourceName(input: Path)
    requires IsSourceVideo(input)
    ensures var base := BaseName(input);
      StemName(base) != "" && |ExtName(base)| == 4 && ExtName(base) != Mp4Ext &&
      StemName(base) + ExtName(base) == base
  {
    var base := BaseName(input);
    var ext := ExtName(base);
    StemExt(base);
    assert |Lower(ext)| == |ext|;
    assert |ext| == 4;
    if ext == Mp4Ext {
      LowerMp4();
    }
  }

  /** The names of the job files of a legacy video: the output keeps the
      stem and takes ".mp4", the temporary file appends ".tmp", and neither
      is the input's name. */
  lemma JobNames(base: string)
    requires StemName(base) != "" && |ExtName(base)| == 4 && ExtName(base) != Mp4Ext
    requires StemName(base) + ExtName(base) == base
    ensures var out := StemName(base) + Mp4Ext;
      out != base && out + TempSuffix != base && out + TempSuffix != out &&
      StemName(out) == StemName(base) && Lower(ExtName(out)) == Mp4Ext
  {
    var stem := StemName(base);
    var out := stem + Mp4Ext;
    assert Mp4Ext[1..] == "mp4";
    ExtNameOf(stem, Mp4Ext);
    LowerMp4();
    assert |out + TempSuffix| == |base| + 4;
  }

  /** A name placed in a directory: its parent is that directory and its
      base name is that name. */
  lemma Beside(dir: Path, name: string)
    ensures Up(dir + [name]) == dir && BaseName(dir + [name]) == name
    ensures |dir + [name]| == |dir| + 1
  {
    assert (dir + [name])[..|dir|] == dir;
  }

  /** Where the job files of any video lie: beside it, the temporary file
      named after the output with ".tmp" appended, both keeping the stem. */
  lemma JobPathShape(input: Path)
    requires input != []
    ensures |OutputPath(input)| == |input| && |TempPath(input)| == |input|
    ensures Up(OutputPath(input)) == Up(input) && Up(TempPath(input)) == Up(input)
    ensures BaseName(OutputPath(input)) == StemName(BaseName(input)) + Mp4Ext
    ensures BaseName(TempPath(input)) == BaseName(OutputPath(input)) + TempSuffix
    ensures input == Up(input) + [BaseName(input)]
  {
    var up := Up(input);
    var out := StemName(BaseName(input)) + Mp4Ext;
    Beside(up, out);
    Beside(up, out + TempSuffix);
  }

  /** For a legacy video the input, its output and the temporary file are
      three distinct paths, so neither the rename nor the cleanup can touch
      the input. */
  lemma JobPathsDistinct(input: Path)
    requires input != [] && IsSourceVideo(input)
    ensures OutputPath(input) != input && TempPath(input) != input
    ensures TempPath(input) != OutputPath(input)
  {
    SourceName(input);
    JobNames(BaseName(input));
    JobPathShape(input);
  }

  /** The output keeps the input's stem and is itself an .mp4, which a later
      walk treats as a canonical video rather than transcoding it again. */
  lemma OutputIsMp4(input: Path)
    requires input != [] && StemName(BaseName(input)) != ""
    ensures StemName(BaseName(OutputPath(input))) == StemName(BaseName(input))
    ensures IsMp4(OutputPath(input)) && !IsSourceVideo(OutputPath(input))
  {
    var stem := StemName(BaseName(input));
    JobPathShape(input);
    assert Mp4Ext[1..] == "mp4";
    ExtNameOf(stem, Mp4Ext);
    LowerMp4();
  }

  /** The thumbnail of `ROOT_DIR/d/name.ext` is `ROOT_DIR/.thumb/d/name.jpg`:
      it lies under the thumbnail directory and mirrors the video's
      directory relative to ROOT_DIR. */
  lemma ThumbPathShape(root: Path, video: Path)
    requires IsPrefix(root, video) && |video| > |root|
    ensures var t := ThumbPath(root, video);
      |t| == |video| + 1 &&
      t[..|root| + 1] == root + [ThumbDirName] &&
      t[|root| + 1..|t| - 1] == video[|root|..|video| - 1] &&
      BaseName(t) == StemName(BaseName(video)) + ThumbExt
  {
    var rel := video[|root|..];
    var t := ThumbPath(root, video);
    assert Up(rel) == video[|root|..|video| - 1];
    assert BaseName(rel) == BaseName(video);
    assert t == (root + [ThumbDirName]) + Up(rel) + [StemName(BaseName(rel)) + ThumbExt];
  }

  /** The output of a legacy video below ROOT_DIR is again a video the
      thumbnail job accepts. */
  lemma OutputCandidate(root: Path, input: Path)
    requires Candidate(root, input) && IsSourceVideo(input)
    ensures Candidate(root, OutputPath(input))
  {
    var out := OutputPath(input);
    JobPathShape(input);
    assert out[..|root|] == Up(out)[..|root|];
    if |input| > |root| + 1 {
      assert out[|root|] == Up(out)[|root|];
    } else {
      var name := out[|root|];
      assert name == BaseName(out);
      assert name[|name| - 1] == '4';
    }
  }
}
