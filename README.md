# Media library: normalisation script and browsing API, modelled in Dafny

The system is a small self-hosted media library. A batch script walks the
library below ROOT_DIR, transcodes legacy videos (.mov, .wmv, .flv) to
.mp4 with ffmpeg, and writes a .jpg thumbnail for every .mp4 into a
`.thumb/` tree that mirrors the library. A web API lists directories,
tags files by keeping symbolic links under `ROOT_DIR/tags/<tag>/`, and
moves files to `ROOT_DIR/.trash/`. The browser side encodes paths for
URLs, formats file sizes and renders a breadcrumb.

This project models that core:

- The directory tree is a finite map `FS` from paths to nodes. A path is
  a sequence of segments below "/". A node is a file, a directory (its
  `readdir` order and whether it can be read) or a symbolic link (its
  target text). The calls the code makes (`access`, `stat`, `lstat`,
  `readdir`, `unlink`, `rename`, `mkdir -p`, `symlink`) are functions
  on that map, in module `FileSystem`. `path.resolve`, `path.join`,
  `path.relative`, `path.parse` and `path.extname` are in module `Paths`.
- ffmpeg and ffprobe are oracles. Each run is given as a value:
  success, or failure with its standard error, having written part of its
  output or not.
- What the system answers, beyond what the tree records, to creating a
  symbolic link or unlinking one (permissions, a read-only filesystem)
  is an oracle parameter too. The tag routes swallow a refused unlink,
  so a tag whose link cannot be removed stays on the file
  (`Tagging.RefusedLinkKept`).
- Code that updates state step by step is written as methods:
  - class `NormalizeVideos.Pipeline` holds the tree and the three result
    lists of the script;
  - class `FilesApi.FileStore` holds the tree as the API sees it;
  - `Breadcrumb.UpdateBreadcrumb` is the breadcrumb loop.
  Each method is proved equal to a specification function, and the
  properties are proved as lemmas about those functions.
- Pure code is written as functions with lemmas: the shell quoting, the
  path derivations, `safePath`, the listings, `encodeFilePath` and
  `formatSize`.

Two points where the code behaves other than a first reading suggests,
both modelled as written:

- The crash-recovery `unlink` of the temporary file
  (scripts/normalize-videos.js:85-90) runs after the check that the
  temporary path is absent. That check follows symbolic links, so the
  unlink can still remove a dangling symbolic link, and nothing else
  (`Transcoding.CleanupRemovesOnlyDanglingLink`). A leftover `.tmp` file
  makes the script skip that input on every later run
  (`Transcoding.TranscodeSkipped`).
- A thumbnail run that fails after ffmpeg wrote part of the .jpg leaves
  that file behind, and every later run skips the video
  (`Thumbnails.PartialThumbnailLeft`, `Thumbnails.PartialThumbnailSticks`).

The routes of the API use the corrected path guard, not the guard as
written; "## Findings" shows the difference and "## Left out" names the
routes.

## Model

| member | source | states |
|---|---|---|
| ShellQuote.QuoteRoundTrip | scripts/normalize-videos.js:52 | Wrapping the escaped path in single quotes gives a shell word that POSIX sh quote removal turns back into exactly the original path. |
| ShellQuote.ScanEscaped | scripts/normalize-videos.js:92-93 | Inside single quotes, the escaped text followed by the closing quote reads back as the original text. |
| ShellQuote.EscapeNoQuote | scripts/normalize-videos.js:52 | A path with no single quote is left unchanged by the escape. |
| ShellQuote.EscapeAppend | scripts/normalize-videos.js:142-143 | The escape works character by character: escaping a concatenation is the concatenation of the escapes. |
| ShellQuote.EscapeLength | scripts/normalize-videos.js:52 | Each single quote becomes the four characters `'\''` and every other character stays, so the length grows by 3 per quote. |
| ShellQuote.Escape | scripts/normalize-videos.js:52 | The escape never shortens the path, keeps every character of it, and adds no character other than the backslash. |
| ShellQuote.Quote | scripts/normalize-videos.js:53 | The word put in the command opens and closes with a single quote and is at least two characters longer than the path. |
| ShellQuote.Scan | scripts/normalize-videos.js:53 | When the shell reads a word as one literal word, the value is no longer than the word and is made only of the word's characters. |
| ShellQuote.Unquote | scripts/normalize-videos.js:53 | The value the shell gives a literal word is no longer than the word and uses only its characters. |
| Paths.Split | public/js/fileList.js:44 | `split('/')` always gives at least one piece, and no piece holds the separator. |
| Paths.JoinSplit | public/js/fileList.js:44 | Joining the pieces of a split with the same separator gives back the string. |
| Paths.SplitJoin | public/js/fileList.js:44 | Splitting pieces that hold no separator, once joined, gives back the pieces. |
| Paths.JoinCount | public/js/app.js:10 | Joining n pieces that hold no separator puts exactly n - 1 separators in the result. |
| Paths.SplitNoSep | public/js/app.js:10 | A string without the separator splits into itself alone. |
| Paths.SplitPrepend | public/js/app.js:10 | Putting a non-separator character in front of a string only extends its first piece. |
| Paths.Relative | src/api/files.js:31 | For a path below the base, `path.relative` is the remaining segments joined with "/". For any other path it begins with "..". |
| Paths.JoinAppend | public/js/app.js:15 | Joining two non-empty piece lists is joining each and putting one separator between them. |
| Paths.Lower | scripts/normalize-videos.js:218 | ASCII lowering: it keeps the length and maps each character on its own, 'A'-'Z' to 'a'-'z' and every other character to itself. |
| Paths.LastIndexOf | scripts/normalize-videos.js:65 | The result is -1 or the index of the last occurrence: the character is there and nowhere after it. |
| Paths.StemExt | scripts/normalize-videos.js:65-66 | `path.parse` name plus extension is the base name; the extension is empty or a dot followed by no other dot. |
| Paths.Normalize | src/api/files.js:10 | Applying segments to a normalised absolute path gives a normalised path: no empty, "." or ".." segment survives. |
| Paths.Up | scripts/normalize-videos.js:139 | `path.dirname` of a normalised path is again a normalised path. |
| Paths.Resolve | src/api/files.js:10 | `path.resolve(ROOT_DIR, p)` always gives a normalised absolute path. |
| Paths.JoinPath | src/api/files.js:30 | `path.join(dir, p)` on a normalised directory gives a normalised path. |
| Paths.JoinChild | src/api/files.js:98 | Joining a plain name to a directory adds that name as one more segment. |
| Paths.CommonPrefixLen | src/api/files.js:31 | The result is the length of the longest common leading part of the two paths. |
| Paths.NormalizeValid | src/api/files.js:30 | Applying plain names to a normalised path just appends them. |
| Paths.NormalizeUps | src/api/files.js:212 | Applying n ".." segments climbs n levels before the rest is applied. |
| Paths.RelativeResolves | src/api/files.js:212-215 | `path.relative(from, to)`, resolved against `from`, leads back to `to`. So a tag link whose target is that relative path leads to the tagged file. |
| Paths.ResolveSegments | src/api/files.js:212 | Resolving the joined climb-then-descend segments of a relative path reaches the target. |
| Paths.ResolveJoin | src/api/files.js:212 | Resolving a joined list of segments applies them one by one. |
| Paths.NormalizeClimb | src/api/files.js:212 | Climbing from `from` to the common ancestor and then descending the rest of `to` reaches `to`. |
| Paths.RenderPrefix | src/api/files.js:11 | A path below another renders as a string that starts with the other's rendering. |
| FileSystem.Follow | src/api/files.js:168 | Following symbolic links ends, if it ends, at a node that exists and is not a link. |
| FileSystem.Stat | src/api/files.js:168 | `fs.stat` follows links: it never reports a link, reports a non-link node as it is, and fails on an absent path. |
| FileSystem.ReadDir | src/api/files.js:93 | `readdir` follows a link at the end of the path as `stat` does. It succeeds exactly when what it reaches is a readable directory, and returns that directory's entries in their stored order. By `stat`'s contract, a path that is not a link reaches its own node. |
| FileSystem.Without | src/api/files.js:186 | Dropping a name from a listing keeps every other name and removes that one. |
| FileSystem.AddEntry | src/api/files.js:215 | Creating a node adds exactly that path, changes no other node, and lists the name in the parent directory. |
| FileSystem.Listed | src/api/files.js:198 | Listing a new name in a directory keeps the old names and adds the new one. |
| FileSystem.RemoveEntry | src/api/files.js:186 | Removing a node deletes exactly that path, changes no other node, and drops the name from the parent's listing. |
| FileSystem.AddThenRemove | scripts/normalize-videos.js:108-109 | Creating a node and then unlinking it leaves the tree as unlinking alone would. |
| FileSystem.MakeSymlink | src/api/files.js:215 | `symlink` succeeds exactly when the parent is a directory, nothing is at the link path and the system does not refuse; it then adds the link with the given target. |
| FileSystem.Unlink | src/api/files.js:186 | `unlink` succeeds exactly on an existing node that is not a directory when the system does not refuse it (EACCES, EPERM or EROFS, an oracle parameter), and then removes it. A refusal is the error raised. |
| FileSystem.Rename | src/api/files.js:269 | `rename` succeeds exactly when the source exists and the target can be created, is not below the source and is not a directory. The source's node then moves to the target, replacing what was there. |
| FileSystem.MkdirP | src/api/files.js:198 | After a successful `mkdir -p`, the path is a directory. |
| FileSystem.MkdirPKeeps | scripts/normalize-videos.js:139 | `mkdir -p` only adds empty directories along the path and keeps every node that was there. |
| FileSystem.MkdirExisting | scripts/normalize-videos.js:209 | When the path is already there, `mkdir -p` adds nothing further. |
| FileSystem.MkdirAdded | scripts/normalize-videos.js:209 | Creating the last missing directory keeps what `mkdir -p` keeps. |
| FileSystem.RemoveWithin | scripts/normalize-videos.js:109 | Unlinking only removes: the tree after it is contained in the tree before it. |
| FileSystem.WithinTransitive | scripts/normalize-videos.js:106-113 | Containment of trees is transitive. |
| FileSystem.AddEntryWithin | scripts/normalize-videos.js:100 | Creating a node at an absent path keeps the old tree contained in the new one. |
| FileSystem.MkdirPWithin | scripts/normalize-videos.js:139 | `mkdir -p` keeps the old tree contained in the new one. |
| FileSystem.FollowWithin | scripts/normalize-videos.js:71 | A link chain that ends in a smaller tree ends at the same place in a larger one. |
| FileSystem.ExistsWithin | scripts/normalize-videos.js:71 | What `access` finds in a smaller tree, it also finds in a larger one. |
| FileSystem.AddEntryConsistent | src/api/files.js:215 | Creating a node keeps the tree well formed: parents exist and list their children, and listings name existing nodes. |
| FileSystem.AddEntryParents | src/api/files.js:215 | Creating a node keeps every node listed by its parent directory. |
| FileSystem.AddEntryListings | src/api/files.js:215 | Creating a node keeps every listed name backed by a node. |
| FileSystem.RemoveEntryConsistent | src/api/files.js:186 | Unlinking a non-directory keeps the tree well formed. |
| FileSystem.RemoveEntryParents | src/api/files.js:186 | Unlinking a non-directory keeps every remaining node listed by its parent. |
| FileSystem.RemoveEntryListings | src/api/files.js:186 | Unlinking a non-directory keeps every listed name backed by a node. |
| FileSystem.UnlinkConsistent | src/api/files.js:127 | An `unlink` whose error is ignored keeps the tree well formed. |
| FileSystem.MkdirPConsistent | src/api/files.js:198 | A successful `mkdir -p` keeps the tree well formed. |
| FileSystem.RenameConsistent | src/api/files.js:269 | A successful `rename` of a non-directory keeps the tree well formed. |
| Walker.UnderShrinks | scripts/normalize-videos.js:177 | A subdirectory has strictly fewer nodes below it than its parent, so the recursion ends. |
| Walker.WalkDirSound | scripts/normalize-videos.js:155-187 | Every file reported by the walk lies below ROOT_DIR along non-hidden names, is a regular file, and is never inside a top-level `tags`, `.trash` or `.thumb`. Every error is for a directory whose `readdir` fails, with that failure's message. |
| Walker.WalkEntriesSound | scripts/normalize-videos.js:168-181 | Going over a directory's entries yields only such events, below that directory. |
| Walker.WalkEntriesVisitsFile | scripts/normalize-videos.js:178-179 | Every non-hidden regular file among the entries is reported. |
| Walker.WalkEntriesIncludesSubdir | scripts/normalize-videos.js:176-177 | Every event of a non-hidden subdirectory's walk is among the events of its parent's entries. |
| Walker.WalkDirFrame | scripts/normalize-videos.js:155-187 | The walk of a directory that is not a link depends only on the nodes below it. |
| Walker.WalkEntriesFrame | scripts/normalize-videos.js:168-181 | Going over the entries depends only on the nodes below the directory. |
| MediaJobs.LowerMp4 | scripts/normalize-videos.js:15 | ".mp4" is already lower case, so a lowered extension equal to it is ".mp4" in any case. |
| MediaJobs.ExtNameOf | scripts/normalize-videos.js:65-66 | A non-empty name followed by a dotted extension parses into that name and that extension. |
| MediaJobs.SourceVideoNonEmpty | scripts/normalize-videos.js:218-220 | A file with a legacy extension has a non-empty path. |
| MediaJobs.SourceName | scripts/normalize-videos.js:65 | A legacy video's base name is a non-empty stem plus a four-character extension other than ".mp4". |
| MediaJobs.JobNames | scripts/normalize-videos.js:66-67 | The output name differs from the input name, and the temporary name differs from both. The output keeps the stem, and its extension is ".mp4". |
| MediaJobs.Beside | scripts/normalize-videos.js:66 | A name joined to a directory has that directory as parent and that name as base name. |
| MediaJobs.JobPathShape | scripts/normalize-videos.js:64-67 | The output is the input's directory plus its stem and ".mp4", and the temporary path is the output plus ".tmp". Both are derived from the input path alone. |
| MediaJobs.JobPathsDistinct | scripts/normalize-videos.js:64-67 | The output, temporary and input paths of a legacy video are pairwise distinct. |
| MediaJobs.OutputIsMp4 | scripts/normalize-videos.js:66 | The output keeps the input's stem, is an .mp4 and is not a legacy video. |
| MediaJobs.ThumbPathShape | scripts/normalize-videos.js:125-128 | The thumbnail is at ROOT/.thumb, then the video's directories relative to ROOT, then its stem plus ".jpg". |
| MediaJobs.OutputCandidate | scripts/normalize-videos.js:229 | A fresh output below ROOT_DIR is a valid input for the thumbnail job. |
| Transcoding.JobSiblings | scripts/normalize-videos.js:64-67 | The output and the temporary path share a directory and differ. |
| Transcoding.CleanupRemovesOnlyDanglingLink | scripts/normalize-videos.js:77-90 | Once `access` found no temporary file, the cleanup `unlink` removes at most a dangling symbolic link there. Otherwise it changes nothing, and afterwards nothing is at that path. |
| Transcoding.FailureWithin | scripts/normalize-videos.js:106-113 | On a failed encode, whatever ffmpeg wrote is removed again: the tree afterwards is contained in the tree before it, and no temporary file is left. |
| Transcoding.EncodeOutcome | scripts/normalize-videos.js:97-114 | Once ffmpeg is reached, the job never skips. It returns the output path or throws a message starting "Transcode failed: ". |
| Transcoding.TranscodeSkipped | scripts/normalize-videos.js:69-83 | When the output or the temporary path exists, the job returns null and leaves the tree alone. |
| Transcoding.EncodeRemovesTemp | scripts/normalize-videos.js:97-114 | After ffmpeg has run, the temporary path is gone whether the run succeeded or failed. |
| Transcoding.EncodeOutput | scripts/normalize-videos.js:97-114 | The output exists afterwards exactly when the job returns it, which needs a successful run, and it is then a complete file. A failure only ever removes nodes. |
| Transcoding.EncodeSucceeds | scripts/normalize-videos.js:100-105 | A successful ffmpeg run in a writable directory always ends in the renamed output. |
| Transcoding.EncodeFrame | scripts/normalize-videos.js:97-114 | Encoding changes no node other than the output, the temporary path and their directory's listing. |
| Transcoding.TranscodeSkips | scripts/normalize-videos.js:69-83 | The job skips exactly when the output or the temporary path exists, and a skip changes nothing. |
| Transcoding.TranscodeRemovesTemp | scripts/normalize-videos.js:85-114 | A job that gets past the checks never leaves the temporary path behind. |
| Transcoding.TranscodeOutput | scripts/normalize-videos.js:64-115 | The output exists after the job exactly when the job returns it: only after a successful run and rename, as a complete file. A failed job only removes. |
| Transcoding.TranscodeSucceeds | scripts/normalize-videos.js:97-105 | With no output, no temporary file, a writable directory and a successful ffmpeg run, the job produces the output. |
| Transcoding.TranscodeFrame | scripts/normalize-videos.js:64-115 | The job changes no node other than the output, the temporary path and their directory. |
| Transcoding.TranscodeKeepsSource | scripts/normalize-videos.js:64-115 | The source video is never modified. |
| Transcoding.TranscodeOnce | scripts/normalize-videos.js:69-75 | After a produced output, running the job again skips and changes nothing. |
| Transcoding.TranscodeMessage | scripts/normalize-videos.js:105-113 | A produced path is the output path, and a thrown message starts with "Transcode failed: ". |
| Transcoding.TranscodeKeepsWalk | scripts/normalize-videos.js:217-242 | A transcode does not change the walk of any directory that does not contain the video's directory. |
| Transcoding.KeepsBelow | scripts/normalize-videos.js:64-115 | Below a directory that does not contain the video's directory, the job changes nothing. |
| Thumbnails.ThumbnailProbeFirst | scripts/normalize-videos.js:119-121 | The duration probe runs first: if it fails, the job throws the doubly prefixed message and changes nothing, even when the thumbnail exists. Every thrown message starts with "Failed to generate thumbnail: ". |
| Thumbnails.ThumbnailSkips | scripts/normalize-videos.js:130-136 | After a successful probe, the job returns null exactly when the thumbnail exists, and then changes nothing. |
| Thumbnails.ThumbnailProduced | scripts/normalize-videos.js:118-152 | The job returns the thumbnail path exactly when the probe and ffmpeg succeed, the thumbnail was absent and its directory could be made. The thumbnail is then a complete file below ROOT/.thumb. |
| Thumbnails.ThumbnailFrame | scripts/normalize-videos.js:138-148 | The job changes nothing except the thumbnail and the directories leading to it. |
| Thumbnails.ThumbnailKeepsVideo | scripts/normalize-videos.js:118-152 | The video itself is never modified. |
| Thumbnails.PartialThumbnailLeft | scripts/normalize-videos.js:147-151 | An ffmpeg run that fails after writing part of the .jpg throws and leaves the partial file in place. |
| Thumbnails.PartialThumbnailSticks | scripts/normalize-videos.js:130-136 | Once a partial thumbnail is left, every later run with a successful probe skips the video. |
| Aggregator.SourceVisitStep | scripts/normalize-videos.js:220-223 | A legacy video's event runs the transcode job on the current tree and records its outcome. |
| Aggregator.Phase1StepEntries | scripts/normalize-videos.js:217-242 | One event adds at most one entry, to `transcoded` or to `errors`, never both. A success also appends the output to `mp4Files`. A failure is recorded under the relative path with "Transcode failed: " twice in front. An .mp4 is appended to `mp4Files` as it is. An unreadable directory adds one error under its absolute path. |
| Aggregator.SourceStepEntries | scripts/normalize-videos.js:222-237 | A legacy video's event changes the tally as the transcode entry rule says. |
| Aggregator.RecordTranscodeEntries | scripts/normalize-videos.js:224-236 | Recording a job outcome follows the transcode entry rule: a record and an mp4 for a produced output, one doubly prefixed error for a throw, nothing for a skip. |
| Aggregator.Phase1StepCounts | scripts/normalize-videos.js:217-242 | One event leaves thumbnails alone and only appends to the lists. An unreadable directory adds an error. A legacy video adds at most one entry. An .mp4 adds itself to `mp4Files`. |
| Aggregator.EntriesCounts | scripts/normalize-videos.js:222-237 | Under the transcode entry rule the lists only grow, by one entry at most, and `mp4Files` grows exactly with `transcoded`. |
| Aggregator.Phase1Counts | scripts/normalize-videos.js:217-242 | Over a whole walk, the lists only grow. There is an error per unreadable directory and at most one entry per legacy video. `mp4Files` holds one entry per pre-existing .mp4 plus one per fresh output. |
| Aggregator.Phase1CollectsMp4s | scripts/normalize-videos.js:238-240 | Every pre-existing .mp4 the walk reports ends up in `mp4Files`. |
| Aggregator.LowerMp4Exclusive | scripts/normalize-videos.js:220-238 | An .mp4 is never also a legacy video, so the two branches of the callback exclude each other. |
| Aggregator.Phase1Candidates | scripts/normalize-videos.js:229-240 | Everything phase 1 puts in `mp4Files` is a valid thumbnail job input, provided the walk reports only such files. |
| Aggregator.WalkCandidates | scripts/normalize-videos.js:155-187 | Every file the walk of ROOT_DIR reports lies below ROOT_DIR and outside `.thumb`. |
| Aggregator.WalkPhase1Candidates | scripts/normalize-videos.js:214-242 | After phase 1 over the walk of ROOT_DIR, every element of `mp4Files` is a valid thumbnail job input. |
| Aggregator.Phase2StepEntries | scripts/normalize-videos.js:246-261 | One thumbnail turn adds one thumbnail, or one "Thumbnail failed: "-prefixed error under the relative path, or nothing. A failed probe always adds its error. |
| Aggregator.RecordEntries | scripts/normalize-videos.js:248-259 | Recording a thumbnail outcome adds the thumbnail, or the error under the relative path, or nothing. |
| Aggregator.Phase2Counts | scripts/normalize-videos.js:246-261 | The thumbnail loop leaves `transcoded` and `mp4Files` alone, only appends, and adds at most one entry per file. |
| Aggregator.Phase2LastProbeFailure | scripts/normalize-videos.js:254-259 | A probe failure on the last file is reported among the errors. |
| Aggregator.Phase2Extends | scripts/normalize-videos.js:246-261 | The errors after the first k files are a prefix of the errors after all files: later turns never remove one. |
| Aggregator.Phase2ReportsProbeFailures | scripts/normalize-videos.js:246-261 | The loop does not stop on a failure: every file whose probe fails has its error reported. |
| NormalizeVideos.MainAborts | scripts/normalize-videos.js:197-209 | `main` stops early exactly when ROOT_DIR is missing, ffmpeg or ffprobe is missing, or `.thumb` cannot be created. It then has recorded nothing. |
| NormalizeVideos.MainTotals | scripts/normalize-videos.js:214-261 | After a full run there is at least one error per unreadable directory. `mp4Files` is the pre-existing .mp4s plus the fresh outputs. The three result lists together hold at most one entry per unreadable directory, per legacy video and per element of `mp4Files`. |
| NormalizeVideos.Pipeline.constructor | scripts/normalize-videos.js:19-23 | The script starts with empty result lists over the given tree. |
| NormalizeVideos.Pipeline.TranscodeToMp4 | scripts/normalize-videos.js:64-115 | The step-by-step transcode leaves the tree and returns what the transcode specification says. |
| NormalizeVideos.Pipeline.GenerateThumbnail | scripts/normalize-videos.js:118-152 | The step-by-step thumbnail job leaves the tree and returns what the thumbnail specification says. |
| NormalizeVideos.Pipeline.HandleEvent | scripts/normalize-videos.js:217-242 | Handling one walk event updates the tree, `results` and `mp4Files` exactly as one phase-1 step says. |
| NormalizeVideos.Pipeline.RecordTranscodeOutcome | scripts/normalize-videos.js:224-236 | Pushing a transcode outcome into `results` and `mp4Files` is the phase-1 record rule. |
| NormalizeVideos.Pipeline.TranscodePhase | scripts/normalize-videos.js:216-242 | The phase-1 loop over the walk leaves the tree, `results` and `mp4Files` as the phase-1 fold says. |
| NormalizeVideos.Pipeline.ThumbnailPhase | scripts/normalize-videos.js:245-261 | The thumbnail loop leaves the tree, `results.thumbnails` and `results.errors` as the phase-2 fold says. |
| NormalizeVideos.Pipeline.Run | scripts/normalize-videos.js:191-261 | A whole run ends with the exit status, tree and result lists that `main`'s specification gives. |
| SafePaths.SafePathContained | src/api/files.js:9-15 | The corrected guard accepts exactly the requests that resolve to ROOT_DIR or below it. On those it agrees with the guard as written. Otherwise it fails with "Access denied: Path traversal attempt". |
| SafePaths.SafePathDescends | src/api/files.js:9-15 | Plain names joined with "/" are accepted and resolve to ROOT_DIR followed by those names. |
| SafePaths.SafePathOfRelative | src/api/files.js:31 | The relative path the listing reports for an entry leads back through the guard to that entry. |
| SafePaths.SiblingEscapes | src/api/files.js:11 | With ROOT_DIR "/srv/media", the request "../media2/x" passes the guard as written and resolves to "/srv/media2/x", which is not below ROOT_DIR. The corrected guard refuses it. |
| Sorting.InsertPermutes | src/api/files.js:51 | Inserting into a sorted list keeps every element: the multiset gains exactly the new one. |
| Sorting.SortPermutes | src/api/files.js:51 | Sorting permutes: the result has the same multiset of elements. |
| Sorting.InsertSorted | src/api/files.js:51 | Under a total, transitive order, inserting into a sorted list keeps it sorted. |
| Sorting.SortSorted | src/api/files.js:78 | Under a total, transitive order, the result is sorted. |
| Sorting.NameLeTotal | src/api/files.js:55 | The name order used for `localeCompare` relates any two names. |
| Sorting.NameLeTransitive | src/api/files.js:55 | The name order is transitive. |
| Sorting.NameLeAntisymmetric | src/api/files.js:55 | The name order is antisymmetric, so equal-ranked names are equal. |
| Listing.ItemLeOrders | src/api/files.js:51-56 | The `/list` comparator is total and transitive. |
| Listing.ListItemsMembers | src/api/files.js:24-48 | An item is made for a name exactly when the name is listed, not hidden and can be stat-ed. Each item is the one built for its name. |
| Listing.ListContents | src/api/files.js:19-62 | `/list` fails exactly when the guard refuses or `readdir` fails. Otherwise its items are, as a multiset, the items of the directory's entries. |
| Listing.ListOrdered | src/api/files.js:51-56 | In the `/list` result every directory comes before every file, and names ascend within each group. |
| Listing.ListedPath | src/api/files.js:30-31 | An item's `path` is its directory's segments below ROOT_DIR plus its name, joined by "/". That path leads back through the guard to the entry. |
| Listing.TreeBranchesMembers | src/api/files.js:71-77 | A branch is made for a name exactly when the name is listed, not hidden and is a directory entry. Each branch has the path relative to ROOT_DIR and `hasChildren` true. |
| Listing.TreeContents | src/api/files.js:66-84 | `/tree` fails exactly when the guard refuses or `readdir` fails. Otherwise its branches are, as a multiset, those of the directory's entries, sorted by name. |
| Tagging.TagsAmongMembers | src/api/files.js:95-107 | Among the given names, a tag is collected exactly when it is one of them and holds a symbolic link named after the file. |
| Tagging.TagsOfMembers | src/api/files.js:87-113 | `getTagsForFile` gives exactly the non-hidden directories under tags/ that hold a symbolic link named after the file's base name. It gives nothing when tags/ cannot be listed. |
| Tagging.TagPaths | src/api/files.js:180-200 | A tag's directory is ROOT/tags/tag, and its link for a file is ROOT/tags/tag/fileName. |
| Tagging.TagLinksMembers | src/api/files.js:122-125 | `removeAllSymlinks` targets the file's link in every non-hidden directory of tags/. |
| Tagging.UnlinkAllEffect | src/api/files.js:122-131 | A run of quiet unlinks removes exactly the targeted non-directory nodes whose unlink the system does not refuse. Other nodes are unchanged except the listings of the targets' parents. The tree stays well formed. |
| Tagging.RemoveLinksKeeps | src/api/files.js:116-135 | `removeAllSymlinks` only removes nodes, never alters a non-directory, and keeps the tree well formed. |
| Tagging.RemoveLinksDepth | src/api/files.js:125-127 | Every node `removeAllSymlinks` removes sits at ROOT/tags/<tag>/<name>. |
| Tagging.RemoveLinksClears | src/api/files.js:116-135 | After `removeAllSymlinks`, the file keeps exactly those of its tags whose link the system refused to unlink, the error being swallowed. When no unlink is refused, no tag is left. |
| Tagging.RefusedLinkKept | src/api/files.js:122-131 | A tag whose link the system refuses to unlink is still reported after `removeAllSymlinks`. |
| Tagging.RemovedUntagged | src/api/files.js:116-135 | A tag reported after `removeAllSymlinks` was a tag before, and its link is one the system refused to unlink. |
| Tagging.LinkDepth | src/api/files.js:125 | Each targeted link sits three levels below ROOT_DIR. |
| Tagging.TagsOfShrinks | src/api/files.js:87-113 | A tree that only lost nodes below tags/ reports no tag for the file that the larger tree did not. |
| Tagging.Minus | src/api/files.js:177-178 | The filtered list holds exactly the elements of the first list that are not in the second. |
| Tagging.LinksFor | src/api/files.js:183-184 | There is one link path per tag to remove, in order. For a plain tag name and file name under a normalised ROOT_DIR, each lies exactly three segments below ROOT_DIR: tags, the tag, the file name. |
| Tagging.TagChanges | src/api/files.js:177-178 | `tagsToAdd` and `tagsToRemove` are disjoint. A tag is in one of them exactly when it is requested or current but not both. |
| Tagging.UpdateTagsValidates | src/api/files.js:159-171 | A missing path, a non-array `tags`, a refused path, a missing file or a directory is refused before anything changes. The first two get "File path and tags array required". |
| Tagging.AddLinkKeeps | src/api/files.js:194-219 | One turn of the add loop keeps the tree well formed, only adds nodes and only appends errors. After a thrown `mkdir` it does nothing. |
| Tagging.LinkKeeps | src/api/files.js:215 | Creating the link keeps the tree well formed and only adds. |
| Tagging.MkdirTagNew | src/api/files.js:198 | `mkdir -p` of a tag directory adds only directories on the way to ROOT/tags/tag. |
| Tagging.AddLinkNew | src/api/files.js:194-219 | One turn adds nothing but the tag's directories and the file's link in it. |
| Tagging.AddLinkShape | src/api/files.js:198-215 | After the `mkdir`, the turn either leaves the tree or adds the link, pointing at the file's path relative to the tag directory. |
| Tagging.LinkNew | src/api/files.js:215 | Adding the link keeps "only the tag's own nodes are new" true. |
| Tagging.AddLinkDone | src/api/files.js:194-219 | A turn that neither throws nor records an error leaves the tag directory and a node at the link path. |
| Tagging.AddLinksKeeps | src/api/files.js:194-219 | The whole add loop keeps the tree well formed, only adds and only appends errors. Once a `mkdir` has thrown, nothing more happens. |
| Tagging.AddLinksNew | src/api/files.js:194-219 | The add loop creates only the new tags' directories and the file's links in them. |
| Tagging.AddLinksDone | src/api/files.js:194-219 | When nothing throws and no error is recorded, every tag to add ends with its directory and a node at the link path. |
| Tagging.ListedTagValid | src/api/files.js:93-96 | A visible tag directory that `readdir` of tags/ lists in a well-formed tree has a plain name. tags/ is then a directory itself, not a link, and it lists that name. |
| Tagging.TagKept | src/api/files.js:183-219 | A current tag whose link survived the removals is still a tag afterwards. |
| Tagging.TagAdded | src/api/files.js:194-219 | A tag to add whose directory and link exist afterwards is a tag afterwards. |
| Tagging.TagWasThere | src/api/files.js:177-219 | A tag afterwards that was not to be added was a current tag, and its link survived the removals. |
| Tagging.RemovedLinks | src/api/files.js:183-184 | A current tag's link is removed exactly when the tag is to be removed. |
| Tagging.TagsAfterUpdate | src/api/files.js:157-230 | When POST /tags succeeds, the reply echoes the requested tags. Afterwards the file's tags are exactly the requested ones plus the dropped ones whose link the system refused to unlink. This needs every link path already in use to be a symbolic link. |
| Tagging.TagsAfterSteps | src/api/files.js:183-219 | After the remove and add loops, the file's tags are exactly the requested ones plus the current ones whose link the system refused to unlink. |
| Tagging.CreatedLinkLeadsToFile | src/api/files.js:212-215 | A link the add loop creates resolves, from its own directory, to the tagged file. |
| Trashing.TrashValidates | src/api/files.js:238-251 | A missing path, a refused path, a missing file or a directory is refused with its message before anything changes. A file goes on to the move. |
| Trashing.TrashMoves | src/api/files.js:253-271 | On success the reply is "Moved <name> to trash". The file's node is at ROOT/.trash/<name>, and its old path is gone. |
| Trashing.PreparedKeepsFile | src/api/files.js:255-264 | Removing the links and making .trash leave the file itself untouched. |
| Trashing.MakeTrashKeeps | src/api/files.js:259-264 | Making .trash only adds directories on the way to it and changes no other node. |
| Trashing.TrashClearsTags | src/api/files.js:253-271 | After a successful trash, a tag still reported for the file's name is one it had whose link the system refused to unlink. With no refusal, no tag is left. |
| Trashing.PreparedClear | src/api/files.js:255-264 | Before the rename, the tree is well formed, and the file keeps only tags whose link the system refused to unlink. |
| Trashing.MakeTrashShrinks | src/api/files.js:259-264 | Making .trash adds no tag to any file. |
| Trashing.MkdirShrinks | src/api/files.js:261 | A successful `mkdir -p` of .trash adds no tag. |
| Trashing.MkdirTrashFrame | src/api/files.js:261 | `mkdir -p` of .trash does not touch tags/ or anything below it. |
| Trashing.UnchangedBelowTags | src/api/files.js:87-113 | A tree that only lost nodes below tags/ reports no new tag. |
| Trashing.RenameShrinks | src/api/files.js:269 | Moving the file into .trash adds no tag to that name. |
| Trashing.MovedShrinks | src/api/files.js:269 | A rename into .trash from a different path adds no tag. |
| FilesApi.FileStore.constructor | src/api/files.js:6 | The store holds ROOT_DIR and the tree it is given. |
| FilesApi.FileStore.GetTagsForFile | src/api/files.js:87-113 | The loop collects exactly the file's tags in listing order, as the tags specification says. |
| FilesApi.FileStore.RemoveAllSymlinks | src/api/files.js:116-135 | The loop's quiet unlinks leave the tree as the link-removal specification says. |
| FilesApi.FileStore.QueryTagsRoute | src/api/files.js:139-153 | GET /tags refuses a missing path and a refused path, and otherwise answers the file's tags. |
| FilesApi.FileStore.PostTags | src/api/files.js:157-234 | POST /tags leaves the tree and answers exactly as the tag-update specification says. |
| FilesApi.FileStore.RemoveTagLinks | src/api/files.js:183-190 | The removal loop unlinks the file's link in each tag to remove, quietly. |
| FilesApi.FileStore.AddTagLinks | src/api/files.js:193-230 | The add loop leaves the tree as the add specification says. It fails with the `mkdir` message when one throws, reports the failed links when there are any, and succeeds otherwise. |
| FilesApi.FileStore.PostTrash | src/api/files.js:238-275 | POST /trash leaves the tree and answers exactly as the trash specification says. |
| FilesApi.AddLinksStuck | src/api/files.js:198 | Once a `mkdir` has thrown, the rest of the add loop changes nothing. |
| FilesApi.RemoveStep | src/api/files.js:122-131 | One turn of the `removeAllSymlinks` loop unlinks the entry's link when the entry is a visible directory, and does nothing otherwise. |
| FileList.Unpercent | public/js/fileList.js:44 | Reading n percent-escapes yields n bytes and consumes 3n characters. |
| FileList.EncodeAll | public/js/fileList.js:44 | Mapping `encodeURIComponent` over the segments keeps their number. No element holds a '/', and element i decodes back to segment i. |
| FileList.HexRoundTrip | public/js/fileList.js:44 | Each hex digit `encodeURIComponent` writes reads back as its value. |
| FileList.Utf8RoundTrip | public/js/fileList.js:44 | A character's UTF-8 form is 1 to 4 bytes, announced by its first byte, and decodes back to the character. |
| FileList.DecodeEncode | public/js/fileList.js:44 | Percent-decoding `encodeURIComponent(s)` gives back s. |
| FileList.EncodedChars | public/js/fileList.js:43-44 | An encoded segment holds only unreserved characters, '%' and upper-case hex digits, so never '/', a space or '#'. |
| FileList.EncodeUnchanged | public/js/fileList.js:44 | Encoding never shortens a segment. It leaves the segment unchanged exactly when every character is a letter, a digit or one of `-_.!~*'()`. |
| FileList.EncodeFilePathSegments | public/js/fileList.js:42-45 | `encodeFilePath` keeps the '/' separators: its segments are the encoded input segments, with the same number of '/'. Each output segment decodes to the input segment. |
| FileList.EncodeFilePathRoundTrip | public/js/fileList.js:42-45 | Decoding each segment of `encodeFilePath(path)` and joining them with '/' gives back the path. |
| FileList.DecodeAllEncoded | public/js/fileList.js:44 | Decoding every encoded segment gives back the segments. |
| FileList.DecimalRoundTrip | public/js/fileList.js:192 | The decimal rendering of a byte count is a non-empty run of digits that reads back as the count. |
| FileList.TenthsNearest | public/js/fileList.js:193-195 | The one-decimal rendering rounds the quotient to the nearest tenth, ties upward. |
| FileList.FormatSizeBytes | public/js/fileList.js:192 | Below 1024, the result is the integer followed by " B". |
| FileList.FormatSizeUnit | public/js/fileList.js:191-196 | Exactly one suffix is chosen: " B" below 1024, " KB" in [1024, 1024²), " MB" in [1024², 1024³), " GB" from 1024³. |
| FileList.Fixed1RoundTrip | public/js/fileList.js:193-195 | `toFixed(1)` of a count of tenths is digits, a point and one digit, and reads back as that count of tenths. |
| FileList.FormatSizeScaled | public/js/fileList.js:193-195 | From 1024 bytes on, the text before the unit is a one-decimal number that reads back as the size in KB, MB or GB (whichever the unit is), rounded to the nearest tenth. |
| FileList.RoundsUpToThreshold | public/js/fileList.js:193 | One byte below 1 MB prints as "1024.0 KB", because the unit is chosen before the rounding. |
| Breadcrumb.Trail | public/js/app.js:10-17 | There is one crumb per part after the first, and the first crumb is Root with an empty path. |
| Breadcrumb.UpdateBreadcrumb | public/js/app.js:9-19 | The loop builds exactly the HTML of the crumbs of the path, " / " between each two links. |
| Breadcrumb.TrailShape | public/js/app.js:14-17 | Crumb k + 1 is labelled with part k and points at what has accumulated up to part k. |
| Breadcrumb.TrailGrows | public/js/app.js:15-16 | Each turn appends exactly one link after " / " and removes nothing from the HTML. |
| Breadcrumb.CrumbCount | public/js/app.js:10-11 | An empty path gives Root alone. Otherwise there is one crumb per "/" in the path plus two, that is Root plus one per part. |
| Breadcrumb.TrailNests | public/js/app.js:15 | Each crumb's path starts with the path of the crumb before it. |
| Breadcrumb.AccumulatedJoins | public/js/app.js:12-15 | When the first part is not empty, what has accumulated over the first k parts is those parts joined with "/". |
| Breadcrumb.LastCrumbIsPath | public/js/app.js:10-17 | For a path not starting with "/", the last crumb points at the whole path. |
| Breadcrumb.LeadingSlashDropped | public/js/app.js:15 | "/a" shows Root, an empty crumb pointing at "", and "a" pointing at "a": the leading "/" is lost from the crumb paths. |

## Left out

- ffmpeg, ffprobe and `checkFFmpegInstalled` are not run. Each run is an oracle value, and "installed" is a boolean parameter of `main`.
- The duration parse and its halving are floating point and are not modelled. A successful probe carries the text of the midpoint as it would be rendered.
- Console output, `Date.now` timing, `process.exit`, dotenv and the summary printing are not modelled. `main` returns an exit status instead of exiting.
- Concurrency is not modelled. The jobs run one after the other, as the code awaits them. Another process creating the temporary file between the checks is out of scope.
- Walker.WalkDir: the walk is a function that lists events over a snapshot of the tree. It is not a method pushing into `results.errors`. The pipeline's loop does the pushing (`NormalizeVideos.Pipeline.HandleEvent`). That the transcodes running inside the walk do not change what it reads is an argument, not a proof: `Transcoding.TranscodeKeepsWalk` proves the frame of one transcode, and no lemma combines these frames over the whole walk.
- Paths are looked up literally: a symbolic link in the middle of a path is not followed. A link at the end of a path is followed by `stat` and `readdir`. So when ROOT_DIR, a listed directory or tags/ is a link to a directory, `readdir` gives the target's names but the paths below the link are not found. NormalizeVideos.Main stops at its `mkdir -p` of .thumb when ROOT_DIR is a link. Listing.List and Listing.Tree return no items for a linked directory. Tagging.TagsOf finds no tag when tags/ is a link.
- FileSystem.Stat: follows a link only at the end of the path, as the line above says.
- FileSystem.ReadDir: follows a link only at the end of the path, as the line above says.
- FileSystem.MkdirP: a symbolic link to a directory, on the way or at the end, fails with EEXIST, where Node's recursive `mkdir` follows it. The directories created after such a link would lie below it, and the tree holds paths literally, so the next call would not find them (the thumbnail's write, the tag link, the rename into .trash).
- FileSystem.Rename, FileSystem.MkdirP: permission and read-only failures (EACCES, EPERM, EROFS) are not modelled. Their errors reach the caller, and no lemma relies on their success.
- Transcoding.Transcode: the unlinks of the temporary file are never refused. `FileSystem.Unlink` is called there without a refusal, so a temporary file the system will not remove is not modelled.
- Thumbnails.Thumbnail: a dangling symbolic link at the thumbnail path fails `fs.access`, so the job goes on, as in the source. The model's write then replaces the link with a file, where ffmpeg would write through the link and create its target.
- Paths.Lower: lowers ASCII letters only. JavaScript's `toLowerCase` also lowers other letters. Its one use compares an extension with ".mov", ".wmv", ".flv" and ".mp4" (scripts/normalize-videos.js:218-220). No non-ASCII character lowers to a letter of those, so the comparison comes out the same.
- Listing.ListContents: `/list` uses the corrected guard `SafePaths.SafePath` (see "## Findings"). It therefore refuses a request that resolves to a sibling of ROOT_DIR whose name extends ROOT_DIR's, such as "../media2/x" with ROOT_DIR "/srv/media", which the code as written serves.
- Listing.TreeContents: `/tree` uses the corrected guard `SafePaths.SafePath` (see "## Findings"). It therefore refuses a request that resolves to a sibling of ROOT_DIR whose name extends ROOT_DIR's, such as "../media2/x" with ROOT_DIR "/srv/media", which the code as written serves.
- Tagging.UpdateTagsValidates: POST /tags uses the corrected guard `SafePaths.SafePath` (see "## Findings"). It therefore refuses a request that resolves to a sibling of ROOT_DIR whose name extends ROOT_DIR's, such as "../media2/x" with ROOT_DIR "/srv/media", which the code as written serves.
- Trashing.TrashValidates: POST /trash uses the corrected guard `SafePaths.SafePath` (see "## Findings"). It therefore refuses a request that resolves to a sibling of ROOT_DIR whose name extends ROOT_DIR's, such as "../media2/x" with ROOT_DIR "/srv/media", which the code as written serves.
- FilesApi.FileStore.QueryTagsRoute: GET /tags uses the corrected guard `SafePaths.SafePath` (see "## Findings"). It therefore refuses a request that resolves to a sibling of ROOT_DIR whose name extends ROOT_DIR's, such as "../media2/x" with ROOT_DIR "/srv/media", which the code as written serves.
- FilesApi.FileStore.PostTags: POST /tags uses the corrected guard `SafePaths.SafePath` (see "## Findings"). It therefore refuses a request that resolves to a sibling of ROOT_DIR whose name extends ROOT_DIR's, such as "../media2/x" with ROOT_DIR "/srv/media", which the code as written serves.
- FilesApi.FileStore.PostTrash: POST /trash uses the corrected guard `SafePaths.SafePath` (see "## Findings"). It therefore refuses a request that resolves to a sibling of ROOT_DIR whose name extends ROOT_DIR's, such as "../media2/x" with ROOT_DIR "/srv/media", which the code as written serves.
- `walkDirectory` follows the entry kinds `readdir` reports. Symbolic links to directories are neither descended into nor visited, as in the code. The model does not represent sockets, devices or FIFOs.
- Error messages of failed system calls follow Node's "CODE, syscall 'path'" shape. The exact errno chosen for each failure is approximated.
- File sizes, modification times and the `size`/`modified` fields of `/list` items are not modelled.
- `localeCompare` is modelled as a total order on names, compared code point by code point. Locale collation rules are not modelled.
- ROOT_DIR is taken as an absolute, normalised path.
- Symbolic link creation failures beyond an occupied path or a missing directory (permissions, full disk) come from the parameter `refuse`.
- Tags are not validated by the code and are not restricted by the model beyond what each lemma states.
- Tagging.TagsAfterUpdate: proved for the success reply only. It requires that any node already at one of the requested link paths is a symbolic link, that the requested tags are plain visible names, and that tags/ is readable if it is a directory. The code does not check these; otherwise the tags afterwards can differ from the request.
- FilesApi.FileStore.AddTagLinks: the tags of the reply are left empty and filled in by `PostTags`.
- NormalizeVideos.MainTotals: states bounds and the make-up of `mp4Files`, not the exact lists. The exact lists are `Main`'s value.
- FileList.EncodeFilePath: characters are Unicode scalar values, so the URIError `encodeURIComponent` throws on a lone UTF-16 surrogate cannot arise in the model.
- `formatDate`, the DOM, event handlers and the selection state of the page are not modelled. Neither are public/js/cast.js, public/js/tree.js, server.js and the Express wiring.
- HTML escaping: the breadcrumb puts the path parts into the HTML raw, as the code does. The model renders them raw and states nothing about markup safety.
- Byte counts are natural numbers. JavaScript numbers are doubles, so counts above 2^53 would lose precision in the code.
- `toFixed(1)` is modelled as exact decimal rounding of the quotient, half up. For quotients of an integer by a power of 1024 this matches the double result.

## Findings

| source | as written | input that shows it | evidently intended | confidence | as-written member | corrected member |
|---|---|---|---|---|---|---|
| src/api/files.js:11 | The path traversal guard accepts any resolved path whose string starts with ROOT_DIR's characters. | ROOT_DIR "/srv/media", request "../media2/x": it resolves to "/srv/media2/x", which starts with "/srv/media" and is accepted. | Accept only ROOT_DIR itself and paths below it, comparing whole segments. | not executed | SafePaths.SafePathAsWritten (shown by SafePaths.SiblingEscapes) | SafePaths.SafePath (proved by SafePaths.SafePathContained) |
