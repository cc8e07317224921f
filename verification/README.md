# Enhanced media suite: a Dafny model of its decision core

The enhanced media suite collects photos and videos from several sources and
stores one entry per file in a SQL table. It then deduplicates them and
consolidates them into two destination trees, one for images and one for videos.
This project models the decisions that pipeline makes, as pure Dafny
functions and short methods, and proves what those decisions guarantee:

- **Filename priority.** The scanner, merger and copier each hold an identical
  five-rule copy of the rank (1 is best). The fetcher holds a four-rule copy.
  The model has one definition of each (`Priority`).
- **Merger.** `run` routes files by extension. `_handle_file` resolves a
  content conflict inside a destination directory, modelled as a finite map
  from name to entry (`Merger`).
- **Copier.** The copier picks its table, turns rows into records, filters
  them, builds a depth-preserving destination path, and replaces a file only
  by one of strictly better rank (`Copier`).
- **Scanner.** The scanner excludes files and directories by glob, classifies
  paths, orders its files by rank with a stable sort, and counts the
  directories it processes (`Scanner`, `StableSort`).
- **Database deduplication.** Rows with a hash string are clustered per
  directory by breadth-first search under a character-distance threshold
  (`Components`, `DedupeDb`). The first member with the greatest score tuple
  is the representative. The two-phase mode re-clusters each dHash cluster by
  pHash.
- **File-based clustering.** Integer hashes are clustered by Hamming distance
  (`ImageCluster`).
- **Fetcher.** The hour-of-day rate buckets, the bounded request deques, the
  error counters and the pause counter (`Fetcher`). Also its reverse scan
  ordering and the hour-based user-agent choice.
- **Video fingerprint.** The frame count and uniform sampling, the
  pad-or-truncate of the bit string, and its LSB-first packing into hex
  (`Fingerprint`).
- **Database manager.** Insert validation, the duplicate check, column
  assembly, `exists_by_blake3`, and create, drop and reset, over an abstract
  catalogue of tables (`Database`).
- **Directory grouping.** `group_directories` splits directories among
  workers (`Grouping`).
- **Duplicate removal.** The "name N.ext" duplicate remover, over an abstract
  file system (`Dupes`).
- **YOLO provider.** Device selection, the input guards of `_predict`, and the
  aggregation of detection boxes in `has_human` (`Yolo`).

Shared pieces sit in small modules:

- `Wrappers`: the `Option` and `Result` types. Python exceptions become
  `Failure` values with a named error.
- `Text`: ASCII character classes, `lower`, and posix `join`, `basename`,
  `splitext` and `normpath`.
- `Media`: the extension lists.

Inputs the programs take from the world become parameters:

- the stop flag, and a digest function;
- whether a removal or copy succeeds;
- whether CUDA is available, and the hour of day;
- the random draws, and the rows of a table.

Each regular expression is a predicate on the name. `re.match` is anchored at
the start and `re.search` is not. `\w`, `\d` and `\s` are the ASCII classes.

## Model

| member | source | states |
|---|---|---|
| Priority.FilePriority | source/merger_modules.py:230-255 | the five-rule rank is total: always between 1 and 5 |
| Priority.CanonicalPrefixRank | source/scanner_modules.py:489-496 | a name that starts with 8 digits, `_`, 6 digits, `_` and a word character ranks at most 2; it ranks 1 exactly when the rest is word characters, a dot and word characters to the end |
| Priority.PlainNameRank | source/scanner_modules.py:499-507 | a name that has no canonical prefix and fails rule 3 ranks 5 exactly when it ends in `(digits).ext`, and 4 otherwise |
| Priority.RanksAboveFourNeedUnderscore | source/copier_modules.py:286-300 | a name without an underscore can match none of the first three rules |
| Priority.FetcherMergesTopClasses | source/fetcher_modules.py:553-567 | the fetcher's four-rule rank is 1 exactly for canonically prefixed names; otherwise it is the five-rule rank minus one |
| Priority.CanonicalExample | source/scanner_modules.py:487-491 | the documented example `20231009_154612_C1x2Yz3AbC.jpg` ranks 1 |
| Priority.PrefixExample | source/scanner_modules.py:493-496 | the documented example `20231009_154612_ABCDEF` ranks 2 |
| Priority.DuplicatedCanonicalExample | source/scanner_modules.py:490-496 | `20230101_120000_ab12 (1).jpg` ranks 2, because the rule-2 prefix match does not look at the end of the name |
| Priority.DuplicateExample | source/scanner_modules.py:502-507 | `photo (1).jpg` ranks 5, the last rank |
| Priority.OriginalExample | source/scanner_modules.py:502-507 | its original `photo.jpg` ranks 4 |
| Media.ExtensionListsDisjoint | source/merger_modules.py:42-43 | no extension is both an image and a video extension, so routing is unambiguous |
| Merger.RouteFile | source/merger_modules.py:86-98 | a file goes to the image tree exactly when its lower-cased extension is an image extension, and to the video tree exactly when it is a video extension; otherwise it is skipped; the destination lies under `dest/rel` and ends in the file name |
| Merger.RouteKeepsName | source/merger_modules.py:84-94 | the routed destination's base name is the source file name |
| Merger.CalculateBlake3 | source/merger_modules.py:212-228 | the digest is empty exactly when the file cannot be read; otherwise it is the hex digest of the content |
| Merger.ScanListing | source/merger_modules.py:145-182 | the listing loop removes only regular files with the source's digest and a strictly worse rank; it halts exactly when the listing holds a same-digest file that blocks the copy, and that file is kept |
| Merger.HandleFile | source/merger_modules.py:103-194 | a skipped job changes nothing; no entry other than the destination name is added or altered; an entry is removed only if it holds the source's digest and has a strictly worse rank; any entry with other content and another name stays as it was |
| Merger.CopiesIff | source/merger_modules.py:157-190 | the job copies exactly when it is not skipped, no listed same-digest file has an equal or better rank, no removal fails and the copy succeeds |
| Merger.BetterCopyWins | source/merger_modules.py:157-178 | a listed same-digest file of equal or better rank is kept and blocks the copy |
| Merger.ScanKeepsUnremovable | source/merger_modules.py:157-178 | when every file with the source's digest ranks no worse than the source or fails to be removed, the listing loop leaves the directory as it was |
| Merger.ContentKept | source/merger_modules.py:157-190 | unless the job is skipped or the final copy fails, some entry still holds the source's digest afterwards |
| Merger.HandleFileIdempotent | source/merger_modules.py:157-178 | running a job again after it copied changes nothing: the copy has the same digest and rank, so the second run stops at it |
| Merger.OverwritesDifferentContent | source/merger_modules.py:184-190 | a file with different content at the destination name is overwritten without any rank check |
| Merger.FileJob | source/merger_modules.py:80-101 | a file of a walk step submits a job exactly when its extension is a media extension; the job's source is `root/filename` and its kind matches the extension |
| Merger.FilesJobsComplete | source/merger_modules.py:80-101 | the jobs of a walk step are exactly the jobs of its media files, in file order |
| Merger.RunJobs | source/merger_modules.py:58-61 | with the stop flag set, no job is submitted |
| Merger.TreeJobsComplete | source/merger_modules.py:68-101 | the walk of one source submits exactly the jobs of the media files of its steps |
| Merger.RunJobsComplete | source/merger_modules.py:57-101 | without a stop, a job is submitted exactly when it is the job of a media file in the walk of some present source; missing sources submit nothing |
| Copier.DeduceTableName | source/copier_modules.py:147-164 | the table is one of the four fixed names; any option other than dhash, phash and twophase reads `tbl_scanner` |
| Copier.DHashTableIsDeduperDefault | source/deduper_modules_db.py:50-51 | the table the copier reads for `dhash` is the single-hash deduper's default target for `tbl_scanner` |
| Copier.PHashTableIsDeduperDefault | source/deduper_modules_db.py:50-51 | the same for `phash` |
| Copier.TwoPhaseTableIsDeduperDefault | source/deduper_modules_db.py:150-151 | the table the copier reads for `twophase` is the two-phase deduper's default target for `tbl_scanner` |
| Copier.FetchMediaRecords | source/copier_modules.py:96-145 | one record per row, in row order, with path, type and human flag copied; with dedupe `none` every record is representative, otherwise exactly those whose column is true |
| Copier.DetermineFileType | source/copier_modules.py:224-244 | an image extension gives image and a video extension gives video; otherwise the lower-cased DB type when it is image or video; otherwise nothing |
| Copier.PreservedDirs | source/copier_modules.py:262-266 | the preserved directories are the last `min(depth, #dirs)` directories of the path |
| Copier.PreserveKeepsName | source/copier_modules.py:246-274 | at every depth, the destination's base name is the source's base name |
| Copier.PreserveDepthBound | source/copier_modules.py:255-274 | at a positive depth the destination has at most `depth` more components than the destination base, plus the file name |
| Copier.CopyFile | source/copier_modules.py:305-335 | it copies exactly when the copy succeeds and the destination is either absent or of strictly worse rank and removable; an existing destination of equal or better rank leaves everything unchanged; no other path is touched |
| Copier.WorkerCopyFile | source/copier_modules.py:166-222 | a record is never copied when stopped, missing, not representative, of unknown type, or an image without a human in human-only mode; any other record is copied to its depth-preserving destination |
| Copier.WorkerNeverReplaces | source/copier_modules.py:216-217 | a worker never replaces an existing destination: the destination keeps the source's name, so the two ranks are equal |
| Copier.VideosIgnoreHumanOnly | source/copier_modules.py:199-211 | the human-only setting has no effect on videos |
| Scanner.ExcludedFiles | source/scanner_modules.py:37-43 | a file is excluded exactly when it is `Thumbs.db`, ends in `.tmp`, starts with `.`, or starts with `~` and has a later dot |
| Scanner.ExcludedDirs | source/scanner_modules.py:44-48 | a directory is excluded exactly when it is `$Recycle.Bin` or starts with `.` |
| Scanner.ShouldExcludeFile | source/scanner_modules.py:463-470 | true exactly when some exclusion pattern glob-matches the name |
| Scanner.ShouldExcludeDir | source/scanner_modules.py:472-479 | true exactly when some directory pattern glob-matches the name |
| Scanner.GlobPrefix | source/scanner_modules.py:463-470 | `lit*` matches exactly the names that start with `lit` |
| Scanner.GlobSuffix | source/scanner_modules.py:463-470 | `*lit` matches exactly the names that end with `lit` |
| Scanner.FileType | source/scanner_modules.py:445-452 | image, video, other or unknown by lower-cased path suffix, checked in that order |
| Scanner.ExtractFileComponents | source/scanner_modules.py:433-461 | the path is absolute; the file name is the path's base name; the directory is the base name of the path's parent; the extension is `splitext`'s suffix without its leading dot; the type is the suffix class of the path; a missing file has size 0; the fetcher's copy of this method has the same body and extension lists |
| Scanner.ExtractKeepsName | source/scanner_modules.py:438-441 | the components of `join(root, f)` carry the file name `f` |
| Scanner.ImageExtensionMeansImage | source/scanner_modules.py:445-446 | a path ending in an image extension, in any letter case, is an image |
| Scanner.Collect | source/scanner_modules.py:234-261 | a file is collected exactly when its directory was not pruned, its name is not excluded and its path classifies as image or video |
| Scanner.ScanOrder | source/scanner_modules.py:269-271 | the files to process are sorted by rank and are a permutation of the collected files |
| Scanner.ScanOrderStable | source/scanner_modules.py:269-274 | files of equal rank keep their discovery order |
| Scanner.InsertAll | source/scanner_modules.py:273-292 | the insert loop hands every sorted file to `_insert_media` once, in order, and counts each one, because `_insert_media` catches its own errors |
| Scanner.ScanAndLoad | source/scanner_modules.py:221-311 | returns 0 and loads nothing when stopped or when the walk fails; otherwise it loads every collected file once, in stable priority order, and returns their number |
| Scanner.ProcessDirectories | source/scanner_modules.py:84-120 | returns -1 exactly for an empty list; otherwise it counts the directories before the first stop reading whose scan does not raise, never more than the list length |
| Scanner.AllScannedWithoutStop | source/scanner_modules.py:105-117 | when no scan raises and the flag is never set, every directory is counted |
| StableSort.SortByKey | source/scanner_modules.py:271 | `sorted` with a key returns a sorted permutation of its input |
| StableSort.SortKeepsClasses | source/fetcher_modules.py:571 | the sort is stable: each key class keeps its input order |
| Fetcher.RateControl | source/fetcher_modules.py:270-307 | hours 0-4 are sleep, 5-7 early morning, 9-11 morning, 13-17 mid-day, 18-21 evening, and 8, 12 and 22-23 late night, each with its own (min, max) per minute; sleep is (0,0), every bucket has `0 <= min <= max`, and max is positive exactly when awake |
| Fetcher.Push | source/fetcher_modules.py:136-140 | appending to a bounded deque puts the value last and keeps the newest entries in order, up to the maximum length; a full deque loses exactly its oldest entry |
| Fetcher.DropOlderThanDay | source/fetcher_modules.py:214-217 | the cleanup removes a prefix of the deque made only of entries more than a day old, after which the oldest entry is at most a day old |
| Fetcher.Init | source/fetcher_modules.py:136-153 | the initial state satisfies the controller invariant, with all counters at zero |
| Fetcher.DailyCheckNeedsHundred | source/fetcher_modules.py:214-219 | the daily check fires only when the drawn limit is 100 and the deque is full, because the deque holds at most 100 entries |
| Fetcher.WaitBeforeQuery | source/fetcher_modules.py:156-265 | zeroes the three error counters; only the four post query types advance the pause counter, which resets at the threshold; every deque records the request time; the invariant is kept |
| Fetcher.Handle | source/fetcher_modules.py:309-392 | a response changes no deque, no pause counter and no limit, and keeps the invariant |
| Fetcher.CounterTransitions | source/fetcher_modules.py:309-392 | 200 zeroes all three counters; 403 and a soft block increment only the 403 counter; 429 and 500 increment only their own counter; 400, 401 and 404 change none |
| Fetcher.Step | source/fetcher_modules.py:156-392 | one query or one response keeps the invariant |
| Fetcher.ValidAfterRun | source/fetcher_modules.py:156-392 | any interleaving of queries and responses keeps the deques within their bounds and `0 <= posts_since_pause < posts_until_next_pause` |
| Fetcher.ReverseCollect | source/fetcher_modules.py:532-547 | a file is collected exactly when its path classifies as image or video; nothing is pruned or excluded |
| Fetcher.ReverseOrder | source/fetcher_modules.py:569-571 | the files are sorted by the four-rule rank and are a permutation of the collected files |
| Fetcher.ReverseOrderStable | source/fetcher_modules.py:569-574 | files of equal rank keep their discovery order |
| Fetcher.ReverseScan | source/fetcher_modules.py:502-598 | returns 0 and loads nothing when the reset or the walk fails; otherwise it loads every collected file once, in stable fetcher priority order, and returns their number |
| Fetcher.PickUserAgent | fetcher.py:86-112 | an unknown time zone raises; hours 5-11 pick a mobile agent, 12-16 a desktop agent, and all other hours a mobile agent |
| Fetcher.GivenTimeIgnoresZone | fetcher.py:101-105 | with a given time, the zone does not affect the choice |
| Fetcher.AgentListsDisjoint | fetcher.py:90-99 | no agent is in both lists, so the two hour ranges really differ |
| Fingerprint.FramesNeeded | source/fingerprint_modules.py:49-55 | `min(16, frames_to_sample)` when given; otherwise, below 16 the count is the least whose frames cover the length, and it is 16 exactly when fifteen frames' bits fall short of the length; a zero grid raises ZeroDivisionError |
| Fingerprint.UniformSampling | source/fingerprint_modules.py:176-181 | `range(frame_count)` when there are few frames; otherwise exactly `frames_needed` indices, strictly increasing, starting at 0 and below the frame count |
| Fingerprint.FitLength | source/fingerprint_modules.py:298-301 | the bit string has exactly the fingerprint length: a prefix of the input, padded with zeros |
| Fingerprint.FitLengthIdempotent | source/fingerprint_modules.py:283-286 | fitting twice is the same as fitting once |
| Fingerprint.BinaryToHex | source/fingerprint_modules.py:305-316 | the output has `2 * ceil(n / 8)` lower-case hex digits |
| Fingerprint.HexRoundTrip | source/fingerprint_modules.py:312-314 | decoding the hex LSB-first gives back the input bits, zero-padded to a multiple of 8 |
| Fingerprint.UnpackPack | source/fingerprint_modules.py:309-314 | bit `i` is set exactly when bit `i mod 8` of byte `i div 8` is set |
| Fingerprint.FingerprintLength | source/fingerprint_modules.py:298-316 | a fitted fingerprint always gives `2 * ceil(length / 8)` hex digits |
| Database.Columns | source/database_modules.py:245-290 | the 8 fixed columns and values first, in order; every later column is an optional field whose value is given, bound to that value, and every given optional field is among them (their order is stated by Database.ColumnsFollowDeclaredOrder) |
| Database.ColumnsFollowDeclaredOrder | source/database_modules.py:245-290 | the columns after the eight fixed ones are exactly the optional fields whose value is not None, taken at strictly increasing positions of the declared list, each bound to its own value |
| Database.ColumnsDistinct | source/database_modules.py:245-290 | no column name is bound twice in one insert |
| Database.PickedDistinct | source/database_modules.py:245-290 | distinct fixed names followed by distinct optional names picked at strictly increasing positions repeat no name |
| Database.GivenPositions | source/database_modules.py:287-290 | the positions of the given optional values, strictly increasing, and a position is listed exactly when its value is not None |
| Database.OptionalBoundIffGiven | source/database_modules.py:287-290 | an optional column appears exactly when its value is not None |
| Database.PlaceholderCount | source/database_modules.py:293-295 | the placeholder list has exactly as many marks as there are columns |
| Database.Insert | source/database_modules.py:193-343 | it succeeds exactly when no required field is empty, the table exists, no stored row shares the digest or path, and the statement succeeds; then the row is appended, otherwise nothing changes |
| Database.InsertKeepsKeysUnique | source/database_modules.py:231-240 | insert keeps both unique keys unique in every table |
| Database.InsertThenExists | source/database_modules.py:297-301 | after a successful insert the digest is found, and a second insert of the same file is refused |
| Database.ExistsByBlake3 | source/database_modules.py:362-367 | true exactly when some row has the digest; a missing table raises |
| Database.CreateTable | source/database_modules.py:117-181 | False with nothing changed when the table exists; otherwise True with a new empty table and every other table unchanged |
| Database.DropTable | source/database_modules.py:99-115 | the table is gone and every other table is unchanged |
| Database.ResetTable | source/database_modules.py:183-190 | afterwards the table exists and is empty, and every other table is unchanged |
| Database.InsertAfterReset | source/database_modules.py:183-229 | a reset table accepts any row whose required fields are filled |
| DedupeDb.Dist | source/deduper_modules_db.py:292-302 | the character distance never exceeds the shorter length |
| DedupeDb.DistSymmetric | source/deduper_modules_db.py:301-302 | the distance is symmetric |
| DedupeDb.DistZeroIff | source/deduper_modules_db.py:301-302 | the distance is 0 exactly when the shorter string is a prefix of the longer, so a string is at distance 0 from itself |
| DedupeDb.WithHash | source/deduper_modules_db.py:276-286 | the valid rows are exactly the rows with a non-blank hash, in order |
| DedupeDb.ClusterPositions | source/deduper_modules_db.py:265-329 | the clusters partition the rows with the hash into disjoint non-empty clusters; rows within the threshold share a cluster; each member after the first is close to an earlier one; each cluster starts with its first member in input order, and clusters come in seed order |
| DedupeDb.LessOrder | source/deduper_modules_db.py:239-261 | the score order is a strict total order |
| DedupeDb.RepIndex | source/deduper_modules_db.py:81-87 | the representative has the greatest score, and every earlier member has a strictly smaller one, so it is the first maximum that `max` returns |
| DedupeDb.Directories | source/deduper_modules_db.py:62-64 | the directory keys are distinct and cover exactly the rows' directories |
| DedupeDb.DirRows | source/deduper_modules_db.py:74-75 | the image rows and the other rows of one directory, in table order |
| DedupeDb.DirectoryClusters | source/deduper_modules_db.py:74-78 | one directory's clusters hold only its own image rows with the hash, and cover all of them |
| DedupeDb.DedupeByHash | source/deduper_modules_db.py:31-125 | the default target is `<source>_deduped_<column>`; clusters are disjoint, never mix directories, and cover every image row with the hash; with unique paths, exactly the representative of each cluster is flagged, and every non-image row and every unclustered row is flagged |
| DedupeDb.DedupeTwoPhase | source/deduper_modules_db.py:130-237 | phase 1 clusters by dHash; each final cluster lies inside one phase-1 cluster and has the pHash unless that cluster had at most one member; final clusters are disjoint and cover every kept row; flags are as in single-phase |
| DedupeDb.RefineCluster | source/deduper_modules_db.py:181-187 | a phase-1 cluster of at most one member passes through unchanged; a larger one is re-clustered by pHash among its own members |
| ImageCluster.HammingMetric | source/deduper_modules_files.py:17-19 | the Hamming distance is symmetric and 0 exactly for equal hashes |
| ImageCluster.ParseMethod | source/deduper_modules_files.py:73-84 | a method is selected exactly when the lower-cased name is one of ahash, dhash, phash or whash; otherwise ValueError with the given name |
| ImageCluster.ParseMethodIgnoresCase | source/deduper_modules_files.py:74 | the selection ignores letter case |
| ImageCluster.ComputeHash | source/deduper_modules_files.py:73-84 | the hash by the selected method, or the ValueError of an unknown method |
| ImageCluster.ClusterImages | source/deduper_modules_files.py:86-120 | an unknown method raises when there are paths; otherwise the clusters are disjoint and cover exactly the input paths; similar paths share a cluster; members are connected; clusters follow seed order |
| Components.BuildAdjacency | source/deduper_modules_files.py:92-102 | `adj[p]` holds `q` exactly when some pair `i < j` with these two ends is near; the relation is symmetric |
| Components.ConnectedComponents | source/deduper_modules_files.py:104-120 | the breadth-first search returns disjoint components, closed under the edges and connected, that cover every node; each starts with its seed, in node order |
| Grouping.GroupDirectories | utils/utils.py:34-64 | workers at most 0 give `[directories]`; no directories with workers above 0 raise ValueError; otherwise exactly `workers` groups whose concatenation is the input, each at most `ceil(n / workers)` long, with empty groups only at the end; group `k` is exactly the slice `directories[k*size : (k+1)*size]` for `size = ceil(n / workers)`, so the padding groups are empty |
| Grouping.Spread | utils/utils.py:50-62 | slicing then padding gives exactly `workers` groups that concatenate back to the input, group `k` being the Python slice `directories[k*size : (k+1)*size]` |
| Grouping.Slices | utils/utils.py:53-57 | the `for` loop's slices are non-empty, each is `directories[k*size : (k+1)*size]`, there are `ceil(n / size)` of them, and together they are the input |
| Dupes.MatchNumberedIsPattern | utils/remove_duplicate_files.py:30 | the decomposition succeeds exactly when the name matches `^(.*)\s(\d+)\.(\w+)$`, and then returns the regex's own groups |
| Dupes.MatchExample | utils/remove_duplicate_files.py:47-52 | `holiday 12.jpg` decomposes into `holiday`, `12`, `jpg` |
| Dupes.OriginalDiffers | utils/remove_duplicate_files.py:52-54 | the original path differs from the numbered path, so a file is never compared with itself |
| Dupes.FreeCounter | utils/remove_duplicate_files.py:68-75 | the counter search ends at a free name, and every counter before it is taken |
| Dupes.CollisionCounter | utils/remove_duplicate_files.py:62-75 | 0 exactly when the plain name is free in the dupes folder; otherwise the smallest free `k >= 1` |
| Dupes.Destination | utils/remove_duplicate_files.py:62-75 | the destination is never an existing path, and it is the plain name whenever that is free |
| Dupes.DestinationInDupes | utils/remove_duplicate_files.py:62-71 | the destination is the dupes folder joined with a single name that holds no separator (non-empty for a non-empty file name), so the file lands directly in that folder |
| Dupes.MoveFile | utils/remove_duplicate_files.py:77 | the move takes the file away from its path and puts its content at the destination; nothing else changes |
| Dupes.MoveBack | utils/remove_duplicate_files.py:77 | moving back restores the file system |
| Dupes.ConsiderFile | utils/remove_duplicate_files.py:47-78 | a file is moved exactly when it matches, its original exists as a file and the digests are equal; then one record is returned, the destination was free and the original stays; when the original exists but the numbered path is not a file, hashing it raises (IsADirectoryError for a folder, else FileNotFoundError) and nothing changes; otherwise nothing changes |
| Dupes.ProcessRoot | utils/remove_duplicate_files.py:42-78 | a folder's pass keeps the directories and the number of files, and moves at most as many files as there are |
| Dupes.ReportsComeFromListing | utils/remove_duplicate_files.py:42-78 | every reported duplicate is a path of the listed files |
| Dupes.ProcessWalk | utils/remove_duplicate_files.py:37-78 | the walk keeps the directories and the number of files |
| Dupes.FindAndMove | utils/remove_duplicate_files.py:19-80 | a file named like the dupes folder makes `makedirs` raise FileExistsError with nothing changed; otherwise the dupes folder exists afterwards and the number of files is unchanged, so nothing is overwritten |
| Dupes.DupesFolderUntouched | utils/remove_duplicate_files.py:39-45 | the files of the dupes folder itself are never processed |
| Dupes.UnnumberedUntouched | utils/remove_duplicate_files.py:47-48 | a file whose name does not match the pattern is never moved |
| Yolo.SelectDevice | source/yolo_modules.py:70-83 | `cuda:0` exactly when CUDA is available and the lower-cased device is `auto` or `gpu`; `cpu` otherwise |
| Yolo.DeviceIgnoresCase | source/yolo_modules.py:76-78 | the choice ignores letter case |
| Yolo.Channels | source/yolo_modules.py:95-101 | a shape with fewer than three dimensions gains a channel axis of 3; otherwise every axis is kept except the channel count, which a count above 3 cuts to exactly 3 |
| Yolo.Predict | source/yolo_modules.py:85-144 | no detections for a missing image, one with zero height or width, or a failing detector; otherwise the detector's results |
| Yolo.MaxOrZero | source/yolo_modules.py:167-182 | the maximum confidence is non-negative, at least every person confidence, and 0 or one of them |
| Yolo.TallyMeaning | source/yolo_modules.py:171-185 | when every class id has a name, the result is (some person, greatest person confidence or 0, number of persons); otherwise KeyError |
| Yolo.OnlyPersonsCount | source/yolo_modules.py:179-183 | boxes of other classes change nothing |
| Yolo.UnnamedFails | source/yolo_modules.py:171-174 | a box whose class id has no name, in any result, makes the whole reduction fail with KeyError |
| Yolo.Aggregate | source/yolo_modules.py:171-185 | the nested loop over results and boxes computes the tally |
| Yolo.CountBoxes | source/yolo_modules.py:172-182 | the inner loop over one result's boxes extends the tally of the results before it, and a box without a class name makes the whole reduction fail |
| Yolo.HasHuman | source/yolo_modules.py:146-192 | a failed load or a missing class name yields (False, 0, 0); otherwise true exactly when some box is a person, with the count of persons and a non-negative confidence |

## Left out

- Components.ConnectedComponents: the order inside a cluster is pinned only as far as breadth-first discovery goes (the seed first, every later member adjacent to an earlier one), not to the exact queue order over the adjacency lists; so which of several tied rows a representative choice picks is fixed by the search itself, not by a stated property.
- Fingerprint.UniformSampling: takes the index `i * frame_count / frames_needed` as an exact integer quotient, while the source multiplies by the float `frame_count / frames_needed` and truncates; the two can differ by one (for 122 frames and 14 needed, index 7 is 60 in the source and 61 here).
- File-system effects are not modelled: `os.walk`, `listdir`, `shutil.copy2`/`move`, `makedirs` and file sizes. A directory is a finite map and a digest is an opaque string. The walk is its list of steps, taken as given.
- Concurrency is not modelled: the merger's and copier's thread pools, the scanner's process pool and the signal handlers. `_handle_file` runs one job at a time. The stop flag is a boolean input, or a list of readings for `process_directories`.
- Scanner.ScanAndLoad: the stop flag is read once, not before every directory and every file. A stop in the middle of the walk or the insert loop is not modelled.
- Hashing and feature extraction are foreign or floating-point: blake2b, the perceptual hashes, the DCT, OpenCV and torch features, and median thresholding. Their results are function parameters.
- YOLO inference and image decoding are not modelled. The loaded image and the detector's output are inputs, given as `Result` values.
- Yolo.HasHuman: confidences are integers in units of 1e-4, which stands for `round(conf, 4)`. The float conversion and `Decimal` are not modelled.
- Yolo.Predict: the dtype conversion to `uint8` is not modelled; it changes pixel values, which the model does not hold.
- Instaloader login, download and retry are not modelled, nor `time.sleep`, the random jitter, the sleep-until-dawn recursion, or the float backoff seconds of the 403, 429, 500 and soft-block handlers. The model keeps only the counters. Random draws and the clock are parameters.
- Fetcher.WaitBeforeQuery: the waits are not modelled. Only the state the call leaves behind is.
- `log_pre_scan_stats`, `_display_pre_scan_stats` and the progress logs only log, so they are left out.
- `_insert_media` is left out: hashing, YOLO and database I/O. The model records which files are handed to it and in what order. Every error inside it is caught and logged there, so a failed insert still counts as processed. An exception raised before its handler, such as a file vanishing between the existence check and reading its size, is not modelled.
- `_find_same_content_file` in the merger is never called, so it is left out.
- The copier's `run` and the merger's `run` thread-pool plumbing are left out. `RunJobs` models which jobs `run` submits.
- SQL text, connections, transactions and rollback are not modelled. A table is a sequence of rows, and any other failure of a statement is the flag `executeFails`.
- `\w`, `\d` and `\s` are ASCII only. Python's Unicode letters, digits and spaces are not modelled. `str.strip` removes the ASCII whitespace and the separators `\x1c` to `\x1f`, but no other Unicode space. `str.lower` lowers ASCII letters only.
- fnmatch is the posix form, case-sensitive with identity `normcase`. Only the patterns in use are covered: `*` and literals.
- Dates in the representative score are an optional integer that defaults to a minimum value. Date string parsing is not modelled.
- Dupes: `os.walk` lists a folder's entries before any move. In the model, later folders see the moves of earlier ones. This is the same behaviour, because only the dupes folder receives files and it is skipped. Its sub-folders are walked as in the program.

## Notes on the source

- A name such as `20230101_120000_ab12 (1).jpg` ends in `(1).jpg`, which the rule-4 comment (source/scanner_modules.py:502-507, source/copier_modules.py:298-303) leaves to the last class. The code ranks it 2, because the rule-2 prefix match (source/scanner_modules.py:495) fires first and never reaches the end of the name. The model follows the code (`Priority.DuplicatedCanonicalExample`).
- `group_directories` with an empty list and a positive worker count computes a group size of 0. `range(0, 0, 0)` then raises ValueError, which the model returns as a `Failure`.
- The daily deque has a maximum length of 100, but the daily limit is drawn from 100 to 200. The daily check can therefore only fire when the draw is exactly 100 (`Fetcher.DailyCheckNeedsHundred`).
- In the duplicate remover, the check at lines 44-45 repeats the one at 39-40 and never fires.
- In the duplicate remover, `$` in `^(.*)\s(\d+)\.(\w+)$` also matches before a final newline. The model keeps that case.
- The two `_extract_file_components` copies and the three five-rule rank copies are textually the same. Each has one definition in the model.
