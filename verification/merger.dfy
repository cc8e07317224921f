/** The merger: routing the files of each source tree to the image or video
    destination, and the per-file conflict resolution against what the
    destination directory already holds.

    A directory is a finite map from entry name to entry; a regular file is
    known by its content digest. The digest of an unreadable file is the empty
    string, which is what `_calculate_blake3` returns for it. The order in
    which `os.listdir` enumerates the directory is an input (`listing`), as are
    the outcomes of the operating-system calls that can fail. */
module Merger {
  import opened Wrappers
  import opened Text
  import opened Priority
  import opened Components
  import opened Media

  // ---------------------------------------------------------------------------
  // Extension routing
  // ---------------------------------------------------------------------------

  datatype Route = ToImage(path: string) | ToVideo(path: string) | Skip

  /** Where `run` sends the file `filename` found at relative path `rel` of a
      source tree: by its lower-case extension, under the image or the video
      destination with the same relative path; other files are skipped. */
  function RouteFile(imageDest: string, videoDest: string, rel: string, filename: string): (r: Route)
    ensures r.ToImage? <==> Lower(Extension(filename)) in ImageExtensions
    ensures r.ToVideo? <==> Lower(Extension(filename)) in VideoExtensions
    ensures r.ToImage? && '/' !in filename ==> StartsWith(r.path, Join(imageDest, rel))
    ensures r.ToVideo? && '/' !in filename ==> StartsWith(r.path, Join(videoDest, rel))
    ensures !r.Skip? ==> EndsWith(r.path, filename)
  {
    var ext := Lower(Extension(filename));
    ExtensionListsDisjoint();
    if ext in ImageExtensions then ToImage(Join(Join(imageDest, rel), filename))
    else if ext in VideoExtensions then ToVideo(Join(Join(videoDest, rel), filename))
    else Skip
  }

  /** A file kept by the routing keeps its name: the destination's last path
      component is the source file's name. */
  lemma RouteKeepsName(imageDest: string, videoDest: string, rel: string, filename: string)
    requires '/' !in filename && |filename| > 0
    requires !RouteFile(imageDest, videoDest, rel, filename).Skip?
    ensures Basename(RouteFile(imageDest, videoDest, rel, filename).path) == filename
  {
    if RouteFile(imageDest, videoDest, rel, filename).ToImage? {
      BasenameOfJoin(Join(imageDest, rel), filename);
    } else {
      BasenameOfJoin(Join(videoDest, rel), filename);
    }
  }

  // ---------------------------------------------------------------------------
  // Digests
  // ---------------------------------------------------------------------------

  /** `_calculate_blake3`: the hex digest of the content, or the empty string
      when the file cannot be read. `hexdigest` stands for the BLAKE2b
      computation, whose digest is 128 hex characters. */
  function CalculateBlake3(content: Option<seq<bv8>>, hexdigest: seq<bv8> -> string): (r: string)
    requires forall b :: |hexdigest(b)| == 128
    ensures r == "" <==> content.None?
    ensures content.Some? ==> r == hexdigest(content.value)
  {
    match content
    case None => ""
    case Some(b) => hexdigest(b)
  }

  // ---------------------------------------------------------------------------
  // One file
  // ---------------------------------------------------------------------------

  datatype Entry = Regular(digest: string) | Folder

  type Dir = map<string, Entry>

  /** A job `run` submits: the source file, its destination path and its kind. */
  datatype Job = Job(sourcePath: string, destPath: string, fileType: string) {
    /** The name the copy creates in the destination directory. */
    function DestName(): string {
      Basename(destPath)
    }

    /** The priority of the source file's name. */
    function Rank(): int {
      FilePriority(Basename(sourcePath))
    }
  }

  /** What the world answers while one job runs: the stop flag, the
      human-only setting and the detector's verdict (`None` when it raised),
      the names whose removal fails, and whether the final copy succeeds. */
  datatype World = World(stop: bool, humanOnly: bool, detector: bool, human: Option<bool>,
                         removeFails: set<string>, copyOk: bool)

  /** The early returns of `_handle_file`: the stop flag, an image without a
      detected human in human-only mode, or a source that could not be hashed. */
  predicate Skipped(job: Job, digest: string, w: World) {
    || w.stop
    || (w.humanOnly && job.fileType == "image" && w.detector && w.human != Some(true))
    || digest == ""
  }

  datatype Scan = Continue(dir: Dir) | Halt(dir: Dir)

  /** The listed entries holding the source's content that stop the scan: one
      whose name ranks no worse than the source, or one that cannot be removed. */
  predicate Blocks(dir: Dir, listing: seq<string>, digest: string, rank: int, fails: set<string>, n: string) {
    n in listing && n in dir && dir[n] == Regular(digest) && (FilePriority(n) <= rank || n in fails)
  }

  /** The content check of `_handle_file` over the directory listing: a regular
      file with the source's digest and a strictly worse name is removed; one
      with an equal or better name, or a failed removal, ends the job. */
  function ScanListing(dir: Dir, listing: seq<string>, digest: string, rank: int, fails: set<string>): (r: Scan)
    ensures r.dir.Keys <= dir.Keys
    ensures forall n :: n in r.dir ==> r.dir[n] == dir[n]
    ensures forall n :: n in dir && n !in r.dir ==>
      n in listing && dir[n] == Regular(digest) && rank < FilePriority(n) && n !in fails
    ensures r.Halt? <==> exists n :: Blocks(dir, listing, digest, rank, fails, n)
    ensures r.Halt? ==> exists n :: n in r.dir && r.dir[n] == Regular(digest)
    ensures r.Continue? ==> forall n :: n in listing && n in dir && dir[n] == Regular(digest) ==> n !in r.dir
    decreases |listing|
  {
    if |listing| == 0 then Continue(dir)
    else
      var n := listing[0];
      if n in dir && dir[n] == Regular(digest) then
        if FilePriority(n) <= rank || n in fails then
          assert Blocks(dir, listing, digest, rank, fails, n);
          Halt(dir)
        else
          var r := ScanListing(dir - {n}, listing[1..], digest, rank, fails);
          BlocksAfterRemoval(dir, listing, digest, rank, fails, r.Halt?);
          r
      else
        var r := ScanListing(dir, listing[1..], digest, rank, fails);
        BlocksAfterSkip(dir, listing, digest, rank, fails);
        r
  }

  /** Removing the head entry, which does not block, leaves the same blockers. */
  lemma BlocksAfterRemoval(dir: Dir, listing: seq<string>, digest: string, rank: int, fails: set<string>, halts: bool)
    requires |listing| > 0 && listing[0] in dir && dir[listing[0]] == Regular(digest)
    requires rank < FilePriority(listing[0]) && listing[0] !in fails
    ensures (exists n :: Blocks(dir - {listing[0]}, listing[1..], digest, rank, fails, n))
        <==> (exists n :: Blocks(dir, listing, digest, rank, fails, n))
  {
    var rest := dir - {listing[0]};
    if n :| Blocks(dir, listing, digest, rank, fails, n) {
      assert n != listing[0];
      assert Blocks(rest, listing[1..], digest, rank, fails, n);
    }
    if n :| Blocks(rest, listing[1..], digest, rank, fails, n) {
      assert Blocks(dir, listing, digest, rank, fails, n);
    }
  }

  /** Skipping a head entry without the source's content leaves the same
      blockers. */
  lemma BlocksAfterSkip(dir: Dir, listing: seq<string>, digest: string, rank: int, fails: set<string>)
    requires |listing| > 0 && !(listing[0] in dir && dir[listing[0]] == Regular(digest))
    ensures (exists n :: Blocks(dir, listing[1..], digest, rank, fails, n))
        <==> (exists n :: Blocks(dir, listing, digest, rank, fails, n))
  {
    if n :| Blocks(dir, listing, digest, rank, fails, n) {
      assert n != listing[0];
      assert Blocks(dir, listing[1..], digest, rank, fails, n);
    }
    if n :| Blocks(dir, listing[1..], digest, rank, fails, n) {
      assert Blocks(dir, listing, digest, rank, fails, n);
    }
  }

  /** The copy at the end: `shutil.copy2` onto a sub-directory name writes
      inside that sub-directory, which leaves this directory's entries as they
      are. */
  function Copy(dir: Dir, name: string, digest: string, ok: bool): Dir {
    if !ok || (name in dir && dir[name].Folder?) then dir else dir[name := Regular(digest)]
  }

  /** `_handle_file`: the destination directory after one job whose source
      content has digest `digest`. */
  function HandleFile(dir: Dir, listing: seq<string>, job: Job, digest: string, w: World): (r: Dir)
    ensures Skipped(job, digest, w) ==> r == dir
    ensures forall n :: n in r && n != job.DestName() ==> n in dir && r[n] == dir[n]
    ensures forall n :: n in dir && n !in r ==> dir[n] == Regular(digest) && job.Rank() < FilePriority(n)
    ensures forall n :: n in dir && n != job.DestName() && dir[n] != Regular(digest) ==> n in r && r[n] == dir[n]
  {
    if Skipped(job, digest, w) then dir
    else
      match ScanListing(dir, listing, digest, job.Rank(), w.removeFails)
      case Halt(d) => d
      case Continue(d) => Copy(d, job.DestName(), digest, w.copyOk)
  }

  /** The job ends by copying the source into the directory. */
  predicate Copies(dir: Dir, listing: seq<string>, job: Job, digest: string, w: World) {
    && !Skipped(job, digest, w)
    && ScanListing(dir, listing, digest, job.Rank(), w.removeFails).Continue?
    && w.copyOk
    && !(job.DestName() in dir && dir[job.DestName()].Folder?)
  }

  // ---------------------------------------------------------------------------
  // Properties of one job
  // ---------------------------------------------------------------------------

  /** A job copies exactly when it is not skipped, no listed file holding the
      same content blocks it, and the copy succeeds; then the destination
      name holds the source's content whatever it held before. */
  lemma CopiesIff(dir: Dir, listing: seq<string>, job: Job, digest: string, w: World)
    ensures Copies(dir, listing, job, digest, w) <==>
      && !Skipped(job, digest, w)
      && (forall n :: !Blocks(dir, listing, digest, job.Rank(), w.removeFails, n))
      && w.copyOk
      && !(job.DestName() in dir && dir[job.DestName()].Folder?)
    ensures Copies(dir, listing, job, digest, w) ==>
      var r := HandleFile(dir, listing, job, digest, w);
      job.DestName() in r && r[job.DestName()] == Regular(digest)
  {
    var s := ScanListing(dir, listing, digest, job.Rank(), w.removeFails);
    if Copies(dir, listing, job, digest, w) {
      assert job.DestName() in s.dir ==> s.dir[job.DestName()] == dir[job.DestName()];
    }
  }

  /** A job that meets a listed file with the same content and an equal or
      better name keeps that file and copies nothing. */
  lemma BetterCopyWins(dir: Dir, listing: seq<string>, job: Job, digest: string, w: World, n: string)
    requires n in listing && n in dir && dir[n] == Regular(digest) && FilePriority(n) <= job.Rank()
    ensures var r := HandleFile(dir, listing, job, digest, w);
      && n in r && r[n] == dir[n]
      && r.Keys <= dir.Keys
      && forall m :: m in r ==> r[m] == dir[m]
  {
    assert Blocks(dir, listing, digest, job.Rank(), w.removeFails, n);
    if !Skipped(job, digest, w) {
      var s := ScanListing(dir, listing, digest, job.Rank(), w.removeFails);
      assert s.Halt?;
    }
  }

  /** Content is never lost: unless the job is skipped, or the final copy
      fails, some entry of the directory holds the source's content afterwards. */
  lemma ContentKept(dir: Dir, listing: seq<string>, job: Job, digest: string, w: World)
    requires !Skipped(job, digest, w) && w.copyOk
    requires !(job.DestName() in dir && dir[job.DestName()].Folder?)
    ensures var r := HandleFile(dir, listing, job, digest, w);
      exists n :: n in r && r[n] == Regular(digest)
  {
    var s := ScanListing(dir, listing, digest, job.Rank(), w.removeFails);
    var r := HandleFile(dir, listing, job, digest, w);
    if s.Continue? {
      CopiesIff(dir, listing, job, digest, w);
      assert job.DestName() in r && r[job.DestName()] == Regular(digest);
    } else {
      var n :| n in s.dir && s.dir[n] == Regular(digest);
      assert r == s.dir;
      assert n in r && r[n] == Regular(digest);
    }
  }

  /** A second run of a job that copied changes nothing: the copy now holds
      the same content under a name of the same priority, and every other
      copy of that content has been removed. */
  lemma HandleFileIdempotent(dir: Dir, listing: seq<string>, job: Job, digest: string, w: World, listing2: seq<string>)
    requires Copies(dir, listing, job, digest, w)
    requires Elems(listing) == dir.Keys
    requires Basename(job.destPath) == Basename(job.sourcePath)
    requires var r := HandleFile(dir, listing, job, digest, w);
      Elems(listing2) == r.Keys
    ensures var r := HandleFile(dir, listing, job, digest, w);
      HandleFile(r, listing2, job, digest, w) == r
  {
    var r := HandleFile(dir, listing, job, digest, w);
    var dest := job.DestName();
    CopiesIff(dir, listing, job, digest, w);
    assert forall m :: m in r && r[m] == Regular(digest) ==> m == dest;
    assert dest in listing2;
    assert Blocks(r, listing2, digest, job.Rank(), w.removeFails, dest);
    ScanKeepsUnremovable(r, listing2, digest, job.Rank(), w.removeFails);
  }

  /** A scan over a directory where every file with the content ranks no worse
      than the source, or cannot be removed, removes nothing. */
  lemma ScanKeepsUnremovable(dir: Dir, listing: seq<string>, digest: string, rank: int, fails: set<string>)
    requires forall n :: n in dir && dir[n] == Regular(digest) ==> FilePriority(n) <= rank || n in fails
    ensures ScanListing(dir, listing, digest, rank, fails).dir == dir
  {
    var r := ScanListing(dir, listing, digest, rank, fails);
    assert r.dir.Keys == dir.Keys;
  }

  /** A file with different content is replaced without any priority check
      when it sits at the destination name, and a job that copies replaces
      nothing else of different content. */
  lemma OverwritesDifferentContent(dir: Dir, listing: seq<string>, job: Job, digest: string, w: World)
    requires Copies(dir, listing, job, digest, w)
    requires job.DestName() in dir && dir[job.DestName()].Regular? && dir[job.DestName()].digest != digest
    ensures var r := HandleFile(dir, listing, job, digest, w);
      r[job.DestName()] == Regular(digest)
  {
    CopiesIff(dir, listing, job, digest, w);
  }

  // ---------------------------------------------------------------------------
  // The walk of `run`
  // ---------------------------------------------------------------------------

  /** One directory reached by `os.walk`: its path relative to the source root,
      and the names of its files. */
  datatype WalkStep = WalkStep(root: string, rel: string, files: seq<string>)

  /** A source as `run` finds it: missing, or the steps of its walk. */
  datatype Source = Missing | Tree(steps: seq<WalkStep>)

  /** A name `run` routes to one of the destinations. */
  predicate IsMedia(f: string) {
    Lower(Extension(f)) in ImageExtensions + VideoExtensions
  }

  /** The job's kind is the class of the file's extension. */
  predicate KindMatches(j: Job, f: string) {
    && (j.fileType == "image" <==> Lower(Extension(f)) in ImageExtensions)
    && (j.fileType == "video" <==> Lower(Extension(f)) in VideoExtensions)
  }

  /** The job the file `f` of a walk step submits, if any. */
  function FileJob(imageDest: string, videoDest: string, step: WalkStep, f: string): (r: Option<Job>)
    ensures r.Some? <==> IsMedia(f)
    ensures r.Some? ==> r.value.sourcePath == Join(step.root, f) && KindMatches(r.value, f)
  {
    match RouteFile(imageDest, videoDest, step.rel, f)
    case ToImage(p) => Some(Job(Join(step.root, f), p, "image"))
    case ToVideo(p) => Some(Job(Join(step.root, f), p, "video"))
    case Skip => None
  }

  /** The jobs the files `files` of a walk step submit, in file order. */
  function FilesJobs(imageDest: string, videoDest: string, step: WalkStep, files: seq<string>): seq<Job>
    decreases |files|
  {
    if |files| == 0 then []
    else
      var rest := FilesJobs(imageDest, videoDest, step, files[1..]);
      match FileJob(imageDest, videoDest, step, files[0])
      case Some(j) => [j] + rest
      case None => rest
  }

  function StepJobs(imageDest: string, videoDest: string, step: WalkStep): seq<Job> {
    FilesJobs(imageDest, videoDest, step, step.files)
  }

  /** The jobs of a walk step are exactly the jobs of its files: with the
      contract of `FileJob`, every file with an image or video extension, and
      no other, yields a job, whose kind matches the extension. */
  lemma {:induction false} FilesJobsComplete(imageDest: string, videoDest: string, step: WalkStep, files: seq<string>)
    ensures forall f :: f in files && FileJob(imageDest, videoDest, step, f).Some? ==>
      FileJob(imageDest, videoDest, step, f).value in FilesJobs(imageDest, videoDest, step, files)
    ensures forall j :: j in FilesJobs(imageDest, videoDest, step, files) ==>
      exists f :: f in files && FileJob(imageDest, videoDest, step, f) == Some(j)
    decreases |files|
  {
    if |files| > 0 {
      FilesJobsComplete(imageDest, videoDest, step, files[1..]);
      var r := FilesJobs(imageDest, videoDest, step, files);
      var rest := FilesJobs(imageDest, videoDest, step, files[1..]);
      var hd := FileJob(imageDest, videoDest, step, files[0]);
      assert r == (if hd.Some? then [hd.value] else []) + rest;
      forall f | f in files && FileJob(imageDest, videoDest, step, f).Some?
        ensures FileJob(imageDest, videoDest, step, f).value in r
      {
        if f != files[0] {
          assert f in files[1..];
        }
      }
      forall j | j in r ensures exists f :: f in files && FileJob(imageDest, videoDest, step, f) == Some(j) {
        if hd.Some? && j == hd.value {
          assert files[0] in files;
        } else {
          assert j in rest;
          var f :| f in files[1..] && FileJob(imageDest, videoDest, step, f) == Some(j);
          assert f in files;
        }
      }
    }
  }

  /** `run` with a stop flag that stays as it is read at the start: a set flag
      submits nothing, a missing source is passed over, and the sources, their
      walk steps and their files are taken in order. `RunJobsComplete` states
      that exactly the jobs of the media files of the present sources are
      submitted. */
  function RunJobs(sources: seq<Source>, imageDest: string, videoDest: string, stop: bool): (r: seq<Job>)
    ensures stop ==> r == []
    decreases |sources|
  {
    if stop || |sources| == 0 then []
    else
      var here := match sources[0]
        case Missing => []
        case Tree(steps) => TreeJobs(steps, imageDest, videoDest);
      here + RunJobs(sources[1..], imageDest, videoDest, stop)
  }

  function TreeJobs(steps: seq<WalkStep>, imageDest: string, videoDest: string): seq<Job>
    decreases |steps|
  {
    if |steps| == 0 then []
    else StepJobs(imageDest, videoDest, steps[0]) + TreeJobs(steps[1..], imageDest, videoDest)
  }

  /** `j` is the job of some media file of the step. */
  ghost predicate InStep(step: WalkStep, imageDest: string, videoDest: string, j: Job) {
    exists f :: f in step.files && FileJob(imageDest, videoDest, step, f) == Some(j)
  }

  /** `j` is the job of some media file of some step of the walk. */
  ghost predicate FromTree(steps: seq<WalkStep>, imageDest: string, videoDest: string, j: Job) {
    exists k :: 0 <= k < |steps| && InStep(steps[k], imageDest, videoDest, j)
  }

  /** A step submits exactly the jobs of its media files. */
  lemma StepJobsIff(step: WalkStep, imageDest: string, videoDest: string, j: Job)
    ensures j in StepJobs(imageDest, videoDest, step) <==> InStep(step, imageDest, videoDest, j)
  {
    FilesJobsComplete(imageDest, videoDest, step, step.files);
  }

  /** A job of a walk comes from its first step or from the rest. */
  lemma FromTreeSplit(steps: seq<WalkStep>, imageDest: string, videoDest: string, j: Job)
    requires |steps| > 0
    ensures FromTree(steps, imageDest, videoDest, j) <==>
      InStep(steps[0], imageDest, videoDest, j) || FromTree(steps[1..], imageDest, videoDest, j)
  {
    if FromTree(steps, imageDest, videoDest, j) {
      FromTreeHead(steps, imageDest, videoDest, j);
    }
    if FromTree(steps[1..], imageDest, videoDest, j) {
      FromTreeTail(steps, imageDest, videoDest, j);
    }
  }

  lemma FromTreeHead(steps: seq<WalkStep>, imageDest: string, videoDest: string, j: Job)
    requires |steps| > 0 && FromTree(steps, imageDest, videoDest, j)
    ensures InStep(steps[0], imageDest, videoDest, j) || FromTree(steps[1..], imageDest, videoDest, j)
  {
    var k :| 0 <= k < |steps| && InStep(steps[k], imageDest, videoDest, j);
    if k > 0 {
      var tail := steps[1..];
      assert tail[k - 1] == steps[k];
      assert 0 <= k - 1 < |tail| && InStep(tail[k - 1], imageDest, videoDest, j);
    }
  }

  lemma FromTreeTail(steps: seq<WalkStep>, imageDest: string, videoDest: string, j: Job)
    requires |steps| > 0 && FromTree(steps[1..], imageDest, videoDest, j)
    ensures FromTree(steps, imageDest, videoDest, j)
  {
    var tail := steps[1..];
    var k :| 0 <= k < |tail| && InStep(tail[k], imageDest, videoDest, j);
    assert tail[k] == steps[k + 1];
    assert 0 <= k + 1 < |steps| && InStep(steps[k + 1], imageDest, videoDest, j);
  }

  /** The walk of one source submits exactly the jobs of its steps' media files. */
  lemma {:induction false} TreeJobsComplete(steps: seq<WalkStep>, imageDest: string, videoDest: string, j: Job)
    ensures j in TreeJobs(steps, imageDest, videoDest) <==> FromTree(steps, imageDest, videoDest, j)
    decreases |steps|
  {
    if |steps| > 0 {
      TreeJobsComplete(steps[1..], imageDest, videoDest, j);
      StepJobsIff(steps[0], imageDest, videoDest, j);
      FromTreeSplit(steps, imageDest, videoDest, j);
    }
  }

  /** `j` is submitted by the walk of some present source. */
  ghost predicate FromSources(sources: seq<Source>, imageDest: string, videoDest: string, j: Job) {
    exists i :: 0 <= i < |sources| && sources[i].Tree? && FromTree(sources[i].steps, imageDest, videoDest, j)
  }

  /** A job of the sources comes from the first one or from the rest. */
  lemma FromSourcesSplit(sources: seq<Source>, imageDest: string, videoDest: string, j: Job)
    requires |sources| > 0
    ensures FromSources(sources, imageDest, videoDest, j) <==>
      (sources[0].Tree? && FromTree(sources[0].steps, imageDest, videoDest, j)) ||
      FromSources(sources[1..], imageDest, videoDest, j)
  {
    if FromSources(sources, imageDest, videoDest, j) {
      var i :| 0 <= i < |sources| && sources[i].Tree? && FromTree(sources[i].steps, imageDest, videoDest, j);
      if i > 0 {
        assert sources[1..][i - 1] == sources[i];
      }
    }
    if FromSources(sources[1..], imageDest, videoDest, j) {
      var i :| 0 <= i < |sources[1..]| && sources[1..][i].Tree? && FromTree(sources[1..][i].steps, imageDest, videoDest, j);
      assert sources[1..][i] == sources[i + 1];
    }
  }

  /** Without a stop, `run` submits exactly the jobs of the media files of the
      walks of the present sources, and nothing else. */
  lemma {:induction false} RunJobsComplete(sources: seq<Source>, imageDest: string, videoDest: string, stop: bool, j: Job)
    ensures !stop ==> (j in RunJobs(sources, imageDest, videoDest, stop) <==> FromSources(sources, imageDest, videoDest, j))
    decreases |sources|
  {
    if !stop && |sources| > 0 {
      RunJobsComplete(sources[1..], imageDest, videoDest, stop, j);
      if sources[0].Tree? {
        TreeJobsComplete(sources[0].steps, imageDest, videoDest, j);
      }
      FromSourcesSplit(sources, imageDest, videoDest, j);
    }
  }
}
