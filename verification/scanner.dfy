/** The scanner: which files and directories a scan passes over, how a path is
    taken apart, the order files are loaded in, and the count
    `process_directories` returns.

    `fnmatch` is modelled for the patterns the scanner uses, which hold only
    `*` and literal characters; on POSIX the match is case-sensitive. */
module Scanner {
  import opened Wrappers
  import opened Text
  import opened Priority
  import opened Media
  import opened StableSort

  // ---------------------------------------------------------------------------
  // Glob patterns
  // ---------------------------------------------------------------------------

  /** `fnmatch.fnmatch(name, pat)` for a pattern of `*` and literals: `*`
      matches any run of characters, anything else itself. */
  predicate Glob(name: string, pat: string)
    decreases |name| + |pat|
  {
    if |pat| == 0 then |name| == 0
    else if pat[0] == '*' then Glob(name, pat[1..]) || (|name| > 0 && Glob(name[1..], pat))
    else |name| > 0 && name[0] == pat[0] && Glob(name[1..], pat[1..])
  }

  /** A pattern without `*` matches only itself. */
  lemma {:induction false} GlobLiteral(name: string, lit: string)
    requires '*' !in lit
    ensures Glob(name, lit) <==> name == lit
    decreases |lit|
  {
    if |lit| > 0 {
      assert lit[0] in lit;
      assert '*' !in lit[1..] by {
        forall i | 0 <= i < |lit| - 1 ensures lit[1..][i] != '*' {
          assert lit[1..][i] == lit[i + 1];
          assert lit[i + 1] in lit;
        }
      }
      if |name| > 0 {
        GlobLiteral(name[1..], lit[1..]);
        if name == lit {
          assert name[1..] == lit[1..];
        }
        if name[0] == lit[0] && name[1..] == lit[1..] {
          assert name == [name[0]] + name[1..];
          assert lit == [lit[0]] + lit[1..];
        }
      }
    }
  }

  /** A lone `*` matches everything. */
  lemma {:induction false} GlobStar(name: string)
    ensures Glob(name, "*")
    decreases |name|
  {
    if |name| > 0 {
      GlobStar(name[1..]);
    } else {
      assert "*"[1..] == "";
    }
  }

  /** `lit*` matches exactly the names that start with `lit`. */
  lemma {:induction false} GlobPrefix(name: string, lit: string)
    requires '*' !in lit
    ensures Glob(name, lit + "*") <==> StartsWith(name, lit)
    decreases |lit|
  {
    if |lit| == 0 {
      assert lit + "*" == "*";
      GlobStar(name);
    } else {
      var p := lit + "*";
      assert p[0] == lit[0] && p[1..] == lit[1..] + "*";
      assert lit[0] in lit;
      assert '*' !in lit[1..] by {
        forall i | 0 <= i < |lit| - 1 ensures lit[1..][i] != '*' {
          assert lit[i + 1] in lit;
        }
      }
      if |name| > 0 {
        GlobPrefix(name[1..], lit[1..]);
        if StartsWith(name, lit) {
          assert name[1..][..|lit| - 1] == name[..|lit|][1..];
        }
        if name[0] == lit[0] && StartsWith(name[1..], lit[1..]) {
          assert name[..|lit|] == [name[0]] + name[1..][..|lit| - 1];
        }
      }
    }
  }

  /** `*lit` matches exactly the names that end with `lit`. */
  lemma {:induction false} GlobSuffix(name: string, lit: string)
    requires '*' !in lit
    ensures Glob(name, "*" + lit) <==> EndsWith(name, lit)
    decreases |name|
  {
    var p := "*" + lit;
    assert p[0] == '*' && p[1..] == lit;
    GlobLiteral(name, lit);
    if |name| > 0 {
      GlobSuffix(name[1..], lit);
      if EndsWith(name, lit) && name != lit {
        assert |name| > |lit|;
        assert name[1..][|name| - 1 - |lit|..] == name[|name| - |lit|..];
      }
      if EndsWith(name[1..], lit) {
        assert name[1..][|name| - 1 - |lit|..] == name[|name| - |lit|..];
      }
    }
  }

  /** `~*.*` matches the names that start with `~` and have a dot after it. */
  lemma GlobTildeDot(name: string)
    ensures Glob(name, "~*.*") <==> StartsWith(name, "~") && '.' in name[1..]
  {
    var p := "~*.*";
    assert p[0] == '~' && p[1..] == "*.*";
    if |name| > 0 && name[0] == '~' {
      assert StartsWith(name, "~");
      GlobStarDotStar(name[1..]);
    }
  }

  /** `*.*` matches the names that contain a dot. */
  lemma {:induction false} GlobStarDotStar(name: string)
    ensures Glob(name, "*.*") <==> '.' in name
    decreases |name|
  {
    var p := "*.*";
    assert p[1..] == ".*" && ".*" == "." + "*";
    GlobPrefix(name, ".");
    if |name| > 0 {
      GlobStarDotStar(name[1..]);
      assert name == [name[0]] + name[1..];
      assert '.' in name <==> name[0] == '.' || '.' in name[1..];
    }
  }

  const ExcludeFilePatterns: seq<string> := ["Thumbs.db", "*.tmp", ".*", "~*.*", "._*"]
  const ExcludeDirPatterns: seq<string> := ["$Recycle.Bin", ".recycle", ".*"]

  /** Some pattern of the list matches the name. */
  predicate MatchesAny(name: string, pats: seq<string>) {
    exists k :: 0 <= k < |pats| && Glob(name, pats[k])
  }

  /** `_should_exclude_file`: the first matching pattern returns true. */
  function ShouldExcludeFile(filename: string): (r: bool)
    ensures r <==> MatchesAny(filename, ExcludeFilePatterns)
  {
    FirstMatch(filename, ExcludeFilePatterns, 0)
  }

  /** `_should_exclude_dir`. */
  function ShouldExcludeDir(dirname: string): (r: bool)
    ensures r <==> MatchesAny(dirname, ExcludeDirPatterns)
  {
    FirstMatch(dirname, ExcludeDirPatterns, 0)
  }

  /** The loop over the patterns from index `k` on. */
  function FirstMatch(name: string, pats: seq<string>, k: nat): (r: bool)
    requires k <= |pats|
    ensures r <==> exists j :: k <= j < |pats| && Glob(name, pats[j])
    decreases |pats| - k
  {
    if k == |pats| then false
    else if Glob(name, pats[k]) then true
    else FirstMatch(name, pats, k + 1)
  }

  /** The excluded files in plain words: `Thumbs.db`, names ending in `.tmp`,
      every dot file, and names starting with `~` with a dot after it (`._*`
      is a dot file already). */
  lemma ExcludedFiles(name: string)
    ensures ShouldExcludeFile(name) <==>
      || name == "Thumbs.db"
      || EndsWith(name, ".tmp")
      || StartsWith(name, ".")
      || (StartsWith(name, "~") && '.' in name[1..])
  {
    var pats := ExcludeFilePatterns;
    GlobLiteral(name, "Thumbs.db");
    assert pats[1] == "*" + ".tmp";
    GlobSuffix(name, ".tmp");
    assert pats[2] == "." + "*";
    GlobPrefix(name, ".");
    GlobTildeDot(name);
    assert pats[4] == "._" + "*";
    GlobPrefix(name, "._");
    if StartsWith(name, "._") {
      assert name[..1] == name[..2][..1];
    }
  }

  /** The excluded directories in plain words: `$Recycle.Bin` and every dot
      directory, `.recycle` among them. */
  lemma ExcludedDirs(name: string)
    ensures ShouldExcludeDir(name) <==> name == "$Recycle.Bin" || StartsWith(name, ".")
  {
    var pats := ExcludeDirPatterns;
    GlobLiteral(name, "$Recycle.Bin");
    GlobLiteral(name, ".recycle");
    assert pats[2] == "." + "*";
    GlobPrefix(name, ".");
  }

  // ---------------------------------------------------------------------------
  // Taking a path apart
  // ---------------------------------------------------------------------------

  /** `BasicFileInfo`. */
  datatype BasicFileInfo = BasicFileInfo(path: string, filename: string, directory: string,
                                         extension: string, fileType: string, fileSize: nat)

  /** `os.path.abspath` against the working directory `cwd`. */
  function AbsPath(p: string, cwd: string): string {
    if StartsWith(p, "/") then NormPath(p) else NormPath(Join(cwd, p))
  }

  /** The class `_extract_file_components` gives a path: by the end of the
      lower-cased path, tried against images, then videos, then the other
      extensions. */
  function FileType(absPath: string): (r: string)
    ensures r == "image" <==> EndsWithAny(Lower(absPath), ImageExtensions)
    ensures r == "video" <==> !EndsWithAny(Lower(absPath), ImageExtensions) && EndsWithAny(Lower(absPath), VideoExtensions)
    ensures r == "other" <==>
      && !EndsWithAny(Lower(absPath), ImageExtensions)
      && !EndsWithAny(Lower(absPath), VideoExtensions)
      && EndsWithAny(Lower(absPath), OtherExtensions)
    ensures r in {"image", "video", "other", "unknown"}
  {
    var low := Lower(absPath);
    if EndsWithAny(low, ImageExtensions) then "image"
    else if EndsWithAny(low, VideoExtensions) then "video"
    else if EndsWithAny(low, OtherExtensions) then "other"
    else "unknown"
  }

  /** `_extract_file_components`: the absolute path, its last component, the
      name of its directory, the extension without its dot, the class, and the
      size (zero when the file does not exist, given here as `None`). */
  function ExtractFileComponents(filePath: string, cwd: string, size: Option<nat>): (r: BasicFileInfo)
    ensures r.path == AbsPath(filePath, cwd)
    ensures r.filename == Basename(r.path)
    ensures r.directory == Basename(Dirname(r.path))
    ensures '/' !in r.filename && EndsWith(r.path, r.filename)
    ensures '.' !in r.extension && '/' !in r.extension
    ensures if SplitExt(r.filename).1 == [] then r.extension == [] else SplitExt(r.filename).1 == "." + r.extension
    ensures r.fileType == FileType(r.path)
    ensures r.fileSize == size.GetOr(0)
  {
    var abs := AbsPath(filePath, cwd);
    var name := Basename(abs);
    var ext := SplitExt(name).1;
    var bare := if |ext| > 0 && ext[0] == '.' then ext[1..] else ext;
    assert |ext| > 0 ==> ext == "." + bare;
    BasicFileInfo(abs, name, Basename(Dirname(abs)), bare, FileType(abs), size.GetOr(0))
  }

  /** A path of the form `w + f`, where `f` comes after a separator or at the
      start. */
  ghost predicate NameLast(p: string, f: string) {
    exists w :: p == w + f && (w == [] || w[|w| - 1] == '/')
  }

  /** `w + f` with `w` empty or ending in a separator has `f` last. */
  lemma NameLastAt(p: string, w: string, f: string)
    requires p == w + f && (w == [] || w[|w| - 1] == '/')
    ensures NameLast(p, f)
  {
  }

  /** Joining keeps a name that comes last. */
  lemma JoinKeepsNameLast(a: string, p: string, f: string)
    requires |f| > 0 && '/' !in f && NameLast(p, f)
    ensures NameLast(Join(a, p), f)
  {
    var w :| p == w + f && (w == [] || w[|w| - 1] == '/');
    var j := Join(a, p);
    if |p| > 0 && p[0] == '/' {
      NameLastAt(j, w, f);
    } else if |a| == 0 || a[|a| - 1] == '/' {
      assert j == (a + w) + f;
      NameLastAt(j, a + w, f);
    } else {
      assert j == (a + "/" + w) + f;
      assert (a + "/" + w)[|a + "/" + w| - 1] == '/';
      NameLastAt(j, a + "/" + w, f);
    }
  }

  /** A file found under a walked root keeps its own name as the filename
      `_extract_file_components` reports, whatever the working directory. */
  lemma ExtractKeepsName(root: string, f: string, cwd: string, size: Option<nat>)
    requires PlainName(f) && '/' !in f
    ensures ExtractFileComponents(Join(root, f), cwd, size).filename == f
  {
    var p := Join(root, f);
    assert NameLast(f, f) by { assert f == [] + f; }
    JoinKeepsNameLast(root, f, f);
    var q := if StartsWith(p, "/") then p else Join(cwd, p);
    if !StartsWith(p, "/") {
      JoinKeepsNameLast(cwd, p, f);
    }
    var w :| q == w + f && (w == [] || w[|w| - 1] == '/');
    BasenameAfterSlash(w, f);
    NormPathKeepsName(q);
  }

  /** A lower-cased extension from the image list makes the path an image,
      whatever the case of its letters. */
  lemma ImageExtensionMeansImage(absPath: string)
    requires Lower(Extension(absPath)) in ImageExtensions
    ensures FileType(absPath) == "image"
  {
    var ext := Extension(absPath);
    LowerKeepsSuffix(absPath, ext);
    var k :| 0 <= k < |ImageExtensions| && ImageExtensions[k] == Lower(ext);
    assert EndsWith(Lower(absPath), ImageExtensions[k]);
  }

  /** Lower-casing keeps the extension at the end of the path. */
  lemma LowerKeepsSuffix(absPath: string, ext: string)
    requires ext == Extension(absPath)
    ensures EndsWith(Lower(absPath), Lower(ext))
  {
    var parts := SplitExt(absPath);
    assert absPath[|parts.0|..] == ext;
    LowerSuffix(absPath, ext);
  }

  // ---------------------------------------------------------------------------
  // Collecting and ordering the files of one directory tree
  // ---------------------------------------------------------------------------

  /** One root `os.walk` yields: the directory names from the base down to it,
      and the names of the files in it. Top-down pruning of excluded
      directory names means a root is visited exactly when none of those
      names is excluded. */
  datatype ScanStep = ScanStep(root: string, dirs: seq<string>, files: seq<string>)

  predicate Visited(step: ScanStep) {
    forall k :: 0 <= k < |step.dirs| ==> !ShouldExcludeDir(step.dirs[k])
  }

  /** A file the scan will load: its path and its name. */
  datatype Candidate = Candidate(path: string, filename: string)

  /** The path classifies as an image or a video. */
  predicate ScanMedia(path: string, cwd: string) {
    FileType(AbsPath(path, cwd)) in {"image", "video"}
  }

  /** `c` is a file of the visited root `step` that is neither excluded nor
      skipped as non-media. */
  predicate Admitted(step: ScanStep, c: Candidate, cwd: string) {
    && Visited(step)
    && c.filename in step.files
    && c.path == Join(step.root, c.filename)
    && !ShouldExcludeFile(c.filename)
    && ScanMedia(c.path, cwd)
  }

  /** The candidates among the files of one root, in listing order. */
  function FileCandidates(step: ScanStep, files: seq<string>, cwd: string): (r: seq<Candidate>)
    requires Visited(step)
    requires forall k :: 0 <= k < |files| ==> files[k] in step.files
    ensures |r| <= |files|
    ensures forall c :: c in r <==>
      && c.filename in files
      && c.path == Join(step.root, c.filename)
      && Admitted(step, c, cwd)
  {
    if |files| == 0 then []
    else
      var f := files[|files| - 1];
      var c := Candidate(Join(step.root, f), f);
      var rest := FileCandidates(step, files[..|files| - 1], cwd);
      assert forall g :: g in files <==> g in files[..|files| - 1] || g == f;
      if !ShouldExcludeFile(f) && ScanMedia(c.path, cwd) then rest + [c] else rest
  }

  /** `all_files`: the candidates of every visited root, in walk order. */
  function Collect(walk: seq<ScanStep>, cwd: string): (r: seq<Candidate>)
    ensures forall c :: c in r <==> exists k :: 0 <= k < |walk| && Admitted(walk[k], c, cwd)
  {
    if |walk| == 0 then []
    else
      var step := walk[|walk| - 1];
      var rest := Collect(walk[..|walk| - 1], cwd);
      var here := if Visited(step) then FileCandidates(step, step.files, cwd) else [];
      assert forall c :: Admitted(step, c, cwd) ==> c in here;
      assert forall k :: 0 <= k < |walk| - 1 ==> walk[..|walk| - 1][k] == walk[k];
      rest + here
  }

  /** The sort key: the priority of the file name. */
  function PriorityKey(c: Candidate): int {
    FilePriority(c.filename)
  }

  /** `sorted(all_files, key=...)`: the order in which files are loaded. */
  function ScanOrder(walk: seq<ScanStep>, cwd: string): (r: seq<Candidate>)
    ensures Sorted(r, PriorityKey)
    ensures multiset(r) == multiset(Collect(walk, cwd))
  {
    SortByKey(Collect(walk, cwd), PriorityKey)
  }

  /** Files of one priority are loaded in the order the walk found them. */
  lemma ScanOrderStable(walk: seq<ScanStep>, cwd: string, k: int)
    ensures WithKey(ScanOrder(walk, cwd), PriorityKey, k) == WithKey(Collect(walk, cwd), PriorityKey, k)
  {
    SortKeepsClasses(Collect(walk, cwd), PriorityKey, k);
  }

  // ---------------------------------------------------------------------------
  // Loading the files
  // ---------------------------------------------------------------------------

  /** The insert loop over the sorted files: each file is handed to
      `_insert_media` once, in order, and counted as processed, since
      `_insert_media` catches and logs every error of its own. */
  method InsertAll(order: seq<Candidate>) returns (processed: nat, attempted: seq<Candidate>)
    ensures attempted == order
    ensures processed == |attempted|
  {
    processed := 0;
    attempted := [];
    var i := 0;
    while i < |order|
      invariant 0 <= i <= |order|
      invariant attempted == order[..i]
      invariant processed == i
    {
      attempted := attempted + [order[i]];
      processed := processed + 1;
      assert order[..i + 1] == order[..i] + [order[i]];
      i := i + 1;
    }
    assert order[..i] == order;
  }

  /** `scan_and_load`: collect, sort and insert the files of one directory
      tree. A stop flag already set halts the walk at its first root, and an
      error while collecting returns 0; otherwise every collected file is
      handed to `_insert_media` once, in priority order, and counted. */
  method ScanAndLoad(walk: seq<ScanStep>, cwd: string, stop: bool, collectFails: bool)
    returns (processed: int, attempted: seq<Candidate>)
    ensures stop || collectFails ==> processed == 0 && attempted == []
    ensures !stop && !collectFails ==> processed == |Collect(walk, cwd)| && attempted == ScanOrder(walk, cwd)
    ensures !stop && !collectFails ==> multiset(attempted) == multiset(Collect(walk, cwd))
    ensures Sorted(attempted, PriorityKey)
  {
    if collectFails || stop {
      return 0, [];
    }
    var all := Collect(walk, cwd);
    var order := SortByKey(all, PriorityKey);
    processed, attempted := InsertAll(order);
  }

  // ---------------------------------------------------------------------------
  // The directories of a run
  // ---------------------------------------------------------------------------

  /** The index of the first directory before which the stop flag reads set,
      or the number of directories. The flag reads `stopReadings[i]` before
      directory `i`, and unset once the readings run out. */
  function StopPoint(n: nat, stopReadings: seq<bool>): (r: nat)
    ensures r <= n
    ensures forall i :: 0 <= i < r && i < |stopReadings| ==> !stopReadings[i]
    ensures r < n ==> r < |stopReadings| && stopReadings[r]
  {
    StopFrom(n, stopReadings, 0)
  }

  function StopFrom(n: nat, stopReadings: seq<bool>, i: nat): (r: nat)
    requires i <= n
    ensures i <= r <= n
    ensures forall j :: i <= j < r && j < |stopReadings| ==> !stopReadings[j]
    ensures r < n ==> r < |stopReadings| && stopReadings[r]
    decreases n - i
  {
    if i == n then n
    else if i < |stopReadings| && stopReadings[i] then i
    else StopFrom(n, stopReadings, i + 1)
  }

  /** The number of directories whose scan does not raise. */
  function CountScanned(dirs: seq<string>, raises: string -> bool): (r: nat)
    ensures r <= |dirs|
  {
    if |dirs| == 0 then 0
    else CountScanned(dirs[..|dirs| - 1], raises) + (if raises(dirs[|dirs| - 1]) then 0 else 1)
  }

  /** `process_directories`: -1 for an empty list; otherwise the number of
      directories scanned without raising before the stop flag was seen. */
  method ProcessDirectories(directories: seq<string>, stopReadings: seq<bool>, raises: string -> bool)
    returns (r: int)
    ensures r == -1 <==> |directories| == 0
    ensures |directories| > 0 ==>
      r == CountScanned(directories[..StopPoint(|directories|, stopReadings)], raises)
    ensures r <= |directories|
  {
    if |directories| == 0 {
      return -1;
    }
    var processed := 0;
    var i := 0;
    while i < |directories|
      invariant 0 <= i <= StopPoint(|directories|, stopReadings)
      invariant processed == CountScanned(directories[..i], raises)
    {
      if i < |stopReadings| && stopReadings[i] {
        break;
      }
      if !raises(directories[i]) {
        processed := processed + 1;
      }
      assert directories[..i + 1][..i] == directories[..i];
      i := i + 1;
    }
    return processed;
  }

  /** With the flag never set and no directory raising, every directory is
      counted. */
  lemma AllScannedWithoutStop(directories: seq<string>, raises: string -> bool)
    requires forall k :: 0 <= k < |directories| ==> !raises(directories[k])
    ensures CountScanned(directories, raises) == |directories|
  {
    if |directories| > 0 {
      AllScannedWithoutStop(directories[..|directories| - 1], raises);
    }
  }
}
