/** `find_and_move_duplicates_single_folder`: a numbered copy such as
    `holiday 2.jpg` whose content equals `holiday.jpg` in the same folder is
    moved into one `dupes` folder under the base directory, under a name that
    is free there, and reported as (duplicate, original, destination). */
module Dupes {
  import opened Wrappers
  import opened Text
  import Scanner

  // ---------------------------------------------------------------------------
  // The disk
  // ---------------------------------------------------------------------------

  /** A file's BLAKE3 hex digest; equal digests stand for equal content. */
  type Digest = string

  /** The regular files, each with its digest, and the directories. */
  datatype FileSystem = FileSystem(files: map<string, Digest>, dirs: set<string>)

  /** `os.path.exists`. */
  predicate PathExists(fs: FileSystem, p: string) {
    p in fs.files || p in fs.dirs
  }

  /** Every path that exists. */
  function Present(fs: FileSystem): set<string> {
    fs.files.Keys + fs.dirs
  }

  // ---------------------------------------------------------------------------
  // The pattern `^(.*)\s(\d+)\.(\w+)$`
  // ---------------------------------------------------------------------------

  /** The three groups of a match: the base name, the number and the extension. */
  datatype Groups = Groups(stem: string, number: string, ext: string)

  /** `s` is exactly `stem`, one whitespace character, `number`, a dot and
      `ext`, where `.` in the pattern excludes a newline from `stem`, the number
      is one or more digits and the extension one or more word characters. */
  predicate Shape(s: string, g: Groups) {
    && |s| == |g.stem| + |g.number| + |g.ext| + 2
    && s == g.stem + [s[|g.stem|]] + g.number + "." + g.ext
    && '\n' !in g.stem
    && IsSpace(s[|g.stem|])
    && |g.number| > 0 && AllDigits(g.number)
    && |g.ext| > 0 && AllWord(g.ext)
  }

  /** `pattern.match(name)` succeeds with groups `g`: Python's `$` also matches
      just before a final newline. */
  predicate Matches(name: string, g: Groups) {
    || Shape(name, g)
    || (|name| > 0 && name[|name| - 1] == '\n' && Shape(name[..|name| - 1], g))
  }

  /** Start of the run of digits that ends at `end`. */
  function DigitRunStart(s: string, end: nat): (r: nat)
    requires end <= |s|
    ensures r <= end
    ensures forall i :: r <= i < end ==> IsDigit(s[i])
    ensures r == 0 || !IsDigit(s[r - 1])
    decreases end
  {
    if end > 0 && IsDigit(s[end - 1]) then DigitRunStart(s, end - 1) else end
  }

  /** The groups of `s` read off from the right: the extension after the last
      dot, the digits right before it, the whitespace before those. */
  function MatchShape(s: string): Option<Groups> {
    var dot := LastIndexOf(s, '.');
    if dot < 0 then None
    else
      var j := DigitRunStart(s, dot);
      var ext := s[dot + 1..];
      if 1 <= j < dot && IsSpace(s[j - 1]) && '\n' !in s[..j - 1] && |ext| > 0 && AllWord(ext) then
        Some(Groups(s[..j - 1], s[j..dot], ext))
      else None
  }

  /** `pattern.match(filename)`. */
  function MatchNumbered(name: string): Option<Groups> {
    var core := MatchShape(name);
    if core.Some? then core
    else if |name| > 0 && name[|name| - 1] == '\n' then MatchShape(name[..|name| - 1])
    else None
  }

  lemma ShapeFound(s: string)
    ensures MatchShape(s).Some? ==> Shape(s, MatchShape(s).value)
  {
    var dot := LastIndexOf(s, '.');
    if dot >= 0 {
      var j := DigitRunStart(s, dot);
      var ext := s[dot + 1..];
      if 1 <= j < dot && IsSpace(s[j - 1]) && '\n' !in s[..j - 1] && |ext| > 0 && AllWord(ext) {
        var g := Groups(s[..j - 1], s[j..dot], ext);
        assert s == s[..j - 1] + [s[j - 1]] + s[j..dot] + [s[dot]] + s[dot + 1..];
        assert forall i :: 0 <= i < |g.number| ==> g.number[i] == s[j + i];
      }
    }
  }

  /** In a name of the shape, the dot before the extension is the last dot. */
  lemma ShapeDot(s: string, g: Groups)
    requires Shape(s, g)
    ensures LastIndexOf(s, '.') == |g.stem| + 1 + |g.number|
  {
    var p := |g.stem| + 1 + |g.number|;
    assert s[p] == '.';
    assert forall i :: p < i < |s| ==> s[i] == g.ext[i - p - 1];
  }

  /** In a name of the shape, the digit run before the dot starts right after
      the whitespace. */
  lemma ShapeDigits(s: string, g: Groups)
    requires Shape(s, g)
    ensures DigitRunStart(s, |g.stem| + 1 + |g.number|) == |g.stem| + 1
  {
    var q := |g.stem| + 1;
    var p := q + |g.number|;
    assert forall i :: q <= i < p ==> s[i] == g.number[i - q];
    assert !IsDigit(s[q - 1]);
  }

  lemma ShapeUnique(s: string, g: Groups)
    requires Shape(s, g)
    ensures MatchShape(s) == Some(g)
  {
    var q := |g.stem| + 1;
    var p := q + |g.number|;
    ShapeDot(s, g);
    ShapeDigits(s, g);
    assert s[..q - 1] == g.stem;
    assert s[q..p] == g.number;
    assert s[p + 1..] == g.ext;
  }

  /** A matched name ends in a word character, never in a newline. */
  lemma ShapeEndsInWord(s: string, g: Groups)
    requires Shape(s, g)
    ensures |s| > 0 && IsWord(s[|s| - 1])
  {
    assert s[|s| - 1] == g.ext[|g.ext| - 1];
  }

  /** `MatchNumbered` finds a match exactly when the pattern matches, and the
      groups it returns are the only ones the pattern admits. */
  lemma MatchNumberedIsPattern(name: string)
    ensures MatchNumbered(name).Some? ==> Matches(name, MatchNumbered(name).value)
    ensures forall g :: Matches(name, g) ==> MatchNumbered(name) == Some(g)
  {
    ShapeFound(name);
    if MatchShape(name).None? && |name| > 0 && name[|name| - 1] == '\n' {
      ShapeFound(name[..|name| - 1]);
    }
    forall g | Matches(name, g) ensures MatchNumbered(name) == Some(g) {
      if Shape(name, g) {
        ShapeUnique(name, g);
      } else {
        NewlineNoShape(name);
        ShapeUnique(name[..|name| - 1], g);
      }
    }
  }

  /** A name ending in a newline has no shape of its own. */
  lemma NewlineNoShape(name: string)
    requires |name| > 0 && name[|name| - 1] == '\n'
    ensures MatchShape(name).None?
  {
    ShapeFound(name);
    if MatchShape(name).Some? {
      ShapeEndsInWord(name, MatchShape(name).value);
    }
  }

  /** `holiday 12.jpg` matches with groups `holiday`, `12`, `jpg`. */
  lemma MatchExample()
    ensures MatchNumbered("holiday 12.jpg") == Some(Groups("holiday", "12", "jpg"))
  {
    ShapeOf("holiday", ' ', "12", "jpg");
    assert "holiday" + [' '] + "12" + "." + "jpg" == "holiday 12.jpg";
    ShapeUnique("holiday 12.jpg", Groups("holiday", "12", "jpg"));
  }

  /** A base name without a newline, a whitespace character, digits, a dot and
      word characters make a name of the shape. */
  lemma ShapeOf(stem: string, space: char, number: string, ext: string)
    requires '\n' !in stem && IsSpace(space)
    requires |number| > 0 && AllDigits(number) && |ext| > 0 && AllWord(ext)
    ensures Shape(stem + [space] + number + "." + ext, Groups(stem, number, ext))
  {
    var s := stem + [space] + number + "." + ext;
    assert s[|stem|] == space;
  }

  /** Every match has whitespace right after the base name, so a name
      without whitespace, such as `holiday12.jpg`, never matches. */
  lemma MatchNeedsSpace(name: string)
    ensures MatchNumbered(name).Some? ==>
      |MatchNumbered(name).value.stem| < |name| && IsSpace(name[|MatchNumbered(name).value.stem|])
  {
    MatchNumberedIsPattern(name);
    if MatchNumbered(name).Some? {
      var g := MatchNumbered(name).value;
      if !Shape(name, g) {
        assert name[..|name| - 1][|g.stem|] == name[|g.stem|];
      }
    }
  }

  /** `f"{base_no_suffix}.{extension}"`: the name the numbered file copies. */
  function OriginalName(g: Groups): string {
    g.stem + "." + g.ext
  }

  /** The original's path is never the numbered file's own path, whatever the
      folder. */
  lemma OriginalDiffers(root: string, name: string, g: Groups)
    requires Matches(name, g)
    ensures Join(root, OriginalName(g)) != Join(root, name)
  {
    var x := OriginalName(g);
    assert |x| < |name|;
    assert x[0] == '/' <==> name[0] == '/' by {
      if |g.stem| > 0 {
        assert x[0] == g.stem[0];
        if Shape(name, g) {
          assert name[0] == g.stem[0];
        } else {
          assert name[0] == name[..|name| - 1][0] == g.stem[0];
        }
      } else {
        assert x[0] == '.';
        if Shape(name, g) {
          assert IsSpace(name[0]);
        } else {
          assert IsSpace(name[..|name| - 1][0]);
        }
      }
    }
    assert |Join(root, x)| < |Join(root, name)|;
  }

  // ---------------------------------------------------------------------------
  // A free name in the dupes folder
  // ---------------------------------------------------------------------------

  /** `f"{base_filename}_{counter}{ext}"` with `base_filename, ext =
      os.path.splitext(filename)`. */
  function Renamed(filename: string, k: nat): string {
    var parts := SplitExt(filename);
    parts.0 + "_" + NatToString(k) + parts.1
  }

  /** The `k`-th name tried in the dupes folder after a collision. */
  function Candidate(dupesDir: string, filename: string, k: nat): string {
    Join(dupesDir, Renamed(filename, k))
  }

  /** Joining onto the same folder two names that begin alike is injective. */
  lemma JoinCancel(d: string, x: string, y: string)
    requires |x| > 0 && |y| > 0 && x[0] == y[0]
    requires Join(d, x) == Join(d, y)
    ensures x == y
  {
    if x[0] != '/' {
      var pre := if |d| == 0 || d[|d| - 1] == '/' then d else d + "/";
      assert Join(d, x) == pre + x && Join(d, y) == pre + y;
      assert x == (pre + x)[|pre|..] && y == (pre + y)[|pre|..];
    }
  }

  /** Different counters give different renamed names. */
  lemma RenamedInjective(f: string, a: nat, b: nat)
    requires Renamed(f, a) == Renamed(f, b)
    ensures a == b
  {
    var parts := SplitExt(f);
    var head := parts.0 + "_";
    var ta := NatToString(a) + parts.1;
    var tb := NatToString(b) + parts.1;
    assert Renamed(f, a) == head + ta && Renamed(f, b) == head + tb;
    assert ta == (head + ta)[|head|..];
    assert tb == (head + tb)[|head|..];
    assert |NatToString(a)| == |NatToString(b)|;
    assert NatToString(a) == ta[..|NatToString(a)|];
    assert NatToString(b) == tb[..|NatToString(b)|];
    NatToStringInjective(a, b);
  }

  /** Renamed names all begin with the same character. */
  lemma RenamedFirst(f: string, a: nat, b: nat)
    ensures |Renamed(f, a)| > 0 && |Renamed(f, b)| > 0
    ensures Renamed(f, a)[0] == Renamed(f, b)[0]
  {
    var parts := SplitExt(f);
    var head := parts.0 + "_";
    assert Renamed(f, a) == head + (NatToString(a) + parts.1);
    assert Renamed(f, b) == head + (NatToString(b) + parts.1);
  }

  /** Different counters give different candidates. */
  lemma CandidateInjective(d: string, f: string, a: nat, b: nat)
    requires Candidate(d, f, a) == Candidate(d, f, b)
    ensures a == b
  {
    RenamedFirst(f, a, b);
    JoinCancel(d, Renamed(f, a), Renamed(f, b));
    RenamedInjective(f, a, b);
  }

  /** When the first `m` candidates all exist, at least `m` paths exist. */
  lemma {:induction false} Pigeonhole(d: string, f: string, present: set<string>, m: nat)
    requires forall k :: 1 <= k <= m ==> Candidate(d, f, k) in present
    ensures m <= |present|
    decreases m
  {
    if m > 0 {
      var c := Candidate(d, f, m);
      var rest := present - {c};
      forall k | 1 <= k <= m - 1 ensures Candidate(d, f, k) in rest {
        if Candidate(d, f, k) == c {
          CandidateInjective(d, f, k, m);
        }
      }
      Pigeonhole(d, f, rest, m - 1);
    }
  }

  lemma ExistingArePresent(fs: FileSystem, d: string, f: string, m: nat)
    requires forall i :: 1 <= i < m + 1 ==> PathExists(fs, Candidate(d, f, i))
    ensures forall i :: 1 <= i <= m ==> Candidate(d, f, i) in Present(fs)
  {
    forall i | 1 <= i <= m ensures Candidate(d, f, i) in Present(fs) {
      assert PathExists(fs, Candidate(d, f, i));
    }
  }

  /** The `while True` loop: the first counter from `k` on whose candidate
      does not exist. It stops because only finitely many paths exist. */
  function FreeCounter(fs: FileSystem, dupesDir: string, filename: string, k: nat): (r: nat)
    requires k >= 1
    requires forall i :: 1 <= i < k ==> PathExists(fs, Candidate(dupesDir, filename, i))
    ensures r >= k && !PathExists(fs, Candidate(dupesDir, filename, r))
    ensures forall i :: 1 <= i < r ==> PathExists(fs, Candidate(dupesDir, filename, i))
    decreases |Present(fs)| + 1 - k
  {
    ExistingArePresent(fs, dupesDir, filename, k - 1);
    Pigeonhole(dupesDir, filename, Present(fs), k - 1);
    if PathExists(fs, Candidate(dupesDir, filename, k)) then
      Pigeonhole(dupesDir, filename, Present(fs), k);
      FreeCounter(fs, dupesDir, filename, k + 1)
    else k
  }

  /** The counter used for a collision: 0 when `dupes/<filename>` is free,
      otherwise the smallest counter whose candidate is free. */
  function CollisionCounter(fs: FileSystem, dupesDir: string, filename: string): (k: nat)
    ensures k == 0 <==> !PathExists(fs, Join(dupesDir, filename))
    ensures k > 0 ==> !PathExists(fs, Candidate(dupesDir, filename, k))
    ensures k > 0 ==> forall i :: 1 <= i < k ==> PathExists(fs, Candidate(dupesDir, filename, i))
  {
    if !PathExists(fs, Join(dupesDir, filename)) then 0 else FreeCounter(fs, dupesDir, filename, 1)
  }

  /** Where the duplicate is moved: a path that does not exist yet. */
  function Destination(fs: FileSystem, dupesDir: string, filename: string): (r: string)
    ensures !PathExists(fs, r)
    ensures !PathExists(fs, Join(dupesDir, filename)) ==> r == Join(dupesDir, filename)
  {
    var k := CollisionCounter(fs, dupesDir, filename);
    if k == 0 then Join(dupesDir, filename) else Candidate(dupesDir, filename, k)
  }

  /** A plain file name is always moved into the dupes folder itself: the
      destination is the folder joined with one name holding no separator. */
  lemma DestinationInDupes(fs: FileSystem, dupesDir: string, filename: string)
    requires '/' !in filename
    ensures StartsWith(Destination(fs, dupesDir, filename), dupesDir)
    ensures exists name ::
      && '/' !in name && (|filename| > 0 ==> |name| > 0)
      && Destination(fs, dupesDir, filename) == Join(dupesDir, name)
  {
    var k := CollisionCounter(fs, dupesDir, filename);
    if k > 0 {
      var parts := SplitExt(filename);
      var x := Renamed(filename, k);
      RenamedPlain(filename, k);
      if |parts.0| > 0 {
        assert x[0] == parts.0[0] == filename[0];
        assert filename[0] in filename;
      } else {
        assert x[0] == '_';
      }
      assert Destination(fs, dupesDir, filename) == Join(dupesDir, x);
    } else {
      if |filename| > 0 {
        assert filename[0] in filename;
      }
      assert Destination(fs, dupesDir, filename) == Join(dupesDir, filename);
    }
  }

  /** A renamed plain file name stays a plain, non-empty name. */
  lemma RenamedPlain(filename: string, k: nat)
    requires '/' !in filename
    ensures '/' !in Renamed(filename, k) && |Renamed(filename, k)| > 0
  {
    var parts := SplitExt(filename);
    var digits := NatToString(k);
    assert forall i :: 0 <= i < |parts.0| ==> parts.0[i] == filename[i];
    assert forall i :: 0 <= i < |parts.1| ==> parts.1[i] == filename[|parts.0| + i];
    assert '/' !in digits by {
      forall i | 0 <= i < |digits| ensures digits[i] != '/' {
        assert IsDigit(digits[i]);
      }
    }
  }

  // ---------------------------------------------------------------------------
  // Moving one file
  // ---------------------------------------------------------------------------

  /** `shutil.move(src, dst)` onto a path that does not exist. */
  function MoveFile(fs: FileSystem, src: string, dst: string): (r: FileSystem)
    requires src in fs.files && !PathExists(fs, dst)
    ensures r.dirs == fs.dirs
    ensures src !in r.files && dst in r.files && r.files[dst] == fs.files[src]
    ensures forall p :: p != src && p != dst ==> (p in r.files <==> p in fs.files)
    ensures forall p :: p != src && p != dst && p in fs.files ==> r.files[p] == fs.files[p]
    ensures |r.files| == |fs.files|
  {
    FileSystem((fs.files - {src})[dst := fs.files[src]], fs.dirs)
  }

  /** Moving the file back undoes the move. */
  lemma MoveBack(fs: FileSystem, src: string, dst: string)
    requires src in fs.files && !PathExists(fs, dst) && src !in fs.dirs
    ensures !PathExists(MoveFile(fs, src, dst), src)
    ensures MoveFile(MoveFile(fs, src, dst), dst, src) == fs
  {
    var mid := MoveFile(fs, src, dst);
    var back := MoveFile(mid, dst, src);
    forall p ensures p in back.files <==> p in fs.files {
    }
    forall p | p in fs.files ensures back.files[p] == fs.files[p] {
    }
    assert back.files == fs.files;
  }

  /** One (duplicate, original, destination) report. */
  datatype Moved = Moved(duplicate: string, original: string, destination: string)

  /** The disk after a step and what the step returned or raised; files moved
      before an exception stay moved. */
  datatype Outcome<T> = Outcome(fs: FileSystem, result: Result<T>)

  /** The original's path for `filename` in `root`, when the name is numbered. */
  function OriginalPath(root: string, filename: string): Option<string> {
    match MatchNumbered(filename)
    case None => None
    case Some(g) => Some(Join(root, OriginalName(g)))
  }

  lemma OriginalPathDiffers(root: string, filename: string)
    ensures OriginalPath(root, filename).Some? ==> OriginalPath(root, filename).value != Join(root, filename)
  {
    MatchNumberedIsPattern(filename);
    if MatchNumbered(filename).Some? {
      OriginalDiffers(root, filename, MatchNumbered(filename).value);
    }
  }

  /** The numbered file is a copy: its original is a regular file and both have
      the same digest. */
  predicate IsDuplicate(fs: FileSystem, root: string, filename: string) {
    var o := OriginalPath(root, filename);
    && o.Some?
    && o.value in fs.files
    && Join(root, filename) in fs.files
    && fs.files[o.value] == fs.files[Join(root, filename)]
  }

  /** The body of the inner `for` loop for one listed name. */
  function ConsiderFile(fs: FileSystem, dupesDir: string, root: string, filename: string): (r: Outcome<Option<Moved>>)
    ensures r.result.Failure? <==>
      OriginalPath(root, filename).Some? && OriginalPath(root, filename).value in fs.files
      && Join(root, filename) !in fs.files
    ensures r.result.Failure? ==> r.fs == fs
    ensures r.result.Failure? ==>
      r.result.error == if Join(root, filename) in fs.dirs then IsADirectoryError else FileNotFoundError
    ensures r.result.Success? && r.result.value.Some? <==> IsDuplicate(fs, root, filename)
    ensures r.result == Success(None) ==> r.fs == fs
    ensures IsDuplicate(fs, root, filename) ==>
      var m := r.result.value.value;
      && m.duplicate == Join(root, filename)
      && m.original == OriginalPath(root, filename).value
      && !PathExists(fs, m.destination)
      && r.fs == MoveFile(fs, m.duplicate, m.destination)
      && m.original in r.fs.files
      && r.fs.files[m.original] == r.fs.files[m.destination]
  {
    var o := OriginalPath(root, filename);
    var numbered := Join(root, filename);
    if o.None? || o.value !in fs.files then Outcome(fs, Success(None))
    else if numbered !in fs.files then
      Outcome(fs, Failure(if numbered in fs.dirs then IsADirectoryError else FileNotFoundError))
    else if fs.files[o.value] != fs.files[numbered] then Outcome(fs, Success(None))
    else
      OriginalPathDiffers(root, filename);
      var dest := Destination(fs, dupesDir, filename);
      Outcome(MoveFile(fs, numbered, dest), Success(Some(Moved(numbered, o.value, dest))))
  }

  // ---------------------------------------------------------------------------
  // The walk
  // ---------------------------------------------------------------------------

  /** The names listed for one folder, in order. */
  function ProcessRoot(fs: FileSystem, dupesDir: string, root: string, files: seq<string>): (r: Outcome<seq<Moved>>)
    ensures r.fs.dirs == fs.dirs
    ensures |r.fs.files| == |fs.files|
    ensures r.result.Success? ==> |r.result.value| <= |files|
    decreases |files|
  {
    if |files| == 0 then Outcome(fs, Success([]))
    else
      var a := ConsiderFile(fs, dupesDir, root, files[0]);
      if a.result.Failure? then Outcome(a.fs, Failure(a.result.error))
      else
        var b := ProcessRoot(a.fs, dupesDir, root, files[1..]);
        var here := if a.result.value.Some? then [a.result.value.value] else [];
        Outcome(b.fs, if b.result.Failure? then b.result else Success(here + b.result.value))
  }

  /** The paths of the listed names. */
  function ListedPaths(root: string, files: seq<string>): (r: seq<string>)
    ensures |r| == |files|
    ensures forall i :: 0 <= i < |files| ==> r[i] == Join(root, files[i])
  {
    seq(|files|, i requires 0 <= i < |files| => Join(root, files[i]))
  }

  /** Every report names a file listed in the folder. */
  predicate FromListing(moved: seq<Moved>, root: string, files: seq<string>) {
    forall k :: 0 <= k < |moved| ==> moved[k].duplicate in ListedPaths(root, files)
  }

  /** Every report of a folder names a file listed in that folder. */
  lemma {:induction false} ReportsComeFromListing(fs: FileSystem, dupesDir: string, root: string, files: seq<string>)
    ensures ProcessRoot(fs, dupesDir, root, files).result.Success? ==>
      FromListing(ProcessRoot(fs, dupesDir, root, files).result.value, root, files)
    decreases |files|
  {
    if |files| > 0 {
      var a := ConsiderFile(fs, dupesDir, root, files[0]);
      if a.result.Success? {
        ReportsComeFromListing(a.fs, dupesDir, root, files[1..]);
        var b := ProcessRoot(a.fs, dupesDir, root, files[1..]);
        if b.result.Success? {
          var here := if a.result.value.Some? then [a.result.value.value] else [];
          var bs := b.result.value;
          ListingCons(here, bs, root, files);
        }
      }
    }
  }

  lemma ListingCons(here: seq<Moved>, bs: seq<Moved>, root: string, files: seq<string>)
    requires |files| > 0 && FromListing(bs, root, files[1..])
    requires |here| <= 1 && (|here| == 1 ==> here[0].duplicate == Join(root, files[0]))
    ensures FromListing(here + bs, root, files)
  {
    var all := ListedPaths(root, files);
    assert ListedPaths(root, files[1..]) == all[1..];
    assert |here| == 1 ==> here[0].duplicate == all[0];
  }

  /** One step of `os.walk`: a folder and the names of the files in it. */
  datatype WalkStep = WalkStep(root: string, files: seq<string>)

  /** `os.path.join(base_directory, "dupes")`. */
  function DupesDir(base: string): string {
    Join(base, "dupes")
  }

  /** The folder is the dupes folder, compared as absolute paths. */
  predicate Skipped(root: string, base: string, cwd: string) {
    Scanner.AbsPath(root, cwd) == Scanner.AbsPath(DupesDir(base), cwd)
  }

  /** The outer `for` loop over the walk. */
  function ProcessWalk(fs: FileSystem, base: string, cwd: string, walk: seq<WalkStep>): (r: Outcome<seq<Moved>>)
    ensures r.fs.dirs == fs.dirs
    ensures |r.fs.files| == |fs.files|
    decreases |walk|
  {
    if |walk| == 0 then Outcome(fs, Success([]))
    else if Skipped(walk[0].root, base, cwd) then ProcessWalk(fs, base, cwd, walk[1..])
    else
      var a := ProcessRoot(fs, DupesDir(base), walk[0].root, walk[0].files);
      if a.result.Failure? then a
      else
        var b := ProcessWalk(a.fs, base, cwd, walk[1..]);
        Outcome(b.fs, if b.result.Failure? then b.result else Success(a.result.value + b.result.value))
  }

  /** `find_and_move_duplicates_single_folder`: create the dupes folder
      (`os.makedirs(..., exist_ok=True)` raises when a file has its name), then
      walk. Every file survives: the count of files never changes, so nothing
      is overwritten or lost. */
  function FindAndMove(fs: FileSystem, base: string, cwd: string, walk: seq<WalkStep>): (r: Outcome<seq<Moved>>)
    ensures DupesDir(base) in fs.files ==> r == Outcome(fs, Failure(FileExistsError))
    ensures DupesDir(base) !in fs.files ==> r.fs.dirs == fs.dirs + {DupesDir(base)}
    ensures |r.fs.files| == |fs.files|
  {
    var d := DupesDir(base);
    if d in fs.files then Outcome(fs, Failure(FileExistsError))
    else ProcessWalk(FileSystem(fs.files, fs.dirs + {d}), base, cwd, walk)
  }

  /** Folders that are the dupes folder are passed over: a walk of only such
      folders moves nothing and reports nothing. */
  lemma {:induction false} DupesFolderUntouched(fs: FileSystem, base: string, cwd: string, walk: seq<WalkStep>)
    requires forall k :: 0 <= k < |walk| ==> Skipped(walk[k].root, base, cwd)
    ensures ProcessWalk(fs, base, cwd, walk) == Outcome(fs, Success([]))
    decreases |walk|
  {
    if |walk| > 0 {
      assert Skipped(walk[0].root, base, cwd);
      DupesFolderUntouched(fs, base, cwd, walk[1..]);
    }
  }

  /** A folder without numbered names moves nothing. */
  lemma {:induction false} UnnumberedUntouched(fs: FileSystem, dupesDir: string, root: string, files: seq<string>)
    requires forall i :: 0 <= i < |files| ==> MatchNumbered(files[i]).None?
    ensures ProcessRoot(fs, dupesDir, root, files) == Outcome(fs, Success([]))
    decreases |files|
  {
    if |files| > 0 {
      assert MatchNumbered(files[0]).None?;
      UnnumberedUntouched(fs, dupesDir, root, files[1..]);
    }
  }
}
