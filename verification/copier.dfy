/** The copier: reading the (possibly deduplicated) scanner table, choosing
    each record's destination, and copying it there unless a file of equal or
    better name priority already sits at that path.

    The destination file system is a finite map from path to content digest.
    Whether the source exists, whether a removal or the copy succeeds and the
    stop flag are inputs. */
module Copier {
  import opened Wrappers
  import opened Text
  import opened Priority
  import opened Media
  import DedupeDb

  // ---------------------------------------------------------------------------
  // Which table, which records
  // ---------------------------------------------------------------------------

  /** `_deduce_table_name`: the table the copier reads for a dedupe option. */
  function DeduceTableName(option: string): (r: string)
    ensures r in ["tbl_scanner", "tbl_scanner_deduped_dhash", "tbl_scanner_deduped_phash", "tbl_scanner_deduped_dhash_phash"]
    ensures option !in ["dhash", "phash", "twophase"] ==> r == "tbl_scanner"
  {
    if option == "none" then "tbl_scanner"
    else if option == "dhash" then "tbl_scanner_deduped_dhash"
    else if option == "phash" then "tbl_scanner_deduped_phash"
    else if option == "twophase" then "tbl_scanner_deduped_dhash_phash"
    else "tbl_scanner"
  }

  /** The table the copier reads for `dhash` is the one the single-hash
      deduper writes by default for the table `tbl_scanner`. */
  lemma DHashTableIsDeduperDefault()
    ensures DeduceTableName("dhash") == "tbl_scanner" + "_deduped_" + DedupeDb.HashColumn.DHash.Name()
  {
    assert "tbl_scanner" + "_deduped_" + "dhash" == "tbl_scanner_deduped_dhash";
  }

  /** Likewise for `phash`. */
  lemma PHashTableIsDeduperDefault()
    ensures DeduceTableName("phash") == "tbl_scanner" + "_deduped_" + DedupeDb.HashColumn.PHash.Name()
  {
    assert "tbl_scanner" + "_deduped_" + "phash" == "tbl_scanner_deduped_phash";
  }

  /** The table the copier reads for `twophase` is the one the two-phase
      deduper writes by default for the table `tbl_scanner`. */
  lemma TwoPhaseTableIsDeduperDefault()
    ensures DeduceTableName("twophase") == "tbl_scanner" + "_deduped_dhash_phash"
  {
    assert "tbl_scanner" + "_deduped_dhash_phash" == "tbl_scanner_deduped_dhash_phash";
  }

  /** A row of the table as the query returns it. `isRepresentative` is `None`
      for the table without that column and for a NULL. */
  datatype DbRow = DbRow(filePath: string, fileType: string, isRepresentative: Option<bool>, hasHuman: bool)

  datatype MediaRecord = MediaRecord(filePath: string, fileType: string, isRepresentative: bool, hasHuman: bool)

  /** `fetch_media_records`: one record per row, in row order; without
      deduplication every record counts as representative, otherwise the
      column's truth value decides. */
  function FetchMediaRecords(option: string, rows: seq<DbRow>): (r: seq<MediaRecord>)
    ensures |r| == |rows|
    ensures forall i :: 0 <= i < |r| ==>
      && r[i].filePath == rows[i].filePath
      && r[i].fileType == rows[i].fileType
      && r[i].hasHuman == rows[i].hasHuman
    ensures option == "none" ==> forall i :: 0 <= i < |r| ==> r[i].isRepresentative
    ensures option != "none" ==> forall i :: 0 <= i < |r| ==>
      (r[i].isRepresentative <==> rows[i].isRepresentative == Some(true))
  {
    seq(|rows|, i requires 0 <= i < |rows| =>
      var row := rows[i];
      MediaRecord(row.filePath, row.fileType,
                  if option == "none" then true else row.isRepresentative == Some(true),
                  row.hasHuman))
  }

  // ---------------------------------------------------------------------------
  // File type and destination path
  // ---------------------------------------------------------------------------

  /** `_determine_file_type`: the extension decides; an unknown extension
      falls back to the table's type when that is image or video. */
  function DetermineFileType(filePath: string, dbFileType: string): (r: Option<string>)
    ensures r.Some? ==> r.value == "image" || r.value == "video"
    ensures r == Some("image") <==>
      || Lower(Extension(filePath)) in ImageExtensions
      || (Lower(Extension(filePath)) !in VideoExtensions && Lower(dbFileType) == "image")
    ensures r == Some("video") <==>
      || Lower(Extension(filePath)) in VideoExtensions
      || (Lower(Extension(filePath)) !in ImageExtensions && Lower(dbFileType) == "video")
  {
    var ext := Lower(Extension(filePath));
    ExtensionListsDisjoint();
    if ext in ImageExtensions then Some("image")
    else if ext in VideoExtensions then Some("video")
    else if Lower(dbFileType) in ["image", "video"] then Some(Lower(dbFileType))
    else None
  }

  function Min(a: int, b: int): int {
    if a <= b then a else b
  }

  /** The directories `_preserve_directory_structure` keeps: the last `depth`
      of them, or all when there are fewer. */
  function PreservedDirs(dirs: seq<string>, depth: int): (r: seq<string>)
    requires depth > 0
    ensures |r| == Min(depth, |dirs|)
    ensures r == dirs[|dirs| - |r|..]
  {
    if |dirs| <= depth then dirs else dirs[|dirs| - depth..]
  }

  /** Joins the directories onto `base` in order, passing over blank ones. */
  function JoinDirs(base: string, dirs: seq<string>): string
    decreases |dirs|
  {
    if |dirs| == 0 then base
    else
      var b := JoinDirs(base, dirs[..|dirs| - 1]);
      if NotBlank(dirs[|dirs| - 1]) then Join(b, dirs[|dirs| - 1]) else b
  }

  /** `_preserve_directory_structure`. */
  function PreserveDirectoryStructure(sourcePath: string, destBase: string, depth: int): string {
    if depth <= 0 then Join(destBase, Basename(sourcePath))
    else
      var parts := Split(NormPath(sourcePath), '/');
      var filename := parts[|parts| - 1];
      Join(JoinDirs(destBase, PreservedDirs(parts[..|parts| - 1], depth)), filename)
  }

  /** The destination keeps the source's file name, at every depth. */
  lemma PreserveKeepsName(sourcePath: string, destBase: string, depth: int)
    requires PlainName(Basename(sourcePath))
    ensures Basename(PreserveDirectoryStructure(sourcePath, destBase, depth)) == Basename(sourcePath)
  {
    var f := Basename(sourcePath);
    assert f[0] in f;
    if depth <= 0 {
      BasenameOfJoin(destBase, f);
    } else {
      var norm := NormPath(sourcePath);
      NormPathKeepsName(sourcePath);
      var parts := Split(norm, '/');
      SplitLast(norm, '/');
      assert parts[|parts| - 1] == f;
      BasenameOfJoin(JoinDirs(destBase, PreservedDirs(parts[..|parts| - 1], depth)), f);
    }
  }

  /** Appending text without a slash adds no path component. */
  lemma {:induction false} SplitAppendPlain(x: string, b: string)
    requires '/' !in b
    ensures |Split(x + b, '/')| == |Split(x, '/')|
  {
    LastIndexAfter(x, b, '/');
    var k := LastIndexOf(x, '/');
    if k >= 0 {
      assert (x + b)[..k] == x[..k];
    }
  }

  /** Joining a name without a slash adds at most one path component. */
  lemma JoinAddsOneComponent(a: string, b: string)
    requires '/' !in b
    ensures |Split(Join(a, b), '/')| <= |Split(a, '/')| + 1
  {
    if |a| == 0 || a[|a| - 1] == '/' {
      SplitAppendPlain(a, b);
    } else {
      var x := a + "/";
      assert Join(a, b) == x + b;
      SplitAppendPlain(x, b);
      assert LastIndexOf(x, '/') == |a|;
      assert x[..|a|] == a;
    }
  }

  /** Joining `n` slash-free directories adds at most `n` components. */
  lemma {:induction false} JoinDirsComponents(base: string, dirs: seq<string>)
    requires forall i :: 0 <= i < |dirs| ==> '/' !in dirs[i]
    ensures |Split(JoinDirs(base, dirs), '/')| <= |Split(base, '/')| + |dirs|
    decreases |dirs|
  {
    if |dirs| > 0 {
      JoinDirsComponents(base, dirs[..|dirs| - 1]);
      JoinAddsOneComponent(JoinDirs(base, dirs[..|dirs| - 1]), dirs[|dirs| - 1]);
    }
  }

  /** No more than `depth` source directories are preserved: the destination
      has at most `depth` components more than the base, plus the file name. */
  lemma PreserveDepthBound(sourcePath: string, destBase: string, depth: int)
    ensures |Split(PreserveDirectoryStructure(sourcePath, destBase, depth), '/')|
         <= |Split(destBase, '/')| + (if depth > 0 then depth else 0) + 1
  {
    if depth <= 0 {
      JoinAddsOneComponent(destBase, Basename(sourcePath));
    } else {
      var parts := Split(NormPath(sourcePath), '/');
      var kept := PreservedDirs(parts[..|parts| - 1], depth);
      assert forall i :: 0 <= i < |kept| ==> kept[i] == parts[|parts| - 1 - |kept| + i];
      JoinDirsComponents(destBase, kept);
      JoinAddsOneComponent(JoinDirs(destBase, kept), parts[|parts| - 1]);
    }
  }

  // ---------------------------------------------------------------------------
  // Copying
  // ---------------------------------------------------------------------------

  /** Paths of the destination file system and the content each holds. */
  type Files = map<string, string>

  /** Whether the removal of an existing destination and the copy succeed. */
  datatype CopyWorld = CopyWorld(removeOk: bool, copyOk: bool)

  /** `_copy_file`: an existing destination is replaced only by a source whose
      name has a strictly better priority; the result tells whether the
      content was copied. */
  function CopyFile(fs: Files, sourcePath: string, destPath: string, content: string, w: CopyWorld): (r: (bool, Files))
    ensures r.0 <==> w.copyOk && (destPath !in fs || (FilePriority(Basename(sourcePath)) < FilePriority(Basename(destPath)) && w.removeOk))
    ensures r.0 ==> destPath in r.1 && r.1[destPath] == content
    ensures forall p :: p != destPath ==> (p in r.1 <==> p in fs) && (p in fs ==> r.1[p] == fs[p])
    ensures !r.0 && destPath in r.1 ==> destPath in fs && r.1[destPath] == fs[destPath]
    ensures destPath in fs && destPath !in r.1 ==> FilePriority(Basename(sourcePath)) < FilePriority(Basename(destPath))
    ensures destPath in fs && FilePriority(Basename(destPath)) <= FilePriority(Basename(sourcePath)) ==> r == (false, fs)
  {
    if destPath in fs then
      if FilePriority(Basename(sourcePath)) < FilePriority(Basename(destPath)) then
        if !w.removeOk then (false, fs)
        else
          var fs1 := fs - {destPath};
          if w.copyOk then (true, fs1[destPath := content]) else (false, fs1)
      else (false, fs)
    else if w.copyOk then (true, fs[destPath := content]) else (false, fs)
  }

  /** The copier's settings. */
  datatype Settings = Settings(imageDest: string, videoDest: string, depth: int, humanOnly: bool)

  /** The destination of a record of the given type. */
  function Destination(rec: MediaRecord, s: Settings, fileType: string): string {
    PreserveDirectoryStructure(rec.filePath, if fileType == "image" then s.imageDest else s.videoDest, s.depth)
  }

  /** The filters of `_worker_copy_file`, in order: the stop flag, a missing
      file, a non-representative record, an undetermined type, and an image
      without a human in human-only mode. */
  predicate Filtered(rec: MediaRecord, s: Settings, stop: bool, isFile: bool) {
    || stop || !isFile || !rec.isRepresentative
    || DetermineFileType(rec.filePath, rec.fileType).None?
    || (DetermineFileType(rec.filePath, rec.fileType) == Some("image") && s.humanOnly && !rec.hasHuman)
  }

  /** `_worker_copy_file`: a filtered record is not copied; any other is copied
      to its destination by `_copy_file`. */
  function WorkerCopyFile(rec: MediaRecord, s: Settings, stop: bool, isFile: bool, fs: Files, content: string, w: CopyWorld)
    : (r: (bool, Files))
    ensures Filtered(rec, s, stop, isFile) ==> r == (false, fs)
    ensures r.0 ==> !Filtered(rec, s, stop, isFile)
    ensures !Filtered(rec, s, stop, isFile) ==>
      r == CopyFile(fs, rec.filePath, Destination(rec, s, DetermineFileType(rec.filePath, rec.fileType).value), content, w)
  {
    if stop || !isFile || !rec.isRepresentative then (false, fs)
    else
      match DetermineFileType(rec.filePath, rec.fileType)
      case None => (false, fs)
      case Some(t) =>
        if t == "image" && s.humanOnly && !rec.hasHuman then (false, fs)
        else CopyFile(fs, rec.filePath, Destination(rec, s, t), content, w)
  }

  /** Since the destination keeps the source's name, the two priorities are
      equal and a worker never replaces a file already at the destination. */
  lemma WorkerNeverReplaces(rec: MediaRecord, s: Settings, stop: bool, isFile: bool, fs: Files, content: string, w: CopyWorld)
    requires PlainName(Basename(rec.filePath))
    requires !Filtered(rec, s, stop, isFile)
    requires Destination(rec, s, DetermineFileType(rec.filePath, rec.fileType).value) in fs
    ensures WorkerCopyFile(rec, s, stop, isFile, fs, content, w) == (false, fs)
  {
    var t := DetermineFileType(rec.filePath, rec.fileType).value;
    PreserveKeepsName(rec.filePath, if t == "image" then s.imageDest else s.videoDest, s.depth);
  }

  /** Videos are never subject to the human-only filter. */
  lemma VideosIgnoreHumanOnly(rec: MediaRecord, s: Settings, stop: bool, isFile: bool, fs: Files, content: string, w: CopyWorld)
    requires DetermineFileType(rec.filePath, rec.fileType) == Some("video")
    ensures WorkerCopyFile(rec, s, stop, isFile, fs, content, w)
         == WorkerCopyFile(rec, s.(humanOnly := !s.humanOnly), stop, isFile, fs, content, w)
  {
  }
}
