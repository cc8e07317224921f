/** The database manager over an abstract catalogue: a table is a sequence of
    rows, the catalogue maps table names to tables. SQL text, connections,
    transactions and rollback are not modelled; a statement that the server
    would reject for any other reason enters as the flag `executeFails`. */
module Database {
  import opened Wrappers
  import opened Text

  /** A value bound to a placeholder. */
  datatype Value = Str(s: string) | Int(i: int) | Bool(b: bool) | Num(r: real)

  /** The keyword arguments of `insert`. */
  datatype InsertArgs = InsertArgs(
    filePath: string, fileDirectory: string, fileName: string, fileType: string,
    fileExtension: string, fileSize: int, blake3: string, hasHuman: bool,
    md5: Option<string>, sha256: Option<string>, sha512: Option<string>,
    dhash: Option<string>, phash: Option<string>, whash: Option<string>,
    chash: Option<string>, ahash: Option<string>, videoFingerprint: Option<string>,
    videoWidth: Option<int>, videoHeight: Option<int>, videoResolution: Option<string>,
    videoFps: Option<int>, videoLength: Option<real>,
    hasHumanScore: Option<real>, hasHumanCount: Option<int>)

  /** A stored row: its two unique keys and the columns it was inserted with. */
  datatype Row = Row(filePath: string, blake3: string, columns: seq<string>, values: seq<Value>)

  type Catalogue = map<string, seq<Row>>

  const FixedColumns: seq<string> :=
    ["file_path", "file_directory", "file_name", "file_type", "file_extension", "file_size", "blake3", "has_human"]

  const OptionalColumns: seq<string> :=
    ["md5", "sha256", "sha512", "dhash", "phash", "whash", "chash", "ahash", "video_fingerprint",
     "video_width", "video_height", "video_resolution", "video_fps", "video_length",
     "has_human_score", "has_human_count"]

  // ---------------------------------------------------------------------------
  // Column assembly
  // ---------------------------------------------------------------------------

  function StrOpt(o: Option<string>): Option<Value> {
    match o case Some(v) => Some(Str(v)) case None => None
  }

  function IntOpt(o: Option<int>): Option<Value> {
    match o case Some(v) => Some(Int(v)) case None => None
  }

  function NumOpt(o: Option<real>): Option<Value> {
    match o case Some(v) => Some(Num(v)) case None => None
  }

  /** `optional_fields`, in declared order. */
  function OptionalValues(a: InsertArgs): (r: seq<Option<Value>>)
    ensures |r| == |OptionalColumns|
  {
    [StrOpt(a.md5), StrOpt(a.sha256), StrOpt(a.sha512), StrOpt(a.dhash), StrOpt(a.phash),
     StrOpt(a.whash), StrOpt(a.chash), StrOpt(a.ahash), StrOpt(a.videoFingerprint),
     IntOpt(a.videoWidth), IntOpt(a.videoHeight), StrOpt(a.videoResolution), IntOpt(a.videoFps),
     NumOpt(a.videoLength), NumOpt(a.hasHumanScore), IntOpt(a.hasHumanCount)]
  }

  function FixedValues(a: InsertArgs): seq<Value> {
    [Str(a.filePath), Str(a.fileDirectory), Str(a.fileName), Str(a.fileType),
     Str(a.fileExtension), Int(a.fileSize), Str(a.blake3), Bool(a.hasHuman)]
  }

  /** The optional fields from index `k` on that are not `None`. */
  function Present(names: seq<string>, vals: seq<Option<Value>>, k: nat): (r: (seq<string>, seq<Value>))
    requires |names| == |vals| && k <= |names|
    ensures |r.0| == |r.1|
    ensures forall c :: c in r.0 <==> exists j :: k <= j < |names| && names[j] == c && vals[j].Some?
    ensures forall i :: 0 <= i < |r.0| ==>
      exists j :: k <= j < |names| && names[j] == r.0[i] && vals[j] == Some(r.1[i])
    decreases |names| - k
  {
    if k == |names| then ([], [])
    else
      var rest := Present(names, vals, k + 1);
      if vals[k].Some? then ([names[k]] + rest.0, [vals[k].value] + rest.1) else rest
  }

  lemma ColumnListsDisjoint()
    ensures forall c :: c in FixedColumns ==> c !in OptionalColumns
    ensures forall i, j :: 0 <= i < j < |OptionalColumns| ==> OptionalColumns[i] != OptionalColumns[j]
    ensures forall i, j :: 0 <= i < j < |FixedColumns| ==> FixedColumns[i] != FixedColumns[j]
  {
  }

  /** The fixed columns and values followed by the present optional ones. */
  function Assemble(fixedC: seq<string>, fixedV: seq<Value>, names: seq<string>, vals: seq<Option<Value>>)
    : (r: (seq<string>, seq<Value>))
    requires |fixedC| == |fixedV| && |names| == |vals|
    ensures |r.0| == |r.1| >= |fixedC|
    ensures r.0[..|fixedC|] == fixedC && r.1[..|fixedC|] == fixedV
    ensures forall i :: |fixedC| <= i < |r.0| ==>
      exists j :: 0 <= j < |names| && names[j] == r.0[i] && vals[j] == Some(r.1[i])
    ensures forall c :: c in r.0[|fixedC|..] <==> exists j :: 0 <= j < |names| && names[j] == c && vals[j].Some?
  {
    var opt := Present(names, vals, 0);
    var cols, vals' := fixedC + opt.0, fixedV + opt.1;
    assert cols[|fixedC|..] == opt.0;
    forall i | |fixedC| <= i < |cols|
      ensures exists j :: 0 <= j < |names| && names[j] == cols[i] && vals[j] == Some(vals'[i])
    {
      assert cols[i] == opt.0[i - |fixedC|] && vals'[i] == opt.1[i - |fixedC|];
    }
    (cols, vals')
  }

  /** The columns and values `insert` binds: the eight fixed ones in order,
      then the optional fields that are not `None`, each bound to the value
      given for it. */
  function Columns(a: InsertArgs): (r: (seq<string>, seq<Value>))
    ensures |r.0| == |r.1| >= 8
    ensures r.0[..8] == FixedColumns && r.1[..8] == FixedValues(a)
    ensures forall i :: 8 <= i < |r.0| ==>
      exists j :: 0 <= j < |OptionalColumns| && OptionalColumns[j] == r.0[i] && OptionalValues(a)[j] == Some(r.1[i])
    ensures forall c :: c in r.0[8..] <==>
      exists j :: 0 <= j < |OptionalColumns| && OptionalColumns[j] == c && OptionalValues(a)[j].Some?
  {
    Assemble(FixedColumns, FixedValues(a), OptionalColumns, OptionalValues(a))
  }

  /** With the optional names distinct and apart from the fixed ones, a name
      is bound exactly when its value is given. */
  lemma BoundIffGiven(fixedC: seq<string>, fixedV: seq<Value>, names: seq<string>, vals: seq<Option<Value>>, k: nat)
    requires |fixedC| == |fixedV| && |names| == |vals| && k < |names|
    requires names[k] !in fixedC
    requires forall i, j :: 0 <= i < j < |names| ==> names[i] != names[j]
    ensures names[k] in Assemble(fixedC, fixedV, names, vals).0 <==> vals[k].Some?
  {
    var cols := Assemble(fixedC, fixedV, names, vals).0;
    assert cols == cols[..|fixedC|] + cols[|fixedC|..];
    if names[k] in cols {
      assert names[k] in cols[|fixedC|..];
    }
  }

  /** Each optional field is bound exactly when it is not `None`. */
  lemma OptionalBoundIffGiven(a: InsertArgs, k: nat)
    requires k < |OptionalColumns|
    ensures OptionalColumns[k] in Columns(a).0 <==> OptionalValues(a)[k].Some?
  {
    ColumnListsDisjoint();
    BoundIffGiven(FixedColumns, FixedValues(a), OptionalColumns, OptionalValues(a), k);
  }

  /** The positions from `k` on whose optional value is given, in increasing
      order: the only strictly increasing enumeration of that set. */
  function GivenPositions(vals: seq<Option<Value>>, k: nat): (r: seq<nat>)
    requires k <= |vals|
    ensures forall i :: 0 <= i < |r| ==> k <= r[i] < |vals|
    ensures forall i, j :: 0 <= i < j < |r| ==> r[i] < r[j]
    ensures forall j: nat :: j in r <==> k <= j < |vals| && vals[j].Some?
    decreases |vals| - k
  {
    if k == |vals| then []
    else
      var rest := GivenPositions(vals, k + 1);
      if vals[k].Some? then [k] + rest else rest
  }

  /** The names and values at positions `idx`, in that order. */
  predicate Picks(names: seq<string>, vals: seq<Option<Value>>, idx: seq<nat>, p: (seq<string>, seq<Value>))
  {
    && |p.0| == |idx| && |p.1| == |idx|
    && forall i :: 0 <= i < |idx| ==>
         idx[i] < |names| && idx[i] < |vals| && p.0[i] == names[idx[i]] && Some(p.1[i]) == vals[idx[i]]
  }

  /** The present fields are the given positions' names and values, in order. */
  lemma {:induction false} PresentFollowsPositions(names: seq<string>, vals: seq<Option<Value>>, k: nat)
    requires |names| == |vals| && k <= |names|
    ensures Picks(names, vals, GivenPositions(vals, k), Present(names, vals, k))
    decreases |names| - k
  {
    if k < |names| {
      PresentFollowsPositions(names, vals, k + 1);
      if vals[k].Some? {
        PicksCons(names, vals, k, GivenPositions(vals, k + 1), Present(names, vals, k + 1));
      }
    }
  }

  /** Picking position `k` in front of picks keeps them picks. */
  lemma PicksCons(names: seq<string>, vals: seq<Option<Value>>, k: nat, idx: seq<nat>, rest: (seq<string>, seq<Value>))
    requires k < |names| == |vals| && vals[k].Some? && Picks(names, vals, idx, rest)
    ensures Picks(names, vals, [k] + idx, ([names[k]] + rest.0, [vals[k].value] + rest.1))
  {
    var p, idx' := ([names[k]] + rest.0, [vals[k].value] + rest.1), [k] + idx;
    forall i | 0 <= i < |idx'|
      ensures idx'[i] < |names| && idx'[i] < |vals| && p.0[i] == names[idx'[i]] && Some(p.1[i]) == vals[idx'[i]]
    {
      if i > 0 {
        assert idx'[i] == idx[i - 1] && p.0[i] == rest.0[i - 1] && p.1[i] == rest.1[i - 1];
      }
    }
  }

  /** After the eight fixed columns, `insert` binds exactly the given optional
      fields, in their declared order, each to its own value. */
  lemma ColumnsFollowDeclaredOrder(a: InsertArgs)
    ensures Columns(a).0[..8] == FixedColumns && Columns(a).1[..8] == FixedValues(a)
    ensures Picks(OptionalColumns, OptionalValues(a), GivenPositions(OptionalValues(a), 0), (Columns(a).0[8..], Columns(a).1[8..]))
  {
    var opt := Present(OptionalColumns, OptionalValues(a), 0);
    PresentFollowsPositions(OptionalColumns, OptionalValues(a), 0);
    assert Columns(a) == (FixedColumns + opt.0, FixedValues(a) + opt.1);
    assert Columns(a).0[8..] == opt.0 && Columns(a).1[8..] == opt.1;
  }

  /** Distinct fixed names, followed by distinct optional names picked at
      strictly increasing positions, repeat no name. */
  lemma {:induction false} PickedDistinct(fixedC: seq<string>, names: seq<string>, idx: seq<nat>, cols: seq<string>)
    requires forall i, j :: 0 <= i < j < |fixedC| ==> fixedC[i] != fixedC[j]
    requires forall i, j :: 0 <= i < j < |names| ==> names[i] != names[j]
    requires forall c :: c in fixedC ==> c !in names
    requires forall i, j :: 0 <= i < j < |idx| ==> idx[i] < idx[j]
    requires forall i :: 0 <= i < |idx| ==> idx[i] < |names|
    requires |cols| >= |fixedC| && cols[..|fixedC|] == fixedC
    requires |cols[|fixedC|..]| == |idx|
    requires forall i :: 0 <= i < |idx| ==> cols[|fixedC|..][i] == names[idx[i]]
    ensures forall i, j :: 0 <= i < j < |cols| ==> cols[i] != cols[j]
  {
    var n := |fixedC|;
    var tail := cols[n..];
    forall i, j | 0 <= i < j < |cols|
      ensures cols[i] != cols[j]
    {
      if j >= n {
        assert cols[j] == tail[j - n] == names[idx[j - n]];
        if i >= n {
          assert cols[i] == tail[i - n] == names[idx[i - n]];
          assert idx[i - n] < idx[j - n];
        } else {
          assert cols[i] == cols[..n][i] == fixedC[i];
          assert names[idx[j - n]] in names;
        }
      } else {
        assert cols[i] == cols[..n][i] == fixedC[i] && cols[j] == cols[..n][j] == fixedC[j];
      }
    }
  }

  /** No column is bound twice. */
  lemma ColumnsDistinct(a: InsertArgs)
    ensures forall i, j :: 0 <= i < j < |Columns(a).0| ==> Columns(a).0[i] != Columns(a).0[j]
  {
    var idx := GivenPositions(OptionalValues(a), 0);
    ColumnsFollowDeclaredOrder(a);
    ColumnListsDisjoint();
    PickedDistinct(FixedColumns, OptionalColumns, idx, Columns(a).0);
  }

  /** `", ".join(["?"] * n)`. */
  function Placeholders(n: nat): (r: string)
    ensures n == 0 ==> r == ""
    ensures n > 0 ==> |r| == 3 * n - 2
  {
    if n == 0 then "" else if n == 1 then "?" else Placeholders(n - 1) + ", ?"
  }

  /** The number of `?` marks in a string. */
  function Marks(s: string): nat {
    if |s| == 0 then 0 else Marks(s[..|s| - 1]) + (if s[|s| - 1] == '?' then 1 else 0)
  }

  lemma {:induction false} MarksAppend(s: string, t: string)
    ensures Marks(s + t) == Marks(s) + Marks(t)
    decreases |t|
  {
    if |t| == 0 {
      assert s + t == s;
    } else {
      assert (s + t)[..|s + t| - 1] == s + t[..|t| - 1];
      MarksAppend(s, t[..|t| - 1]);
    }
  }

  /** The statement has one placeholder per column. */
  lemma {:induction false} PlaceholderCount(n: nat)
    ensures Marks(Placeholders(n)) == n
  {
    if n > 1 {
      PlaceholderCount(n - 1);
      MarksAppend(Placeholders(n - 1), ", ?");
      assert Marks(", ?") == 1 by {
        assert ", ?"[..2] == ", " && ", "[..1] == "," && ","[..0] == "";
      }
    } else if n == 1 {
      assert "?"[..0] == "";
    }
  }

  // ---------------------------------------------------------------------------
  // Tables
  // ---------------------------------------------------------------------------

  /** Both unique constraints hold: no two rows share a path or a digest. */
  predicate UniqueKeys(rows: seq<Row>) {
    forall i, j :: 0 <= i < j < |rows| ==> rows[i].filePath != rows[j].filePath && rows[i].blake3 != rows[j].blake3
  }

  /** A row with this digest or this path is stored. */
  predicate Clashes(rows: seq<Row>, blake3: string, filePath: string) {
    exists i :: 0 <= i < |rows| && (rows[i].blake3 == blake3 || rows[i].filePath == filePath)
  }

  /** A required field is the empty string. */
  predicate MissingRequired(a: InsertArgs) {
    a.filePath == "" || a.fileName == "" || a.fileType == "" || a.blake3 == ""
  }

  /** `insert`: `False` with nothing changed when a required field is empty,
      when a stored row has the same digest or path, when the table does not
      exist, or when the statement fails; otherwise the row is appended. */
  function Insert(db: Catalogue, table: string, a: InsertArgs, executeFails: bool): (r: (bool, Catalogue))
    ensures !r.0 ==> r.1 == db
    ensures r.0 <==>
      && !MissingRequired(a)
      && table in db
      && !Clashes(db[table], a.blake3, a.filePath)
      && !executeFails
    ensures r.0 ==>
      && r.1 == db[table := db[table] + [Row(a.filePath, a.blake3, Columns(a).0, Columns(a).1)]]
  {
    if MissingRequired(a) then (false, db)
    else if table in db && Clashes(db[table], a.blake3, a.filePath) then (false, db)
    else if table !in db || executeFails then (false, db)
    else
      var cols := Columns(a);
      (true, db[table := db[table] + [Row(a.filePath, a.blake3, cols.0, cols.1)]])
  }

  /** `insert` keeps both keys unique in every table. */
  lemma InsertKeepsKeysUnique(db: Catalogue, table: string, a: InsertArgs, executeFails: bool)
    requires forall t :: t in db ==> UniqueKeys(db[t])
    ensures var db' := Insert(db, table, a, executeFails).1;
      forall t :: t in db' ==> UniqueKeys(db'[t])
  {
    var r := Insert(db, table, a, executeFails);
    if r.0 {
      var rows := db[table] + [Row(a.filePath, a.blake3, Columns(a).0, Columns(a).1)];
      forall i, j | 0 <= i < j < |rows|
        ensures rows[i].filePath != rows[j].filePath && rows[i].blake3 != rows[j].blake3
      {
        if j == |rows| - 1 {
          assert rows[i] == db[table][i];
        }
      }
    }
  }

  /** `exists_by_blake3`; querying a table that does not exist raises. */
  function ExistsByBlake3(db: Catalogue, table: string, blake3: string): (r: Result<bool>)
    ensures r.Failure? <==> table !in db
    ensures r.Success? ==> (r.value <==> exists i :: 0 <= i < |db[table]| && db[table][i].blake3 == blake3)
  {
    if table !in db then Failure(DatabaseError)
    else Success(exists i :: 0 <= i < |db[table]| && db[table][i].blake3 == blake3)
  }

  /** After a successful insert the digest is found, and a second insert of
      the same file is refused. */
  lemma InsertThenExists(db: Catalogue, table: string, a: InsertArgs, executeFails: bool)
    requires Insert(db, table, a, executeFails).0
    ensures ExistsByBlake3(Insert(db, table, a, executeFails).1, table, a.blake3) == Success(true)
    ensures !Insert(Insert(db, table, a, executeFails).1, table, a, false).0
  {
    var db': Catalogue := Insert(db, table, a, executeFails).1;
    var last := |db'[table]| - 1;
    assert db'[table][last].blake3 == a.blake3;
  }

  /** `create_table`: `False` with nothing changed when the table exists,
      otherwise `True` with a new empty table. */
  function CreateTable(db: Catalogue, table: string): (r: (bool, Catalogue))
    ensures r.0 <==> table !in db
    ensures !r.0 ==> r.1 == db
    ensures table in r.1 && r.1.Keys == db.Keys + {table}
    ensures r.0 ==> r.1[table] == []
    ensures forall t :: t in db && t != table ==> r.1[t] == db[t]
  {
    if table in db then (false, db) else (true, db[table := []])
  }

  /** `drop_table`: `DROP TABLE IF EXISTS`. */
  function DropTable(db: Catalogue, table: string): (r: Catalogue)
    ensures table !in r && r.Keys == db.Keys - {table}
    ensures forall t :: t in r ==> r[t] == db[t]
  {
    db - {table}
  }

  /** `reset_table`: afterwards the table exists and is empty, whether or not
      it existed before, and every other table is as it was. */
  function ResetTable(db: Catalogue, table: string): (r: Catalogue)
    ensures table in r && r[table] == []
    ensures r.Keys == db.Keys + {table}
    ensures forall t :: t in db && t != table ==> r[t] == db[t]
  {
    CreateTable(DropTable(db, table), table).1
  }

  /** A reset table accepts any complete row. */
  lemma InsertAfterReset(db: Catalogue, table: string, a: InsertArgs)
    requires !MissingRequired(a)
    ensures Insert(ResetTable(db, table), table, a, false).0
  {
  }
}
