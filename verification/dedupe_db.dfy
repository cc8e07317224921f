/** The database deduper: near-duplicate clustering of the rows of a scanner
    table by a hash column, one representative per cluster, and the
    `is_representative` flag written to the deduplicated copy of the table.

    A row is kept as a value; rows are referred to by their position in the
    table, so that two rows equal in every column stay distinct, as they do in
    the Python lists. The table's `file_path` column is unique. */
module DedupeDb {
  import opened Wrappers
  import opened Text
  import opened Components

  // ---------------------------------------------------------------------------
  // Rows and hash columns
  // ---------------------------------------------------------------------------

  /** The perceptual-hash columns of a scanner table. */
  datatype HashColumn = AHash | DHash | PHash | WHash | CHash {
    function Name(): string {
      match this
      case AHash => "ahash"
      case DHash => "dhash"
      case PHash => "phash"
      case WHash => "whash"
      case CHash => "chash"
    }
  }

  /** The columns of a scanner row the deduper reads. `date` counts from
      `datetime.min`; `None` is a date that is not a datetime and does not
      parse. */
  datatype MediaRow = MediaRow(
    path: string,
    name: string,
    directory: string,
    fileType: string,
    size: Option<int>,
    date: Option<nat>,
    ahash: Option<string>,
    dhash: Option<string>,
    phash: Option<string>,
    whash: Option<string>,
    chash: Option<string>)

  function HashOf(r: MediaRow, col: HashColumn): Option<string> {
    match col
    case AHash => r.ahash
    case DHash => r.dhash
    case PHash => r.phash
    case WHash => r.whash
    case CHash => r.chash
  }

  /** The hash is not NULL and not blank after stripping. */
  predicate HasHash(r: MediaRow, col: HashColumn) {
    HashOf(r, col).Some? && NotBlank(HashOf(r, col).value)
  }

  /** `file_type.lower().startswith("image")`. */
  predicate IsImageRow(r: MediaRow) {
    StartsWith(Lower(r.fileType), "image")
  }

  /** `file_path` is a key of the table. */
  predicate UniquePaths(rows: seq<MediaRow>) {
    forall i, j :: 0 <= i < j < |rows| ==> rows[i].path != rows[j].path
  }

  // ---------------------------------------------------------------------------
  // Distance between hash strings
  // ---------------------------------------------------------------------------

  function Min(a: int, b: int): int {
    if a <= b then a else b
  }

  /** The number of positions among the first `min(|a|, |b|)` where the two
      strings differ. */
  function Dist(a: string, b: string): (d: nat)
    ensures d <= Min(|a|, |b|)
  {
    if |a| == 0 || |b| == 0 then 0
    else (if a[0] != b[0] then 1 else 0) + Dist(a[1..], b[1..])
  }

  lemma {:induction false} DistSymmetric(a: string, b: string)
    ensures Dist(a, b) == Dist(b, a)
  {
    if |a| > 0 && |b| > 0 {
      DistSymmetric(a[1..], b[1..]);
    }
  }

  /** The distance is 0 exactly when the shorter string is a prefix of the
      longer one; in particular a string is at distance 0 from itself. */
  lemma {:induction false} DistZeroIff(a: string, b: string)
    ensures Dist(a, b) == 0 <==> a[..Min(|a|, |b|)] == b[..Min(|a|, |b|)]
  {
    var m := Min(|a|, |b|);
    if |a| > 0 && |b| > 0 {
      DistZeroIff(a[1..], b[1..]);
      assert a[..m] == [a[0]] + a[1..][..m - 1];
      assert b[..m] == [b[0]] + b[1..][..m - 1];
      if a[..m] == b[..m] {
        assert a[0] == a[..m][0] == b[..m][0] == b[0];
        assert a[1..][..m - 1] == a[..m][1..] == b[..m][1..] == b[1..][..m - 1];
      }
    }
  }

  /** Two rows are joined by an edge: both carry the hash and their distance
      is within the threshold. */
  predicate Close(a: MediaRow, b: MediaRow, col: HashColumn, threshold: int) {
    HasHash(a, col) && HasHash(b, col) && Dist(HashOf(a, col).value, HashOf(b, col).value) <= threshold
  }

  lemma CloseSymmetric(a: MediaRow, b: MediaRow, col: HashColumn, threshold: int)
    ensures Close(a, b, col, threshold) <==> Close(b, a, col, threshold)
  {
    if HasHash(a, col) && HasHash(b, col) {
      DistSymmetric(HashOf(a, col).value, HashOf(b, col).value);
    }
  }

  // ---------------------------------------------------------------------------
  // Positions
  // ---------------------------------------------------------------------------

  /** Every position is a row of a table with `n` rows. */
  predicate InRange(ps: seq<nat>, n: nat) {
    forall i :: 0 <= i < |ps| ==> ps[i] < n
  }

  /** Non-empty clusters of rows of a table with `n` rows. */
  predicate Clustered(cs: seq<seq<nat>>, n: nat) {
    forall k :: 0 <= k < |cs| ==> |cs[k]| > 0 && InRange(cs[k], n)
  }

  predicate Increasing(s: seq<nat>) {
    forall i, j :: 0 <= i < j < |s| ==> s[i] < s[j]
  }

  /** The positions `p < n` that satisfy `keep`, in increasing order. */
  function PositionsWhere(n: nat, keep: nat -> bool): (r: seq<nat>)
    ensures forall p: nat :: p in r <==> p < n && keep(p)
    ensures Increasing(r)
  {
    if n == 0 then []
    else
      var front := PositionsWhere(n - 1, keep);
      assert forall i :: 0 <= i < |front| ==> front[i] in front;
      front + (if keep(n - 1) then [n - 1] else [])
  }

  /** The positions of `ps` whose row carries the hash, in the order of `ps`. */
  function WithHash(rows: seq<MediaRow>, ps: seq<nat>, col: HashColumn): (r: seq<nat>)
    requires InRange(ps, |rows|)
    ensures forall p :: p in r <==> p in ps && HasHash(rows[p], col)
    ensures InRange(r, |rows|)
    ensures Distinct(ps) ==> Distinct(r)
  {
    if |ps| == 0 then []
    else
      var front := WithHash(rows, ps[..|ps| - 1], col);
      var last := ps[|ps| - 1];
      front + (if HasHash(rows[last], col) then [last] else [])
  }

  /** Filtering keeps the relative order of what it keeps. */
  lemma {:induction false} WithHashKeepsOrder(rows: seq<MediaRow>, ps: seq<nat>, col: HashColumn, a: nat, b: nat)
    requires InRange(ps, |rows|)
    requires Distinct(ps)
    requires a in WithHash(rows, ps, col) && b in WithHash(rows, ps, col)
    ensures Pos(WithHash(rows, ps, col), a) < Pos(WithHash(rows, ps, col), b) <==> Pos(ps, a) < Pos(ps, b)
    decreases |ps|
  {
    var last := ps[|ps| - 1];
    if a != last && b != last {
      var front := ps[..|ps| - 1];
      DropLast(rows, ps, col, a, b);
      WithHashKeepsOrder(rows, front, col, a, b);
      OrderSurvivesAppend(WithHash(rows, front, col), front, last, HasHash(rows[last], col), a, b);
    } else if a == last && b != last {
      LastComesLast(rows, ps, col, b);
    } else if a != last && b == last {
      LastComesLast(rows, ps, col, a);
    }
  }

  /** Two kept positions other than the last one of `ps` are kept from the
      positions before it. */
  lemma DropLast(rows: seq<MediaRow>, ps: seq<nat>, col: HashColumn, a: nat, b: nat)
    requires InRange(ps, |rows|) && Distinct(ps) && |ps| > 0
    requires a in WithHash(rows, ps, col) && b in WithHash(rows, ps, col)
    requires a != ps[|ps| - 1] && b != ps[|ps| - 1]
    ensures var front := ps[..|ps| - 1];
      && ps == front + [ps[|ps| - 1]] && InRange(front, |rows|) && Distinct(front)
      && a in front && b in front
      && a in WithHash(rows, front, col) && b in WithHash(rows, front, col)
      && WithHash(rows, ps, col)
         == WithHash(rows, front, col) + (if HasHash(rows[ps[|ps| - 1]], col) then [ps[|ps| - 1]] else [])
  {
    FrontOf(ps, |rows|);
  }

  /** Dropping the last position keeps the positions in range and distinct. */
  lemma FrontOf(ps: seq<nat>, n: nat)
    requires InRange(ps, n) && Distinct(ps) && |ps| > 0
    ensures var front := ps[..|ps| - 1];
      ps == front + [ps[|ps| - 1]] && InRange(front, n) && Distinct(front) && ps[|ps| - 1] !in front
  {
    var front := ps[..|ps| - 1];
    assert ps == front + [ps[|ps| - 1]];
  }

  /** Appending one element, to the filtered sequence or not, keeps the
      relative order of two earlier elements on both sides. */
  lemma OrderSurvivesAppend(rf: seq<nat>, front: seq<nat>, last: nat, kept: bool, a: nat, b: nat)
    requires a in rf && b in rf && a in front && b in front
    requires Pos(rf, a) < Pos(rf, b) <==> Pos(front, a) < Pos(front, b)
    ensures var r := rf + (if kept then [last] else []);
      Pos(r, a) < Pos(r, b) <==> Pos(front + [last], a) < Pos(front + [last], b)
  {
    PosAppendOther(front, last, a);
    PosAppendOther(front, last, b);
    if kept {
      PosAppendOther(rf, last, a);
      PosAppendOther(rf, last, b);
    } else {
      assert rf + [] == rf;
    }
  }

  /** The last position of `ps`, when kept, comes after every other kept
      position, both in `ps` and in the filtered sequence. */
  lemma LastComesLast(rows: seq<MediaRow>, ps: seq<nat>, col: HashColumn, b: nat)
    requires InRange(ps, |rows|) && Distinct(ps) && |ps| > 0
    requires b in WithHash(rows, ps, col) && b != ps[|ps| - 1] && ps[|ps| - 1] in WithHash(rows, ps, col)
    ensures Pos(ps, b) < Pos(ps, ps[|ps| - 1])
    ensures Pos(WithHash(rows, ps, col), b) < Pos(WithHash(rows, ps, col), ps[|ps| - 1])
  {
    var front := ps[..|ps| - 1];
    var last := ps[|ps| - 1];
    assert ps == front + [last];
    var rf := WithHash(rows, front, col);
    assert Distinct(front);
    assert WithHash(rows, ps, col) == rf + [last];
    assert b in front && b in rf && last !in front && last !in rf;
    AppendedComesLast(front, last, b);
    AppendedComesLast(rf, last, b);
  }

  /** An element appended to a sequence that lacked it comes after every
      element already there. */
  lemma AppendedComesLast(s: seq<nat>, x: nat, y: nat)
    requires y in s && x !in s
    ensures Pos(s + [x], y) < Pos(s + [x], x)
  {
    PosAppendOther(s, x, y);
    PosAppendNew(s, x);
  }

  lemma PosAppendOther<T>(s: seq<T>, x: T, y: T)
    requires y in s
    ensures Pos(s + [x], y) == Pos(s, y)
  {
    assert (s + [x])[Pos(s, y)] == y;
  }

  lemma PosAppendNew<T>(s: seq<T>, x: T)
    requires x !in s
    ensures Pos(s + [x], x) == |s|
  {
    assert (s + [x])[|s|] == x;
  }

  // ---------------------------------------------------------------------------
  // Clustering
  // ---------------------------------------------------------------------------

  /** The edge relation of the clustering over positions. */
  predicate Near(rows: seq<MediaRow>, col: HashColumn, threshold: int, p: nat, q: nat) {
    p < |rows| && q < |rows| && Close(rows[p], rows[q], col, threshold)
  }

  /** The member at index `m` of a cluster is close to an earlier member. */
  predicate NearEarlier(rows: seq<MediaRow>, col: HashColumn, threshold: int, c: seq<nat>, m: int)
    requires 0 <= m < |c|
  {
    exists j :: 0 <= j < m && Near(rows, col, threshold, c[j], c[m])
  }

  /** Over distinct nodes, the adjacency built from `Near` has an edge between
      two different nodes exactly when they are close. */
  lemma EdgeIffClose(rows: seq<MediaRow>, col: HashColumn, threshold: int, valid: seq<nat>,
                     near: (nat, nat) -> bool, adj: map<nat, seq<nat>>, p: nat, q: nat)
    requires Distinct(valid) && InRange(valid, |rows|)
    requires forall a: nat, b: nat :: near(a, b) == Near(rows, col, threshold, a, b)
    requires forall a, b :: a in adj ==> (b in adj[a] <==> Linked(valid, near, a, b))
    requires p in valid && q in valid && p in adj
    ensures Edge(adj, p, q) <==> p != q && Close(rows[p], rows[q], col, threshold)
  {
    CloseSymmetric(rows[p], rows[q], col, threshold);
    if Edge(adj, p, q) {
      var i, j :| 0 <= i < j < |valid| && Ends(valid, near, i, j, p, q);
    }
    if p != q && Close(rows[p], rows[q], col, threshold) {
      var i, j := Pos(valid, p), Pos(valid, q);
      if i < j {
        assert Ends(valid, near, i, j, p, q);
      } else {
        assert Ends(valid, near, j, i, p, q);
      }
    }
  }

  /** What `_cluster_by_hash` promises of its clusters `cs` of the positions
      `ps`: they hold exactly the positions whose row carries the hash, each
      is non-empty and repeats no position, no two share a position, a row
      near a member belongs to the member's cluster, every member after the
      first is near an earlier one, each cluster starts with its earliest
      member in `ps`, and the clusters start in the order of `ps`. */
  ghost predicate PositionClusters(rows: seq<MediaRow>, ps: seq<nat>, col: HashColumn, threshold: int, cs: seq<seq<nat>>)
    requires InRange(ps, |rows|)
  {
    PositionPartition(rows, ps, col, cs) && PositionLinks(rows, ps, col, threshold, cs)
  }

  /** Every clustered position is one of `ps` whose row carries the hash. */
  predicate ClusteredWithHash(rows: seq<MediaRow>, ps: seq<nat>, col: HashColumn, cs: seq<seq<nat>>) {
    forall k: int, p: nat :: 0 <= k < |cs| && p in cs[k] ==> p in ps && p < |rows| && HasHash(rows[p], col)
  }

  /** The clusters split the positions whose row carries the hash. */
  ghost predicate PositionPartition(rows: seq<MediaRow>, ps: seq<nat>, col: HashColumn, cs: seq<seq<nat>>)
    requires InRange(ps, |rows|)
  {
    && ClusteredWithHash(rows, ps, col, cs)
    && (forall p: nat :: p in ps && HasHash(rows[p], col) ==> exists k :: 0 <= k < |cs| && p in cs[k])
    && (forall k :: 0 <= k < |cs| ==> |cs[k]| > 0 && Distinct(cs[k]))
    && Disjoint(cs)
  }

  /** The clusters are closed under nearness, chained, and in seed order. */
  ghost predicate PositionLinks(rows: seq<MediaRow>, ps: seq<nat>, col: HashColumn, threshold: int, cs: seq<seq<nat>>)
    requires InRange(ps, |rows|)
  {
    && (forall k :: 0 <= k < |cs| ==> |cs[k]| > 0)
    && (forall k: int, p: nat, q: nat :: 0 <= k < |cs| && p in cs[k] && q in ps && Near(rows, col, threshold, p, q) ==> q in cs[k])
    && (forall k, m :: 0 <= k < |cs| && 0 < m < |cs[k]| ==> NearEarlier(rows, col, threshold, cs[k], m))
    && (forall k: int, x: nat :: 0 <= k < |cs| && x in cs[k] ==> Pos(ps, cs[k][0]) <= Pos(ps, x))
    && (forall a, b :: 0 <= a < b < |cs| ==> Pos(ps, cs[a][0]) < Pos(ps, cs[b][0]))
  }

  /** `_cluster_by_hash`: the connected components, under `Close`, of the rows
      at positions `ps` that carry the hash, found by breadth-first search in
      the order of `ps`. */
  method ClusterPositions(rows: seq<MediaRow>, ps: seq<nat>, col: HashColumn, threshold: int)
      returns (cs: seq<seq<nat>>)
    requires InRange(ps, |rows|) && Distinct(ps)
    ensures PositionClusters(rows, ps, col, threshold, cs)
  {
    var valid := WithHash(rows, ps, col);
    var near := (p: nat, q: nat) => Near(rows, col, threshold, p, q);
    var adj := BuildAdjacency(valid, near);
    cs := ConnectedComponents(valid, adj);
    ComponentsArePositionClusters(rows, ps, col, threshold, near, adj, cs);
  }

  /** The breadth-first components of the nearness graph over the positions
      with the hash are what `_cluster_by_hash` promises. */
  lemma ComponentsArePositionClusters(rows: seq<MediaRow>, ps: seq<nat>, col: HashColumn, threshold: int,
                                      near: (nat, nat) -> bool, adj: map<nat, seq<nat>>, cs: seq<seq<nat>>)
    requires InRange(ps, |rows|) && Distinct(ps)
    requires forall a: nat, b: nat :: near(a, b) == Near(rows, col, threshold, a, b)
    requires adj.Keys == Elems(WithHash(rows, ps, col))
    requires forall a, b :: a in adj ==> (b in adj[a] <==> Linked(WithHash(rows, ps, col), near, a, b))
    requires forall p :: p in WithHash(rows, ps, col) <==> exists k :: 0 <= k < |cs| && p in cs[k]
    requires forall k :: 0 <= k < |cs| ==> Component(cs[k], adj) && Elems(cs[k]) <= Elems(WithHash(rows, ps, col))
    requires Disjoint(cs)
    requires SeedOrdered(WithHash(rows, ps, col), cs)
    ensures PositionClusters(rows, ps, col, threshold, cs)
  {
    ComponentsPartition(rows, ps, col, adj, cs);
    ComponentsLinked(rows, ps, col, threshold, near, adj, cs);
  }

  /** The components are closed under nearness, chained, and in seed order. */
  lemma ComponentsLinked(rows: seq<MediaRow>, ps: seq<nat>, col: HashColumn, threshold: int,
                         near: (nat, nat) -> bool, adj: map<nat, seq<nat>>, cs: seq<seq<nat>>)
    requires InRange(ps, |rows|) && Distinct(ps)
    requires forall a: nat, b: nat :: near(a, b) == Near(rows, col, threshold, a, b)
    requires adj.Keys == Elems(WithHash(rows, ps, col))
    requires forall a, b :: a in adj ==> (b in adj[a] <==> Linked(WithHash(rows, ps, col), near, a, b))
    requires forall p :: p in WithHash(rows, ps, col) <==> exists k :: 0 <= k < |cs| && p in cs[k]
    requires forall k :: 0 <= k < |cs| ==> Component(cs[k], adj)
    requires SeedOrdered(WithHash(rows, ps, col), cs)
    ensures PositionLinks(rows, ps, col, threshold, cs)
  {
    var valid := WithHash(rows, ps, col);
    ComponentsAreClosed(rows, col, threshold, valid, near, adj, cs);
    ComponentsAreConnected(rows, col, threshold, valid, near, adj, cs);
    ComponentsInOrder(rows, ps, col, cs);
  }

  /** The components split the positions with the hash. */
  lemma ComponentsPartition(rows: seq<MediaRow>, ps: seq<nat>, col: HashColumn, adj: map<nat, seq<nat>>,
                            cs: seq<seq<nat>>)
    requires InRange(ps, |rows|)
    requires forall p :: p in WithHash(rows, ps, col) <==> exists k :: 0 <= k < |cs| && p in cs[k]
    requires forall k :: 0 <= k < |cs| ==> Component(cs[k], adj)
    requires Disjoint(cs)
    ensures PositionPartition(rows, ps, col, cs)
  {
    ComponentMembers(rows, ps, col, cs);
    assert forall k :: 0 <= k < |cs| ==> |cs[k]| > 0 && Distinct(cs[k]);
  }

  /** A member of a component is a position with the hash. */
  lemma ComponentMembers(rows: seq<MediaRow>, ps: seq<nat>, col: HashColumn, cs: seq<seq<nat>>)
    requires InRange(ps, |rows|)
    requires forall p :: p in WithHash(rows, ps, col) <==> exists k :: 0 <= k < |cs| && p in cs[k]
    ensures ClusteredWithHash(rows, ps, col, cs)
  {
    var valid := WithHash(rows, ps, col);
    forall k: int, p: nat | 0 <= k < |cs| && p in cs[k] ensures p in ps && p < |rows| && HasHash(rows[p], col) {
      assert p in valid;
    }
  }

  /** Every row close to a member of a component is in that component. */
  lemma ComponentsAreClosed(rows: seq<MediaRow>, col: HashColumn, threshold: int, valid: seq<nat>,
                            near: (nat, nat) -> bool, adj: map<nat, seq<nat>>, cs: seq<seq<nat>>)
    requires Distinct(valid) && InRange(valid, |rows|)
    requires forall a: nat, b: nat :: near(a, b) == Near(rows, col, threshold, a, b)
    requires adj.Keys == Elems(valid)
    requires forall a, b :: a in adj ==> (b in adj[a] <==> Linked(valid, near, a, b))
    requires forall p :: p in valid <==> exists k :: 0 <= k < |cs| && p in cs[k]
    requires forall k :: 0 <= k < |cs| ==> ClosedUnder(cs[k], adj)
    requires forall p :: p in valid ==> HasHash(rows[p], col)
    ensures forall k: int, p: nat, q: nat :: 0 <= k < |cs| && p in cs[k] && q in valid && Near(rows, col, threshold, p, q) ==> q in cs[k]
  {
    forall k: int, p: nat, q: nat | 0 <= k < |cs| && p in cs[k] && q in valid && Near(rows, col, threshold, p, q)
      ensures q in cs[k]
    {
      if p != q {
        EdgeIffClose(rows, col, threshold, valid, near, adj, p, q);
      }
    }
  }

  /** Every member of a component after the first is close to an earlier
      member. */
  lemma ComponentsAreConnected(rows: seq<MediaRow>, col: HashColumn, threshold: int, valid: seq<nat>,
                               near: (nat, nat) -> bool, adj: map<nat, seq<nat>>, cs: seq<seq<nat>>)
    requires Distinct(valid) && InRange(valid, |rows|)
    requires forall a: nat, b: nat :: near(a, b) == Near(rows, col, threshold, a, b)
    requires adj.Keys == Elems(valid)
    requires forall a, b :: a in adj ==> (b in adj[a] <==> Linked(valid, near, a, b))
    requires forall p :: p in valid <==> exists k :: 0 <= k < |cs| && p in cs[k]
    requires forall k :: 0 <= k < |cs| ==> Discovered(cs[k], adj)
    ensures forall k, m :: 0 <= k < |cs| && 0 < m < |cs[k]| ==> NearEarlier(rows, col, threshold, cs[k], m)
  {
    forall k, m | 0 <= k < |cs| && 0 < m < |cs[k]|
      ensures NearEarlier(rows, col, threshold, cs[k], m)
    {
      assert HasParent(cs[k], adj, m);
      var j :| 0 <= j < m && Edge(adj, cs[k][j], cs[k][m]);
      assert cs[k][j] in valid && cs[k][m] in valid;
      EdgeIffClose(rows, col, threshold, valid, near, adj, cs[k][j], cs[k][m]);
      assert Near(rows, col, threshold, cs[k][j], cs[k][m]);
    }
  }

  /** The seed order over the kept positions is the seed order over `ps`. */
  lemma ComponentsInOrder(rows: seq<MediaRow>, ps: seq<nat>, col: HashColumn, cs: seq<seq<nat>>)
    requires InRange(ps, |rows|) && Distinct(ps)
    requires forall p :: p in WithHash(rows, ps, col) <==> exists k :: 0 <= k < |cs| && p in cs[k]
    requires forall k :: 0 <= k < |cs| ==> |cs[k]| > 0
    requires SeedOrdered(WithHash(rows, ps, col), cs)
    ensures forall k: int, x: nat :: 0 <= k < |cs| && x in cs[k] ==> Pos(ps, cs[k][0]) <= Pos(ps, x)
    ensures forall a, b :: 0 <= a < b < |cs| ==> Pos(ps, cs[a][0]) < Pos(ps, cs[b][0])
  {
    var valid := WithHash(rows, ps, col);
    forall k: int, x: nat | 0 <= k < |cs| && x in cs[k] ensures Pos(ps, cs[k][0]) <= Pos(ps, x) {
      assert cs[k][0] in cs[k];
      OrderCarries(rows, ps, col, cs[k][0], x);
    }
    forall a, b | 0 <= a < b < |cs| ensures Pos(ps, cs[a][0]) < Pos(ps, cs[b][0]) {
      assert cs[a][0] in cs[a] && cs[b][0] in cs[b];
      OrderCarries(rows, ps, col, cs[a][0], cs[b][0]);
    }
  }

  /** `WithHashKeepsOrder`, for both the strict and the non-strict order. */
  lemma OrderCarries(rows: seq<MediaRow>, ps: seq<nat>, col: HashColumn, a: nat, b: nat)
    requires InRange(ps, |rows|) && Distinct(ps)
    requires a in WithHash(rows, ps, col) && b in WithHash(rows, ps, col)
    ensures Pos(WithHash(rows, ps, col), a) <= Pos(WithHash(rows, ps, col), b) ==> Pos(ps, a) <= Pos(ps, b)
    ensures Pos(WithHash(rows, ps, col), a) < Pos(WithHash(rows, ps, col), b) ==> Pos(ps, a) < Pos(ps, b)
  {
    if a != b {
      WithHashKeepsOrder(rows, ps, col, a, b);
      WithHashKeepsOrder(rows, ps, col, b, a);
    }
  }

  // ---------------------------------------------------------------------------
  // The representative of a cluster
  // ---------------------------------------------------------------------------

  /** `re.search(r'_\w+-\w+_', name)`: an Instagram-style name. */
  predicate InstagramStyle(name: string) {
    exists a, m, b ::
      && 0 <= a && a + 1 < m && m + 1 < b < |name|
      && name[a] == '_' && name[m] == '-' && name[b] == '_'
      && AllWord(name[a + 1..m]) && AllWord(name[m + 1..b])
  }

  /** `re.search(r'\(\d+\)', name)`: a copy number in parentheses. */
  predicate ParenNumber(name: string) {
    exists a, b :: 0 <= a && a + 1 < b < |name| && name[a] == '(' && name[b] == ')' && AllDigits(name[a + 1..b])
  }

  /** `datetime.min`, the date of a row whose date is missing. */
  const DateMin: nat := 0

  datatype Score = Score(instagram: int, noParen: int, size: int, date: int)

  /** `_get_representative_score`. */
  function ScoreOf(r: MediaRow): Score {
    Score(
      if InstagramStyle(r.name) then 1 else 0,
      if ParenNumber(r.name) then 0 else 1,
      r.size.GetOr(0),
      r.date.GetOr(DateMin))
  }

  /** Python's tuple `<`: lexicographic. */
  predicate Less(a: Score, b: Score) {
    || a.instagram < b.instagram
    || (a.instagram == b.instagram && a.noParen < b.noParen)
    || (a.instagram == b.instagram && a.noParen == b.noParen && a.size < b.size)
    || (a.instagram == b.instagram && a.noParen == b.noParen && a.size == b.size && a.date < b.date)
  }

  /** `Less` is a strict total order. */
  lemma LessOrder(a: Score, b: Score, c: Score)
    ensures !Less(a, a)
    ensures Less(a, b) && Less(b, c) ==> Less(a, c)
    ensures !Less(a, b) && !Less(b, a) ==> a == b
  {
  }

  /** The index that `max(cluster, key=score)` returns: the first member with
      the greatest score. */
  function RepIndex(rows: seq<MediaRow>, c: seq<nat>): (r: nat)
    requires |c| > 0 && InRange(c, |rows|)
    ensures r < |c|
    ensures forall j :: 0 <= j < |c| ==> !Less(ScoreOf(rows[c[r]]), ScoreOf(rows[c[j]]))
    ensures forall j :: 0 <= j < r ==> Less(ScoreOf(rows[c[j]]), ScoreOf(rows[c[r]]))
  {
    if |c| == 1 then 0
    else
      var best := RepIndex(rows, c[..|c| - 1]);
      var last := |c| - 1;
      if Less(ScoreOf(rows[c[best]]), ScoreOf(rows[c[last]])) then
        assert forall j :: 0 <= j < last ==> Less(ScoreOf(rows[c[j]]), ScoreOf(rows[c[last]])) by {
          forall j | 0 <= j < last ensures Less(ScoreOf(rows[c[j]]), ScoreOf(rows[c[last]])) {
            assert c[..last][j] == c[j] && c[..last][best] == c[best];
            LessOrder(ScoreOf(rows[c[j]]), ScoreOf(rows[c[best]]), ScoreOf(rows[c[last]]));
          }
        }
        last
      else
        assert forall j :: 0 <= j < last ==> c[..last][j] == c[j];
        best
  }

  /** The position of the representative. */
  function Rep(rows: seq<MediaRow>, c: seq<nat>): nat
    requires |c| > 0 && InRange(c, |rows|)
  {
    c[RepIndex(rows, c)]
  }

  // ---------------------------------------------------------------------------
  // The representative flags
  // ---------------------------------------------------------------------------

  /** One assignment `is_rep_map[rows[pos].file_path] = flag`. */
  datatype Write = Write(pos: nat, flag: bool)

  predicate WritesInRange(ws: seq<Write>, n: nat) {
    forall a :: 0 <= a < |ws| ==> ws[a].pos < n
  }

  /** No row is assigned twice. */
  predicate DistinctPos(ws: seq<Write>) {
    forall a, b :: 0 <= a < b < |ws| ==> ws[a].pos != ws[b].pos
  }

  predicate Written(ws: seq<Write>, p: nat) {
    exists a :: 0 <= a < |ws| && ws[a].pos == p
  }

  /** The flag a row of cluster `c` receives: its path equals the
      representative's path. */
  function ClusterWrites(rows: seq<MediaRow>, c: seq<nat>): (ws: seq<Write>)
    requires |c| > 0 && InRange(c, |rows|)
    ensures |ws| == |c|
    ensures forall a :: 0 <= a < |ws| ==> ws[a] == Write(c[a], rows[c[a]].path == rows[Rep(rows, c)].path)
  {
    seq(|c|, a requires 0 <= a < |c| => Write(c[a], rows[c[a]].path == rows[Rep(rows, c)].path))
  }

  /** Every non-image row of the directory is flagged. */
  function OtherWrites(others: seq<nat>): (ws: seq<Write>)
    ensures |ws| == |others|
    ensures forall a :: 0 <= a < |ws| ==> ws[a] == Write(others[a], true)
  {
    seq(|others|, a requires 0 <= a < |others| => Write(others[a], true))
  }

  /** What one directory writes, in the order of the loops. */
  function ClustersWrites(rows: seq<MediaRow>, cs: seq<seq<nat>>): seq<Write>
    requires Clustered(cs, |rows|)
  {
    if |cs| == 0 then [] else ClustersWrites(rows, cs[..|cs| - 1]) + ClusterWrites(rows, cs[|cs| - 1])
  }

  /** The map after the assignments `ws`, in order. */
  function ApplyWrites(rows: seq<MediaRow>, ws: seq<Write>): map<string, bool>
    requires WritesInRange(ws, |rows|)
  {
    if |ws| == 0 then map[]
    else ApplyWrites(rows, ws[..|ws| - 1])[rows[ws[|ws| - 1].pos].path := ws[|ws| - 1].flag]
  }

  /** `is_rep_map.get(fp, True)` for every row. */
  function FlagsOf(rows: seq<MediaRow>, m: map<string, bool>): (flags: seq<bool>)
    ensures |flags| == |rows|
    ensures forall p :: 0 <= p < |rows| ==> flags[p] == (rows[p].path !in m || m[rows[p].path])
  {
    seq(|rows|, p requires 0 <= p < |rows| => rows[p].path !in m || m[rows[p].path])
  }

  /** The flag the source means a row to get: whenever it is in a cluster, its
      path is the path of that cluster's representative. */
  predicate PathRep(rows: seq<MediaRow>, cs: seq<seq<nat>>, p: nat)
    requires Clustered(cs, |rows|)
    requires p < |rows|
  {
    forall k :: 0 <= k < |cs| && p in cs[k] ==> rows[p].path == rows[Rep(rows, cs[k])].path
  }

  /** With unique paths, each row's entry in the map is the one assignment
      made for it, and only assigned rows have an entry. */
  lemma {:induction false} ApplyLookup(rows: seq<MediaRow>, ws: seq<Write>, p: nat)
    requires UniquePaths(rows) && WritesInRange(ws, |rows|) && DistinctPos(ws) && p < |rows|
    ensures rows[p].path in ApplyWrites(rows, ws) <==> Written(ws, p)
    ensures forall a :: 0 <= a < |ws| && ws[a].pos == p ==> ApplyWrites(rows, ws)[rows[p].path] == ws[a].flag
    decreases |ws|
  {
    if |ws| > 0 {
      var front := ws[..|ws| - 1];
      var last := ws[|ws| - 1];
      ApplyLookup(rows, front, p);
      if Written(ws, p) && last.pos != p {
        var a :| 0 <= a < |ws| && ws[a].pos == p;
        assert front[a].pos == p;
      }
      if Written(front, p) {
        var a :| 0 <= a < |front| && front[a].pos == p;
        assert ws[a].pos == p;
      }
      if last.pos != p {
        assert rows[last.pos].path != rows[p].path;
      }
    }
  }

  /** The flag of every row, given assignments that follow `PathRep` and cover
      every clustered row. */
  lemma FlagsFollowPathRep(rows: seq<MediaRow>, ws: seq<Write>, cs: seq<seq<nat>>, p: nat)
    requires UniquePaths(rows) && WritesInRange(ws, |rows|) && DistinctPos(ws) && p < |rows|
    requires Clustered(cs, |rows|)
    requires forall a :: 0 <= a < |ws| ==> ws[a].flag == PathRep(rows, cs, ws[a].pos)
    requires forall k, q :: 0 <= k < |cs| && q in cs[k] ==> Written(ws, q)
    ensures FlagsOf(rows, ApplyWrites(rows, ws))[p] == PathRep(rows, cs, p)
  {
    ApplyLookup(rows, ws, p);
    if Written(ws, p) {
      var a :| 0 <= a < |ws| && ws[a].pos == p;
    }
  }

  /** With unique paths, path equality is position equality. */
  lemma PathRepIsRep(rows: seq<MediaRow>, cs: seq<seq<nat>>, p: nat)
    requires UniquePaths(rows) && p < |rows|
    requires Clustered(cs, |rows|)
    ensures PathRep(rows, cs, p) <==> forall k :: 0 <= k < |cs| && p in cs[k] ==> p == Rep(rows, cs[k])
  {
    forall k | 0 <= k < |cs| && p in cs[k]
      ensures rows[p].path == rows[Rep(rows, cs[k])].path <==> p == Rep(rows, cs[k])
    {
      var r := Rep(rows, cs[k]);
      assert r < |rows|;
      if p != r {
        if p < r {
          assert rows[p].path != rows[r].path;
        } else {
          assert rows[r].path != rows[p].path;
        }
      }
    }
  }

  // ---------------------------------------------------------------------------
  // One directory at a time
  // ---------------------------------------------------------------------------

  /** The positions of `c` are rows of directory `d` that are images exactly
      when `image` holds. */
  predicate InDir(rows: seq<MediaRow>, c: seq<nat>, d: string, image: bool) {
    InRange(c, |rows|) && forall i :: 0 <= i < |c| ==> rows[c[i]].directory == d && IsImageRow(rows[c[i]]) == image
  }

  /** The clusters one directory hands to the marking loop. */
  predicate DirClusters(rows: seq<MediaRow>, cs: seq<seq<nat>>, d: string) {
    && (forall k :: 0 <= k < |cs| ==> |cs[k]| > 0 && Distinct(cs[k]) && InDir(rows, cs[k], d, true))
    && Disjoint(cs)
  }

  predicate InSome(cs: seq<seq<nat>>, p: nat) {
    exists k :: 0 <= k < |cs| && p in cs[k]
  }

  /** A new cluster that does not hold `p` leaves `p`'s flag as it was. */
  lemma PathRepAppend(rows: seq<MediaRow>, front: seq<seq<nat>>, c: seq<nat>, p: nat)
    requires Clustered(front, |rows|)
    requires |c| > 0 && InRange(c, |rows|) && p < |rows|
    ensures p !in c ==> (PathRep(rows, front + [c], p) <==> PathRep(rows, front, p))
    ensures !InSome(front, p) ==> (PathRep(rows, front + [c], p) <==> (p in c ==> rows[p].path == rows[Rep(rows, c)].path))
  {
    var cs := front + [c];
    assert forall k :: 0 <= k < |front| ==> cs[k] == front[k];
    assert cs[|front|] == c;
  }

  /** What the cluster loop of one directory writes: each clustered row once,
      with the flag the source means, and nothing else. */
  predicate WritesFacts(rows: seq<MediaRow>, cs: seq<seq<nat>>, d: string, gw: seq<Write>)
    requires DirClusters(rows, cs, d)
  {
    && WritesInRange(gw, |rows|) && DistinctPos(gw)
    && (forall a :: 0 <= a < |gw| ==> InSome(cs, gw[a].pos))
    && (forall a :: 0 <= a < |gw| ==>
          rows[gw[a].pos].directory == d && IsImageRow(rows[gw[a].pos]) && gw[a].flag == PathRep(rows, cs, gw[a].pos))
    && (forall k, q :: 0 <= k < |cs| && q in cs[k] ==> Written(gw, q))
  }

  lemma {:induction false} ClustersWritesFacts(rows: seq<MediaRow>, cs: seq<seq<nat>>, d: string)
    requires DirClusters(rows, cs, d)
    ensures WritesFacts(rows, cs, d, ClustersWrites(rows, cs))
    decreases |cs|
  {
    if |cs| > 0 {
      var front := cs[..|cs| - 1];
      var c := cs[|cs| - 1];
      assert cs == front + [c];
      assert DirClusters(rows, front, d) by {
        assert forall k :: 0 <= k < |front| ==> front[k] == cs[k];
      }
      ClustersWritesFacts(rows, front, d);
      WritesStep(rows, front, c, d, ClustersWrites(rows, front));
    }
  }

  /** One more cluster's writes keep `WritesFacts`. */
  lemma WritesStep(rows: seq<MediaRow>, front: seq<seq<nat>>, c: seq<nat>, d: string, fw: seq<Write>)
    requires DirClusters(rows, front + [c], d) && DirClusters(rows, front, d)
    requires |c| > 0 && Distinct(c) && InDir(rows, c, d, true)
    requires WritesFacts(rows, front, d, fw)
    ensures WritesFacts(rows, front + [c], d, fw + ClusterWrites(rows, c))
  {
    var cw := ClusterWrites(rows, c);
    WritesStepPlaces(rows, front, c, d, fw);
    WritesStepDistinct(fw, cw, c);
    WritesStepFlags(rows, front, c, d, fw);
    WritesStepCoverage(rows, front, c, d, fw);
  }

  lemma WritesStepPlaces(rows: seq<MediaRow>, front: seq<seq<nat>>, c: seq<nat>, d: string, fw: seq<Write>)
    requires DirClusters(rows, front + [c], d) && DirClusters(rows, front, d)
    requires |c| > 0 && Distinct(c) && InDir(rows, c, d, true)
    requires WritesFacts(rows, front, d, fw)
    ensures forall a :: 0 <= a < |fw| ==> fw[a].pos !in c
    ensures forall a :: 0 <= a < |ClusterWrites(rows, c)| ==> !InSome(front, ClusterWrites(rows, c)[a].pos)
    ensures forall a :: 0 <= a < |fw + ClusterWrites(rows, c)| ==> InSome(front + [c], (fw + ClusterWrites(rows, c))[a].pos)
    ensures WritesInRange(fw + ClusterWrites(rows, c), |rows|)
  {
    var cs := front + [c];
    var cw := ClusterWrites(rows, c);
    var gw := fw + cw;
    assert forall k :: 0 <= k < |front| ==> cs[k] == front[k];
    assert cs[|front|] == c;
    forall a | 0 <= a < |fw| ensures fw[a].pos !in c && InSome(cs, fw[a].pos) {
      var k :| 0 <= k < |front| && fw[a].pos in front[k];
    }
    forall a | 0 <= a < |cw| ensures !InSome(front, cw[a].pos) && InSome(cs, cw[a].pos) {
      assert cw[a].pos == c[a] && c[a] in cs[|front|];
      forall k | 0 <= k < |front| ensures c[a] !in front[k] {
        assert cs[k] == front[k];
      }
    }
    forall a | 0 <= a < |gw| ensures InSome(cs, gw[a].pos) && gw[a].pos < |rows| {
      if a < |fw| {
        assert gw[a] == fw[a];
      } else {
        assert gw[a] == cw[a - |fw|];
      }
    }
  }

  lemma WritesStepFlags(rows: seq<MediaRow>, front: seq<seq<nat>>, c: seq<nat>, d: string, fw: seq<Write>)
    requires DirClusters(rows, front + [c], d) && DirClusters(rows, front, d)
    requires |c| > 0 && Distinct(c) && InDir(rows, c, d, true)
    requires WritesFacts(rows, front, d, fw)
    requires forall a :: 0 <= a < |fw| ==> fw[a].pos !in c
    requires forall a :: 0 <= a < |ClusterWrites(rows, c)| ==> !InSome(front, ClusterWrites(rows, c)[a].pos)
    ensures forall a :: 0 <= a < |fw + ClusterWrites(rows, c)| ==>
      var w := (fw + ClusterWrites(rows, c))[a];
      rows[w.pos].directory == d && IsImageRow(rows[w.pos]) && w.flag == PathRep(rows, front + [c], w.pos)
  {
    var cw := ClusterWrites(rows, c);
    var gw := fw + cw;
    FrontWritesFlags(rows, front, c, d, fw);
    ClusterWritesFlags(rows, front, c, d);
    forall a | 0 <= a < |gw|
      ensures rows[gw[a].pos].directory == d && IsImageRow(rows[gw[a].pos]) && gw[a].flag == PathRep(rows, front + [c], gw[a].pos)
    {
      if a < |fw| {
        assert gw[a] == fw[a];
      } else {
        assert gw[a] == cw[a - |fw|];
      }
    }
  }

  /** The earlier writes keep their flags once the new cluster is added. */
  lemma FrontWritesFlags(rows: seq<MediaRow>, front: seq<seq<nat>>, c: seq<nat>, d: string, fw: seq<Write>)
    requires DirClusters(rows, front + [c], d) && DirClusters(rows, front, d)
    requires |c| > 0 && InDir(rows, c, d, true)
    requires WritesFacts(rows, front, d, fw)
    requires forall a :: 0 <= a < |fw| ==> fw[a].pos !in c
    ensures forall a :: 0 <= a < |fw| ==>
      rows[fw[a].pos].directory == d && IsImageRow(rows[fw[a].pos]) && fw[a].flag == PathRep(rows, front + [c], fw[a].pos)
  {
    forall a | 0 <= a < |fw|
      ensures fw[a].flag == PathRep(rows, front + [c], fw[a].pos)
    {
      PathRepAppend(rows, front, c, fw[a].pos);
    }
  }

  /** The writes of the new cluster carry the flag of their rows in it. */
  lemma ClusterWritesFlags(rows: seq<MediaRow>, front: seq<seq<nat>>, c: seq<nat>, d: string)
    requires DirClusters(rows, front + [c], d) && DirClusters(rows, front, d)
    requires |c| > 0 && InDir(rows, c, d, true)
    requires forall a :: 0 <= a < |ClusterWrites(rows, c)| ==> !InSome(front, ClusterWrites(rows, c)[a].pos)
    ensures var cw := ClusterWrites(rows, c);
      forall i :: 0 <= i < |cw| ==>
        rows[cw[i].pos].directory == d && IsImageRow(rows[cw[i].pos]) && cw[i].flag == PathRep(rows, front + [c], cw[i].pos)
  {
    var cw := ClusterWrites(rows, c);
    forall i | 0 <= i < |cw|
      ensures rows[cw[i].pos].directory == d && IsImageRow(rows[cw[i].pos]) && cw[i].flag == PathRep(rows, front + [c], cw[i].pos)
    {
      assert cw[i].pos == c[i];
      PathRepAppend(rows, front, c, c[i]);
    }
  }

  lemma WritesStepCoverage(rows: seq<MediaRow>, front: seq<seq<nat>>, c: seq<nat>, d: string, fw: seq<Write>)
    requires DirClusters(rows, front + [c], d) && DirClusters(rows, front, d)
    requires |c| > 0 && Distinct(c) && InDir(rows, c, d, true)
    requires WritesFacts(rows, front, d, fw)
    ensures forall k, q :: 0 <= k < |front + [c]| && q in (front + [c])[k] ==> Written(fw + ClusterWrites(rows, c), q)
  {
    var cs := front + [c];
    var cw := ClusterWrites(rows, c);
    forall k, q | 0 <= k < |cs| && q in cs[k] ensures Written(fw + cw, q) {
      if k < |front| {
        assert cs[k] == front[k];
      } else {
        assert cs[k] == c;
        var i :| 0 <= i < |c| && c[i] == q;
        assert cw[i].pos == q;
      }
      WrittenGrows(fw, cw, q);
    }
  }

  lemma WritesStepDistinct(fw: seq<Write>, cw: seq<Write>, c: seq<nat>)
    requires DistinctPos(fw) && Distinct(c) && |cw| == |c|
    requires forall a :: 0 <= a < |cw| ==> cw[a].pos == c[a]
    requires forall a :: 0 <= a < |fw| ==> fw[a].pos !in c
    ensures DistinctPos(fw + cw)
  {
    var gw := fw + cw;
    forall a, b | 0 <= a < b < |gw| ensures gw[a].pos != gw[b].pos {
      if b < |fw| {
        assert gw[a] == fw[a] && gw[b] == fw[b];
      } else if a >= |fw| {
        assert gw[a].pos == c[a - |fw|] && gw[b].pos == c[b - |fw|];
      } else {
        assert gw[a] == fw[a] && gw[b].pos == c[b - |fw|];
      }
    }
  }

  /** Appending on either side keeps a row written. */
  lemma WrittenGrows(ws: seq<Write>, more: seq<Write>, q: nat)
    ensures Written(ws, q) ==> Written(ws + more, q)
    ensures Written(more, q) ==> Written(ws + more, q)
  {
    if Written(ws, q) {
      var a :| 0 <= a < |ws| && ws[a].pos == q;
      assert (ws + more)[a] == ws[a];
    }
    if Written(more, q) {
      var a :| 0 <= a < |more| && more[a].pos == q;
      assert (ws + more)[|ws| + a] == more[a];
    }
  }

  /** What the marking loops have established after the directories `done`:
      the clusters so far, and one assignment per clustered or non-image row
      of those directories, each carrying the flag the source means. */
  ghost predicate Marked(rows: seq<MediaRow>, all: seq<seq<nat>>, ws: seq<Write>, done: set<string>) {
    ClustersIn(rows, all, done) && WritesIn(rows, ws, done) && FlagsMeant(rows, all, ws)
  }

  ghost predicate ClustersIn(rows: seq<MediaRow>, all: seq<seq<nat>>, done: set<string>) {
    && Clustered(all, |rows|) && (forall k :: 0 <= k < |all| ==> Distinct(all[k]))
    && (forall k, i :: 0 <= k < |all| && 0 <= i < |all[k]| ==> rows[all[k][i]].directory in done && IsImageRow(rows[all[k][i]]))
    && Disjoint(all)
  }

  ghost predicate WritesIn(rows: seq<MediaRow>, ws: seq<Write>, done: set<string>) {
    && WritesInRange(ws, |rows|) && DistinctPos(ws)
    && (forall a :: 0 <= a < |ws| ==> rows[ws[a].pos].directory in done)
  }

  ghost predicate FlagsMeant(rows: seq<MediaRow>, all: seq<seq<nat>>, ws: seq<Write>)
    requires Clustered(all, |rows|)
    requires WritesInRange(ws, |rows|)
  {
    && (forall a :: 0 <= a < |ws| ==> ws[a].flag == PathRep(rows, all, ws[a].pos))
    && (forall k, q :: 0 <= k < |all| && q in all[k] ==> Written(ws, q))
  }

  /** Marking one more directory keeps `Marked`. */
  lemma AppendGroup(rows: seq<MediaRow>, all: seq<seq<nat>>, ws: seq<Write>, done: set<string>,
                    d: string, cs: seq<seq<nat>>, others: seq<nat>)
    requires Marked(rows, all, ws, done) && d !in done
    requires DirClusters(rows, cs, d)
    requires Distinct(others) && InDir(rows, others, d, false)
    ensures Marked(rows, all + cs, ws + ClustersWrites(rows, cs) + OtherWrites(others), done + {d})
  {
    ClustersWritesFacts(rows, cs, d);
    AppendClusters(rows, all, done, d, cs);
    AppendWrites(rows, ws, done, d, cs, ClustersWrites(rows, cs), others);
    AppendFlags(rows, all, ws, done, d, cs, ClustersWrites(rows, cs), others);
  }

  lemma AppendClusters(rows: seq<MediaRow>, all: seq<seq<nat>>, done: set<string>, d: string, cs: seq<seq<nat>>)
    requires ClustersIn(rows, all, done) && d !in done
    requires DirClusters(rows, cs, d)
    ensures ClustersIn(rows, all + cs, done + {d})
  {
    var all' := all + cs;
    assert forall k :: 0 <= k < |all| ==> all'[k] == all[k];
    assert forall k :: 0 <= k < |cs| ==> all'[|all| + k] == cs[k];
    forall a, b, p | 0 <= a < b < |all'| && p in all'[a] ensures p !in all'[b] {
      if b >= |all| && a < |all| {
        var i :| 0 <= i < |all[a]| && all[a][i] == p;
      }
    }
    forall k, i | 0 <= k < |all'| && 0 <= i < |all'[k]|
      ensures rows[all'[k][i]].directory in done + {d} && IsImageRow(rows[all'[k][i]])
    {
      if k >= |all| {
        assert all'[k] == cs[k - |all|];
      }
    }
  }

  lemma AppendWrites(rows: seq<MediaRow>, ws: seq<Write>, done: set<string>, d: string,
                     cs: seq<seq<nat>>, gw: seq<Write>, others: seq<nat>)
    requires WritesIn(rows, ws, done) && d !in done
    requires DirClusters(rows, cs, d) && WritesFacts(rows, cs, d, gw)
    requires Distinct(others) && InDir(rows, others, d, false)
    ensures WritesIn(rows, ws + gw + OtherWrites(others), done + {d})
  {
    var ow := OtherWrites(others);
    var ws' := ws + gw + ow;
    forall a | 0 <= a < |ws'| ensures ws'[a].pos < |rows| && rows[ws'[a].pos].directory in done + {d} {
      if |ws| <= a < |ws| + |gw| {
        assert ws'[a] == gw[a - |ws|];
      } else if a >= |ws| + |gw| {
        var o := a - |ws| - |gw|;
        assert ws'[a] == ow[o] && ow[o].pos == others[o];
      }
    }
    forall a, b | 0 <= a < b < |ws'| ensures ws'[a].pos != ws'[b].pos {
      if b < |ws| {
        assert ws'[a] == ws[a] && ws'[b] == ws[b];
      } else if a < |ws| {
        assert ws'[a] == ws[a];
        assert rows[ws'[a].pos].directory in done;
        if b < |ws| + |gw| {
          assert ws'[b] == gw[b - |ws|];
        } else {
          assert ws'[b] == ow[b - |ws| - |gw|];
          assert ow[b - |ws| - |gw|].pos == others[b - |ws| - |gw|];
        }
      } else if b < |ws| + |gw| {
        assert ws'[a] == gw[a - |ws|] && ws'[b] == gw[b - |ws|];
      } else if a < |ws| + |gw| {
        assert ws'[a] == gw[a - |ws|] && ws'[b] == ow[b - |ws| - |gw|];
        assert ow[b - |ws| - |gw|].pos == others[b - |ws| - |gw|];
      } else {
        assert ws'[a] == ow[a - |ws| - |gw|] && ws'[b] == ow[b - |ws| - |gw|];
      }
    }
  }

  lemma AppendFlags(rows: seq<MediaRow>, all: seq<seq<nat>>, ws: seq<Write>, done: set<string>, d: string,
                    cs: seq<seq<nat>>, gw: seq<Write>, others: seq<nat>)
    requires ClustersIn(rows, all, done) && WritesIn(rows, ws, done) && FlagsMeant(rows, all, ws) && d !in done
    requires DirClusters(rows, cs, d) && WritesFacts(rows, cs, d, gw)
    requires Distinct(others) && InDir(rows, others, d, false)
    ensures WritesInRange(ws + gw + OtherWrites(others), |rows|)
    ensures Clustered(all + cs, |rows|)
    ensures FlagsMeant(rows, all + cs, ws + gw + OtherWrites(others))
  {
    AppendRange(rows, ws, gw, others);
    AppendClustered(rows, all, cs);
    AppendFlagValues(rows, all, ws, done, d, cs, gw, others);
    AppendWritten(all, ws, cs, gw, OtherWrites(others));
  }

  /** The writes of one more directory stay within the table. */
  lemma AppendRange(rows: seq<MediaRow>, ws: seq<Write>, gw: seq<Write>, others: seq<nat>)
    requires WritesInRange(ws, |rows|) && WritesInRange(gw, |rows|) && InRange(others, |rows|)
    ensures WritesInRange(ws + gw + OtherWrites(others), |rows|)
  {
    var ow := OtherWrites(others);
    var ws' := ws + gw + ow;
    forall a | 0 <= a < |ws'| ensures ws'[a].pos < |rows| {
      if a >= |ws| + |gw| {
        assert ws'[a] == ow[a - |ws| - |gw|];
      } else if a >= |ws| {
        assert ws'[a] == gw[a - |ws|];
      }
    }
  }

  lemma AppendClustered(rows: seq<MediaRow>, all: seq<seq<nat>>, cs: seq<seq<nat>>)
    requires Clustered(all, |rows|) && Clustered(cs, |rows|)
    ensures Clustered(all + cs, |rows|)
  {
    var all' := all + cs;
    assert forall k :: 0 <= k < |all| ==> all'[k] == all[k];
    assert forall k :: 0 <= k < |cs| ==> all'[|all| + k] == cs[k];
  }

  /** Every row clustered so far, or in the new clusters, has been written. */
  lemma AppendWritten(all: seq<seq<nat>>, ws: seq<Write>, cs: seq<seq<nat>>, gw: seq<Write>, ow: seq<Write>)
    requires forall k, q :: 0 <= k < |all| && q in all[k] ==> Written(ws, q)
    requires forall k, q :: 0 <= k < |cs| && q in cs[k] ==> Written(gw, q)
    ensures forall k, q :: 0 <= k < |all + cs| && q in (all + cs)[k] ==> Written(ws + gw + ow, q)
  {
    var all' := all + cs;
    forall k, q | 0 <= k < |all'| && q in all'[k] ensures Written(ws + gw + ow, q) {
      if k < |all| {
        assert all'[k] == all[k];
        assert Written(ws, q);
      } else {
        assert all'[k] == cs[k - |all|];
        assert Written(gw, q);
      }
      WrittenGrows(ws, gw, q);
      WrittenGrows(ws + gw, ow, q);
    }
  }

  /** Rows outside directory `d` are in no cluster of `d`. */
  lemma PathRepOtherDir(rows: seq<MediaRow>, all: seq<seq<nat>>, d: string, cs: seq<seq<nat>>, p: nat)
    requires Clustered(all, |rows|)
    requires DirClusters(rows, cs, d)
    requires p < |rows| && rows[p].directory != d
    ensures PathRep(rows, all + cs, p) == PathRep(rows, all, p)
  {
    var all' := all + cs;
    assert forall k :: 0 <= k < |all| ==> all'[k] == all[k];
    assert forall k :: 0 <= k < |cs| ==> all'[|all| + k] == cs[k];
  }

  /** Rows of directory `d` are in no earlier cluster. */
  lemma PathRepThisDir(rows: seq<MediaRow>, all: seq<seq<nat>>, done: set<string>, d: string, cs: seq<seq<nat>>, p: nat)
    requires ClustersIn(rows, all, done) && d !in done
    requires DirClusters(rows, cs, d)
    requires p < |rows| && rows[p].directory == d
    ensures PathRep(rows, all + cs, p) == PathRep(rows, cs, p)
  {
    var all' := all + cs;
    assert forall k :: 0 <= k < |all| ==> all'[k] == all[k];
    assert forall k :: 0 <= k < |cs| ==> all'[|all| + k] == cs[k];
  }

  lemma AppendFlagValues(rows: seq<MediaRow>, all: seq<seq<nat>>, ws: seq<Write>, done: set<string>, d: string,
                         cs: seq<seq<nat>>, gw: seq<Write>, others: seq<nat>)
    requires ClustersIn(rows, all, done) && WritesIn(rows, ws, done) && FlagsMeant(rows, all, ws) && d !in done
    requires DirClusters(rows, cs, d) && WritesFacts(rows, cs, d, gw)
    requires Distinct(others) && InDir(rows, others, d, false)
    requires WritesInRange(ws + gw + OtherWrites(others), |rows|)
    requires Clustered(all + cs, |rows|)
    ensures forall a :: 0 <= a < |ws + gw + OtherWrites(others)| ==>
      (ws + gw + OtherWrites(others))[a].flag == PathRep(rows, all + cs, (ws + gw + OtherWrites(others))[a].pos)
  {
    var ow := OtherWrites(others);
    var ws' := ws + gw + ow;
    forall a | 0 <= a < |ws'| ensures ws'[a].flag == PathRep(rows, all + cs, ws'[a].pos) {
      if a < |ws| {
        assert ws'[a] == ws[a];
        assert rows[ws[a].pos].directory in done;
        PathRepOtherDir(rows, all, d, cs, ws[a].pos);
      } else if a < |ws| + |gw| {
        assert ws'[a] == gw[a - |ws|];
        PathRepThisDir(rows, all, done, d, cs, gw[a - |ws|].pos);
      } else {
        var o := a - |ws| - |gw|;
        assert ws'[a] == ow[o] && ow[o].pos == others[o];
        PathRepThisDir(rows, all, done, d, cs, others[o]);
      }
    }
  }

  // ---------------------------------------------------------------------------
  // Directories
  // ---------------------------------------------------------------------------

  /** The keys of `dir_map`, in the order they were first seen. */
  function Directories(rows: seq<MediaRow>): (ds: seq<string>)
    ensures Distinct(ds)
    ensures forall p :: 0 <= p < |rows| ==> rows[p].directory in ds
    ensures forall g :: 0 <= g < |ds| ==> exists p :: 0 <= p < |rows| && rows[p].directory == ds[g]
  {
    if |rows| == 0 then []
    else
      var front := Directories(rows[..|rows| - 1]);
      assert forall p :: 0 <= p < |rows| - 1 ==> rows[..|rows| - 1][p] == rows[p];
      if rows[|rows| - 1].directory in front then front else front + [rows[|rows| - 1].directory]
  }

  /** The rows of directory `d` that are images exactly when `image` holds,
      in table order: `image_rows` and `video_rows`. */
  function DirRows(rows: seq<MediaRow>, d: string, image: bool): (ps: seq<nat>)
    ensures Distinct(ps) && InDir(rows, ps, d, image)
    ensures forall p :: 0 <= p < |rows| && rows[p].directory == d && IsImageRow(rows[p]) == image ==> p in ps
  {
    var ps := PositionsWhere(|rows|, (p: nat) => p < |rows| && rows[p].directory == d && IsImageRow(rows[p]) == image);
    assert forall i :: 0 <= i < |ps| ==> ps[i] in ps;
    ps
  }

  // ---------------------------------------------------------------------------
  // Single-phase deduplication
  // ---------------------------------------------------------------------------

  /** The members of `c` carry the hash and share one directory. */
  predicate OneDirHashed(rows: seq<MediaRow>, col: HashColumn, c: seq<nat>)
    requires |c| > 0 && InRange(c, |rows|)
  {
    forall i :: 0 <= i < |c| ==> HasHash(rows[c[i]], col) && rows[c[i]].directory == rows[c[0]].directory
  }

  /** No image of the same directory near a member of `c` is left out of `c`. */
  predicate NearClosed(rows: seq<MediaRow>, col: HashColumn, threshold: int, c: seq<nat>)
    requires InRange(c, |rows|)
  {
    forall i, q :: 0 <= i < |c| && 0 <= q < |rows| && rows[q].directory == rows[c[i]].directory && IsImageRow(rows[q]) ==>
      Near(rows, col, threshold, c[i], q) ==> q in c
  }

  /** Every member after the first is near an earlier member. */
  predicate Chained(rows: seq<MediaRow>, col: HashColumn, threshold: int, c: seq<nat>) {
    forall m :: 0 < m < |c| ==> NearEarlier(rows, col, threshold, c, m)
  }

  /** A cluster of the single-phase run. */
  predicate HashCluster(rows: seq<MediaRow>, col: HashColumn, threshold: int, c: seq<nat>)
    requires |c| > 0 && InRange(c, |rows|)
  {
    OneDirHashed(rows, col, c) && NearClosed(rows, col, threshold, c) && Chained(rows, col, threshold, c)
  }

  /** Every image with the hash in the directories `done` is clustered. */
  predicate Covers(rows: seq<MediaRow>, col: HashColumn, all: seq<seq<nat>>, done: set<string>) {
    forall p :: 0 <= p < |rows| && rows[p].directory in done && IsImageRow(rows[p]) && HasHash(rows[p], col) ==> InSome(all, p)
  }

  lemma InSomeAppend(all: seq<seq<nat>>, cs: seq<seq<nat>>, p: nat)
    ensures InSome(all, p) ==> InSome(all + cs, p)
    ensures InSome(cs, p) ==> InSome(all + cs, p)
  {
    if InSome(all, p) {
      var k :| 0 <= k < |all| && p in all[k];
      assert (all + cs)[k] == all[k];
    }
    if InSome(cs, p) {
      var k :| 0 <= k < |cs| && p in cs[k];
      assert (all + cs)[|all| + k] == cs[k];
    }
  }

  /** The clusters of one directory: `_cluster_by_hash(image_rows, ...)`. */
  method DirectoryClusters(rows: seq<MediaRow>, col: HashColumn, threshold: int, d: string)
    returns (cs: seq<seq<nat>>)
    ensures DirClusters(rows, cs, d) && Clustered(cs, |rows|)
    ensures forall k :: 0 <= k < |cs| ==> HashCluster(rows, col, threshold, cs[k])
    ensures Covers(rows, col, cs, {d})
  {
    var images := DirRows(rows, d, true);
    cs := ClusterPositions(rows, images, col, threshold);
    DirClustersInDir(rows, col, threshold, d, images, cs);
    DirClustersCover(rows, col, threshold, d, images, cs);
  }

  /** The clusters of the images of directory `d` lie in `d` and are
      clusters of the single-phase run. */
  lemma DirClustersInDir(rows: seq<MediaRow>, col: HashColumn, threshold: int, d: string, images: seq<nat>,
                         cs: seq<seq<nat>>)
    requires images == DirRows(rows, d, true)
    requires PositionClusters(rows, images, col, threshold, cs)
    ensures DirClusters(rows, cs, d) && Clustered(cs, |rows|)
    ensures forall k :: 0 <= k < |cs| ==> HashCluster(rows, col, threshold, cs[k])
  {
    PartitionShape(rows, images, col, cs);
    DirRowsAreImages(rows, d);
    DirClustersEach(rows, col, threshold, d, images, cs);
  }

  /** The images of one directory, as a set of positions. */
  predicate DirImages(rows: seq<MediaRow>, d: string, images: seq<nat>) {
    && InRange(images, |rows|)
    && (forall p: nat :: p in images ==> p < |rows| && rows[p].directory == d && IsImageRow(rows[p]))
    && (forall p: nat :: p < |rows| && rows[p].directory == d && IsImageRow(rows[p]) ==> p in images)
  }

  lemma DirRowsAreImages(rows: seq<MediaRow>, d: string)
    ensures DirImages(rows, d, DirRows(rows, d, true))
  {
    var images := DirRows(rows, d, true);
    forall p: nat | p in images ensures p < |rows| && rows[p].directory == d && IsImageRow(rows[p]) {
      var j :| 0 <= j < |images| && images[j] == p;
    }
  }

  lemma DirClustersEach(rows: seq<MediaRow>, col: HashColumn, threshold: int, d: string, images: seq<nat>,
                        cs: seq<seq<nat>>)
    requires DirImages(rows, d, images)
    requires PositionClusters(rows, images, col, threshold, cs)
    ensures forall k :: 0 <= k < |cs| ==> |cs[k]| > 0 && InRange(cs[k], |rows|)
    ensures forall k :: 0 <= k < |cs| ==> InDir(rows, cs[k], d, true) && HashCluster(rows, col, threshold, cs[k])
  {
    forall k | 0 <= k < |cs|
      ensures |cs[k]| > 0 && InDir(rows, cs[k], d, true) && HashCluster(rows, col, threshold, cs[k])
    {
      DirCluster(rows, col, threshold, d, images, cs[k]);
    }
  }

  /** Every image of directory `d` with the hash is in one of its clusters. */
  lemma DirClustersCover(rows: seq<MediaRow>, col: HashColumn, threshold: int, d: string, images: seq<nat>,
                         cs: seq<seq<nat>>)
    requires images == DirRows(rows, d, true)
    requires PositionClusters(rows, images, col, threshold, cs)
    ensures Covers(rows, col, cs, {d})
  {
    forall p | 0 <= p < |rows| && rows[p].directory == d && IsImageRow(rows[p]) && HasHash(rows[p], col)
      ensures InSome(cs, p)
    {
      assert p in images;
    }
  }

  /** A cluster of the images of directory `d` lies in `d` and is a cluster
      of the single-phase run. */
  lemma DirCluster(rows: seq<MediaRow>, col: HashColumn, threshold: int, d: string, images: seq<nat>, c: seq<nat>)
    requires DirImages(rows, d, images)
    requires |c| > 0
    requires forall p: nat :: p in c ==> p in images && p < |rows| && HasHash(rows[p], col)
    requires forall p: nat, q: nat :: p in c && q in images && Near(rows, col, threshold, p, q) ==> q in c
    requires forall m :: 0 < m < |c| ==> NearEarlier(rows, col, threshold, c, m)
    ensures InDir(rows, c, d, true) && HashCluster(rows, col, threshold, c)
  {
    forall i | 0 <= i < |c| ensures c[i] < |rows| && rows[c[i]].directory == d && IsImageRow(rows[c[i]]) {
      assert c[i] in c;
    }
    assert c[0] in c;
    forall i, q: nat | 0 <= i < |c| && q < |rows| && rows[q].directory == rows[c[i]].directory && IsImageRow(rows[q])
      ensures Near(rows, col, threshold, c[i], q) ==> q in c
    {
      assert c[i] in c;
    }
  }

  /** The clusters of one more directory keep the single-phase facts. */
  lemma AppendHashClusters(rows: seq<MediaRow>, col: HashColumn, threshold: int, all: seq<seq<nat>>, done: set<string>,
                           d: string, cs: seq<seq<nat>>)
    requires Clustered(all, |rows|) && Clustered(cs, |rows|)
    requires forall k :: 0 <= k < |all| ==> HashCluster(rows, col, threshold, all[k])
    requires forall k :: 0 <= k < |cs| ==> HashCluster(rows, col, threshold, cs[k])
    requires Covers(rows, col, all, done) && Covers(rows, col, cs, {d})
    ensures Clustered(all + cs, |rows|)
    ensures forall k :: 0 <= k < |all + cs| ==> HashCluster(rows, col, threshold, (all + cs)[k])
    ensures Covers(rows, col, all + cs, done + {d})
  {
    var all' := all + cs;
    assert forall k :: 0 <= k < |all| ==> all'[k] == all[k];
    assert forall k :: 0 <= k < |cs| ==> all'[|all| + k] == cs[k];
    forall p | 0 <= p < |rows| && rows[p].directory in done + {d} && IsImageRow(rows[p]) && HasHash(rows[p], col)
      ensures InSome(all', p)
    {
      InSomeAppend(all, cs, p);
    }
  }

  /** The state of the single-phase marking loop after the directories `done`. */
  ghost predicate SinglePhase(rows: seq<MediaRow>, col: HashColumn, threshold: int,
                              clusters: seq<seq<nat>>, ws: seq<Write>, done: set<string>)
  {
    && Marked(rows, clusters, ws, done)
    && (forall k :: 0 <= k < |clusters| ==> HashCluster(rows, col, threshold, clusters[k]))
    && Covers(rows, col, clusters, done)
  }

  /** One pass of the directory loop of `dedupe_by_hash`: cluster the images,
      then write the cluster flags and the non-image flags. */
  method MarkDirectory(rows: seq<MediaRow>, col: HashColumn, threshold: int,
                       clusters: seq<seq<nat>>, ws: seq<Write>, ghost done: set<string>, d: string)
    returns (clusters': seq<seq<nat>>, ws': seq<Write>)
    requires SinglePhase(rows, col, threshold, clusters, ws, done) && d !in done
    ensures SinglePhase(rows, col, threshold, clusters', ws', done + {d})
  {
    var cs := DirectoryClusters(rows, col, threshold, d);
    var others := DirRows(rows, d, false);
    AppendGroup(rows, clusters, ws, done, d, cs, others);
    AppendHashClusters(rows, col, threshold, clusters, done, d, cs);
    clusters' := clusters + cs;
    ws' := ws + ClustersWrites(rows, cs) + OtherWrites(others);
  }

  /** `dedupe_by_hash`: the name of the table written, the clusters found and
      the `is_representative` flag of every row, in table order. */
  method DedupeByHash(rows: seq<MediaRow>, source: string, col: HashColumn, threshold: int, target: Option<string>)
    returns (table: string, clusters: seq<seq<nat>>, flags: seq<bool>)
    ensures target.None? ==> table == source + "_deduped_" + col.Name()
    ensures target.Some? ==> table == target.value
    ensures |flags| == |rows|
    ensures Clustered(clusters, |rows|) && Disjoint(clusters)
    ensures forall k :: 0 <= k < |clusters| ==> Distinct(clusters[k]) && IsImageRow(rows[clusters[k][0]])
    ensures forall k :: 0 <= k < |clusters| ==> HashCluster(rows, col, threshold, clusters[k])
    ensures forall p :: 0 <= p < |rows| && IsImageRow(rows[p]) && HasHash(rows[p], col) ==> InSome(clusters, p)
    ensures UniquePaths(rows) ==> forall k, p :: 0 <= k < |clusters| && p in clusters[k] ==> (flags[p] <==> p == Rep(rows, clusters[k]))
    ensures UniquePaths(rows) ==> forall p :: 0 <= p < |rows| && !InSome(clusters, p) ==> flags[p]
    ensures UniquePaths(rows) ==> forall p :: 0 <= p < |rows| && !IsImageRow(rows[p]) ==> flags[p]
    ensures UniquePaths(rows) ==> forall p :: 0 <= p < |rows| && !HasHash(rows[p], col) ==> flags[p]
  {
    table := if target.Some? then target.value else source + "_deduped_" + col.Name();
    var dirs := Directories(rows);
    clusters := [];
    var ws: seq<Write> := [];
    ghost var done: set<string> := {};
    for g := 0 to |dirs|
      invariant done == Elems(dirs[..g])
      invariant SinglePhase(rows, col, threshold, clusters, ws, done)
    {
      NextDirectory(dirs, g);
      clusters, ws := MarkDirectory(rows, col, threshold, clusters, ws, done, dirs[g]);
      done := done + {dirs[g]};
    }
    AllDirectories(rows, dirs);
    flags := FlagsOf(rows, ApplyWrites(rows, ws));
    MarkedFlags(rows, clusters, ws, done);
    SinglePhaseCovers(rows, col, threshold, clusters, ws, done);
  }

  /** Once every directory is marked, every image with the hash is clustered. */
  lemma SinglePhaseCovers(rows: seq<MediaRow>, col: HashColumn, threshold: int,
                          clusters: seq<seq<nat>>, ws: seq<Write>, done: set<string>)
    requires SinglePhase(rows, col, threshold, clusters, ws, done)
    requires forall p :: 0 <= p < |rows| ==> rows[p].directory in done
    ensures Clustered(clusters, |rows|) && Disjoint(clusters)
    ensures forall k :: 0 <= k < |clusters| ==> Distinct(clusters[k])
    ensures forall p :: 0 <= p < |rows| && IsImageRow(rows[p]) && HasHash(rows[p], col) ==> InSome(clusters, p)
  {
  }

  /** What the marking loops leave behind, read back through the map. */
  lemma MarkedFlags(rows: seq<MediaRow>, clusters: seq<seq<nat>>, ws: seq<Write>, done: set<string>)
    requires Marked(rows, clusters, ws, done)
    ensures forall k :: 0 <= k < |clusters| ==> IsImageRow(rows[clusters[k][0]])
    ensures forall p :: 0 <= p < |rows| && !IsImageRow(rows[p]) ==> !InSome(clusters, p)
    ensures UniquePaths(rows) ==> forall k, p :: 0 <= k < |clusters| && p in clusters[k] ==>
      (FlagsOf(rows, ApplyWrites(rows, ws))[p] <==> p == Rep(rows, clusters[k]))
    ensures UniquePaths(rows) ==> forall p :: 0 <= p < |rows| && !InSome(clusters, p) ==> FlagsOf(rows, ApplyWrites(rows, ws))[p]
  {
    var flags := FlagsOf(rows, ApplyWrites(rows, ws));
    forall p | 0 <= p < |rows| && !IsImageRow(rows[p]) ensures !InSome(clusters, p) {
      forall k | 0 <= k < |clusters| ensures p !in clusters[k] {
        assert forall i :: 0 <= i < |clusters[k]| ==> IsImageRow(rows[clusters[k][i]]);
      }
    }
    if UniquePaths(rows) {
      forall p | 0 <= p < |rows| ensures flags[p] == PathRep(rows, clusters, p) {
        FlagsFollowPathRep(rows, ws, clusters, p);
      }
      RepFlags(rows, clusters, flags);
    }
  }

  /** With unique paths, the flags that follow `PathRep` mark exactly the
      representative of each cluster and every row outside the clusters. */
  lemma RepFlags(rows: seq<MediaRow>, cs: seq<seq<nat>>, flags: seq<bool>)
    requires UniquePaths(rows) && |flags| == |rows|
    requires Clustered(cs, |rows|)
    requires Disjoint(cs)
    requires forall p :: 0 <= p < |rows| ==> flags[p] == PathRep(rows, cs, p)
    ensures forall k, p :: 0 <= k < |cs| && p in cs[k] ==> (flags[p] <==> p == Rep(rows, cs[k]))
    ensures forall p :: 0 <= p < |rows| && !InSome(cs, p) ==> flags[p]
  {
    forall k, p | 0 <= k < |cs| && p in cs[k] ensures p < |rows| && (flags[p] <==> p == Rep(rows, cs[k])) {
      var i :| 0 <= i < |cs[k]| && cs[k][i] == p;
      PathRepIsRep(rows, cs, p);
      forall j | 0 <= j < |cs| && j != k ensures p !in cs[j] {
        if j < k {
          assert p !in cs[j];
        }
      }
    }
  }

  // ---------------------------------------------------------------------------
  // Two-phase deduplication
  // ---------------------------------------------------------------------------

  /** `c` is what phase 2 made of the phase-1 cluster `src`: a cluster of one
      passes through unchanged; a larger one is re-clustered by pHash, so `c`
      holds members of `src` that carry a pHash, keeps every pHash-near member
      of `src`, and each of its members is pHash-near an earlier one. */
  predicate Refined(rows: seq<MediaRow>, tp: int, src: seq<nat>, c: seq<nat>)
    requires InRange(src, |rows|) && InRange(c, |rows|)
  {
    && (forall i :: 0 <= i < |c| ==> c[i] in src)
    && if |src| <= 1 then c == src
       else
         && (forall i :: 0 <= i < |c| ==> HasHash(rows[c[i]], PHash))
         && (forall i, q :: 0 <= i < |c| && q in src && Near(rows, PHash, tp, c[i], q) ==> q in c)
         && Chained(rows, PHash, tp, c)
  }

  /** Every member of `src` that phase 2 keeps: all of a cluster of one, and
      the members with a pHash of a larger one. */
  predicate Kept(rows: seq<MediaRow>, src: seq<nat>, p: nat)
    requires p < |rows|
  {
    p in src && (|src| <= 1 || HasHash(rows[p], PHash))
  }

  /** The state of the phase-2 loop over the phase-1 clusters `dcs` of one
      directory, after the first `j` of them. */
  ghost predicate RefineState(rows: seq<MediaRow>, tp: int, d: string, dcs: seq<seq<nat>>,
                              final: seq<seq<nat>>, from: seq<nat>, j: int)
  {
    && 0 <= j <= |dcs| && DirClusters(rows, dcs, d) && Clustered(dcs, |rows|)
    && DirClusters(rows, final, d) && Clustered(final, |rows|) && |from| == |final|
    && (forall k :: 0 <= k < |final| ==> from[k] < j && Refined(rows, tp, dcs[from[k]], final[k]))
    && (forall jj, p :: 0 <= jj < j && 0 <= p < |rows| && Kept(rows, dcs[jj], p) ==> InSome(final, p))
  }

  /** Adding what phase 2 made of `dcs[j]` keeps `RefineState`. */
  lemma AppendRefined(rows: seq<MediaRow>, tp: int, d: string, dcs: seq<seq<nat>>,
                      final: seq<seq<nat>>, from: seq<nat>, j: int, sub: seq<seq<nat>>)
    requires RefineState(rows, tp, d, dcs, final, from, j) && j < |dcs|
    requires Clustered(sub, |rows|) && Disjoint(sub)
    requires forall k :: 0 <= k < |sub| ==> Distinct(sub[k]) && Refined(rows, tp, dcs[j], sub[k])
    requires forall p :: 0 <= p < |rows| && Kept(rows, dcs[j], p) ==> InSome(sub, p)
    ensures RefineState(rows, tp, d, dcs, final + sub, from + seq(|sub|, _ => j), j + 1)
  {
    var final' := final + sub;
    var from' := from + seq(|sub|, _ => j);
    assert forall k :: 0 <= k < |final| ==> final'[k] == final[k] && from'[k] == from[k];
    assert forall k :: 0 <= k < |sub| ==> final'[|final| + k] == sub[k] && from'[|final| + k] == j;
    // members of `final` lie in earlier phase-1 clusters, which `dcs[j]` does not meet
    forall a, b, p | 0 <= a < b < |final'| && p in final'[a] ensures p !in final'[b] {
      if a < |final| && b >= |final| {
        var i :| 0 <= i < |final[a]| && final[a][i] == p;
        assert p in dcs[from[a]];
      }
    }
    forall k | 0 <= k < |final'| ensures |final'[k]| > 0 && Distinct(final'[k]) && InDir(rows, final'[k], d, true) {
      if k >= |final| {
        var c := sub[k - |final|];
        forall i | 0 <= i < |c| ensures rows[c[i]].directory == d && IsImageRow(rows[c[i]]) {
          var i' :| 0 <= i' < |dcs[j]| && dcs[j][i'] == c[i];
        }
      }
    }
    forall jj, p | 0 <= jj < j + 1 && 0 <= p < |rows| && Kept(rows, dcs[jj], p) ensures InSome(final', p) {
      InSomeAppend(final, sub, p);
    }
  }

  /** Phase 2 on one phase-1 cluster `src`. */
  method RefineCluster(rows: seq<MediaRow>, tp: int, src: seq<nat>) returns (sub: seq<seq<nat>>)
    requires |src| > 0 && InRange(src, |rows|) && Distinct(src)
    ensures Clustered(sub, |rows|) && Disjoint(sub)
    ensures forall k :: 0 <= k < |sub| ==> Distinct(sub[k]) && Refined(rows, tp, src, sub[k])
    ensures forall p :: 0 <= p < |rows| && Kept(rows, src, p) ==> InSome(sub, p)
  {
    if |src| <= 1 {
      sub := [src];
      forall p | 0 <= p < |rows| && Kept(rows, src, p) ensures InSome(sub, p) {
        assert p in sub[0];
      }
    } else {
      sub := ClusterPositions(rows, src, PHash, tp);
      ClustersRefine(rows, tp, src, sub);
    }
  }

  /** The pHash clusters of a phase-1 cluster of two or more rows refine it
      and hold every member with a pHash. */
  lemma ClustersRefine(rows: seq<MediaRow>, tp: int, src: seq<nat>, sub: seq<seq<nat>>)
    requires |src| > 1 && InRange(src, |rows|)
    requires PositionClusters(rows, src, PHash, tp, sub)
    ensures Clustered(sub, |rows|) && Disjoint(sub)
    ensures forall k :: 0 <= k < |sub| ==> Distinct(sub[k]) && Refined(rows, tp, src, sub[k])
    ensures forall p :: 0 <= p < |rows| && Kept(rows, src, p) ==> InSome(sub, p)
  {
    PartitionShape(rows, src, PHash, sub);
    PartitionCoversKept(rows, tp, src, sub);
    forall k | 0 <= k < |sub| ensures Refined(rows, tp, src, sub[k]) {
      SubclusterRefines(rows, tp, src, sub[k]);
    }
  }

  /** The pHash clusters of a cluster are non-empty, disjoint, duplicate-free
      clusters of the table. */
  lemma PartitionShape(rows: seq<MediaRow>, src: seq<nat>, col: HashColumn, sub: seq<seq<nat>>)
    requires InRange(src, |rows|)
    requires PositionPartition(rows, src, col, sub)
    ensures Clustered(sub, |rows|) && Disjoint(sub)
    ensures forall k :: 0 <= k < |sub| ==> Distinct(sub[k])
  {
    forall k | 0 <= k < |sub| ensures InRange(sub[k], |rows|) {
      forall i | 0 <= i < |sub[k]| ensures sub[k][i] < |rows| {
        var p := sub[k][i];
        assert p in sub[k];
        assert p in src;
      }
    }
  }

  /** Every member of a cluster of two or more rows that carries a pHash is in
      one of its pHash clusters. */
  lemma PartitionCoversKept(rows: seq<MediaRow>, tp: int, src: seq<nat>, sub: seq<seq<nat>>)
    requires |src| > 1 && InRange(src, |rows|)
    requires PositionPartition(rows, src, PHash, sub)
    ensures forall p :: 0 <= p < |rows| && Kept(rows, src, p) ==> InSome(sub, p)
  {
  }

  /** One pHash cluster of a phase-1 cluster of two or more rows refines it. */
  lemma SubclusterRefines(rows: seq<MediaRow>, tp: int, src: seq<nat>, c: seq<nat>)
    requires |src| > 1 && InRange(src, |rows|)
    requires forall p: nat :: p in c ==> p in src && p < |rows| && HasHash(rows[p], PHash)
    requires forall p: nat, q: nat :: p in c && q in src && Near(rows, PHash, tp, p, q) ==> q in c
    requires forall m :: 0 < m < |c| ==> NearEarlier(rows, PHash, tp, c, m)
    ensures InRange(c, |rows|) && Refined(rows, tp, src, c)
  {
    forall i | 0 <= i < |c| ensures c[i] in src && c[i] < |rows| && HasHash(rows[c[i]], PHash) {
      assert c[i] in c;
    }
    forall i, q | 0 <= i < |c| && q in src && Near(rows, PHash, tp, c[i], q) ensures q in c {
      assert c[i] in c;
    }
  }

  /** One directory of `dedupe_two_phase`: the dHash clusters of its images,
      then each refined by pHash. */
  method RefineDirectory(rows: seq<MediaRow>, td: int, tp: int, d: string)
    returns (dcs: seq<seq<nat>>, final: seq<seq<nat>>, ghost from: seq<nat>)
    ensures DirClusters(rows, dcs, d) && Clustered(dcs, |rows|)
    ensures forall k :: 0 <= k < |dcs| ==> HashCluster(rows, DHash, td, dcs[k])
    ensures Covers(rows, DHash, dcs, {d})
    ensures RefineState(rows, tp, d, dcs, final, from, |dcs|)
  {
    dcs := DirectoryClusters(rows, DHash, td, d);
    final := [];
    from := [];
    for j := 0 to |dcs|
      invariant RefineState(rows, tp, d, dcs, final, from, j)
    {
      assert InDir(rows, dcs[j], d, true) && |dcs[j]| > 0 && Distinct(dcs[j]);
      var sub := RefineCluster(rows, tp, dcs[j]);
      AppendRefined(rows, tp, d, dcs, final, from, j, sub);
      final := final + sub;
      from := from + seq(|sub|, _ => j);
    }
  }

  /** `c` is what phase 2 made of some phase-1 cluster. */
  predicate RefinesSome(rows: seq<MediaRow>, tp: int, phase1: seq<seq<nat>>, c: seq<nat>)
    requires Clustered(phase1, |rows|) && InRange(c, |rows|)
  {
    exists j :: 0 <= j < |phase1| && Refined(rows, tp, phase1[j], c)
  }

  /** The state of the directory loop of `dedupe_two_phase` after the
      directories `done`; `from[k]` is the phase-1 cluster `clusters[k]` came
      from. */
  ghost predicate TwoPhase(rows: seq<MediaRow>, td: int, tp: int, phase1: seq<seq<nat>>,
                           clusters: seq<seq<nat>>, ws: seq<Write>, from: seq<nat>, done: set<string>)
  {
    && Marked(rows, clusters, ws, done)
    && ClustersIn(rows, phase1, done)
    && (forall k :: 0 <= k < |phase1| ==> HashCluster(rows, DHash, td, phase1[k]))
    && Covers(rows, DHash, phase1, done)
    && |from| == |clusters|
    && (forall k :: 0 <= k < |clusters| ==> from[k] < |phase1| && Refined(rows, tp, phase1[from[k]], clusters[k]))
    && (forall j, p :: 0 <= j < |phase1| && 0 <= p < |rows| && Kept(rows, phase1[j], p) ==> InSome(clusters, p))
  }

  /** The phase-2 bookkeeping of one more directory. */
  lemma AppendRefinements(rows: seq<MediaRow>, tp: int, d: string, phase1: seq<seq<nat>>, clusters: seq<seq<nat>>,
                          from: seq<nat>, dcs: seq<seq<nat>>, final: seq<seq<nat>>, local: seq<nat>)
    requires Clustered(phase1, |rows|) && Clustered(clusters, |rows|) && |from| == |clusters|
    requires forall k :: 0 <= k < |clusters| ==> from[k] < |phase1| && Refined(rows, tp, phase1[from[k]], clusters[k])
    requires forall j, p :: 0 <= j < |phase1| && 0 <= p < |rows| && Kept(rows, phase1[j], p) ==> InSome(clusters, p)
    requires RefineState(rows, tp, d, dcs, final, local, |dcs|)
    ensures Clustered(phase1 + dcs, |rows|) && Clustered(clusters + final, |rows|)
    ensures forall k :: 0 <= k < |clusters + final| ==>
      (from + seq(|local|, k requires 0 <= k < |local| => |phase1| + local[k]))[k] < |phase1 + dcs| &&
      Refined(rows, tp, (phase1 + dcs)[(from + seq(|local|, k requires 0 <= k < |local| => |phase1| + local[k]))[k]], (clusters + final)[k])
    ensures forall j, p :: 0 <= j < |phase1 + dcs| && 0 <= p < |rows| && Kept(rows, (phase1 + dcs)[j], p) ==> InSome(clusters + final, p)
  {
    var p1 := phase1 + dcs;
    var cl := clusters + final;
    var fr := from + seq(|local|, k requires 0 <= k < |local| => |phase1| + local[k]);
    assert forall k :: 0 <= k < |phase1| ==> p1[k] == phase1[k];
    assert forall k :: 0 <= k < |dcs| ==> p1[|phase1| + k] == dcs[k];
    assert forall k :: 0 <= k < |clusters| ==> cl[k] == clusters[k] && fr[k] == from[k];
    assert forall k :: 0 <= k < |final| ==> cl[|clusters| + k] == final[k] && fr[|clusters| + k] == |phase1| + local[k];
    forall j, p | 0 <= j < |p1| && 0 <= p < |rows| && Kept(rows, p1[j], p) ensures InSome(cl, p) {
      InSomeAppend(clusters, final, p);
      if j >= |phase1| {
        assert Kept(rows, dcs[j - |phase1|], p);
      }
    }
  }

  /** One pass of the directory loop of `dedupe_two_phase`. */
  method MarkDirectoryTwoPhase(rows: seq<MediaRow>, td: int, tp: int, phase1: seq<seq<nat>>, clusters: seq<seq<nat>>,
                               ws: seq<Write>, ghost from: seq<nat>, ghost done: set<string>, d: string)
    returns (phase1': seq<seq<nat>>, clusters': seq<seq<nat>>, ws': seq<Write>, ghost from': seq<nat>)
    requires TwoPhase(rows, td, tp, phase1, clusters, ws, from, done) && d !in done
    ensures TwoPhase(rows, td, tp, phase1', clusters', ws', from', done + {d})
  {
    var dcs, final, local := RefineDirectory(rows, td, tp, d);
    var others := DirRows(rows, d, false);
    AppendGroup(rows, clusters, ws, done, d, final, others);
    AppendClusters(rows, phase1, done, d, dcs);
    AppendHashClusters(rows, DHash, td, phase1, done, d, dcs);
    AppendRefinements(rows, tp, d, phase1, clusters, from, dcs, final, local);
    phase1' := phase1 + dcs;
    clusters' := clusters + final;
    ws' := ws + ClustersWrites(rows, final) + OtherWrites(others);
    from' := from + seq(|local|, k requires 0 <= k < |local| => |phase1| + local[k]);
  }

  /** `dedupe_two_phase`: the name of the table written, the dHash clusters of
      phase 1, the final clusters of phase 2 and the `is_representative` flag
      of every row, in table order. */
  method DedupeTwoPhase(rows: seq<MediaRow>, source: string, td: int, tp: int, target: Option<string>)
    returns (table: string, phase1: seq<seq<nat>>, clusters: seq<seq<nat>>, flags: seq<bool>)
    ensures target.None? ==> table == source + "_deduped_dhash_phash"
    ensures target.Some? ==> table == target.value
    ensures |flags| == |rows|
    ensures Clustered(phase1, |rows|) && Disjoint(phase1)
    ensures forall k :: 0 <= k < |phase1| ==> HashCluster(rows, DHash, td, phase1[k])
    ensures forall p :: 0 <= p < |rows| && IsImageRow(rows[p]) && HasHash(rows[p], DHash) ==> InSome(phase1, p)
    ensures Clustered(clusters, |rows|) && Disjoint(clusters)
    ensures forall k :: 0 <= k < |clusters| ==> Distinct(clusters[k]) && RefinesSome(rows, tp, phase1, clusters[k])
    ensures forall j, p :: 0 <= j < |phase1| && 0 <= p < |rows| && Kept(rows, phase1[j], p) ==> InSome(clusters, p)
    ensures UniquePaths(rows) ==> forall k, p :: 0 <= k < |clusters| && p in clusters[k] ==> (flags[p] <==> p == Rep(rows, clusters[k]))
    ensures UniquePaths(rows) ==> forall p :: 0 <= p < |rows| && !InSome(clusters, p) ==> flags[p]
    ensures UniquePaths(rows) ==> forall p :: 0 <= p < |rows| && !IsImageRow(rows[p]) ==> flags[p]
  {
    table := if target.Some? then target.value else source + "_deduped_dhash_phash";
    var ws: seq<Write>;
    ghost var from: seq<nat>;
    ghost var done: set<string>;
    phase1, clusters, ws, from, done := MarkAllTwoPhase(rows, td, tp);
    flags := FlagsOf(rows, ApplyWrites(rows, ws));
    MarkedFlags(rows, clusters, ws, done);
    TwoPhaseDone(rows, td, tp, phase1, clusters, ws, from, done);
  }

  /** The directory loop of `dedupe_two_phase`. */
  method MarkAllTwoPhase(rows: seq<MediaRow>, td: int, tp: int)
    returns (phase1: seq<seq<nat>>, clusters: seq<seq<nat>>, ws: seq<Write>, ghost from: seq<nat>, ghost done: set<string>)
    ensures TwoPhase(rows, td, tp, phase1, clusters, ws, from, done)
    ensures forall p :: 0 <= p < |rows| ==> rows[p].directory in done
  {
    var dirs := Directories(rows);
    phase1, clusters := [], [];
    ws := [];
    from := [];
    done := {};
    TwoPhaseStart(rows, td, tp);
    for g := 0 to |dirs|
      invariant done == Elems(dirs[..g])
      invariant TwoPhase(rows, td, tp, phase1, clusters, ws, from, done)
    {
      NextDirectory(dirs, g);
      phase1, clusters, ws, from := MarkDirectoryTwoPhase(rows, td, tp, phase1, clusters, ws, from, done, dirs[g]);
      done := done + {dirs[g]};
    }
    AllDirectories(rows, dirs);
  }

  lemma TwoPhaseStart(rows: seq<MediaRow>, td: int, tp: int)
    ensures TwoPhase(rows, td, tp, [], [], [], [], {})
  {
  }

  /** The next directory of the loop is not done yet. */
  lemma NextDirectory(dirs: seq<string>, g: nat)
    requires Distinct(dirs) && g < |dirs|
    ensures dirs[g] !in Elems(dirs[..g])
    ensures Elems(dirs[..g + 1]) == Elems(dirs[..g]) + {dirs[g]}
  {
    forall h | 0 <= h < g ensures dirs[..g][h] != dirs[g] {
      assert dirs[..g][h] == dirs[h];
    }
    assert dirs[..g + 1] == dirs[..g] + [dirs[g]];
  }

  /** After the loop, every row's directory is done. */
  lemma AllDirectories(rows: seq<MediaRow>, dirs: seq<string>)
    requires dirs == Directories(rows)
    ensures forall p :: 0 <= p < |rows| ==> rows[p].directory in Elems(dirs[..|dirs|])
  {
    assert dirs[..|dirs|] == dirs;
  }

  lemma TwoPhaseDone(rows: seq<MediaRow>, td: int, tp: int, phase1: seq<seq<nat>>,
                     clusters: seq<seq<nat>>, ws: seq<Write>, from: seq<nat>, done: set<string>)
    requires TwoPhase(rows, td, tp, phase1, clusters, ws, from, done)
    requires forall p :: 0 <= p < |rows| ==> rows[p].directory in done
    ensures Clustered(phase1, |rows|) && Disjoint(phase1)
    ensures forall p :: 0 <= p < |rows| && IsImageRow(rows[p]) && HasHash(rows[p], DHash) ==> InSome(phase1, p)
    ensures Clustered(clusters, |rows|) && Disjoint(clusters)
    ensures forall k :: 0 <= k < |clusters| ==> Distinct(clusters[k]) && RefinesSome(rows, tp, phase1, clusters[k])
  {
  }
}
