/** Near-duplicate clustering as connected components.

    Both clustering routines of the deduper, the one over hash strings read from
    the database and the one over integer hashes of image files, build the same
    adjacency lists from every pair `i < j` of their input, then run the same
    breadth-first search: nodes are visited in input order, and every node not
    yet visited starts a new cluster holding everything reachable from it. This
    module models both steps once, over any node type. */
module Components {

  // ---------------------------------------------------------------------------
  // Sequences as sets
  // ---------------------------------------------------------------------------

  function Elems<T(==)>(s: seq<T>): set<T> {
    set x | x in s
  }

  predicate Distinct<T(==)>(s: seq<T>) {
    forall i, j :: 0 <= i < j < |s| ==> s[i] != s[j]
  }

  /** The index of the first occurrence of `x` in `s`, or `|s|` when there is
      none. */
  function Pos<T(==)>(s: seq<T>, x: T): (r: nat)
    ensures r <= |s|
    ensures r < |s| <==> x in s
    ensures r < |s| ==> s[r] == x
    ensures forall k :: 0 <= k < r ==> s[k] != x
  {
    if |s| == 0 then 0
    else if s[0] == x then 0
    else 1 + Pos(s[1..], x)
  }

  /** Everything that appears in some cluster. */
  ghost function Members<T>(cs: seq<seq<T>>): set<T> {
    if |cs| == 0 then {} else Members(cs[..|cs| - 1]) + Elems(cs[|cs| - 1])
  }

  lemma {:induction false} MembersIff<T>(cs: seq<seq<T>>, p: T)
    ensures p in Members(cs) <==> exists k :: 0 <= k < |cs| && p in cs[k]
    decreases |cs|
  {
    if |cs| > 0 {
      MembersIff(cs[..|cs| - 1], p);
      if p in Members(cs[..|cs| - 1]) {
        var k :| 0 <= k < |cs| - 1 && p in cs[..|cs| - 1][k];
        assert p in cs[k];
      }
      if exists k :: 0 <= k < |cs| && p in cs[k] {
        var k :| 0 <= k < |cs| && p in cs[k];
        if k < |cs| - 1 {
          assert p in cs[..|cs| - 1][k];
        }
      }
    }
  }

  lemma MembersAppend<T>(cs: seq<seq<T>>, c: seq<T>)
    ensures Members(cs + [c]) == Members(cs) + Elems(c)
  {
    assert (cs + [c])[..|cs|] == cs;
  }

  // ---------------------------------------------------------------------------
  // Adjacency
  // ---------------------------------------------------------------------------

  /** Some pair `i < j` of `nodes` is near and has `p` and `q` as its two ends,
      in either order. */
  predicate Linked<T(==)>(nodes: seq<T>, near: (T, T) -> bool, p: T, q: T) {
    exists i, j :: 0 <= i < j < |nodes| && Ends(nodes, near, i, j, p, q)
  }

  predicate Ends<T(==)>(nodes: seq<T>, near: (T, T) -> bool, i: int, j: int, p: T, q: T)
    requires 0 <= i < j < |nodes|
  {
    near(nodes[i], nodes[j]) && ((nodes[i] == p && nodes[j] == q) || (nodes[i] == q && nodes[j] == p))
  }

  /** `Linked`, restricted to the pairs the nested loops have reached before
      the pair `(a, b)`. */
  predicate LinkedBefore<T(==)>(nodes: seq<T>, near: (T, T) -> bool, p: T, q: T, a: int, b: int) {
    exists i, j :: 0 <= i < j < |nodes| && (i < a || (i == a && j < b)) && Ends(nodes, near, i, j, p, q)
  }

  /** `q` is in the adjacency list of `p`. */
  predicate Edge<T(==)>(adj: map<T, seq<T>>, p: T, q: T) {
    p in adj && q in adj[p]
  }

  /** Every edge goes both ways, so every neighbour is a key too. */
  predicate Symmetric<T(==)>(adj: map<T, seq<T>>) {
    forall p, q :: p in adj && q in adj[p] ==> Edge(adj, q, p)
  }

  /** The adjacency lists: `adj[p]` holds `q` exactly when some near pair has
      ends `p` and `q`; a node near itself, as a repeated input is, has a
      self-loop. Lists are in the order the nested loops append them. */
  method BuildAdjacency<T(==)>(nodes: seq<T>, near: (T, T) -> bool) returns (adj: map<T, seq<T>>)
    ensures adj.Keys == Elems(nodes)
    ensures forall p, q :: p in adj ==> (q in adj[p] <==> Linked(nodes, near, p, q))
    ensures Symmetric(adj)
  {
    adj := map p | p in Elems(nodes) :: [];
    var i := 0;
    while i < |nodes|
      invariant 0 <= i <= |nodes|
      invariant adj.Keys == Elems(nodes)
      invariant forall p, q :: p in adj ==> (q in adj[p] <==> LinkedBefore(nodes, near, p, q, i, i + 1))
    {
      var j := i + 1;
      while j < |nodes|
        invariant i + 1 <= j <= |nodes|
        invariant adj.Keys == Elems(nodes)
        invariant forall p, q :: p in adj ==> (q in adj[p] <==> LinkedBefore(nodes, near, p, q, i, j))
      {
        var a, b := nodes[i], nodes[j];
        if near(a, b) {
          adj := adj[a := adj[a] + [b]];
          adj := adj[b := adj[b] + [a]];
        }
        forall p, q | p in adj
          ensures q in adj[p] <==> LinkedBefore(nodes, near, p, q, i, j + 1)
        {
          LinkedBeforeStep(nodes, near, p, q, i, j);
        }
        j := j + 1;
      }
      forall p, q | p in adj
        ensures q in adj[p] <==> LinkedBefore(nodes, near, p, q, i + 1, i + 2)
      {
        LinkedBeforeRow(nodes, near, p, q, i);
      }
      i := i + 1;
    }
    forall p, q | p in adj ensures q in adj[p] <==> Linked(nodes, near, p, q) {
      if Linked(nodes, near, p, q) {
        var x, y :| 0 <= x < y < |nodes| && Ends(nodes, near, x, y, p, q);
        assert LinkedBefore(nodes, near, p, q, i, i + 1);
      }
    }
    forall p, q | p in adj && q in adj[p] ensures Edge(adj, q, p) {
      var x, y :| 0 <= x < y < |nodes| && Ends(nodes, near, x, y, p, q);
      assert nodes[x] in Elems(nodes) && nodes[y] in Elems(nodes);
      assert Ends(nodes, near, x, y, q, p);
    }
  }

  /** Passing the pair `(i, j)` adds exactly its own two ends. */
  lemma LinkedBeforeStep<T>(nodes: seq<T>, near: (T, T) -> bool, p: T, q: T, i: int, j: int)
    requires 0 <= i < j < |nodes|
    ensures LinkedBefore(nodes, near, p, q, i, j + 1)
        <==> LinkedBefore(nodes, near, p, q, i, j) || Ends(nodes, near, i, j, p, q)
  {
    if LinkedBefore(nodes, near, p, q, i, j + 1) {
      var x, y :| 0 <= x < y < |nodes| && (x < i || (x == i && y < j + 1)) && Ends(nodes, near, x, y, p, q);
      if !(x == i && y == j) {
        assert LinkedBefore(nodes, near, p, q, i, j);
      }
    }
  }

  /** Finishing row `i` is the same as starting row `i + 1`. */
  lemma LinkedBeforeRow<T>(nodes: seq<T>, near: (T, T) -> bool, p: T, q: T, i: int)
    requires 0 <= i < |nodes|
    ensures LinkedBefore(nodes, near, p, q, i, |nodes|)
        <==> LinkedBefore(nodes, near, p, q, i + 1, i + 2)
  {
    if LinkedBefore(nodes, near, p, q, i + 1, i + 2) {
      var x, y :| 0 <= x < y < |nodes| && (x < i + 1 || (x == i + 1 && y < i + 2)) && Ends(nodes, near, x, y, p, q);
      assert LinkedBefore(nodes, near, p, q, i, |nodes|);
    }
  }

  // ---------------------------------------------------------------------------
  // Breadth-first search
  // ---------------------------------------------------------------------------

  /** No edge leaves `c`. */
  predicate ClosedUnder<T(==)>(c: seq<T>, adj: map<T, seq<T>>) {
    forall p, q :: p in c && p in adj && q in adj[p] ==> q in c
  }

  /** Every member after the first is a neighbour of an earlier member: the
      order a breadth-first search discovers them in. */
  predicate Discovered<T(==)>(c: seq<T>, adj: map<T, seq<T>>) {
    forall k :: 0 < k < |c| ==> HasParent(c, adj, k)
  }

  predicate HasParent<T(==)>(c: seq<T>, adj: map<T, seq<T>>, k: int)
    requires 0 <= k < |c|
  {
    exists j :: 0 <= j < k && Edge(adj, c[j], c[k])
  }

  /** What one finished cluster satisfies. */
  predicate Component<T(==)>(c: seq<T>, adj: map<T, seq<T>>) {
    |c| > 0 && Distinct(c) && ClosedUnder(c, adj) && Discovered(c, adj)
  }

  predicate Disjoint<T(==)>(cs: seq<seq<T>>) {
    forall a, b, p :: 0 <= a < b < |cs| && p in cs[a] ==> p !in cs[b]
  }

  /** Each cluster opens with its member that comes first in `nodes`, and the
      clusters come in the order of their opening members. */
  predicate SeedOrdered<T(==)>(nodes: seq<T>, cs: seq<seq<T>>) {
    && (forall k, x :: 0 <= k < |cs| && x in cs[k] ==> Pos(nodes, cs[k][0]) <= Pos(nodes, x))
    && (forall a, b :: 0 <= a < b < |cs| && |cs[a]| > 0 && |cs[b]| > 0 ==> Pos(nodes, cs[a][0]) < Pos(nodes, cs[b][0]))
  }

  /** What the outer loop of the search knows after position `i`: every node
      before `i` is in some cluster, and the clusters so far are disjoint
      components ordered by seed. */
  ghost predicate Scanned<T>(nodes: seq<T>, adj: map<T, seq<T>>, clusters: seq<seq<T>>, visited: set<T>, i: int) {
    && 0 <= i <= |nodes|
    && visited == Members(clusters)
    && visited <= Elems(nodes)
    && (forall k :: 0 <= k < i ==> nodes[k] in visited)
    && (forall k :: 0 <= k < |clusters| ==> Component(clusters[k], adj) && Elems(clusters[k]) <= Elems(nodes))
    && Disjoint(clusters)
    && SeedOrdered(nodes, clusters)
    && (forall k :: 0 <= k < |clusters| ==> Pos(nodes, clusters[k][0]) < i)
  }

  /** The breadth-first search over `nodes`: returns the connected components
      of the symmetric adjacency `adj`, each in discovery order. */
  method ConnectedComponents<T(==)>(nodes: seq<T>, adj: map<T, seq<T>>) returns (clusters: seq<seq<T>>)
    requires adj.Keys == Elems(nodes)
    requires Symmetric(adj)
    ensures forall p :: p in nodes <==> exists k :: 0 <= k < |clusters| && p in clusters[k]
    ensures forall k :: 0 <= k < |clusters| ==> Component(clusters[k], adj) && Elems(clusters[k]) <= Elems(nodes)
    ensures Disjoint(clusters)
    ensures SeedOrdered(nodes, clusters)
  {
    var visited: set<T> := {};
    clusters := [];
    var i := 0;
    while i < |nodes|
      invariant Scanned(nodes, adj, clusters, visited, i)
    {
      var seed := nodes[i];
      if seed !in visited {
        var cluster := Explore(nodes, adj, clusters, visited, seed);
        AddCluster(nodes, adj, clusters, visited, i, cluster);
        clusters := clusters + [cluster];
        visited := visited + Elems(cluster);
      }
      i := i + 1;
    }
    forall p ensures p in nodes <==> exists k :: 0 <= k < |clusters| && p in clusters[k] {
      MembersIff(clusters, p);
      if p in nodes {
        assert nodes[Pos(nodes, p)] in visited;
      }
    }
  }

  /** Closing the cluster seeded at the first unvisited node advances the outer
      loop by one position. */
  lemma AddCluster<T>(nodes: seq<T>, adj: map<T, seq<T>>, clusters: seq<seq<T>>, visited: set<T>, i: int, cluster: seq<T>)
    requires Scanned(nodes, adj, clusters, visited, i) && i < |nodes| && nodes[i] !in visited
    requires Component(cluster, adj) && cluster[0] == nodes[i]
    requires Elems(cluster) <= Elems(nodes) && Elems(cluster) !! visited
    ensures Scanned(nodes, adj, clusters + [cluster], visited + Elems(cluster), i + 1)
  {
    forall k | 0 <= k < i ensures nodes[k] != nodes[i] {
      assert nodes[k] in visited;
    }
    assert Pos(nodes, cluster[0]) == i;
    assert forall x :: x in cluster ==> i <= Pos(nodes, x);
    forall a, p | 0 <= a < |clusters| && p in clusters[a] ensures p !in cluster {
      MembersIff(clusters, p);
    }
    AppendCluster(nodes, clusters, cluster, i);
    MembersAppend(clusters, cluster);
    var grown := clusters + [cluster];
    forall k | 0 <= k < |grown| ensures Component(grown[k], adj) && Elems(grown[k]) <= Elems(nodes) {
      if k < |clusters| {
        assert grown[k] == clusters[k];
      }
    }
    forall k | 0 <= k <= i ensures nodes[k] in visited + Elems(cluster) {
      if k == i {
        assert cluster[0] in Elems(cluster);
      }
    }
  }

  /** A new cluster seeded at position `i`, disjoint from the earlier ones and
      holding nothing from before position `i`, keeps the clusters disjoint and
      ordered by seed. */
  lemma AppendCluster<T>(nodes: seq<T>, cs: seq<seq<T>>, c: seq<T>, i: int)
    requires Disjoint(cs) && SeedOrdered(nodes, cs)
    requires forall k :: 0 <= k < |cs| ==> |cs[k]| > 0 && Pos(nodes, cs[k][0]) < i
    requires |c| > 0 && Pos(nodes, c[0]) == i
    requires forall x :: x in c ==> i <= Pos(nodes, x)
    requires forall a, p :: 0 <= a < |cs| && p in cs[a] ==> p !in c
    ensures Disjoint(cs + [c]) && SeedOrdered(nodes, cs + [c])
    ensures forall k :: 0 <= k < |cs + [c]| ==> |(cs + [c])[k]| > 0 && Pos(nodes, (cs + [c])[k][0]) < i + 1
  {
    AppendDisjoint(cs, c);
    AppendSeedOrdered(nodes, cs, c, i);
    AppendSeeds(nodes, cs, c, i);
  }

  lemma AppendDisjoint<T>(cs: seq<seq<T>>, c: seq<T>)
    requires Disjoint(cs)
    requires forall a, p :: 0 <= a < |cs| && p in cs[a] ==> p !in c
    ensures Disjoint(cs + [c])
  {
    var e := cs + [c];
    forall k | 0 <= k < |cs| ensures e[k] == cs[k] { }
  }

  lemma AppendSeedOrdered<T>(nodes: seq<T>, cs: seq<seq<T>>, c: seq<T>, i: int)
    requires SeedOrdered(nodes, cs)
    requires forall k :: 0 <= k < |cs| ==> |cs[k]| > 0 && Pos(nodes, cs[k][0]) < i
    requires |c| > 0 && Pos(nodes, c[0]) == i
    requires forall x :: x in c ==> i <= Pos(nodes, x)
    ensures SeedOrdered(nodes, cs + [c])
  {
    var e := cs + [c];
    forall k | 0 <= k < |cs| ensures e[k] == cs[k] { }
  }

  lemma AppendSeeds<T>(nodes: seq<T>, cs: seq<seq<T>>, c: seq<T>, i: int)
    requires forall k :: 0 <= k < |cs| ==> |cs[k]| > 0 && Pos(nodes, cs[k][0]) < i
    requires |c| > 0 && Pos(nodes, c[0]) == i
    ensures forall k :: 0 <= k < |cs + [c]| ==> |(cs + [c])[k]| > 0 && Pos(nodes, (cs + [c])[k][0]) < i + 1
  {
    var e := cs + [c];
    forall k | 0 <= k < |cs| ensures e[k] == cs[k] { }
  }

  /** The search state of one cluster: `cluster` holds the nodes already
      expanded, `queue` those discovered and waiting, both in discovery order,
      none of them in an earlier cluster. */
  ghost predicate Frontier<T>(nodes: seq<T>, adj: map<T, seq<T>>, visited0: set<T>, seed: T,
                                  cluster: seq<T>, queue: seq<T>, visited: set<T>)
  {
    && |cluster + queue| > 0 && (cluster + queue)[0] == seed
    && visited == visited0 + Elems(cluster + queue)
    && Elems(cluster + queue) !! visited0
    && Elems(cluster + queue) <= Elems(nodes)
    && Distinct(cluster + queue)
    && Discovered(cluster + queue, adj)
  }

  /** One cluster: the breadth-first search from `seed` through the nodes not
      in any earlier cluster. */
  method Explore<T(==)>(nodes: seq<T>, adj: map<T, seq<T>>, earlier: seq<seq<T>>, visited0: set<T>, seed: T)
      returns (cluster: seq<T>)
    requires adj.Keys == Elems(nodes)
    requires Symmetric(adj)
    requires visited0 == Members(earlier) && visited0 <= Elems(nodes)
    requires forall k :: 0 <= k < |earlier| ==> ClosedUnder(earlier[k], adj)
    requires seed in nodes && seed !in visited0
    ensures Component(cluster, adj) && cluster[0] == seed
    ensures Elems(cluster) <= Elems(nodes)
    ensures Elems(cluster) !! visited0
  {
    var visited := visited0 + {seed};
    cluster := [];
    var queue := [seed];
    while |queue| > 0
      invariant Frontier(nodes, adj, visited0, seed, cluster, queue, visited)
      invariant forall p, q :: p in cluster && Edge(adj, p, q) ==> q in visited
      decreases 2 * |Elems(nodes) - visited| + |queue|
    {
      var curr := queue[0];
      ShiftHead(cluster, queue);
      cluster := cluster + [curr];
      queue := queue[1..];
      ghost var before := visited;
      queue, visited := VisitNeighbours(nodes, adj, visited0, seed, cluster, queue, visited);
      forall p, q | p in cluster && Edge(adj, p, q) ensures q in visited {
        if p != curr {
          assert p in cluster[..|cluster| - 1];
          assert q in before;
        }
      }
    }
    assert cluster + queue == cluster;
    forall p, q | p in cluster && Edge(adj, p, q) ensures q in cluster {
      NoEdgeToEarlier(adj, earlier, p, q);
    }
  }

  /** Moving the head of the queue to the end of the cluster keeps the order
      of discovery. */
  lemma ShiftHead<T>(cluster: seq<T>, queue: seq<T>)
    requires |queue| > 0
    ensures (cluster + [queue[0]]) + queue[1..] == cluster + queue
  {
    assert queue == [queue[0]] + queue[1..];
  }

  /** Appends to the queue, in adjacency order, every neighbour of the node
      just expanded that was not yet visited. */
  method VisitNeighbours<T(==)>(nodes: seq<T>, adj: map<T, seq<T>>, visited0: set<T>, seed: T,
                                cluster: seq<T>, queue0: seq<T>, visited1: set<T>)
      returns (queue: seq<T>, visited: set<T>)
    requires adj.Keys == Elems(nodes)
    requires Symmetric(adj)
    requires |cluster| > 0 && cluster[|cluster| - 1] in adj
    requires Frontier(nodes, adj, visited0, seed, cluster, queue0, visited1)
    ensures Frontier(nodes, adj, visited0, seed, cluster, queue, visited)
    ensures visited1 <= visited
    ensures forall q :: Edge(adj, cluster[|cluster| - 1], q) ==> q in visited
    ensures 2 * |Elems(nodes) - visited| + |queue| < 2 * |Elems(nodes) - visited1| + |queue0| + 1
  {
    var curr := cluster[|cluster| - 1];
    var neighbours := adj[curr];
    queue, visited := queue0, visited1;
    var t := 0;
    while t < |neighbours|
      invariant 0 <= t <= |neighbours|
      invariant Frontier(nodes, adj, visited0, seed, cluster, queue, visited)
      invariant visited1 <= visited
      invariant forall s :: 0 <= s < t ==> neighbours[s] in visited
      invariant 2 * |Elems(nodes) - visited| + |queue| < 2 * |Elems(nodes) - visited1| + |queue0| + 1
    {
      ghost var prev := visited;
      queue, visited := VisitOne(nodes, adj, visited0, seed, cluster, queue, visited, neighbours[t]);
      StillVisited(neighbours, t, prev, visited);
      t := t + 1;
    }
  }

  /** The neighbours seen so far stay visited when the visited set grows by
      the next one. */
  lemma StillVisited<T>(neighbours: seq<T>, t: nat, prev: set<T>, visited: set<T>)
    requires t < |neighbours|
    requires forall s :: 0 <= s < t ==> neighbours[s] in prev
    requires prev <= visited && neighbours[t] in visited
    ensures forall s :: 0 <= s < t + 1 ==> neighbours[s] in visited
  {
  }

  /** Queues one neighbour of the node just expanded unless it was visited. */
  method VisitOne<T(==)>(nodes: seq<T>, adj: map<T, seq<T>>, visited0: set<T>, seed: T,
                         cluster: seq<T>, queue0: seq<T>, visited1: set<T>, nb: T)
      returns (queue: seq<T>, visited: set<T>)
    requires adj.Keys == Elems(nodes)
    requires Symmetric(adj)
    requires |cluster| > 0 && Edge(adj, cluster[|cluster| - 1], nb)
    requires Frontier(nodes, adj, visited0, seed, cluster, queue0, visited1)
    ensures Frontier(nodes, adj, visited0, seed, cluster, queue, visited)
    ensures visited1 <= visited && nb in visited
    ensures 2 * |Elems(nodes) - visited| + |queue| <= 2 * |Elems(nodes) - visited1| + |queue0|
  {
    queue, visited := queue0, visited1;
    if nb !in visited {
      Push(nodes, adj, visited0, seed, cluster, queue, visited, nb);
      queue := queue + [nb];
      visited := visited + {nb};
    }
  }

  /** Discovering a neighbour of the node just expanded keeps the search state
      and leaves one node fewer unvisited. */
  lemma Push<T>(nodes: seq<T>, adj: map<T, seq<T>>, visited0: set<T>, seed: T,
                cluster: seq<T>, queue: seq<T>, visited: set<T>, nb: T)
    requires adj.Keys == Elems(nodes)
    requires Symmetric(adj)
    requires |cluster| > 0 && Edge(adj, cluster[|cluster| - 1], nb) && nb !in visited
    requires Frontier(nodes, adj, visited0, seed, cluster, queue, visited)
    ensures Frontier(nodes, adj, visited0, seed, cluster, queue + [nb], visited + {nb})
    ensures |Elems(nodes) - (visited + {nb})| == |Elems(nodes) - visited| - 1
  {
    var curr := cluster[|cluster| - 1];
    assert Edge(adj, nb, curr);
    DiscoverNext(cluster + queue, adj, curr, nb, |cluster| - 1);
    assert (cluster + queue) + [nb] == cluster + (queue + [nb]);
    assert Elems(nodes) - (visited + {nb}) == (Elems(nodes) - visited) - {nb};
  }

  /** A neighbour of a node outside every earlier cluster is itself outside
      them: the earlier clusters are closed and edges go both ways. */
  lemma NoEdgeToEarlier<T>(adj: map<T, seq<T>>, earlier: seq<seq<T>>, p: T, q: T)
    requires Symmetric(adj)
    requires forall k :: 0 <= k < |earlier| ==> ClosedUnder(earlier[k], adj)
    requires Edge(adj, p, q) && p !in Members(earlier)
    ensures q !in Members(earlier)
  {
    MembersIff(earlier, q);
    MembersIff(earlier, p);
  }

  /** Appending a neighbour of a member keeps the discovery order. */
  lemma DiscoverNext<T>(d: seq<T>, adj: map<T, seq<T>>, curr: T, nb: T, at: int)
    requires Discovered(d, adj)
    requires 0 <= at < |d| && d[at] == curr && Edge(adj, curr, nb)
    ensures Discovered(d + [nb], adj)
  {
    var e := d + [nb];
    forall k | 0 < k < |e| ensures HasParent(e, adj, k) {
      if k == |d| {
        assert e[at] == curr && e[k] == nb;
        assert Edge(adj, e[at], e[k]);
      } else {
        assert HasParent(d, adj, k);
        var j :| 0 <= j < k && Edge(adj, d[j], d[k]);
        assert e[j] == d[j] && e[k] == d[k];
      }
    }
  }
}
