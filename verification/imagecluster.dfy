/** The file-based near-duplicate finder: perceptual hashes as integers, their
    Hamming distance, the hash-method dispatch and `cluster_images`.

    The hash functions themselves (average, difference, perceptual and wavelet
    hashes of a decoded image) are foreign computations; they enter as the
    parameter `hashOf`, which maps a method and a path to the integer the
    method would return. */
module ImageCluster {
  import opened Wrappers
  import opened Text
  import opened Components

  // ---------------------------------------------------------------------------
  // Hamming distance of two integer hashes
  // ---------------------------------------------------------------------------

  /** `a ^ b` on non-negative integers, bit by bit. */
  function Xor(a: nat, b: nat): nat
    decreases a + b
  {
    if a == 0 && b == 0 then 0
    else 2 * Xor(a / 2, b / 2) + (if a % 2 != b % 2 then 1 else 0)
  }

  /** `bin(n).count('1')`. */
  function PopCount(n: nat): nat {
    if n == 0 then 0 else n % 2 + PopCount(n / 2)
  }

  /** `hamming_distance`: the number of bit positions where the hashes differ. */
  function HammingDistance(a: nat, b: nat): nat {
    PopCount(Xor(a, b))
  }

  lemma {:induction false} XorSymmetric(a: nat, b: nat)
    ensures Xor(a, b) == Xor(b, a)
    decreases a + b
  {
    if a != 0 || b != 0 {
      XorSymmetric(a / 2, b / 2);
    }
  }

  lemma {:induction false} XorZeroIff(a: nat, b: nat)
    ensures Xor(a, b) == 0 <==> a == b
    decreases a + b
  {
    if a != 0 || b != 0 {
      XorZeroIff(a / 2, b / 2);
    }
  }

  lemma {:induction false} PopCountZeroIff(n: nat)
    ensures PopCount(n) == 0 <==> n == 0
  {
    if n != 0 {
      PopCountZeroIff(n / 2);
    }
  }

  /** The distance is symmetric and is zero exactly for equal hashes. */
  lemma HammingMetric(a: nat, b: nat)
    ensures HammingDistance(a, b) == HammingDistance(b, a)
    ensures HammingDistance(a, b) == 0 <==> a == b
  {
    XorSymmetric(a, b);
    XorZeroIff(a, b);
    PopCountZeroIff(Xor(a, b));
  }

  // ---------------------------------------------------------------------------
  // The method dispatch
  // ---------------------------------------------------------------------------

  datatype HashMethod = AverageHash | DifferenceHash | PerceptualHash | WaveletHash {
    /** The lower-case name that selects the method. */
    function Name(): string {
      match this
      case AverageHash => "ahash"
      case DifferenceHash => "dhash"
      case PerceptualHash => "phash"
      case WaveletHash => "whash"
    }
  }

  /** The method `compute_hash` selects, matching `method.lower()`. */
  function ParseMethod(methodName: string): (r: Result<HashMethod>)
    ensures r.Success? <==> exists h: HashMethod :: h.Name() == Lower(methodName)
    ensures r.Success? ==> r.value.Name() == Lower(methodName)
    ensures r.Failure? ==> r.error == ValueError("Unknown hash method: " + methodName)
  {
    var m := Lower(methodName);
    if m == "ahash" then assert AverageHash.Name() == m; Success(AverageHash)
    else if m == "dhash" then assert DifferenceHash.Name() == m; Success(DifferenceHash)
    else if m == "phash" then assert PerceptualHash.Name() == m; Success(PerceptualHash)
    else if m == "whash" then assert WaveletHash.Name() == m; Success(WaveletHash)
    else Failure(ValueError("Unknown hash method: " + methodName))
  }

  /** `compute_hash`: the hash of the path by the selected method, or
      `ValueError` for an unknown method. */
  function ComputeHash(path: string, methodName: string, hashOf: (HashMethod, string) -> nat): (r: Result<nat>)
    ensures r.Success? <==> ParseMethod(methodName).Success?
    ensures r.Success? ==> r.value == hashOf(ParseMethod(methodName).value, path)
  {
    match ParseMethod(methodName)
    case Success(h) => Success(hashOf(h, path))
    case Failure(e) => Failure(e)
  }

  /** The selection ignores letter case: a lower-cased name selects the same
      method, and fails exactly when the original fails. */
  lemma ParseMethodIgnoresCase(methodName: string)
    ensures ParseMethod(Lower(methodName)).Success? <==> ParseMethod(methodName).Success?
    ensures ParseMethod(methodName).Success? ==> ParseMethod(Lower(methodName)) == ParseMethod(methodName)
  {
    LowerIdempotent(methodName);
  }

  /** Every method is selected by its own name in any letter case. */
  lemma ParseMethodName(h: HashMethod, methodName: string)
    requires Lower(methodName) == h.Name()
    ensures ParseMethod(methodName) == Success(h)
  {
  }

  // ---------------------------------------------------------------------------
  // Clustering
  // ---------------------------------------------------------------------------

  /** Two paths whose hashes are within the threshold. */
  predicate Similar(hashOf: (HashMethod, string) -> nat, h: HashMethod, threshold: int, p: string, q: string) {
    HammingDistance(hashOf(h, p), hashOf(h, q)) <= threshold
  }

  /** The member at index `m` of a cluster is similar to an earlier member. */
  predicate SimilarEarlier(hashOf: (HashMethod, string) -> nat, h: HashMethod, threshold: int, c: seq<string>, m: int)
    requires 0 <= m < |c|
  {
    exists j :: 0 <= j < m && Similar(hashOf, h, threshold, c[j], c[m])
  }

  /** Over the adjacency built from `Similar`, two different paths are
      neighbours exactly when they are similar. */
  lemma EdgeIffSimilar(paths: seq<string>, hashOf: (HashMethod, string) -> nat, h: HashMethod, threshold: int,
                       near: (string, string) -> bool, adj: map<string, seq<string>>, p: string, q: string)
    requires forall a, b :: near(a, b) == Similar(hashOf, h, threshold, a, b)
    requires forall a, b :: a in adj ==> (b in adj[a] <==> Linked(paths, near, a, b))
    requires p in paths && q in paths && p in adj && p != q
    ensures Edge(adj, p, q) <==> Similar(hashOf, h, threshold, p, q)
  {
    HammingMetric(hashOf(h, p), hashOf(h, q));
    if Edge(adj, p, q) {
      var i, j :| 0 <= i < j < |paths| && Ends(paths, near, i, j, p, q);
    }
    if Similar(hashOf, h, threshold, p, q) {
      var i, j := Pos(paths, p), Pos(paths, q);
      if i < j {
        assert Ends(paths, near, i, j, p, q);
      } else {
        assert Ends(paths, near, j, i, p, q);
      }
    }
  }

  /** Every path similar to a member of a component is in that component. */
  lemma SimilarClosed(paths: seq<string>, hashOf: (HashMethod, string) -> nat, h: HashMethod, threshold: int,
                      near: (string, string) -> bool, adj: map<string, seq<string>>, cs: seq<seq<string>>)
    requires forall a, b :: near(a, b) == Similar(hashOf, h, threshold, a, b)
    requires adj.Keys == Elems(paths)
    requires forall a, b :: a in adj ==> (b in adj[a] <==> Linked(paths, near, a, b))
    requires forall k :: 0 <= k < |cs| ==> ClosedUnder(cs[k], adj) && Elems(cs[k]) <= Elems(paths)
    ensures forall k, p, q :: 0 <= k < |cs| && p in cs[k] && q in paths && Similar(hashOf, h, threshold, p, q) ==> q in cs[k]
  {
    forall k, p, q | 0 <= k < |cs| && p in cs[k] && q in paths && Similar(hashOf, h, threshold, p, q)
      ensures q in cs[k]
    {
      assert p in Elems(cs[k]);
      if p != q {
        EdgeIffSimilar(paths, hashOf, h, threshold, near, adj, p, q);
      }
    }
  }

  /** Every member after the first is similar to an earlier member. */
  lemma SimilarConnected(paths: seq<string>, hashOf: (HashMethod, string) -> nat, h: HashMethod, threshold: int,
                         near: (string, string) -> bool, adj: map<string, seq<string>>, cs: seq<seq<string>>)
    requires forall a, b :: near(a, b) == Similar(hashOf, h, threshold, a, b)
    requires adj.Keys == Elems(paths)
    requires forall a, b :: a in adj ==> (b in adj[a] <==> Linked(paths, near, a, b))
    requires forall k :: 0 <= k < |cs| ==> Component(cs[k], adj) && Elems(cs[k]) <= Elems(paths)
    ensures forall k, m :: 0 <= k < |cs| && 0 < m < |cs[k]| ==> SimilarEarlier(hashOf, h, threshold, cs[k], m)
  {
    forall k, m | 0 <= k < |cs| && 0 < m < |cs[k]|
      ensures SimilarEarlier(hashOf, h, threshold, cs[k], m)
    {
      assert HasParent(cs[k], adj, m);
      var j :| 0 <= j < m && Edge(adj, cs[k][j], cs[k][m]);
      assert cs[k][j] in Elems(cs[k]) && cs[k][m] in Elems(cs[k]);
      assert cs[k][j] != cs[k][m];
      EdgeIffSimilar(paths, hashOf, h, threshold, near, adj, cs[k][j], cs[k][m]);
    }
  }

  /** What `cluster_images` promises of its clusters under method `h`: they
      cover exactly the input paths, each is non-empty and repeats no path, no
      two share a path, a path similar to a member belongs to the member's
      cluster, every member after the first is similar to an earlier one, and
      the clusters start in input order. */
  ghost predicate ImageClusters(paths: seq<string>, hashOf: (HashMethod, string) -> nat, h: HashMethod, threshold: int,
                          cs: seq<seq<string>>)
  {
    && (forall p :: p in paths <==> exists k :: 0 <= k < |cs| && p in cs[k])
    && (forall k :: 0 <= k < |cs| ==> |cs[k]| > 0 && Distinct(cs[k]))
    && Disjoint(cs)
    && (forall k, p, q :: 0 <= k < |cs| && p in cs[k] && q in paths && Similar(hashOf, h, threshold, p, q) ==> q in cs[k])
    && (forall k, m :: 0 <= k < |cs| && 0 < m < |cs[k]| ==> SimilarEarlier(hashOf, h, threshold, cs[k], m))
    && SeedOrdered(paths, cs)
  }

  /** The breadth-first components of the similarity graph are image
      clusters. */
  lemma ComponentsAreImageClusters(paths: seq<string>, hashOf: (HashMethod, string) -> nat, h: HashMethod, threshold: int,
                                   near: (string, string) -> bool, adj: map<string, seq<string>>, cs: seq<seq<string>>)
    requires forall a, b :: near(a, b) == Similar(hashOf, h, threshold, a, b)
    requires adj.Keys == Elems(paths)
    requires forall a, b :: a in adj ==> (b in adj[a] <==> Linked(paths, near, a, b))
    requires forall p :: p in paths <==> exists k :: 0 <= k < |cs| && p in cs[k]
    requires forall k :: 0 <= k < |cs| ==> Component(cs[k], adj) && Elems(cs[k]) <= Elems(paths)
    requires Disjoint(cs)
    requires SeedOrdered(paths, cs)
    ensures ImageClusters(paths, hashOf, h, threshold, cs)
  {
    SimilarClosed(paths, hashOf, h, threshold, near, adj, cs);
    SimilarConnected(paths, hashOf, h, threshold, near, adj, cs);
  }

  /** `cluster_images`: hash every path, link the pairs within the threshold,
      and return the connected components by breadth-first search in input
      order. An unknown method fails as soon as there is a path to hash. */
  method ClusterImages(paths: seq<string>, methodName: string, threshold: int, hashOf: (HashMethod, string) -> nat)
    returns (r: Result<seq<seq<string>>>)
    ensures r.Failure? <==> |paths| > 0 && ParseMethod(methodName).Failure?
    ensures r.Success? && |paths| == 0 ==> r.value == []
    ensures r.Success? && |paths| > 0 ==>
      ImageClusters(paths, hashOf, ParseMethod(methodName).value, threshold, r.value)
  {
    if |paths| == 0 {
      return Success([]);
    }
    var parsed := ParseMethod(methodName);
    if parsed.Failure? {
      return Failure(parsed.error);
    }
    var h := parsed.value;
    var near := (p: string, q: string) => Similar(hashOf, h, threshold, p, q);
    var adj := BuildAdjacency(paths, near);
    var cs := ConnectedComponents(paths, adj);
    ComponentsAreImageClusters(paths, hashOf, h, threshold, near, adj, cs);
    r := Success(cs);
  }
}
