/** `group_directories`: splitting a list of directories among worker
    processes. */
module Grouping {
  import opened Wrappers

  /** The groups one after the other. */
  function Concat<T>(groups: seq<seq<T>>): seq<T> {
    if |groups| == 0 then [] else Concat(groups[..|groups| - 1]) + groups[|groups| - 1]
  }

  lemma ConcatAppend<T>(groups: seq<seq<T>>, g: seq<T>)
    ensures Concat(groups + [g]) == Concat(groups) + g
  {
    assert (groups + [g])[..|groups|] == groups;
  }

  /** Empty groups come only after every non-empty one. */
  predicate EmptyOnlyAtEnd<T>(groups: seq<seq<T>>) {
    forall i, j :: 0 <= i < j < |groups| && groups[i] == [] ==> groups[j] == []
  }

  /** Python's `s[i:j]` for bounds `0 <= i`: the part of `s[i..j]` that lies
      inside `s`, and empty once `i` is past the end. */
  function PySlice<T>(s: seq<T>, i: nat, j: nat): (r: seq<T>)
    ensures i < j && i < |s| ==> |r| > 0
  {
    if i >= |s| || j <= i then [] else s[i .. if j <= |s| then j else |s|]
  }

  /** `math.ceil(n / w)` for a positive `w`. */
  function CeilDiv(n: nat, w: nat): (r: nat)
    requires w > 0
    ensures r * w >= n && (r == 0 || (r - 1) * w < n)
  {
    var q := (n + w - 1) / w;
    assert n + w - 1 == q * w + (n + w - 1) % w;
    q
  }

  /** The group size for `n` directories and `w` workers. */
  function GroupSize(n: nat, w: nat): nat
    requires w > 0
  {
    CeilDiv(n, w)
  }

  /** `group_directories`: one group holding everything when there is no
      positive worker count; otherwise consecutive slices of `ceil(n / w)`
      directories, padded with empty groups up to `w`. With no directories and
      a positive worker count the step of `range` is zero, which raises. */
  method GroupDirectories<T>(directories: seq<T>, workers: int) returns (r: Result<seq<seq<T>>>)
    ensures workers <= 0 ==> r == Success([directories])
    ensures workers > 0 && |directories| == 0 ==> r.Failure? && r.error.ValueError?
    ensures workers > 0 && |directories| > 0 ==>
      && r.Success?
      && |r.value| == workers
      && Concat(r.value) == directories
      && (forall k :: 0 <= k < |r.value| ==> |r.value[k]| <= GroupSize(|directories|, workers))
      && EmptyOnlyAtEnd(r.value)
      && SlicedBy(r.value, directories, GroupSize(|directories|, workers))
  {
    if workers <= 0 {
      return Success([directories]);
    }
    if |directories| == 0 {
      return Failure(ValueError("range() arg 3 must not be zero"));
    }
    var groups := Spread(directories, workers);
    r := Success(groups);
  }

  /** The slicing and padding of `group_directories` for a positive worker
      count and at least one directory, where the group size is positive. */
  method Spread<T>(directories: seq<T>, workers: nat) returns (padded: seq<seq<T>>)
    requires workers > 0 && |directories| > 0
    ensures |padded| == workers
    ensures Concat(padded) == directories
    ensures forall k :: 0 <= k < |padded| ==> |padded[k]| <= GroupSize(|directories|, workers)
    ensures EmptyOnlyAtEnd(padded)
    ensures SlicedBy(padded, directories, GroupSize(|directories|, workers))
  {
    var n := |directories|;
    var size := GroupSize(n, workers);
    var groups := Slices(directories, size);
    FewEnoughGroups(n, workers, size, |groups|);
    padded := Pad(groups, workers);
    PaddedWithin(groups, padded, size);
    PaddedSliced(directories, groups, padded, size);
  }

  /** Group `k` is `directories[k * size : (k + 1) * size]`, as the `for`
      loop slices it; a padding group lies past the end and is empty. */
  ghost predicate SlicedBy<T>(groups: seq<seq<T>>, directories: seq<T>, size: nat) {
    forall k: nat :: k < |groups| ==> groups[k] == PySlice(directories, k * size, (k + 1) * size)
  }

  /** Padding the slices keeps every group the slice of its index. */
  lemma PaddedSliced<T>(directories: seq<T>, groups: seq<seq<T>>, padded: seq<seq<T>>, size: nat)
    requires SlicedBy(groups, directories, size) && |groups| * size >= |directories|
    requires |groups| <= |padded| && padded[..|groups|] == groups
    requires forall k :: |groups| <= k < |padded| ==> padded[k] == []
    ensures SlicedBy(padded, directories, size)
  {
    forall k: nat | k < |padded|
      ensures padded[k] == PySlice(directories, k * size, (k + 1) * size)
    {
      if k < |groups| {
        assert padded[k] == padded[..|groups|][k];
      } else {
        MulMonotone(|groups|, k, size);
      }
    }
  }

  /** The `for` loop of `group_directories`: consecutive slices of `size`
      directories, the last one possibly shorter. */
  method Slices<T>(directories: seq<T>, size: nat) returns (groups: seq<seq<T>>)
    requires size > 0
    ensures Concat(groups) == directories
    ensures forall k :: 0 <= k < |groups| ==> 0 < |groups[k]| <= size
    ensures |groups| == 0 || (|groups| - 1) * size < |directories|
    ensures |groups| * size >= |directories|
    ensures SlicedBy(groups, directories, size)
  {
    var n := |directories|;
    groups := [];
    var i := 0;
    while i < n
      invariant SliceLoop(directories, size, groups, i)
      decreases n - i
    {
      var j := if i + size <= n then i + size else n;
      SliceStep(directories, size, groups, i, j);
      groups := groups + [directories[i..j]];
      i := j;
    }
    assert directories[..n] == directories;
  }

  /** What the slicing loop knows after the first `i` directories. */
  ghost predicate SliceLoop<T>(directories: seq<T>, size: nat, groups: seq<seq<T>>, i: int) {
    && 0 <= i <= |directories|
    && Concat(groups) == directories[..i]
    && (forall k :: 0 <= k < |groups| ==> 0 < |groups[k]| <= size)
    && (i == |directories| || i == |groups| * size)
    && (|groups| == 0 || (|groups| - 1) * size < i)
    && i <= |groups| * size
    && SlicedBy(groups, directories, size)
  }

  /** One turn of the slicing loop keeps what it knows. */
  lemma SliceStep<T>(directories: seq<T>, size: nat, groups: seq<seq<T>>, i: int, j: int)
    requires size > 0 && SliceLoop(directories, size, groups, i) && i < |directories|
    requires j == if i + size <= |directories| then i + size else |directories|
    ensures SliceLoop(directories, size, groups + [directories[i..j]], j)
  {
    assert i == |groups| * size;
    assert (|groups| + 1) * size == |groups| * size + size;
    ConcatAppend(groups, directories[i..j]);
    assert directories[..i] + directories[i..j] == directories[..j];
    SlicedAppend(groups, directories, size, directories[i..j]);
  }

  /** The next slice after `|groups|` slices extends the slicing. */
  lemma SlicedAppend<T>(groups: seq<seq<T>>, directories: seq<T>, size: nat, g: seq<T>)
    requires SlicedBy(groups, directories, size)
    requires g == PySlice(directories, |groups| * size, (|groups| + 1) * size)
    ensures SlicedBy(groups + [g], directories, size)
  {
    var e := groups + [g];
    forall k: nat | k < |e|
      ensures e[k] == PySlice(directories, k * size, (k + 1) * size)
    {
      if k < |groups| {
        assert e[k] == groups[k];
      }
    }
  }

  /** The `while` loop of `group_directories`: empty groups appended up to
      `workers`. */
  method Pad<T>(groups: seq<seq<T>>, workers: int) returns (padded: seq<seq<T>>)
    requires forall k :: 0 <= k < |groups| ==> |groups[k]| > 0
    ensures |padded| == if |groups| < workers then workers else |groups|
    ensures padded[..|groups|] == groups
    ensures forall k :: |groups| <= k < |padded| ==> padded[k] == []
    ensures Concat(padded) == Concat(groups)
    ensures EmptyOnlyAtEnd(padded)
  {
    padded := groups;
    while |padded| < workers
      invariant |groups| <= |padded| && (|padded| <= workers || |padded| == |groups|)
      invariant padded[..|groups|] == groups
      invariant forall k :: |groups| <= k < |padded| ==> padded[k] == []
      invariant Concat(padded) == Concat(groups)
    {
      ConcatAppend(padded, []);
      assert (padded + [[]])[..|groups|] == padded[..|groups|];
      padded := padded + [[]];
    }
    assert forall k :: 0 <= k < |groups| ==> padded[k] == padded[..|groups|][k] == groups[k];
  }

  /** Padding with empty groups keeps every group within the size bound. */
  lemma PaddedWithin<T>(groups: seq<seq<T>>, padded: seq<seq<T>>, size: nat)
    requires |groups| <= |padded| && padded[..|groups|] == groups
    requires forall k :: 0 <= k < |groups| ==> |groups[k]| <= size
    requires forall k :: |groups| <= k < |padded| ==> padded[k] == []
    ensures forall k :: 0 <= k < |padded| ==> |padded[k]| <= size
  {
    forall k | 0 <= k < |padded| ensures |padded[k]| <= size {
      if k < |groups| {
        assert padded[k] == padded[..|groups|][k];
      }
    }
  }

  /** `ceil(n / size)` slices suffice, and no more than `w` are needed when
      `size` is `ceil(n / w)`. */
  lemma FewEnoughGroups(n: nat, w: nat, size: nat, count: nat)
    requires w > 0 && size == CeilDiv(n, w) && size > 0
    requires count == 0 || (count - 1) * size < n
    ensures count <= w
  {
    if count > w {
      assert (count - 1) * size >= w * size by {
        MulMonotone(w, count - 1, size);
      }
    }
  }

  lemma MulMonotone(a: nat, b: nat, c: nat)
    requires a <= b
    ensures a * c <= b * c
  {
  }
}
