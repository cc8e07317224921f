/** Python's `sorted(xs, key=...)`: a stable sort by an integer key.

    The scanner orders the files of a directory tree by filename priority before
    loading them, and the fetcher's reverse scan does the same before matching
    files against posts. Both rely on `sorted` keeping files of equal priority in
    their original order. */
module StableSort {

  predicate Sorted<T>(s: seq<T>, key: T -> int) {
    forall i, j :: 0 <= i < j < |s| ==> key(s[i]) <= key(s[j])
  }

  /** The elements of `s` whose key is `k`, in their order in `s`. */
  function WithKey<T>(s: seq<T>, key: T -> int, k: int): seq<T> {
    if |s| == 0 then []
    else WithKey(s[..|s| - 1], key, k) + (if key(s[|s| - 1]) == k then [s[|s| - 1]] else [])
  }

  /** Insert `x` into sorted `t` after every element whose key is at most
      `x`'s, so that `x` follows its earlier equals. */
  function Insert<T>(x: T, t: seq<T>, key: T -> int): (r: seq<T>)
    requires Sorted(t, key)
    ensures Sorted(r, key)
    ensures multiset(r) == multiset(t) + multiset{x}
    decreases |t|
  {
    if |t| == 0 || key(t[|t| - 1]) <= key(x) then t + [x]
    else
      var last := t[|t| - 1];
      var front := t[..|t| - 1];
      assert t == front + [last];
      var inner := Insert(x, front, key);
      assert forall j :: 0 <= j < |front| ==> key(front[j]) <= key(last) by {
        forall j | 0 <= j < |front| ensures key(front[j]) <= key(last) {
          assert t[j] == front[j];
        }
      }
      BoundCarries(inner, front, x, key, key(last));
      SortedSnoc(inner, last, key);
      inner + [last]
  }

  /** An element whose key bounds a sorted sequence's keys may follow it. */
  lemma SortedSnoc<T>(s: seq<T>, y: T, key: T -> int)
    requires Sorted(s, key)
    requires forall i :: 0 <= i < |s| ==> key(s[i]) <= key(y)
    ensures Sorted(s + [y], key)
  {
    var r := s + [y];
    forall i, j | 0 <= i < j < |r| ensures key(r[i]) <= key(r[j]) {
      assert r[i] == s[i];
    }
  }

  /** A bound on the keys of `t` and of `x` bounds every key of a
      rearrangement of `t` with `x` added. */
  lemma BoundCarries<T>(r: seq<T>, t: seq<T>, x: T, key: T -> int, bound: int)
    requires multiset(r) == multiset(t) + multiset{x}
    requires forall j :: 0 <= j < |t| ==> key(t[j]) <= bound
    requires key(x) <= bound
    ensures forall i :: 0 <= i < |r| ==> key(r[i]) <= bound
  {
    forall i | 0 <= i < |r| ensures key(r[i]) <= bound {
      assert r[i] in multiset(r);
      if r[i] != x {
        assert r[i] in multiset(t);
        var j :| 0 <= j < |t| && t[j] == r[i];
      }
    }
  }

  /** `sorted(s, key=key)`. */
  function SortByKey<T>(s: seq<T>, key: T -> int): (r: seq<T>)
    ensures Sorted(r, key)
    ensures multiset(r) == multiset(s)
    ensures |r| == |s|
    decreases |s|
  {
    if |s| == 0 then []
    else
      assert s == s[..|s| - 1] + [s[|s| - 1]];
      var r := Insert(s[|s| - 1], SortByKey(s[..|s| - 1], key), key);
      assert |r| == |multiset(r)|;
      r
  }

  /** Appending one element extends its own key class only. */
  lemma WithKeySnoc<T>(a: seq<T>, y: T, key: T -> int, k: int)
    ensures WithKey(a + [y], key, k) == WithKey(a, key, k) + (if key(y) == k then [y] else [])
  {
    assert (a + [y])[..|a|] == a;
  }

  lemma {:induction false} InsertWithKey<T>(x: T, t: seq<T>, key: T -> int, k: int)
    requires Sorted(t, key)
    ensures WithKey(Insert(x, t, key), key, k) == WithKey(t, key, k) + (if key(x) == k then [x] else [])
    decreases |t|
  {
    if |t| == 0 || key(t[|t| - 1]) <= key(x) {
      assert Insert(x, t, key) == t + [x];
      WithKeySnoc(t, x, key, k);
    } else {
      var last := t[|t| - 1];
      var front := t[..|t| - 1];
      assert t == front + [last];
      SortedFront(t, key);
      var inner := Insert(x, front, key);
      assert Insert(x, t, key) == inner + [last];
      InsertWithKey(x, front, key, k);
      WithKeySnoc(inner, last, key, k);
      WithKeySnoc(front, last, key, k);
      var w := WithKey(front, key, k);
      var lastPart := if key(last) == k then [last] else [];
      var xPart := if key(x) == k then [x] else [];
      assert WithKey(t, key, k) == w + lastPart;
      assert WithKey(inner + [last], key, k) == (w + xPart) + lastPart;
      if key(x) == k {
        assert lastPart == [];
        assert w + lastPart == w;
        assert (w + xPart) + lastPart == w + xPart;
      } else {
        assert xPart == [];
        assert w + xPart == w;
        assert WithKey(t, key, k) + xPart == WithKey(t, key, k);
      }
    }
  }

  /** Dropping the last element keeps a sequence sorted. */
  lemma SortedFront<T>(t: seq<T>, key: T -> int)
    requires Sorted(t, key) && |t| > 0
    ensures Sorted(t[..|t| - 1], key)
  {
    var front := t[..|t| - 1];
    forall i, j | 0 <= i < j < |front| ensures key(front[i]) <= key(front[j]) {
      assert front[i] == t[i] && front[j] == t[j];
    }
  }

  /** Stability and permutation in one: every key class of the result is the
      same subsequence, in the same order, as in the input. */
  lemma {:induction false} SortKeepsClasses<T>(s: seq<T>, key: T -> int, k: int)
    ensures WithKey(SortByKey(s, key), key, k) == WithKey(s, key, k)
    decreases |s|
  {
    if |s| > 0 {
      SortKeepsClasses(s[..|s| - 1], key, k);
      InsertWithKey(s[|s| - 1], SortByKey(s[..|s| - 1], key), key, k);
    }
  }
}
