/**
 * The order of constraint ids by row, as the GLPK backend keeps it: the id
 * at index i owns row i + 1. Removing constraints keeps the survivors in
 * their order and renumbers them densely.
 */
module RowOrder {
  import opened Wrappers

  /** No element occurs twice. */
  predicate Distinct<T(==)>(s: seq<T>) {
    forall i, j :: 0 <= i < j < |s| ==> s[i] != s[j]
  }

  /** The elements of s that are not in d, in their order. */
  function Without(s: seq<int>, d: set<int>): (r: seq<int>)
    ensures |r| <= |s|
    decreases |s|
  {
    if s == [] then []
    else
      var init := Without(s[..|s| - 1], d);
      if s[|s| - 1] in d then init else init + [s[|s| - 1]]
  }

  /** The result holds exactly the elements of s that are not in d. */
  lemma {:induction false} WithoutElements(s: seq<int>, d: set<int>)
    ensures forall x :: x in Without(s, d) <==> x in s && x !in d
    decreases |s|
  {
    if s != [] {
      var init := s[..|s| - 1];
      WithoutElements(init, d);
      assert forall y :: y in s <==> y in init || y == s[|s| - 1];
    }
  }

  /** The elements of a sequence, as a set. */
  function Elements<T(==,!new)>(s: seq<T>): (r: set<T>)
    ensures forall x :: x in r <==> x in s
  {
    set x | x in s
  }

  /** Removing the ids one at a time, in the order given. */
  function RemoveEach(s: seq<int>, ids: seq<int>): seq<int>
    decreases |ids|
  {
    if ids == [] then s else RemoveEach(Without(s, {ids[0]}), ids[1..])
  }

  lemma {:induction false} WithoutDistinct(s: seq<int>, d: set<int>)
    requires Distinct(s)
    ensures Distinct(Without(s, d))
    decreases |s|
  {
    if s != [] {
      WithoutDistinct(s[..|s| - 1], d);
      WithoutElements(s[..|s| - 1], d);
      assert s[|s| - 1] !in s[..|s| - 1];
    }
  }

  /** Nothing removed: the sequence is unchanged. */
  lemma {:induction false} WithoutNone(s: seq<int>, d: set<int>)
    requires forall x :: x in s ==> x !in d
    ensures Without(s, d) == s
    decreases |s|
  {
    if s != [] {
      var init, last := s[..|s| - 1], s[|s| - 1];
      assert s == init + [last];
      assert last in s;
      WithoutNone(init, d);
    }
  }

  /** Extending the input by one element extends the result by it when it survives. */
  lemma WithoutSnoc(s: seq<int>, k: nat, d: set<int>)
    requires k < |s|
    ensures Without(s[..k + 1], d) == Without(s[..k], d) + (if s[k] in d then [] else [s[k]])
  {
    assert s[..k + 1][..k] == s[..k];
  }

  /** Removing the single element at index i of a distinct sequence cuts it out. */
  lemma {:induction false} WithoutOne(s: seq<int>, i: nat)
    requires Distinct(s) && i < |s|
    ensures Without(s, {s[i]}) == s[..i] + s[i + 1..]
    decreases |s|
  {
    if i == |s| - 1 {
      WithoutNone(s[..i], {s[i]});
      assert s[i + 1..] == [];
    } else {
      var init := s[..|s| - 1];
      WithoutOne(init, i);
      assert init[..i] == s[..i];
      assert init[i + 1..] + [s[|s| - 1]] == s[i + 1..];
    }
  }

  /** Two removals in a row are one removal of both sets. */
  lemma {:induction false} WithoutTwice(s: seq<int>, a: set<int>, b: set<int>)
    ensures Without(Without(s, a), b) == Without(s, a + b)
    decreases |s|
  {
    if s != [] {
      var init := s[..|s| - 1];
      var x := s[|s| - 1];
      WithoutTwice(init, a, b);
      var w := Without(init, a);
      if x !in a {
        assert (w + [x])[..|w + [x]| - 1] == w;
      }
    }
  }

  /**
   * Removing ids one at a time, in any order, leaves what removing them all
   * at once leaves.
   */
  lemma {:induction false} RemoveEachIsWithout(s: seq<int>, ids: seq<int>)
    ensures RemoveEach(s, ids) == Without(s, Elements(ids))
    decreases |ids|
  {
    if ids == [] {
      assert Elements(ids) == {};
      WithoutNone(s, {});
    } else {
      RemoveEachIsWithout(Without(s, {ids[0]}), ids[1..]);
      WithoutTwice(s, {ids[0]}, Elements(ids[1..]));
      assert {ids[0]} + Elements(ids[1..]) == Elements(ids) by {
        assert forall x :: x in ids <==> x == ids[0] || x in ids[1..];
      }
    }
  }

  /**
   * Rows below the first removed one keep their ids: when no element of
   * s[..k] is removed, the result starts with s[..k].
   */
  lemma {:induction false} WithoutKeepsPrefix(s: seq<int>, d: set<int>, k: nat)
    requires k <= |s| && forall j :: 0 <= j < k ==> s[j] !in d
    ensures |Without(s, d)| >= k && Without(s, d)[..k] == s[..k]
    decreases |s|
  {
    if |s| == k {
      WithoutNone(s, d);
    } else {
      WithoutKeepsPrefix(s[..|s| - 1], d, k);
      assert s[..|s| - 1][..k] == s[..k];
    }
  }

  /**
   * A survivor at index j of s sits at index |Without(s[..j], d)| of the
   * result: survivors are renumbered densely, in their order.
   */
  lemma {:induction false} WithoutPosition(s: seq<int>, d: set<int>, j: nat)
    requires j < |s| && s[j] !in d
    ensures |Without(s[..j], d)| < |Without(s, d)|
    ensures Without(s, d)[|Without(s[..j], d)|] == s[j]
    decreases |s|
  {
    var init := s[..|s| - 1];
    assert s[..|s|] == s;
    if j == |s| - 1 {
      assert s[..j] == init;
    } else {
      WithoutPosition(init, d, j);
      assert init[..j] == s[..j];
    }
  }

  /** Every index of the result comes from a survivor of s at some index j. */
  lemma {:induction false} WithoutSource(s: seq<int>, d: set<int>, i: nat)
    requires i < |Without(s, d)|
    ensures exists j :: 0 <= j < |s| && s[j] !in d && |Without(s[..j], d)| == i
    decreases |s|
  {
    var init := s[..|s| - 1];
    assert s[..|s| - 1] == init;
    if i < |Without(init, d)| {
      WithoutSource(init, d, i);
      var j :| 0 <= j < |init| && init[j] !in d && |Without(init[..j], d)| == i;
      assert init[..j] == s[..j];
    } else {
      assert s[|s| - 1] !in d && |Without(s[..|s| - 1], d)| == i;
    }
  }

  /** A distinct sequence has as many elements as its set. */
  lemma {:induction false} DistinctCard<T(!new)>(s: seq<T>)
    requires Distinct(s)
    ensures |Elements(s)| == |s|
    decreases |s|
  {
    if s != [] {
      var init := s[..|s| - 1];
      DistinctCard(init);
      assert s[|s| - 1] !in init;
      assert Elements(s) == Elements(init) + {s[|s| - 1]};
    }
  }

  /** Removing d, all of whose members occur in a distinct s, shortens s by |d|. */
  lemma WithoutCount(s: seq<int>, d: set<int>)
    requires Distinct(s) && d <= Elements(s)
    ensures |Without(s, d)| == |s| - |d|
  {
    var w := Without(s, d);
    WithoutDistinct(s, d);
    WithoutElements(s, d);
    DistinctCard(s);
    DistinctCard(w);
    assert Elements(w) == Elements(s) - d;
  }

  /** Python's `min` of a non-empty list. */
  function Least(xs: seq<int>): (m: int)
    requires |xs| > 0
    ensures m in xs && forall x :: x in xs ==> m <= x
    decreases |xs|
  {
    if |xs| == 1 then xs[0]
    else
      var rest := Least(xs[1..]);
      assert forall x :: x in xs ==> x == xs[0] || x in xs[1..];
      if xs[0] <= rest then xs[0] else rest
  }

  /** The first index whose element already occurs before it, if any. */
  function FirstRepeat(s: seq<int>): (r: Option<nat>)
    ensures r.None? <==> Distinct(s)
    ensures r.Some? ==> r.value < |s| && s[r.value] in s[..r.value] && Distinct(s[..r.value])
    decreases |s|
  {
    if s == [] then None
    else
      var init := s[..|s| - 1];
      var r := FirstRepeat(init);
      if r.Some? then
        assert init[..r.value] == s[..r.value];
        r
      else if s[|s| - 1] in init then
        Some(|s| - 1)
      else
        assert forall i :: 0 <= i < |s| - 1 ==> s[i] == init[i];
        None
  }

  /** Below an index with no repeat before it, no element repeats an earlier one. */
  lemma NoRepeatBefore(s: seq<int>, j: nat)
    requires j <= |s| && Distinct(s[..j])
    ensures forall m :: 0 <= m < j ==> s[m] !in s[..m]
  {
    forall m | 0 <= m < j ensures s[m] !in s[..m] {
      forall i | 0 <= i < m ensures s[i] != s[m] {
        assert s[..j][i] == s[i] && s[..j][m] == s[m];
      }
    }
  }

  /** The first repeat is the only index that repeats an element with no repeat before it. */
  lemma FirstRepeatUnique(s: seq<int>, j: nat)
    requires j < |s| && s[j] in s[..j] && Distinct(s[..j])
    ensures FirstRepeat(s) == Some(j)
  {
    var i :| 0 <= i < j && s[..j][i] == s[j];
    assert s[i] == s[j];
    var k := FirstRepeat(s).value;
    NoRepeatBefore(s, j);
    NoRepeatBefore(s, k);
    assert j <= k;
    assert k <= j;
  }
}
