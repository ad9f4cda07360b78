/**
 * The two maps the GLPK backend keeps between constraint ids and rows, and
 * the loops that renumber rows when constraints are removed. `ids` maps a
 * constraint id to its row and `rows` maps a row back to its id; both are
 * fixed by the row order, a sequence whose element i owns row i + 1.
 */
module RowIndex {
  import opened RowOrder

  /** `ids` and `rows` are the two directions of `order`, over rows 1..|order|. */
  ghost predicate RowMaps(order: seq<int>, ids: map<int, int>, rows: map<int, int>) {
    && Distinct(order)
    && (forall q :: q in rows <==> 1 <= q <= |order|)
    && (forall i {:trigger order[i]} :: 0 <= i < |order| ==> order[i] in ids && ids[order[i]] == i + 1 && rows[i + 1] == order[i])
    && (forall c :: c in ids ==> ids[c] in rows && rows[ids[c]] == c)
  }

  /** The ids with a row are exactly the ids of the order. */
  lemma RowMapsKeys(order: seq<int>, ids: map<int, int>, rows: map<int, int>)
    requires RowMaps(order, ids, rows)
    ensures forall c :: c in ids <==> c in order
  {
    forall c | c in ids ensures c in order {
      assert order[ids[c] - 1] == c;
    }
  }

  /** The row of a constraint, and back. */
  lemma RowMapsInverse(order: seq<int>, ids: map<int, int>, rows: map<int, int>, c: int) returns (i: nat)
    requires RowMaps(order, ids, rows) && c in ids
    ensures i < |order| && order[i] == c && ids[c] == i + 1
    ensures ids[c] in rows && rows[ids[c]] == c
    ensures forall q :: q in rows && rows[q] == c ==> q == ids[c]
  {
    i := ids[c] - 1;
    forall q | q in rows && rows[q] == c ensures q == ids[c] {
      assert rows[q] == order[q - 1];
    }
  }

  /** Each map undoes the other. */
  lemma RowMapsBijection(order: seq<int>, ids: map<int, int>, rows: map<int, int>)
    requires RowMaps(order, ids, rows)
    ensures forall c :: c in ids ==> ids[c] in rows && rows[ids[c]] == c
    ensures forall q :: q in rows ==> rows[q] in ids && ids[rows[q]] == q
  {
    forall q | q in rows ensures rows[q] in ids && ids[rows[q]] == q {
      assert rows[q] == order[q - 1];
    }
  }

  /** There are as many constraints as rows, in both maps. */
  lemma RowMapsCount(order: seq<int>, ids: map<int, int>, rows: map<int, int>)
    requires RowMaps(order, ids, rows)
    ensures |ids| == |order| && |rows| == |order|
  {
    DistinctCard(order);
    RowMapsKeys(order, ids, rows);
    assert forall c :: c in ids.Keys <==> c in Elements(order);
    assert ids.Keys == Elements(order);
    var qs := seq(|order|, i requires 0 <= i < |order| => i + 1);
    assert Distinct(qs);
    DistinctCard(qs);
    forall q ensures q in rows.Keys <==> q in Elements(qs) {
      if 1 <= q <= |order| {
        assert qs[q - 1] == q;
      }
    }
    assert rows.Keys == Elements(qs);
  }

  /** The row order fixes both maps. */
  lemma RowMapsUnique(order: seq<int>, ids1: map<int, int>, rows1: map<int, int>, ids2: map<int, int>, rows2: map<int, int>)
    requires RowMaps(order, ids1, rows1) && RowMaps(order, ids2, rows2)
    ensures ids1 == ids2 && rows1 == rows2
  {
    RowMapsKeys(order, ids1, rows1);
    RowMapsKeys(order, ids2, rows2);
    forall c | c in ids1 ensures ids1[c] == ids2[c] {
      var i := RowMapsInverse(order, ids1, rows1, c);
    }
    forall q | q in rows1 ensures rows1[q] == rows2[q] {
      assert rows1[q] == order[q - 1];
    }
    assert forall c :: c in ids1.Keys <==> c in ids2.Keys;
    assert ids1.Keys == ids2.Keys;
    assert forall q :: q in rows1.Keys <==> q in rows2.Keys;
    assert rows1.Keys == rows2.Keys;
  }

  /** A new id placed on a new last row keeps the maps inverse to each other. */
  lemma RowMapsAppend(order: seq<int>, ids: map<int, int>, rows: map<int, int>, cid: int)
    requires RowMaps(order, ids, rows) && cid !in ids
    ensures RowMaps(order + [cid], ids[cid := |order| + 1], rows[|order| + 1 := cid])
  {
    var o := order + [cid];
    forall i | 0 <= i < |order| ensures o[i] != cid {
      assert order[i] in ids;
    }
  }

  /** The sequence with index d cut out. */
  function Cut(s: seq<int>, d: nat): (r: seq<int>)
    requires d < |s|
    ensures |r| == |s| - 1
    ensures forall i :: 0 <= i < |r| ==> r[i] == if i < d then s[i] else s[i + 1]
  {
    s[..d] + s[d + 1..]
  }

  /** Cutting an index out of a distinct sequence removes exactly its element. */
  lemma CutElements(s: seq<int>, d: nat)
    requires Distinct(s) && d < |s|
    ensures Distinct(Cut(s, d))
    ensures forall c :: c in Cut(s, d) <==> c in s && c != s[d]
  {
    var n := Cut(s, d);
    forall i, j | 0 <= i < j < |n| ensures n[i] != n[j] {
      var i', j' := if i < d then i else i + 1, if j < d then j else j + 1;
      assert n[i] == s[i'] && n[j] == s[j'] && i' < j';
    }
    forall c ensures c in n <==> c in s && c != s[d] {
      if c in n {
        var i :| 0 <= i < |n| && n[i] == c;
        var i' := if i < d then i else i + 1;
        assert s[i'] == c && i' != d;
      }
      if c in s && c != s[d] {
        var i :| 0 <= i < |s| && s[i] == c;
        var i' := if i < d then i else i - 1;
        assert n[i'] == c;
      }
    }
  }

  /**
   * After cutting out the id at index d, every id keeps its row when it was
   * below the cut and moves down by one when it was above.
   */
  lemma RowMapsCut(order: seq<int>, ids0: map<int, int>, rows0: map<int, int>,
                   d: nat, ids: map<int, int>, rows: map<int, int>)
    requires RowMaps(order, ids0, rows0) && d < |order|
    requires RowMaps(Cut(order, d), ids, rows)
    ensures forall c :: c in ids <==> c in ids0 && c != order[d]
    ensures forall c :: c in ids ==> ids[c] == if ids0[c] < d + 1 then ids0[c] else ids0[c] - 1
  {
    var n := Cut(order, d);
    CutElements(order, d);
    RowMapsKeys(order, ids0, rows0);
    RowMapsKeys(n, ids, rows);
    forall c | c in ids ensures ids[c] == if ids0[c] < d + 1 then ids0[c] else ids0[c] - 1 {
      var i := ids[c] - 1;
      assert n[i] == c;
      if i < d {
        assert order[i] == c;
      } else {
        assert order[i + 1] == c;
      }
    }
  }

  // ------------------------------------------- the shift loop of remove_constraint

  /**
   * The maps while `remove_constraint` shifts rows down: the id at index d of
   * o is gone, rows below k have been moved down by one, row k - 1 is free.
   */
  ghost predicate Shifting(o: seq<int>, d: nat, k: int, ids: map<int, int>, rows: map<int, int>) {
    && d < |o| && d + 2 <= k <= |o| + 1
    && Distinct(o)
    && (forall q :: q in rows <==> 1 <= q <= |o| && q != k - 1)
    && (forall i {:trigger o[i]} :: 0 <= i < d ==> o[i] in ids && ids[o[i]] == i + 1 && rows[i + 1] == o[i])
    && (forall i {:trigger o[i]} :: d < i < k - 1 ==> o[i] in ids && ids[o[i]] == i && rows[i] == o[i])
    && (forall i {:trigger o[i]} :: k - 1 <= i < |o| ==> o[i] in ids && ids[o[i]] == i + 1 && rows[i + 1] == o[i])
    && (forall c :: c in ids ==> ids[c] in rows && rows[ids[c]] == c)
  }

  /** The state right after the removed id and its row are deleted from both maps. */
  lemma ShiftStart(o: seq<int>, ids: map<int, int>, rows: map<int, int>, d: nat)
    requires RowMaps(o, ids, rows) && d < |o|
    ensures Shifting(o, d, d + 2, ids - {o[d]}, rows - {d + 1})
  {
  }

  /** One turn of the shift loop: the id on row k moves to the free row k - 1. */
  lemma ShiftStep(o: seq<int>, d: nat, k: int, ids: map<int, int>, rows: map<int, int>)
    requires Shifting(o, d, k, ids, rows) && k <= |o|
    ensures k - 1 !in rows && k in rows && rows[k] == o[k - 1]
    ensures Shifting(o, d, k + 1, ids[rows[k] := k - 1], rows[k - 1 := rows[k]] - {k})
  {
    assert k in rows && rows[k] == o[k - 1];
    var ids', rows' := ids[o[k - 1] := k - 1], rows[k - 1 := o[k - 1]] - {k};
    forall i | d < i < k ensures o[i] in ids' && ids'[o[i]] == i {
      if i < k - 1 {
        assert o[i] != o[k - 1];
      }
    }
    forall i | 0 <= i < d || k <= i < |o| ensures o[i] in ids' && ids'[o[i]] == i + 1 {
      assert o[i] != o[k - 1];
    }
    forall c | c in ids' ensures ids'[c] in rows' && rows'[ids'[c]] == c {
      if c != o[k - 1] {
        assert ids[c] != k && ids[c] != k - 1;
      }
    }
  }

  /** When the loop has passed the last row, the maps follow the cut order. */
  lemma ShiftEnd(o: seq<int>, d: nat, ids: map<int, int>, rows: map<int, int>)
    requires Shifting(o, d, |o| + 1, ids, rows)
    ensures RowMaps(Cut(o, d), ids, rows)
  {
    CutElements(o, d);
    var n := Cut(o, d);
    assert forall i :: d <= i < |n| ==> n[i] == o[i + 1];
  }

  // ------------------------------------------ the sweep of remove_constraints

  /**
   * The maps while `remove_constraints` sweeps rows f0..k - 1, where f0 is the
   * first deleted row: `done`, the survivors of o below row k, sit densely on
   * rows 1..|done| in their order, and the survivors from row k up are still
   * on their old rows.
   */
  ghost predicate Sweeping(o: seq<int>, dels: set<int>, f0: int, k: int, done: seq<int>,
                           ids: map<int, int>, rows: map<int, int>) {
    SweepDone(o, dels, k, done) && SweepMaps(o, dels, f0, k, done, ids, rows)
  }

  /** `done` is what survives of the rows below k. */
  ghost predicate SweepDone(o: seq<int>, dels: set<int>, k: int, done: seq<int>) {
    && 1 <= k <= |o| + 2
    && (k <= |o| + 1 ==> done == Without(o[..k - 1], dels))
    && (k == |o| + 2 ==> done == Without(o, dels))
  }

  /** The rows of `done` and of the survivors from row k up. */
  ghost predicate SweepMaps(o: seq<int>, dels: set<int>, f0: int, k: int, done: seq<int>,
                            ids: map<int, int>, rows: map<int, int>) {
    && Distinct(o) && 1 <= f0 <= |o| && o[f0 - 1] in dels && f0 <= k <= |o| + 2
    && |done| + 1 <= k && (f0 < k ==> |done| + 1 < k)
    && (forall q :: q in rows ==> 1 <= q <= |done| || (k <= q <= |o| && o[q - 1] !in dels))
    && (forall p {:trigger done[p]} :: 0 <= p < |done| ==>
          done[p] in ids && ids[done[p]] == p + 1 && p + 1 in rows && rows[p + 1] == done[p])
    && (forall j {:trigger o[j]} :: k - 1 <= j < |o| && o[j] !in dels ==>
          o[j] in ids && ids[o[j]] == j + 1 && j + 1 in rows && rows[j + 1] == o[j])
    && (forall c :: c in ids ==> ids[c] in rows && rows[ids[c]] == c)
  }

  /** The state right after the listed ids and their rows are deleted from both maps. */
  lemma SweepStart(o: seq<int>, ids0: map<int, int>, rows0: map<int, int>, dels: set<int>, f0: int,
                   ids: map<int, int>, rows: map<int, int>)
    requires RowMaps(o, ids0, rows0)
    requires 1 <= f0 <= |o| && o[f0 - 1] in dels && forall j :: 0 <= j < f0 - 1 ==> o[j] !in dels
    requires forall c :: c in ids <==> c in ids0 && c !in dels
    requires forall c :: c in ids ==> ids[c] == ids0[c]
    requires forall q :: q in rows <==> q in rows0 && rows0[q] !in dels
    requires forall q :: q in rows ==> rows[q] == rows0[q]
    ensures Sweeping(o, dels, f0, f0, o[..f0 - 1], ids, rows)
  {
    WithoutNone(o[..f0 - 1], dels);
  }

  /** A turn of the sweep on an occupied row k: its id moves to the first free row. */
  lemma SweepMove(o: seq<int>, dels: set<int>, f0: int, k: int, done: seq<int>, ids: map<int, int>, rows: map<int, int>)
    requires Sweeping(o, dels, f0, k, done, ids, rows) && k in rows
    ensures |done| + 1 < k && |done| + 1 !in rows && k <= |o| && rows[k] == o[k - 1]
    ensures Sweeping(o, dels, f0, k + 1, done + [o[k - 1]], ids[rows[k] := |done| + 1], rows[|done| + 1 := rows[k]] - {k})
  {
    SweepMapsMove(o, dels, f0, k, done, ids, rows);
    SweepDoneStep(o, dels, k, done);
  }

  lemma SweepDoneStep(o: seq<int>, dels: set<int>, k: int, done: seq<int>)
    requires SweepDone(o, dels, k, done) && k <= |o|
    ensures SweepDone(o, dels, k + 1, done + if o[k - 1] in dels then [] else [o[k - 1]])
  {
    WithoutSnoc(o, k - 1, dels);
  }

  lemma SweepMapsMove(o: seq<int>, dels: set<int>, f0: int, k: int, done: seq<int>, ids: map<int, int>, rows: map<int, int>)
    requires SweepMaps(o, dels, f0, k, done, ids, rows) && k in rows
    ensures |done| + 1 < k && |done| + 1 !in rows && k <= |o| && o[k - 1] !in dels && rows[k] == o[k - 1]
    ensures SweepMaps(o, dels, f0, k + 1, done + [o[k - 1]], ids[rows[k] := |done| + 1], rows[|done| + 1 := rows[k]] - {k})
  {
    assert k <= |o| && o[k - 1] !in dels && rows[k] == o[k - 1];
    var x := o[k - 1];
    var done', ids', rows' := done + [x], ids[x := |done| + 1], rows[|done| + 1 := x] - {k};
    assert ids[x] == k;
    forall q | q in rows' ensures 1 <= q <= |done'| || (k + 1 <= q <= |o| && o[q - 1] !in dels) {
      assert q == |done| + 1 || (q in rows && q != k);
    }
    forall p | 0 <= p < |done'| ensures done'[p] in ids' && ids'[done'[p]] == p + 1 && p + 1 in rows' && rows'[p + 1] == done'[p] {
      if p < |done| {
        assert ids[done[p]] == p + 1 < k;
      }
    }
    forall j | k <= j < |o| && o[j] !in dels ensures o[j] in ids' && ids'[o[j]] == j + 1 && j + 1 in rows' && rows'[j + 1] == o[j] {
      assert o[j] != x;
    }
    forall c | c in ids' ensures ids'[c] in rows' && rows'[ids'[c]] == c {
      if c != x {
        assert ids[c] in rows && rows[ids[c]] == c && ids[c] != k;
      }
    }
  }

  /** A turn of the sweep on a free row k: nothing moves. */
  lemma SweepSkip(o: seq<int>, dels: set<int>, f0: int, k: int, done: seq<int>, ids: map<int, int>, rows: map<int, int>)
    requires Sweeping(o, dels, f0, k, done, ids, rows) && k !in rows && k <= |o| + 1
    ensures Sweeping(o, dels, f0, k + 1, done, ids, rows)
  {
    SweepMapsSkip(o, dels, f0, k, done, ids, rows);
    if k <= |o| {
      SweepDoneStep(o, dels, k, done);
      assert done + [] == done;
    } else {
      assert o[..k - 1] == o;
    }
  }

  lemma SweepMapsSkip(o: seq<int>, dels: set<int>, f0: int, k: int, done: seq<int>, ids: map<int, int>, rows: map<int, int>)
    requires SweepMaps(o, dels, f0, k, done, ids, rows) && k !in rows && k <= |o| + 1
    ensures k <= |o| ==> o[k - 1] in dels
    ensures SweepMaps(o, dels, f0, k + 1, done, ids, rows)
  {
    if k <= |o| {
      assert o[k - 1] !in dels ==> k in rows;
    }
    forall q | q in rows ensures 1 <= q <= |done| || (k + 1 <= q <= |o| && o[q - 1] !in dels) {
      assert q != k;
    }
  }

  /** When the sweep has passed the last row, the maps follow the order without the removed ids. */
  lemma SweepEnd(o: seq<int>, dels: set<int>, f0: int, done: seq<int>, ids: map<int, int>, rows: map<int, int>)
    requires Sweeping(o, dels, f0, |o| + 2, done, ids, rows)
    ensures RowMaps(Without(o, dels), ids, rows)
  {
    WithoutDistinct(o, dels);
    forall q | 1 <= q <= |done| ensures q in rows {
      assert done[q - 1] in ids;
    }
  }

  /**
   * Every id of `ids` sits on the row after the survivors of `dels` that
   * were below its row `ids0` gives in `order`: rows renumbered densely, in
   * their order.
   */
  ghost predicate Renumbered(order: seq<int>, dels: set<int>, ids0: map<int, int>, ids: map<int, int>) {
    forall c :: c in ids ==> c in ids0 && 1 <= ids0[c] <= |order| + 1 && ids[c] == |Without(order[..ids0[c] - 1], dels)| + 1
  }

  /** After removing the ids of `dels`, the survivors are renumbered densely, in order. */
  lemma RowMapsWithout(order: seq<int>, ids0: map<int, int>, rows0: map<int, int>,
                       dels: set<int>, ids: map<int, int>, rows: map<int, int>)
    requires RowMaps(order, ids0, rows0) && RowMaps(Without(order, dels), ids, rows)
    ensures forall c :: c in ids <==> c in ids0 && c !in dels
    ensures Renumbered(order, dels, ids0, ids)
  {
    RowMapsKeys(order, ids0, rows0);
    RowMapsKeys(Without(order, dels), ids, rows);
    WithoutElements(order, dels);
    forall c | c in ids ensures c in ids0 && 1 <= ids0[c] <= |order| + 1 && ids[c] == |Without(order[..ids0[c] - 1], dels)| + 1 {
      var i := RowMapsInverse(order, ids0, rows0, c);
      WithoutPosition(order, dels, i);
    }
  }

  /**
   * `min` of the rows of the listed ids is the first deleted row: the id on
   * it is listed and no id on an earlier row is.
   */
  lemma FirstDeleted(order: seq<int>, ids: map<int, int>, rows: map<int, int>, delCids: seq<int>, delRows: seq<int>)
    requires RowMaps(order, ids, rows)
    requires |delRows| == |delCids| > 0
    requires forall i :: 0 <= i < |delCids| ==> delCids[i] in ids && delRows[i] == ids[delCids[i]]
    ensures var f0 := Least(delRows);
      && 1 <= f0 <= |order| && order[f0 - 1] in delCids
      && forall j :: 0 <= j < f0 - 1 ==> order[j] !in delCids
  {
    var f0 := Least(delRows);
    var i :| 0 <= i < |delRows| && delRows[i] == f0;
    var k := RowMapsInverse(order, ids, rows, delCids[i]);
    forall j | 0 <= j < f0 - 1 ensures order[j] !in delCids {
      forall m | 0 <= m < |delCids| ensures delCids[m] != order[j] {
        assert delRows[m] in delRows;
      }
    }
  }

  /**
   * The state the sweep of `remove_constraints` starts from: the rows below
   * the first deleted one keep their ids, and the listed ids are gone.
   */
  lemma SweepBegin(o: seq<int>, ids0: map<int, int>, rows0: map<int, int>, delCids: seq<int>, delRows: seq<int>,
                   ids: map<int, int>, rows: map<int, int>)
    requires RowMaps(o, ids0, rows0)
    requires |delRows| == |delCids| > 0
    requires forall i :: 0 <= i < |delCids| ==> delCids[i] in ids0 && delRows[i] == ids0[delCids[i]]
    requires forall c :: c in ids <==> c in ids0 && c !in delCids
    requires forall c :: c in ids ==> ids[c] == ids0[c]
    requires forall q :: q in rows <==> q in rows0 && rows0[q] !in delCids
    requires forall q :: q in rows ==> rows[q] == rows0[q]
    ensures 1 <= Least(delRows) <= |o|
    ensures Sweeping(o, Elements(delCids), Least(delRows), Least(delRows), o[..Least(delRows) - 1], ids, rows)
  {
    FirstDeleted(o, ids0, rows0, delCids, delRows);
    SweepStart(o, ids0, rows0, Elements(delCids), Least(delRows), ids, rows);
  }
}
