/**
 * The GLPK backend's bookkeeping: variables become columns 1, 2, 3, ... in
 * the order they are registered, and constraints become rows. A constraint
 * keeps the id `add_constraint` returned for its whole life, while its row
 * moves down as rows before it are removed. `constraints` (id -> row) and
 * `rowid2cid` (row -> id) hold that correspondence in both directions.
 *
 * The GLPK problem object itself is not modelled: the number of rows and
 * columns it holds and the bounds set on them are ghost fields.
 */
module Glpk {
  import opened Wrappers
  import opened RowOrder
  import opened RowIndex
  import opened MilpBase

  /** The first id `add_constraint` hands out (`10**6`). */
  const FIRST_ID: int := 1000000

  /** GLPK bound types: free, upper only, lower only, both. */
  datatype BoundKind = FR | UP | LO | DB

  /** The bound type and the two bound values passed to `glp_set_*_bnds`. */
  datatype Bounds = Bounds(kind: BoundKind, lo: real, hi: real)

  /** The values a row or column with these bounds may take. */
  predicate Admits(b: Bounds, x: real) {
    match b.kind
    case FR => true
    case UP => x <= b.hi
    case LO => b.lo <= x
    case DB => b.lo <= x <= b.hi
  }

  /** A free row or column, as `glp_add_rows` creates it. */
  const FREE: Bounds := Bounds(FR, 0.0, 0.0)

  /**
   * `_bounds(lb, ub)`: the GLPK bounds for an optional lower and upper bound.
   * Equal bounds would need the fixed type, which is refused.
   */
  function BoundsOf(lb: Option<real>, ub: Option<real>): (r: Result<Bounds, Failure>)
    ensures r.Err? <==> lb.Some? && ub.Some? && lb.value == ub.value
    ensures r.Err? ==> r.error == AssertionError("to make GLP_FX = fixed")
    ensures r.Ok? ==> (r.value.kind == DB <==> lb.Some? && ub.Some?)
  {
    match (lb, ub)
    case (None, None) => Ok(Bounds(FR, 0.0, 0.0))
    case (None, Some(u)) => Ok(Bounds(UP, 0.0, u))
    case (Some(l), None) => Ok(Bounds(LO, l, 0.0))
    case (Some(l), Some(u)) =>
      if l == u then Err(AssertionError("to make GLP_FX = fixed")) else Ok(Bounds(DB, l, u))
  }

  /** The GLPK bounds admit exactly the values between the given bounds. */
  lemma BoundsMeaning(lb: Option<real>, ub: Option<real>, x: real)
    requires BoundsOf(lb, ub).Ok?
    ensures Admits(BoundsOf(lb, ub).value, x)
        <==> (lb.Some? ==> lb.value <= x) && (ub.Some? ==> x <= ub.value)
  {
  }

  /** `var_binary` of the MILP front end bounds an integer to 0..1: exactly the values 0 and 1. */
  lemma BinaryBounds(x: int)
    ensures Admits(BoundsOf(Some(0.0), Some(1.0)).value, x as real) <==> x == 0 || x == 1
  {
    BoundsMeaning(Some(0.0), Some(1.0), x as real);
  }

  /** A map whose keys are exactly the elements of a distinct sequence has its length. */
  lemma KeysCard<K(!new), V>(m: map<K, V>, s: seq<K>)
    requires Distinct(s)
    requires forall k :: k in m <==> k in s
    ensures |m| == |s|
  {
    DistinctCard(s);
    assert m.Keys == Elements(s);
  }

  /**
   * The row bookkeeping is consistent: the two maps follow the row order, the
   * problem has one row per constraint, every id was handed out already and
   * every constraint has row bounds.
   */
  ghost predicate RowBook(order: seq<int>, ids: map<int, int>, rows: map<int, int>,
                          numRows: int, next: int, bounds: map<int, Bounds>) {
    && RowMaps(order, ids, rows) && |order| == numRows
    && (forall i :: 0 <= i < |order| ==> FIRST_ID <= order[i] < next)
    && FIRST_ID <= next
    && (forall c :: c in bounds <==> c in ids)
  }

  /** A fresh id on a new last row keeps the bookkeeping consistent. */
  lemma RowBookAppend(order: seq<int>, ids: map<int, int>, rows: map<int, int>,
                      numRows: int, next: int, bounds: map<int, Bounds>, b: Bounds)
    requires RowBook(order, ids, rows, numRows, next, bounds)
    ensures next !in ids && |ids| == |order|
    ensures RowBook(order + [next], ids[next := |ids| + 1], rows[|ids| + 1 := next], numRows + 1, next + 1, bounds[next := b])
  {
    RowMapsCount(order, ids, rows);
    RowMapsKeys(order, ids, rows);
    assert next !in order;
    RowMapsAppend(order, ids, rows, next);
  }

  /** Cutting one id out of the order keeps the bookkeeping consistent. */
  lemma RowBookCut(order: seq<int>, ids0: map<int, int>, rows0: map<int, int>,
                   numRows: int, next: int, bounds: map<int, Bounds>,
                   d: nat, ids: map<int, int>, rows: map<int, int>)
    requires RowBook(order, ids0, rows0, numRows, next, bounds) && d < |order|
    requires RowMaps(Cut(order, d), ids, rows)
    ensures RowBook(Cut(order, d), ids, rows, numRows - 1, next, bounds - {order[d]})
  {
    CutElements(order, d);
    RowMapsKeys(order, ids0, rows0);
    RowMapsKeys(Cut(order, d), ids, rows);
  }

  /**
   * Removing one id from the order keeps the bookkeeping consistent: the
   * other ids keep their rows below the removed one and move down by one
   * above it.
   */
  lemma RowBookRemove(order: seq<int>, ids0: map<int, int>, rows0: map<int, int>,
                      numRows: int, next: int, bounds: map<int, Bounds>,
                      delCid: int, ids: map<int, int>, rows: map<int, int>)
    requires RowBook(order, ids0, rows0, numRows, next, bounds) && delCid in ids0
    requires 1 <= ids0[delCid] <= |order| && RowMaps(Cut(order, ids0[delCid] - 1), ids, rows)
    ensures RowBook(Without(order, {delCid}), ids, rows, numRows - 1, next, bounds - {delCid})
    ensures forall c :: c in ids <==> c in ids0 && c != delCid
    ensures forall c :: c in ids ==> ids[c] == if ids0[c] < ids0[delCid] then ids0[c] else ids0[c] - 1
  {
    var d := RowMapsInverse(order, ids0, rows0, delCid);
    WithoutOne(order, d);
    RowMapsCut(order, ids0, rows0, d, ids, rows);
    RowBookCut(order, ids0, rows0, numRows, next, bounds, d, ids, rows);
  }

  /**
   * Removing the listed ids keeps the bookkeeping consistent: the others
   * are renumbered densely, in their order.
   */
  lemma RowBookRemoveAll(order: seq<int>, ids0: map<int, int>, rows0: map<int, int>,
                         numRows: int, next: int, bounds: map<int, Bounds>,
                         delCids: seq<int>, ids: map<int, int>, rows: map<int, int>)
    requires RowBook(order, ids0, rows0, numRows, next, bounds)
    requires Distinct(delCids) && forall c :: c in delCids ==> c in ids0
    requires RowMaps(Without(order, Elements(delCids)), ids, rows)
    ensures RowBook(Without(order, Elements(delCids)), ids, rows, numRows - |delCids|, next, bounds - Elements(delCids))
    ensures forall c {:trigger c in ids} :: c in ids <==> c in ids0 && c !in delCids
    ensures Renumbered(order, Elements(delCids), ids0, ids)
  {
    var dels := Elements(delCids);
    DistinctCard(delCids);
    RowMapsKeys(order, ids0, rows0);
    RowBookWithout(order, ids0, rows0, numRows, next, bounds, dels, ids, rows);
    RowMapsWithout(order, ids0, rows0, dels, ids, rows);
  }

  /** Removing a set of ids from the order keeps the bookkeeping consistent. */
  lemma RowBookWithout(order: seq<int>, ids0: map<int, int>, rows0: map<int, int>,
                       numRows: int, next: int, bounds: map<int, Bounds>,
                       dels: set<int>, ids: map<int, int>, rows: map<int, int>)
    requires RowBook(order, ids0, rows0, numRows, next, bounds) && dels <= Elements(order)
    requires RowMaps(Without(order, dels), ids, rows)
    ensures RowBook(Without(order, dels), ids, rows, numRows - |dels|, next, bounds - dels)
  {
    WithoutCount(order, dels);
    WithoutElements(order, dels);
    RowMapsKeys(order, ids0, rows0);
    RowMapsKeys(Without(order, dels), ids, rows);
    var n := Without(order, dels);
    forall i | 0 <= i < |n| ensures FIRST_ID <= n[i] < next {
      assert n[i] in order;
    }
  }

  /** A problem's rows, columns and bookkeeping. */
  class GlpkModel {
    // The state `MILPX.__init__` and `SWIGLPK.__init__` set up.
    const maximization: Option<bool>
    const solver: string
    var constraintId: int
    var constraints: map<int, int>
    var rowid2cid: map<int, int>
    var vars: map<string, VarInfo>
    var hasInts: bool

    // What the GLPK problem holds.
    ghost var numRows: int
    ghost var numCols: int
    ghost var rowBounds: map<int, Bounds>
    ghost var colBounds: map<string, Bounds>

    /** The constraint ids by row: order[i] owns row i + 1. */
    ghost var order: seq<int>
    /** The variable names by column: columns[i] owns column i + 1. */
    ghost var columns: seq<string>

    /** The row maps are mutual inverses over rows 1..numRows, in the order `order` gives. */
    ghost predicate RowsValid()
      reads this`order, this`constraints, this`rowid2cid, this`numRows, this`constraintId, this`rowBounds
    {
      RowBook(order, constraints, rowid2cid, numRows, constraintId, rowBounds)
    }

    /** Variables own columns 1..numCols, in the order they were registered. */
    ghost predicate ColsValid()
      reads this`columns, this`numCols, this`vars, this`hasInts, this`colBounds
    {
      && Distinct(columns) && |columns| == numCols
      && (forall n :: n in vars <==> n in columns)
      && (forall i :: 0 <= i < |columns| ==> vars[columns[i]] == vars[columns[i]].(name := columns[i], id := i + 1))
      && (hasInts <==> exists n :: n in vars && vars[n].typ.IsInteger())
      && (forall n :: n in colBounds ==> n in vars)
    }

    ghost predicate Valid()
      reads this`order, this`constraints, this`rowid2cid, this`numRows, this`constraintId, this`rowBounds
      reads this`columns, this`numCols, this`vars, this`hasInts, this`colBounds
    {
      RowsValid() && ColsValid()
    }

    /** `MILPX.__init__` followed by `SWIGLPK.__init__`: no rows, no columns, ids from 10**6. */
    constructor (maximization: Option<bool>, solver: string)
      ensures Valid()
      ensures this.maximization == maximization && this.solver == solver
      ensures constraintId == FIRST_ID && constraints == map[] && rowid2cid == map[] && vars == map[]
      ensures !hasInts && numRows == 0 && numCols == 0 && order == [] && columns == []
    {
      this.maximization := maximization;
      this.solver := solver;
      constraintId := FIRST_ID;
      constraints := map[];
      vars := map[];
      rowid2cid := map[];
      hasInts := false;
      numRows := 0;
      numCols := 0;
      rowBounds := map[];
      colBounds := map[];
      order := [];
      columns := [];
    }

    // ------------------------------------------------------------ variables

    /**
     * `_var(name, typ)`: allocates the next column for a variable about to be
     * registered and notes whether the model now has integer variables.
     */
    method NewColumn(name: string, typ: VarType) returns (info: VarInfo)
      requires ColsValid() && name !in vars
      modifies this`hasInts, this`numCols
      ensures info == VarInfo(name, typ, |columns| + 1)
      ensures numCols == old(numCols) + 1
      ensures hasInts == (old(hasInts) || typ.IsInteger())
    {
      if typ.IsInteger() {
        hasInts := true;
      }
      KeysCard(vars, columns);
      assert numCols == |vars|;
      var varid := |vars| + 1;
      numCols := numCols + 1;
      info := VarInfo(name, typ, varid);
    }

    /** Records the column `NewColumn` allocated under the variable's name. */
    method Register(info: VarInfo)
      requires Distinct(columns) && info.name !in vars
      requires info.id == |columns| + 1 && numCols == |columns| + 1
      requires (forall n :: n in vars <==> n in columns)
      requires (forall i :: 0 <= i < |columns| ==> vars[columns[i]] == vars[columns[i]].(name := columns[i], id := i + 1))
      requires hasInts <==> (exists n :: n in vars && vars[n].typ.IsInteger()) || info.typ.IsInteger()
      requires forall n :: n in colBounds ==> n in vars
      modifies this`vars, this`columns
      ensures ColsValid()
      ensures vars == old(vars)[info.name := info] && columns == old(columns) + [info.name]
    {
      ghost var oldVars := vars;
      vars := vars[info.name := info];
      columns := columns + [info.name];
      assert vars[info.name].typ == info.typ;
      if hasInts && !info.typ.IsInteger() {
        ghost var n :| n in oldVars && oldVars[n].typ.IsInteger();
        assert vars[n] == oldVars[n];
      }
    }

    /**
     * `var_int` / `var_real`: registers a new variable of the given type and
     * sets its bounds. A name already registered is refused; equal bounds
     * are refused after the variable is registered.
     */
    method AddVar(name: string, typ: VarType, lb: Option<real>, ub: Option<real>) returns (r: Result<string, Failure>)
      requires ColsValid()
      modifies this`vars, this`columns, this`hasInts, this`numCols, this`colBounds
      ensures ColsValid()
      ensures name in old(vars) ==> r == Err(AssertionError("")) && unchanged(this)
      ensures name !in old(vars) ==>
        && vars == old(vars)[name := VarInfo(name, typ, old(numCols) + 1)]
        && columns == old(columns) + [name]
        && hasInts == (old(hasInts) || typ.IsInteger())
        && (r.Ok? <==> BoundsOf(lb, ub).Ok?)
        && (r.Ok? ==> r.value == name && colBounds == old(colBounds)[name := BoundsOf(lb, ub).value])
        && (r.Err? ==> r == Err(BoundsOf(lb, ub).error) && colBounds == old(colBounds))
    {
      if name in vars {
        return Err(AssertionError(""));
      }
      var info := NewColumn(name, typ);
      Register(info);
      var b := BoundsOf(lb, ub);
      if b.Err? {
        return Err(b.error);
      }
      colBounds := colBounds[name := b.value];
      return Ok(name);
    }

    /** `var_int(name, lb, ub)`. */
    method VarInt(name: string, lb: Option<real>, ub: Option<real>) returns (r: Result<string, Failure>)
      requires ColsValid()
      modifies this`vars, this`columns, this`hasInts, this`numCols, this`colBounds
      ensures ColsValid()
      ensures name in old(vars) ==> r == Err(AssertionError("")) && unchanged(this)
      ensures name !in old(vars) ==> vars == old(vars)[name := VarInfo(name, I, old(numCols) + 1)] && hasInts
      ensures name !in old(vars) ==> (r.Ok? <==> BoundsOf(lb, ub).Ok?)
      ensures r.Ok? ==> r.value == name && BoundsOf(lb, ub).Ok? && colBounds == old(colBounds)[name := BoundsOf(lb, ub).value]
    {
      r := AddVar(name, I, lb, ub);
    }

    /** `var_real(name, lb, ub)`. */
    method VarReal(name: string, lb: Option<real>, ub: Option<real>) returns (r: Result<string, Failure>)
      requires ColsValid()
      modifies this`vars, this`columns, this`hasInts, this`numCols, this`colBounds
      ensures ColsValid()
      ensures name in old(vars) ==> r == Err(AssertionError("")) && unchanged(this)
      ensures name !in old(vars) ==> vars == old(vars)[name := VarInfo(name, C, old(numCols) + 1)] && hasInts == old(hasInts)
      ensures name !in old(vars) ==> (r.Ok? <==> BoundsOf(lb, ub).Ok?)
      ensures r.Ok? ==> r.value == name && BoundsOf(lb, ub).Ok? && colBounds == old(colBounds)[name := BoundsOf(lb, ub).value]
    {
      r := AddVar(name, C, lb, ub);
    }

    /** `MILPX.var_binary(name)`: a binary variable; no bounds are set. */
    method VarBinary(name: string) returns (r: Result<string, Failure>)
      requires ColsValid()
      modifies this`vars, this`columns, this`hasInts, this`numCols
      ensures ColsValid()
      ensures name in old(vars) ==> r == Err(AssertionError("")) && unchanged(this)
      ensures name !in old(vars) ==> r == Ok(name) && vars == old(vars)[name := VarInfo(name, B, old(numCols) + 1)] && hasInts
    {
      if name in vars {
        return Err(AssertionError(""));
      }
      var info := NewColumn(name, B);
      Register(info);
      return Ok(name);
    }

    /** `MILP.var_binary(name)`: `var_int(name, lb=0, ub=1)`. */
    method IntBinary(name: string) returns (r: Result<string, Failure>)
      requires ColsValid()
      modifies this`vars, this`columns, this`hasInts, this`numCols, this`colBounds
      ensures ColsValid()
      ensures name in old(vars) ==> r == Err(AssertionError("")) && unchanged(this)
      ensures name !in old(vars) ==> r == Ok(name) && name in vars && vars[name].typ == I
                                     && name in colBounds && colBounds[name] == Bounds(DB, 0.0, 1.0)
    {
      r := VarInt(name, Some(0.0), Some(1.0));
    }

    // ---------------------------------------------------------- constraints

    /**
     * `add_constraint(coefs, lb, ub)`: at least one bound is required. The
     * new constraint gets the next id and the next row; equal bounds are
     * refused after the row exists. The coefficient row is not modelled.
     */
    method AddConstraint(lb: Option<real>, ub: Option<real>) returns (r: Result<int, Failure>)
      requires RowsValid()
      modifies this`constraintId, this`constraints, this`rowid2cid, this`numRows, this`order, this`rowBounds
      ensures RowsValid()
      ensures lb.None? && ub.None? ==> r == Err(AssertionError("")) && unchanged(this)
      ensures lb.Some? || ub.Some? ==>
        && old(constraintId) !in old(constraints)
        && constraintId == old(constraintId) + 1
        && order == old(order) + [old(constraintId)]
        && constraints == old(constraints)[old(constraintId) := |old(order)| + 1]
        && rowid2cid == old(rowid2cid)[|old(order)| + 1 := old(constraintId)]
        && numRows == old(numRows) + 1
        && (r.Ok? <==> BoundsOf(lb, ub).Ok?)
        && (r.Ok? ==> r.value == old(constraintId) && rowBounds == old(rowBounds)[r.value := BoundsOf(lb, ub).value])
        && (r.Err? ==> r == Err(BoundsOf(lb, ub).error) && rowBounds == old(rowBounds)[old(constraintId) := FREE])
    {
      if lb.None? && ub.None? {
        return Err(AssertionError(""));
      }
      var b := BoundsOf(lb, ub);
      // `_bounds` raises after the row exists: the row then stays free.
      var cid := NewRow(if b.Ok? then b.value else FREE);
      if b.Err? {
        return Err(b.error);
      }
      return Ok(cid);
    }

    /** The next id on a new last row, with the given bounds. */
    method NewRow(bounds: Bounds) returns (cid: int)
      requires RowsValid()
      modifies this`constraintId, this`constraints, this`rowid2cid, this`numRows, this`order, this`rowBounds
      ensures RowsValid()
      ensures cid == old(constraintId) && cid !in old(constraints) && constraintId == cid + 1
      ensures order == old(order) + [cid] && numRows == old(numRows) + 1
      ensures constraints == old(constraints)[cid := |old(order)| + 1]
      ensures rowid2cid == old(rowid2cid)[|old(order)| + 1 := cid]
      ensures rowBounds == old(rowBounds)[cid := bounds]
    {
      cid := constraintId;
      RowBookAppend(order, constraints, rowid2cid, numRows, constraintId, rowBounds, bounds);
      constraintId := constraintId + 1;
      var rowid := |constraints| + 1;
      constraints := constraints[cid := rowid];
      rowid2cid := rowid2cid[rowid := cid];
      numRows := numRows + 1;
      order := order + [cid];
      rowBounds := rowBounds[cid := bounds];
    }

    /**
     * `remove_constraint(cid)`: the constraint's row goes, and every row
     * above it moves down by one; rows below keep their number. An unknown
     * id is a KeyError and changes nothing.
     */
    method RemoveConstraint(delCid: int) returns (r: Result<(), Failure>)
      requires RowsValid()
      modifies this`constraints, this`rowid2cid, this`numRows, this`order, this`rowBounds
      ensures RowsValid()
      ensures delCid !in old(constraints) ==> r == Err(KeyError) && unchanged(this)
      ensures delCid in old(constraints) ==>
        && r == Ok(())
        && order == Without(old(order), {delCid})
        && numRows == old(numRows) - 1
        && rowBounds == old(rowBounds) - {delCid}
        && (forall c :: c in constraints <==> c in old(constraints) && c != delCid)
        && (forall c :: c in constraints ==>
              constraints[c] == if old(constraints)[c] < old(constraints)[delCid] then old(constraints)[c] else old(constraints)[c] - 1)
    {
      if delCid !in constraints {
        return Err(KeyError);
      }
      ghost var o, ids0, rows0 := order, constraints, rowid2cid;
      RowMapsCount(o, ids0, rows0);
      var maxRow := |constraints|;
      var delRow := constraints[delCid];
      ghost var d := RowMapsInverse(o, ids0, rows0, delCid);
      constraints := constraints - {delCid};
      rowid2cid := rowid2cid - {delRow};
      ShiftDown(o, ids0, rows0, d, delRow, maxRow);
      RowBookRemove(o, ids0, rows0, numRows, constraintId, rowBounds, delCid, constraints, rowid2cid);
      numRows := numRows - 1;
      rowBounds := rowBounds - {delCid};
      order := Without(o, {delCid});
      r := Ok(());
    }

    /** The loop of `remove_constraint`: each row above the removed one moves down by one. */
    method ShiftDown(ghost o: seq<int>, ghost ids0: map<int, int>, ghost rows0: map<int, int>, ghost d: nat, delRow: int, maxRow: int)
      requires RowMaps(o, ids0, rows0) && d < |o| && delRow == d + 1 && maxRow == |o|
      requires constraints == ids0 - {o[d]} && rowid2cid == rows0 - {delRow}
      modifies this`constraints, this`rowid2cid
      ensures RowMaps(Cut(o, d), constraints, rowid2cid)
    {
      ShiftStart(o, ids0, rows0, d);
      var k := delRow + 1;
      while k <= maxRow
        invariant d + 2 <= k <= maxRow + 1
        invariant Shifting(o, d, k, constraints, rowid2cid)
      {
        ShiftStep(o, d, k, constraints, rowid2cid);
        assert k - 1 !in rowid2cid;
        var cid := rowid2cid[k];
        rowid2cid := rowid2cid[k - 1 := cid] - {k};
        constraints := constraints[cid := k - 1];
        k := k + 1;
      }
      ShiftEnd(o, d, constraints, rowid2cid);
    }

    /**
     * The list `todel` of `remove_constraints`: the row of every listed id,
     * in the order listed. An unknown id is a KeyError.
     */
    method RowsOf(delCids: seq<int>) returns (r: Result<seq<int>, Failure>)
      ensures r.Ok? <==> forall c :: c in delCids ==> c in constraints
      ensures r.Err? ==> r.error == KeyError
      ensures r.Ok? ==> |r.value| == |delCids|
      ensures r.Ok? ==> forall i :: 0 <= i < |delCids| ==> delCids[i] in constraints && r.value[i] == constraints[delCids[i]]
    {
      var delRows: seq<int> := [];
      var i := 0;
      while i < |delCids|
        invariant 0 <= i <= |delCids| && |delRows| == i
        invariant forall j :: 0 <= j < i ==> delCids[j] in constraints && delRows[j] == constraints[delCids[j]]
      {
        if delCids[i] !in constraints {
          ghost var missing := delCids[i];
          assert missing in delCids && missing !in constraints;
          return Err(KeyError);
        }
        delRows := delRows + [constraints[delCids[i]]];
        i := i + 1;
      }
      return Ok(delRows);
    }

    /**
     * The deletion loop of `remove_constraints`: drops the listed ids and
     * their rows from both maps, one at a time. The second occurrence of an
     * id is no longer in `constraints`: a KeyError, with the ids before it
     * already gone. `j` is the number of entries dropped.
     */
    method DeleteListed(delCids: seq<int>, delRows: seq<int>) returns (ok: bool, j: nat)
      requires |delRows| == |delCids|
      requires forall i :: 0 <= i < |delCids| ==> delCids[i] in constraints && delRows[i] == constraints[delCids[i]]
      requires forall c :: c in constraints ==> constraints[c] in rowid2cid && rowid2cid[constraints[c]] == c
      requires forall q :: q in rowid2cid ==> rowid2cid[q] in constraints && constraints[rowid2cid[q]] == q
      modifies this`constraints, this`rowid2cid
      ensures j <= |delCids| && Distinct(delCids[..j])
      ensures ok <==> j == |delCids|
      ensures !ok ==> delCids[j] in delCids[..j]
      ensures forall c {:trigger c in constraints} :: c in constraints <==> c in old(constraints) && c !in delCids[..j]
      ensures forall c :: c in constraints ==> constraints[c] == old(constraints)[c]
      ensures forall q {:trigger q in rowid2cid} :: q in rowid2cid <==> q in old(rowid2cid) && old(rowid2cid)[q] !in delCids[..j]
      ensures forall q :: q in rowid2cid ==> rowid2cid[q] == old(rowid2cid)[q]
      ensures j == 0 ==> constraints == old(constraints) && rowid2cid == old(rowid2cid)
    {
      ghost var ids0, rows0 := constraints, rowid2cid;
      j := 0;
      while j < |delCids|
        invariant j <= |delCids| && Distinct(delCids[..j])
        invariant forall c {:trigger c in constraints} :: c in constraints <==> c in ids0 && c !in delCids[..j]
        invariant forall c :: c in constraints ==> constraints[c] == ids0[c]
        invariant forall q {:trigger q in rowid2cid} :: q in rowid2cid <==> q in rows0 && rows0[q] !in delCids[..j]
        invariant forall q :: q in rowid2cid ==> rowid2cid[q] == rows0[q]
        invariant j == 0 ==> constraints == ids0 && rowid2cid == rows0
      {
        var cid, row := delCids[j], delRows[j];
        if cid !in constraints {
          return false, j;
        }
        assert delCids[..j + 1] == delCids[..j] + [cid];
        constraints := constraints - {cid};
        rowid2cid := rowid2cid - {row};
        j := j + 1;
      }
      assert delCids[..j] == delCids;
      return true, j;
    }

    /**
     * `remove_constraints(cids)`: removes the listed constraints at once and
     * renumbers the rows of the others densely, keeping their order. An
     * unknown id is a KeyError before anything changes; an id listed twice
     * is a KeyError after the ids before its second occurrence are dropped
     * from both maps; an empty list reaches `min` of nothing, a ValueError.
     */
    method RemoveConstraints(delCids: seq<int>) returns (r: Result<(), Failure>)
      requires RowsValid()
      modifies this`constraints, this`rowid2cid, this`numRows, this`order, this`rowBounds
      ensures (exists c :: c in delCids && c !in old(constraints)) ==> r == Err(KeyError) && unchanged(this)
      ensures delCids == [] ==> r == Err(ValueError("min() arg is an empty sequence")) && unchanged(this)
      ensures (forall c :: c in delCids ==> c in old(constraints)) && FirstRepeat(delCids).Some? ==>
        var j := FirstRepeat(delCids).value;
        && r == Err(KeyError)
        && (forall c {:trigger c in constraints} :: c in constraints <==> c in old(constraints) && c !in delCids[..j])
        && (forall c :: c in constraints ==> constraints[c] == old(constraints)[c])
        && (forall q {:trigger q in rowid2cid} :: q in rowid2cid <==> q in old(rowid2cid) && old(rowid2cid)[q] !in delCids[..j])
        && (forall q :: q in rowid2cid ==> rowid2cid[q] == old(rowid2cid)[q])
        && numRows == old(numRows) && order == old(order) && rowBounds == old(rowBounds)
      ensures (forall c :: c in delCids ==> c in old(constraints)) && delCids != [] && Distinct(delCids) ==>
        && r == Ok(())
        && RowsValid()
        && order == Without(old(order), Elements(delCids))
        && numRows == old(numRows) - |delCids|
        && rowBounds == old(rowBounds) - Elements(delCids)
        && (forall c {:trigger c in constraints} :: c in constraints <==> c in old(constraints) && c !in delCids)
        && Renumbered(old(order), Elements(delCids), old(constraints), constraints)
    {
      var todel := RowsOf(delCids);
      if todel.Err? {
        return Err(KeyError);
      }
      var delRows := todel.value;
      ghost var o, ids0, rows0 := order, constraints, rowid2cid;
      RowMapsBijection(o, ids0, rows0);
      RowMapsCount(o, ids0, rows0);
      var maxRow := |constraints| + 1;
      var ok, j := DeleteListed(delCids, delRows);
      if !ok {
        FirstRepeatUnique(delCids, j);
        return Err(KeyError);
      }
      if |delCids| == 0 {
        return Err(ValueError("min() arg is an empty sequence"));
      }
      assert delCids[..j] == delCids;
      RemoveListed(o, ids0, rows0, delCids, delRows, maxRow);
      r := Ok(());
    }

    /**
     * What `remove_constraints` does once the listed ids are gone from both
     * maps: the rows are deleted and the surviving rows are swept down from
     * the first free one.
     */
    method RemoveListed(ghost o: seq<int>, ghost ids0: map<int, int>, ghost rows0: map<int, int>,
                        delCids: seq<int>, delRows: seq<int>, maxRow: int)
      requires RowBook(o, ids0, rows0, numRows, constraintId, rowBounds) && order == o && maxRow == |o| + 1
      requires Distinct(delCids) && |delRows| == |delCids| > 0
      requires forall i :: 0 <= i < |delCids| ==> delCids[i] in ids0 && delRows[i] == ids0[delCids[i]]
      requires forall c {:trigger c in constraints} :: c in constraints <==> c in ids0 && c !in delCids
      requires forall c :: c in constraints ==> constraints[c] == ids0[c]
      requires forall q {:trigger q in rowid2cid} :: q in rowid2cid <==> q in rows0 && rows0[q] !in delCids
      requires forall q :: q in rowid2cid ==> rowid2cid[q] == rows0[q]
      modifies this`constraints, this`rowid2cid, this`numRows, this`order, this`rowBounds
      ensures RowsValid()
      ensures order == Without(o, Elements(delCids))
      ensures numRows == old(numRows) - |delCids|
      ensures rowBounds == old(rowBounds) - Elements(delCids)
      ensures forall c {:trigger c in constraints} :: c in constraints <==> c in ids0 && c !in delCids
      ensures Renumbered(o, Elements(delCids), ids0, constraints)
    {
      numRows := numRows - |delCids|;
      var free := Least(delRows);
      SweepListed(o, ids0, rows0, delCids, delRows, free, maxRow);
      RowBookRemoveAll(o, ids0, rows0, old(numRows), constraintId, rowBounds, delCids, constraints, rowid2cid);
      order := Without(o, Elements(delCids));
      rowBounds := rowBounds - Elements(delCids);
    }

    /** The listed ids are gone from both maps: the sweep from the least of their rows closes the gaps. */
    method SweepListed(ghost o: seq<int>, ghost ids0: map<int, int>, ghost rows0: map<int, int>,
                       ghost delCids: seq<int>, ghost delRows: seq<int>, start: int, maxRow: int)
      requires RowMaps(o, ids0, rows0) && maxRow == |o| + 1
      requires |delRows| == |delCids| > 0 && start == Least(delRows)
      requires forall i :: 0 <= i < |delCids| ==> delCids[i] in ids0 && delRows[i] == ids0[delCids[i]]
      requires forall c {:trigger c in constraints} :: c in constraints <==> c in ids0 && c !in delCids
      requires forall c :: c in constraints ==> constraints[c] == ids0[c]
      requires forall q {:trigger q in rowid2cid} :: q in rowid2cid <==> q in rows0 && rows0[q] !in delCids
      requires forall q :: q in rowid2cid ==> rowid2cid[q] == rows0[q]
      modifies this`constraints, this`rowid2cid
      ensures RowMaps(Without(o, Elements(delCids)), constraints, rowid2cid)
    {
      SweepBegin(o, ids0, rows0, delCids, delRows, constraints, rowid2cid);
      Sweep(o, Elements(delCids), start, maxRow);
    }

    /** The sweep of `remove_constraints`: every surviving row from `start` up moves to the next free row. */
    method Sweep(ghost o: seq<int>, ghost dels: set<int>, start: int, maxRow: int)
      requires 1 <= start <= |o| && maxRow == |o| + 1
      requires Sweeping(o, dels, start, start, o[..start - 1], constraints, rowid2cid)
      modifies this`constraints, this`rowid2cid
      ensures RowMaps(Without(o, dels), constraints, rowid2cid)
    {
      ghost var done := o[..start - 1];
      var free := start;
      var k := start;
      while k <= maxRow
        invariant k <= maxRow + 1 && free == |done| + 1
        invariant Sweeping(o, dels, start, k, done, constraints, rowid2cid)
      {
        if k in rowid2cid {
          SweepMove(o, dels, start, k, done, constraints, rowid2cid);
          assert free !in rowid2cid;
          var cid := rowid2cid[k];
          rowid2cid := rowid2cid[free := cid] - {k};
          constraints := constraints[cid := free];
          free := free + 1;
          done := done + [o[k - 1]];
        } else {
          SweepSkip(o, dels, start, k, done, constraints, rowid2cid);
        }
        k := k + 1;
      }
      SweepEnd(o, dels, start, done, constraints, rowid2cid);
    }
  }
}
