/**
 * The older CNF builder of `sat.py`, whose only concrete backend hands every
 * clause to a pysat solver. Unlike the builder of the `sat` package it
 * allocates two variables for its constants: ZERO is variable 1, forced
 * false by [-1], and ONE is variable 2, forced true by [2].
 *
 * The builder's constraint helpers emit the clause families of the Gates
 * module and the sequential counter of the SeqCounter module; each method's
 * contract names the clauses it emits, and the lemmas of those modules say
 * what the clauses mean.
 */
module SatLegacy {
  import opened Wrappers
  import opened Clauses
  import opened Gates
  import opened SeqCounter
  import SatBase

  /** `lim` after the defaulting and clipping at the top of `Cardinality`. */
  function Clip(lim: Option<int>, n: nat): int {
    if lim.None? then n else if lim.value < n then lim.value else n
  }

  class LegacyCnf {
    /** `_var_cnt`: the last variable allocated. */
    var varCnt: nat
    var ZERO: Lit
    var ONE: Lit
    /** The native solver's name, what follows "pysat/". */
    const solverName: string
    /** Every clause handed to the native solver, in order. */
    ghost var clauses: seq<Clause>

    ghost predicate Valid()
      reads this`varCnt, this`ZERO, this`ONE, this`clauses
    {
      && ZERO == 1 && ONE == 2 && varCnt >= 2
      && |clauses| >= 2 && clauses[0] == [-ZERO] && clauses[1] == [ONE]
    }

    /** `PySAT.init_solver` then `CNF.__init__`: ZERO = var(), ONE = var(), then [-ZERO] and [ONE]. */
    constructor (solver: string)
      requires SatBase.StartsWith(solver, "pysat/")
      ensures Valid()
      ensures varCnt == 2 && clauses == [[-1], [2]] && solverName == solver[6..]
    {
      solverName := solver[6..];
      varCnt := 2;
      ZERO := 1;
      ONE := 2;
      clauses := [[-1], [2]];
    }

    /** Construction by solver name: `init_solver` refuses a name without the "pysat/" prefix. */
    static method Create(solver: string) returns (r: Result<LegacyCnf, Failure>)
      ensures r.Err? <==> !SatBase.StartsWith(solver, "pysat/")
      ensures r.Err? ==> r.error == AssertionError("")
      ensures r.Ok? ==> fresh(r.value) && r.value.Valid() && r.value.varCnt == 2
    {
      if !SatBase.StartsWith(solver, "pysat/") {
        return Err(AssertionError(""));
      }
      var c := new LegacyCnf(solver);
      return Ok(c);
    }

    /** `var()`: the next variable, 3, 4, 5, ... after the constants; never reused. */
    method Var() returns (v: Lit)
      requires Valid()
      modifies this`varCnt
      ensures Valid()
      ensures v == old(varCnt) + 1 && varCnt == v
    {
      varCnt := varCnt + 1;
      v := varCnt;
    }

    /** `vars(n)`: n consecutive fresh variables. */
    method Vars(n: nat) returns (vs: seq<Lit>)
      requires Valid()
      modifies this`varCnt
      ensures Valid()
      ensures varCnt == old(varCnt) + n && vs == Fresh(old(varCnt), n)
    {
      vs := [];
      var k := 0;
      while k < n
        invariant 0 <= k <= n && varCnt == old(varCnt) + k && Valid()
        invariant vs == Fresh(old(varCnt), k)
      {
        var v := Var();
        vs := vs + [v];
        k := k + 1;
      }
    }

    /** `add_clause(c)`: hands the clause to the solver. */
    method AddClause(c: Clause)
      requires Valid()
      modifies this`clauses
      ensures Valid() && clauses == old(clauses) + [c]
    {
      clauses := clauses + [c];
    }

    /** `constraint_unary(vec)`: [a, -b] for each adjacent pair, front to back. */
    method ConstraintUnary(vec: seq<Lit>)
      requires Valid() && NonZero(vec)
      modifies this`clauses
      ensures Valid() && clauses == old(clauses) + UnaryClauses(vec)
    {
      if |vec| <= 1 {
        return;
      }
      var i := 0;
      assert NonZero(vec[..1]) && UnaryClauses(vec[..1]) == [] by {
        assert vec[..1] == [vec[0]] && vec[0] in vec;
      }
      while i < |vec| - 1
        invariant 0 <= i <= |vec| - 1 && Valid()
        invariant NonZero(vec[..i + 1]) && clauses == old(clauses) + UnaryClauses(vec[..i + 1])
      {
        var p := vec[..i + 2];
        assert NonZero(p) by {
          forall l | l in p ensures l != 0 { assert l in vec; }
        }
        assert p[..i + 1] == vec[..i + 1];
        AddClause([vec[i], -vec[i + 1]]);
        i := i + 1;
      }
      assert vec[..i + 1] == vec;
    }

    /** `constraint_and(a, b, ab)`: the three clauses of ab <=> a && b. */
    method ConstraintAnd(a: Lit, b: Lit, ab: Lit)
      requires Valid() && a != 0 && b != 0 && ab != 0
      modifies this`clauses
      ensures Valid() && clauses == old(clauses) + AndClauses(a, b, ab)
    {
      AddClause([-a, -b, ab]);
      AddClause([a, -ab]);
      AddClause([b, -ab]);
    }

    /** `constraint_or(a, b, ab)`: the three clauses of ab <=> a || b. */
    method ConstraintOr(a: Lit, b: Lit, ab: Lit)
      requires Valid() && a != 0 && b != 0 && ab != 0
      modifies this`clauses
      ensures Valid() && clauses == old(clauses) + OrClauses(a, b, ab)
    {
      AddClause([a, b, -ab]);
      AddClause([-a, ab]);
      AddClause([-b, ab]);
    }

    /**
     * `Cardinality(vec, lim)`: the sequential counter of vec. An empty vec
     * fails the assertion; one input is returned as it is; with two or more
     * inputs the prefix is encoded first, then `lim` fresh outputs are
     * allocated and tied to the prefix's outputs and the last input. A
     * limit below 1 leaves no output to tie and fails indexing it, before
     * anything is emitted.
     */
    method Cardinality(vec: seq<Lit>, lim: Option<int>) returns (r: Result<seq<Lit>, Failure>)
      requires Valid() && NonZero(vec)
      modifies this`varCnt, this`clauses
      ensures Valid()
      ensures vec == [] ==> r == Err(AssertionError("")) && varCnt == old(varCnt) && clauses == old(clauses)
      ensures |vec| == 1 ==> r == Ok(vec) && varCnt == old(varCnt) && clauses == old(clauses)
      ensures |vec| >= 2 && Clip(lim, |vec|) < 1 ==>
        r == Err(IndexError) && varCnt == old(varCnt) && clauses == old(clauses)
      ensures |vec| >= 1 && Clip(lim, |vec|) >= 1 ==>
        var e := Encode(vec, Clip(lim, |vec|), old(varCnt));
        r == Ok(e.out) && clauses == old(clauses) + e.cs && varCnt == old(varCnt) + e.used
      decreases |vec|
    {
      var n := |vec|;
      var l := Clip(lim, n);
      if n == 0 {
        return Err(AssertionError(""));
      }
      if n == 1 {
        return Ok(vec);
      }
      var init := vec[..n - 1];
      assert NonZero(init) by { forall x | x in init ensures x != 0 { assert x in vec; } }
      var sub := Cardinality(init, Some(l));
      r := Finish(vec, init, lim, l, sub, old(varCnt), old(clauses));
    }

    /**
     * The rest of `Cardinality` for two or more inputs, once the prefix's
     * call has returned `sub`: its failure is passed on, a limit below 1
     * fails indexing the outputs, and otherwise the last input is folded in.
     */
    method Finish(vec: seq<Lit>, ghost init: seq<Lit>, ghost lim: Option<int>, l: int, sub: Result<seq<Lit>, Failure>, ghost base: nat, ghost cs0: seq<Clause>)
      returns (r: Result<seq<Lit>, Failure>)
      requires Valid() && 2 <= |vec| && l == Clip(lim, |vec|) && NonZero(vec)
      requires init == vec[..|vec| - 1] && NonZero(init)
      requires |init| == 1 ==> sub == Ok(init) && varCnt == base && clauses == cs0
      requires |init| >= 2 && Clip(Some(l), |init|) < 1 ==>
        sub == Err(IndexError) && varCnt == base && clauses == cs0
      requires |init| >= 1 && Clip(Some(l), |init|) >= 1 ==>
        var e := Encode(init, Clip(Some(l), |init|), base);
        sub == Ok(e.out) && clauses == cs0 + e.cs && varCnt == base + e.used
      modifies this`varCnt, this`clauses
      ensures Valid()
      ensures Clip(lim, |vec|) < 1 ==> r == Err(IndexError) && varCnt == base && clauses == cs0
      ensures Clip(lim, |vec|) >= 1 ==> var e := Encode(vec, Clip(lim, |vec|), base);
        r == Ok(e.out) && clauses == cs0 + e.cs && varCnt == base + e.used
    {
      if sub.Err? {
        return Err(sub.error);
      }
      if l < 1 {
        return Err(IndexError);
      }
      var res := Fold(vec, l, sub.value, base, cs0, Encode(vec, l, base));
      r := Ok(res);
    }

    /**
     * The rest of `Cardinality` once the prefix is encoded (with `sub` its
     * outputs): `l` fresh outputs tied to sub and the last input.
     */
    method Fold(vec: seq<Lit>, l: int, sub: seq<Lit>, ghost base: nat, ghost cs0: seq<Clause>, ghost whole: Encoding)
      returns (res: seq<Lit>)
      requires Valid() && 2 <= |vec| && 1 <= l <= |vec| && NonZero(vec) && NonZero(vec[..|vec| - 1])
      requires var e := Encode(vec[..|vec| - 1], Clip(Some(l), |vec[..|vec| - 1]|), base);
        sub == e.out && clauses == cs0 + e.cs && varCnt == base + e.used
      requires whole == Encode(vec, l, base)
      modifies this`varCnt, this`clauses
      ensures Valid()
      ensures res == whole.out && clauses == cs0 + whole.cs && varCnt == base + whole.used
    {
      ghost var e := FoldSizes(vec, l, base);
      res := Vars(l);
      var v := vec[|vec| - 1];
      CounterStep(sub, v, res);
      FoldStep(vec, l, base, e, res, cs0, clauses, varCnt);
    }

    /** One fold step of `Cardinality`: level 0 is an OR gate, each further level four clauses or an AND gate. */
    method CounterStep(sub: seq<Lit>, v: Lit, res: seq<Lit>)
      requires Valid() && NonZero(sub) && v != 0 && NonZero(res)
      requires 1 <= |res| <= |sub| + 1 && 1 <= |sub|
      modifies this`clauses
      ensures Valid() && clauses == old(clauses) + StepClauses(sub, v, res)
    {
      assert sub[0] in sub && res[0] in res;
      ConstraintOr(sub[0], v, res[0]);
      ghost var head := clauses;
      var i := 1;
      while i < |res|
        invariant 1 <= i <= |res| && Valid()
        invariant clauses == head + Levels(sub, v, res, i)
      {
        EmitLevel(sub, v, res, i);
        i := i + 1;
      }
      AppendAssoc(old(clauses), OrClauses(sub[0], v, res[0]), Levels(sub, v, res, |res|));
    }

    /** Level i >= 1 of a fold step: four counter clauses while sub has an entry i, else an AND gate. */
    method EmitLevel(sub: seq<Lit>, v: Lit, res: seq<Lit>, i: nat)
      requires Valid() && NonZero(sub) && v != 0 && NonZero(res)
      requires 1 <= i < |res| <= |sub| + 1
      modifies this`clauses
      ensures Valid() && clauses == old(clauses) + Level(sub, v, res, i)
    {
      assert sub[i - 1] in sub && res[i] in res;
      if |sub| >= i + 1 {
        var x0, x1, x2, x3 := sub[i], sub[i - 1], v, res[i];
        AddClause([x1, -x3]);
        AddClause([x0, x2, -x3]);
        AddClause([-x1, -x2, x3]);
        AddClause([-x0, x3]);
      } else {
        assert i == |res| - 1;  // only the top level falls past the end of sub
        ConstraintAnd(sub[i - 1], v, res[i]);
      }
    }

    /**
     * `constraint_remove_lower(x, mx)`: the clause that cuts off every
     * assignment whose bits (x[|x| - 1] least significant) lie below mx;
     * mx outside 0..2^|x| - 1 fails the final assertion and emits nothing.
     */
    method ConstraintRemoveLower(x: seq<Lit>, mx: int) returns (r: Result<(), Failure>)
      requires Valid()
      modifies this`clauses
      ensures Valid()
      ensures r.Ok? <==> 0 <= mx < Pow2(|x|)
      ensures r.Err? ==> r == Err(AssertionError("")) && clauses == old(clauses)
      ensures r.Ok? ==> |clauses| == |old(clauses)| + 1 && clauses[..|old(clauses)|] == old(clauses)
      ensures r.Ok? ==> forall asg :: !ClauseSat(clauses[|clauses| - 1], asg) <==> AtMost(x, mx, asg)
    {
      var c := LowerClause(x, mx);
      if c.Err? {
        return Err(c.error);
      }
      AddClause(c.value);
      return Ok(());
    }

    /** `constraint_remove_upper(x, mn)`: the clause that cuts off every assignment whose bits lie above mn. */
    method ConstraintRemoveUpper(x: seq<Lit>, mn: int) returns (r: Result<(), Failure>)
      requires Valid() && NonZero(x)
      modifies this`clauses
      ensures Valid()
      ensures r.Ok? <==> 0 <= mn < Pow2(|x|)
      ensures r.Err? ==> r == Err(AssertionError("")) && clauses == old(clauses)
      ensures r.Ok? ==> |clauses| == |old(clauses)| + 1 && clauses[..|old(clauses)|] == old(clauses)
      ensures r.Ok? ==> forall asg :: !ClauseSat(clauses[|clauses| - 1], asg) <==> AtLeast(x, mn, asg)
    {
      var c := UpperClause(x, mn);
      if c.Err? {
        return Err(c.error);
      }
      AddClause(c.value);
      return Ok(());
    }

    /**
     * `constraint_convex(xs, lb, ub)`: one lower cut per entry of lb, then one
     * upper cut per entry of ub. The first bound out of range stops it, with
     * the clauses before it already emitted.
     */
    method ConstraintConvex(xs: seq<Lit>, lb: seq<int>, ub: seq<int>) returns (r: Result<(), Failure>)
      requires Valid() && NonZero(xs)
      modifies this`clauses
      ensures Valid() && |old(clauses)| <= |clauses| && clauses[..|old(clauses)|] == old(clauses)
      ensures r.Ok? <==> (forall m :: m in lb ==> 0 <= m < Pow2(|xs|)) && (forall m :: m in ub ==> 0 <= m < Pow2(|xs|))
      ensures r.Err? ==> r == Err(AssertionError(""))
      ensures r.Ok? ==> |clauses| == |old(clauses)| + |lb| + |ub|
      ensures r.Ok? ==> forall k, asg :: 0 <= k < |lb| ==>
        (!ClauseSat(clauses[|old(clauses)| + k], asg) <==> AtMost(xs, lb[k], asg))
      ensures r.Ok? ==> forall k, asg :: 0 <= k < |ub| ==>
        (!ClauseSat(clauses[|old(clauses)| + |lb| + k], asg) <==> AtLeast(xs, ub[k], asg))
    {
      ghost var c0 := clauses;
      var i := 0;
      while i < |lb|
        invariant 0 <= i <= |lb| && Valid()
        invariant |clauses| == |c0| + i && clauses[..|c0|] == c0
        invariant forall m :: m in lb[..i] ==> 0 <= m < Pow2(|xs|)
        invariant forall k, asg :: 0 <= k < i ==> (!ClauseSat(clauses[|c0| + k], asg) <==> AtMost(xs, lb[k], asg))
      {
        var s := ConstraintRemoveLower(xs, lb[i]);
        if s.Err? {
          assert lb[i] in lb;
          return s;
        }
        assert lb[..i + 1] == lb[..i] + [lb[i]];
        i := i + 1;
      }
      assert lb[..i] == lb;
      var j := 0;
      while j < |ub|
        invariant 0 <= j <= |ub| && Valid()
        invariant |clauses| == |c0| + |lb| + j && clauses[..|c0|] == c0
        invariant forall k, asg :: 0 <= k < |lb| ==> (!ClauseSat(clauses[|c0| + k], asg) <==> AtMost(xs, lb[k], asg))
        invariant forall m :: m in ub[..j] ==> 0 <= m < Pow2(|xs|)
        invariant forall k, asg :: 0 <= k < j ==> (!ClauseSat(clauses[|c0| + |lb| + k], asg) <==> AtLeast(xs, ub[k], asg))
      {
        var s := ConstraintRemoveUpper(xs, ub[j]);
        if s.Err? {
          assert ub[j] in ub;
          return s;
        }
        assert ub[..j + 1] == ub[..j] + [ub[j]];
        j := j + 1;
      }
      assert ub[..j] == ub;
      return Ok(());
    }
  }

  /**
   * The prefix's encoding e that Cardinality's fold step extends: the limit
   * passed down, clipped to the prefix, is min(l, n - 1), which is how many
   * outputs e has.
   */
  lemma FoldSizes(vec: seq<Lit>, l: int, base: nat) returns (e: Encoding)
    requires 2 <= |vec| && 1 <= l <= |vec| && NonZero(vec)
    ensures NonZero(vec[..|vec| - 1]) && vec[|vec| - 1] != 0
    ensures Clip(Some(l), |vec[..|vec| - 1]|) == Min(l, |vec| - 1)
    ensures e == Encode(vec[..|vec| - 1], Min(l, |vec| - 1), base)
    ensures e == Encode(vec[..|vec| - 1], Clip(Some(l), |vec[..|vec| - 1]|), base)
    ensures |e.out| == Min(l, |vec| - 1) && NonZero(e.out)
  {
    assert vec[|vec| - 1] in vec;
    assert NonZero(vec[..|vec| - 1]) by {
      var init := vec[..|vec| - 1];
      forall x | x in init ensures x != 0 { assert x in vec; }
    }
    e := Encode(vec[..|vec| - 1], Min(l, |vec| - 1), base);
  }

  /** Every model of the builder's clauses makes ZERO false and ONE true. */
  lemma ConstantsFixed(cs: seq<Clause>, asg: Assignment)
    requires |cs| >= 2 && cs[0] == [-1] && cs[1] == [2] && Sat(cs, asg)
    ensures !LitVal(1, asg) && LitVal(2, asg)
  {
    assert cs[0] in cs && cs[1] in cs;
    assert -1 in cs[0] && 2 in cs[1];
  }

  /**
   * `PySAT.sol_eval(sol, vec)` of this builder: the value of every literal,
   * zeros included; a variable missing from sol is a KeyError.
   */
  function LegacySolEval(sol: map<int, Bit>, vec: seq<Lit>): Result<seq<Bit>, Failure>
    decreases |vec|
  {
    if vec == [] then Ok([])
    else match LegacySolEval(sol, vec[..|vec| - 1])
      case Err(e) => Err(e)
      case Ok(bits) =>
        var v := vec[|vec| - 1];
        if Abs(v) !in sol then Err(KeyError)
        else Ok(bits + [if v < 0 then 1 - sol[Abs(v)] else sol[Abs(v)]])
  }

  /**
   * The legacy sol_eval succeeds exactly when every literal's variable has a
   * value, and then gives 1 exactly for the literals the solution makes true.
   */
  lemma {:induction false} LegacySolEvalMeaning(sol: map<int, Bit>, vec: seq<Lit>)
    ensures LegacySolEval(sol, vec).Ok? <==> forall l :: l in vec ==> Abs(l) in sol
    ensures LegacySolEval(sol, vec).Ok? ==>
      |LegacySolEval(sol, vec).value| == |vec|
      && forall j :: 0 <= j < |vec| ==>
           (LegacySolEval(sol, vec).value[j] == 1 <==> LitVal(vec[j], SatBase.SolAssignment(sol)))
    decreases |vec|
  {
    if vec != [] {
      var init := vec[..|vec| - 1];
      LegacySolEvalMeaning(sol, init);
      assert forall l :: l in vec <==> l in init || l == vec[|vec| - 1];
    }
  }

  /** On literals that are all nonzero the two sol_evals agree. */
  lemma {:induction false} LegacySolEvalAgrees(sol: map<int, Bit>, vec: seq<Lit>)
    requires NonZero(vec)
    ensures LegacySolEval(sol, vec) == SatBase.SolEval(sol, vec)
    decreases |vec|
  {
    if vec != [] {
      var init := vec[..|vec| - 1];
      assert NonZero(init) by { forall l | l in init ensures l != 0 { assert l in vec; } }
      assert vec[|vec| - 1] in vec;
      LegacySolEvalAgrees(sol, init);
    }
  }
}
