/**
  Semantics of CNF formulas as the solvers behind the facade read them:
  a literal is a nonzero integer (positive: the variable is true, negative:
  it is false), a clause is a sequence of literals, a formula a sequence of
  clauses. An assignment gives a truth value to every variable.
 */
module Clauses {

  type Lit = int
  type Clause = seq<Lit>
  type Assignment = int -> bool

  /** The 0/1 values a solution dictionary holds. */
  type Bit = b: int | 0 <= b <= 1

  function Abs(x: int): nat { if x < 0 then -x else x }

  /** `int(v > 0)`: the value a solution dictionary records for a literal. */
  function BitOf(v: int): Bit {
    if v > 0 then 1 else 0
  }

  /** Every element is a literal: none is the clause terminator 0. */
  predicate NonZero(vec: seq<Lit>) {
    forall l :: l in vec ==> l != 0
  }

  /** Every clause of a list is free of the terminator 0. */
  predicate AllNonZero(cs: seq<Clause>) {
    forall c :: c in cs ==> NonZero(c)
  }

  /** Truth value of a literal: variable |l|, negated when l < 0. */
  predicate LitVal(l: Lit, a: Assignment) {
    if l < 0 then !a(-l) else a(l)
  }

  predicate ClauseSat(c: Clause, a: Assignment) {
    exists l :: l in c && LitVal(l, a)
  }

  predicate Sat(cs: seq<Clause>, a: Assignment) {
    forall c :: c in cs ==> ClauseSat(c, a)
  }

  lemma SatAppend(cs1: seq<Clause>, cs2: seq<Clause>, a: Assignment)
    ensures Sat(cs1 + cs2, a) <==> Sat(cs1, a) && Sat(cs2, a)
  {
    assert forall c :: c in cs1 + cs2 <==> c in cs1 || c in cs2;
  }

  /** Number of literals of `vec` that `a` makes true, counted front to back. */
  function Count(vec: seq<Lit>, a: Assignment): (n: nat)
    ensures n <= |vec|
    ensures n == |vec| <==> forall l :: l in vec ==> LitVal(l, a)
    ensures n == 0 <==> forall l :: l in vec ==> !LitVal(l, a)
  {
    if vec == [] then 0
    else
      var init, last := vec[..|vec| - 1], vec[|vec| - 1];
      assert vec == init + [last];
      Count(init, a) + (if LitVal(last, a) then 1 else 0)
  }

  /** Every variable `vec` mentions lies in 1..bound. */
  predicate VarsWithin(vec: seq<Lit>, bound: int) {
    forall l :: l in vec ==> l != 0 && Abs(l) <= bound
  }

  /** Every variable of every clause lies in 1..bound. */
  predicate ClausesWithin(cs: seq<Clause>, bound: int) {
    forall c :: c in cs ==> VarsWithin(c, bound)
  }

  /** Two assignments agree on the variables 1..bound. */
  predicate AgreeUpTo(a: Assignment, b: Assignment, bound: int) {
    forall x :: 1 <= x <= bound ==> a(x) == b(x)
  }

  lemma LitValAgree(l: Lit, a: Assignment, b: Assignment, bound: int)
    requires l != 0 && Abs(l) <= bound && AgreeUpTo(a, b, bound)
    ensures LitVal(l, a) == LitVal(l, b)
  {
  }

  lemma {:induction false} CountAgree(vec: seq<Lit>, a: Assignment, b: Assignment, bound: int)
    requires VarsWithin(vec, bound) && AgreeUpTo(a, b, bound)
    ensures Count(vec, a) == Count(vec, b)
  {
    if vec != [] {
      var init := vec[..|vec| - 1];
      assert VarsWithin(init, bound) by {
        forall l | l in init ensures l != 0 && Abs(l) <= bound { assert l in vec; }
      }
      CountAgree(init, a, b, bound);
      assert vec[|vec| - 1] in vec;
      LitValAgree(vec[|vec| - 1], a, b, bound);
    }
  }

  lemma {:induction false} SatAgree(cs: seq<Clause>, a: Assignment, b: Assignment, bound: int)
    requires ClausesWithin(cs, bound) && AgreeUpTo(a, b, bound)
    ensures Sat(cs, a) == Sat(cs, b)
  {
    forall c | c in cs ensures ClauseSat(c, a) == ClauseSat(c, b) {
      forall l | l in c ensures LitVal(l, a) == LitVal(l, b) {
        LitValAgree(l, a, b, bound);
      }
    }
  }

  /** Clause lists are appended associatively; stated once so that callers need not rediscover it. */
  lemma AppendAssoc(a: seq<Clause>, b: seq<Clause>, c: seq<Clause>)
    ensures a + b + c == a + (b + c)
  {
  }

  /** Extending a prefix of cs by its next clause, after some clauses a. */
  lemma PrefixSnoc(a: seq<Clause>, cs: seq<Clause>, i: nat)
    requires i < |cs|
    ensures a + cs[..i] + [cs[i]] == a + cs[..i + 1]
  {
    assert cs[..i + 1] == cs[..i] + [cs[i]];
    AppendAssoc(a, cs[..i], [cs[i]]);
  }
}
