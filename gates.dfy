/**
  The clause families emitted by the CNF constraint helpers: the AND and OR
  gates, the "unary" monotonicity chain, one level of the sequential counter
  and the single clauses that cut a box off the 0/1 cube.
 */
module Gates {
  import opened Wrappers
  import opened Clauses


  lemma Neg(l: Lit, asg: Assignment)
    requires l != 0
    ensures LitVal(-l, asg) == !LitVal(l, asg)
  {
  }

  /** The negated literal. */
  function Not(l: Lit): Lit { -l }

  lemma Two(x: Lit, y: Lit, asg: Assignment)
    ensures ClauseSat([x, y], asg) <==> LitVal(x, asg) || LitVal(y, asg)
  {
    assert x in [x, y] && y in [x, y];
  }

  lemma Three(x: Lit, y: Lit, z: Lit, asg: Assignment)
    ensures ClauseSat([x, y, z], asg) <==> LitVal(x, asg) || LitVal(y, asg) || LitVal(z, asg)
  {
    assert x in [x, y, z] && y in [x, y, z] && z in [x, y, z];
  }

  lemma SatOfThree(c0: Clause, c1: Clause, c2: Clause, asg: Assignment)
    ensures Sat([c0, c1, c2], asg) <==> ClauseSat(c0, asg) && ClauseSat(c1, asg) && ClauseSat(c2, asg)
  {
    assert c0 in [c0, c1, c2] && c1 in [c0, c1, c2] && c2 in [c0, c1, c2];
  }

  /** `ab <=> a && b` (constraint_and). */
  function AndClauses(a: Lit, b: Lit, ab: Lit): (cs: seq<Clause>)
    requires a != 0 && b != 0 && ab != 0
    ensures |cs| == 3
    ensures forall asg :: Sat(cs, asg) <==> (LitVal(ab, asg) <==> LitVal(a, asg) && LitVal(b, asg))
  {
    var cs := [[-a, -b, ab], [a, -ab], [b, -ab]];
    assert forall asg :: Sat(cs, asg) <==> (LitVal(ab, asg) <==> LitVal(a, asg) && LitVal(b, asg)) by {
      forall asg ensures Sat(cs, asg) <==> (LitVal(ab, asg) <==> LitVal(a, asg) && LitVal(b, asg)) {
        SatOfThree(cs[0], cs[1], cs[2], asg);
        Three(-a, -b, ab, asg); Two(a, -ab, asg); Two(b, -ab, asg);
        Neg(a, asg); Neg(b, asg); Neg(ab, asg);
      }
    }
    cs
  }

  /** `ab <=> a || b` (constraint_or). */
  function OrClauses(a: Lit, b: Lit, ab: Lit): (cs: seq<Clause>)
    requires a != 0 && b != 0 && ab != 0
    ensures |cs| == 3
    ensures forall asg :: Sat(cs, asg) <==> (LitVal(ab, asg) <==> LitVal(a, asg) || LitVal(b, asg))
  {
    var cs := [[a, b, -ab], [-a, ab], [-b, ab]];
    assert forall asg :: Sat(cs, asg) <==> (LitVal(ab, asg) <==> LitVal(a, asg) || LitVal(b, asg)) by {
      forall asg ensures Sat(cs, asg) <==> (LitVal(ab, asg) <==> LitVal(a, asg) || LitVal(b, asg)) {
        SatOfThree(cs[0], cs[1], cs[2], asg);
        Three(a, b, -ab, asg); Two(-a, ab, asg); Two(-b, ab, asg);
        Neg(a, asg); Neg(b, asg); Neg(ab, asg);
      }
    }
    cs
  }

  /**
    One level of the sequential counter, with x0 = sub[i], x1 = sub[i-1],
    x2 = the new input and x3 = res[i]. The four clauses hold exactly when
    sub is monotone at this level (x0 ==> x1) and x3 <=> x0 || (x1 && x2):
    the dropped literal x0 of the first clause is implied by the others.
   */
  function CounterClauses(x0: Lit, x1: Lit, x2: Lit, x3: Lit): (cs: seq<Clause>)
    requires x0 != 0 && x1 != 0 && x2 != 0 && x3 != 0
    ensures |cs| == 4
    ensures forall asg :: Sat(cs, asg) <==>
      (LitVal(x0, asg) ==> LitVal(x1, asg)) &&
      (LitVal(x3, asg) <==> LitVal(x0, asg) || (LitVal(x1, asg) && LitVal(x2, asg)))
  {
    var cs := [[x1, -x3], [x0, x2, -x3], [-x1, -x2, x3], [-x0, x3]];
    assert forall asg :: Sat(cs, asg) <==>
      (LitVal(x0, asg) ==> LitVal(x1, asg)) &&
      (LitVal(x3, asg) <==> LitVal(x0, asg) || (LitVal(x1, asg) && LitVal(x2, asg))) by {
      forall asg ensures Sat(cs, asg) <==>
        (LitVal(x0, asg) ==> LitVal(x1, asg)) &&
        (LitVal(x3, asg) <==> LitVal(x0, asg) || (LitVal(x1, asg) && LitVal(x2, asg)))
      {
        assert cs == [cs[0], cs[1], cs[2]] + [cs[3]];
        SatOfThree(cs[0], cs[1], cs[2], asg);
        SatAppend([cs[0], cs[1], cs[2]], [cs[3]], asg);
        assert Sat([cs[3]], asg) <==> ClauseSat(cs[3], asg) by { assert cs[3] in [cs[3]]; }
        Two(x1, -x3, asg); Three(x0, x2, -x3, asg); Three(-x1, -x2, x3, asg); Two(-x0, x3, asg);
        Neg(x0, asg); Neg(x1, asg); Neg(x2, asg); Neg(x3, asg);
      }
    }
    cs
  }

  /** One clause [a, -b] per adjacent pair (constraint_unary), in order. */
  function UnaryClauses(vec: seq<Lit>): (cs: seq<Clause>)
    requires NonZero(vec)
    ensures |cs| == if |vec| == 0 then 0 else |vec| - 1
    ensures forall asg :: Sat(cs, asg) <==>
      forall i :: 0 <= i < |vec| - 1 ==> (LitVal(vec[i + 1], asg) ==> LitVal(vec[i], asg))
    decreases |vec|
  {
    if |vec| <= 1 then []
    else
      var init := vec[..|vec| - 1];
      assert NonZero(init) by { forall l | l in init ensures l != 0 { assert l in vec; } }
      var cs := UnaryClauses(init) + [[vec[|vec| - 2], -vec[|vec| - 1]]];
      assert forall asg :: Sat(cs, asg) <==>
        forall i :: 0 <= i < |vec| - 1 ==> (LitVal(vec[i + 1], asg) ==> LitVal(vec[i], asg)) by {
        forall asg ensures Sat(cs, asg) <==>
          forall i :: 0 <= i < |vec| - 1 ==> (LitVal(vec[i + 1], asg) ==> LitVal(vec[i], asg))
        {
          var last := [vec[|vec| - 2], -vec[|vec| - 1]];
          SatAppend(UnaryClauses(init), [last], asg);
          assert Sat([last], asg) <==> ClauseSat(last, asg) by { assert last in [last]; }
          Two(vec[|vec| - 2], -vec[|vec| - 1], asg);
          assert vec[|vec| - 1] in vec;
          Neg(vec[|vec| - 1], asg);
        }
      }
      cs
  }

  function Pow2(k: nat): (p: nat)
    ensures p >= 1
  {
    if k == 0 then 1 else 2 * Pow2(k - 1)
  }

  /** `m >> k` as Python computes it: each step floors (Euclidean `/` by 2 does the same). */
  function Shr(m: int, k: nat): int {
    if k == 0 then m else Shr(m, k - 1) / 2
  }

  /** Bit k of m in two's complement, as `(m >> k) & 1` gives it. */
  predicate Bit(m: int, k: nat) {
    Shr(m, k) % 2 == 1
  }

  /** Shifting m right n times leaves 0 exactly when 0 <= m < 2^n. */
  lemma ShrZero(m: int, n: nat)
    ensures Shr(m, n) == 0 <==> 0 <= m < Pow2(n)
  {
    ShrSign(m, n);
    if m >= 0 { ShrBelow(m, n, 1); }
  }

  lemma {:induction false} ShrSign(m: int, n: nat)
    ensures m < 0 <==> Shr(m, n) < 0
  {
    if n > 0 { ShrSign(m, n - 1); }
  }

  /** For nonnegative m: (m >> n) < c exactly when m < c * 2^n. */
  lemma {:induction false} ShrBelow(m: int, n: nat, c: nat)
    requires 0 <= m
    ensures Shr(m, n) < c <==> m < c * Pow2(n)
  {
    if n > 0 {
      ShrBelow(m, n - 1, 2 * c);
      assert (2 * c) * Pow2(n - 1) == c * Pow2(n);
    }
  }

  /** The bits of x (x[|x|-1] least significant) are componentwise <= those of m. */
  ghost predicate AtMost(x: seq<Lit>, m: int, asg: Assignment) {
    forall j :: 0 <= j < |x| && LitVal(x[j], asg) ==> Bit(m, |x| - 1 - j)
  }

  /** The bits of x are componentwise >= those of m. */
  ghost predicate AtLeast(x: seq<Lit>, m: int, asg: Assignment) {
    forall j :: 0 <= j < |x| && Bit(m, |x| - 1 - j) ==> LitVal(x[j], asg)
  }

  /**
    The clause built by constraint_remove_lower: pop x from the back, keeping
    the literal whenever the current low bit of mx is 0, then shift mx; the
    final `assert not mx` fails unless 0 <= mx < 2^|x|. The clause is false
    exactly on the assignments whose bit vector lies below mx.
   */
  method LowerClause(x: seq<Lit>, mx: int) returns (r: Result<Clause, Failure>)
    ensures r.Ok? <==> 0 <= mx < Pow2(|x|)
    ensures r.Err? ==> r.error == AssertionError("")
    ensures r.Ok? ==> |r.value| <= |x|
    ensures r.Ok? ==> forall asg :: !ClauseSat(r.value, asg) <==> AtMost(x, mx, asg)
  {
    var clause: Clause := [];
    var rest := x;
    var m := mx;
    while rest != []
      invariant |rest| <= |x| && rest == x[..|rest|]
      invariant m == Shr(mx, |x| - |rest|)
      invariant |clause| <= |x| - |rest|
      invariant forall j :: |rest| <= j < |x| && !Bit(mx, |x| - 1 - j) ==> x[j] in clause
      invariant forall l :: l in clause ==> exists j :: |rest| <= j < |x| && !Bit(mx, |x| - 1 - j) && x[j] == l
    {
      var xx := rest[|rest| - 1];
      rest := rest[..|rest| - 1];
      if m % 2 == 0 {
        clause := clause + [xx];
      }
      m := m / 2;
    }
    ShrZero(mx, |x|);
    if m != 0 {
      return Err(AssertionError(""));
    }
    forall asg ensures !ClauseSat(clause, asg) <==> AtMost(x, mx, asg) {
      if AtMost(x, mx, asg) {
        forall l | l in clause ensures !LitVal(l, asg) {
          var j :| 0 <= j < |x| && !Bit(mx, |x| - 1 - j) && x[j] == l;
        }
      }
    }
    return Ok(clause);
  }

  /**
    The clause built by constraint_remove_upper: the negated literal is kept
    whenever the current low bit of mn is 1. The clause is false exactly on
    the assignments whose bit vector lies above mn.
   */
  method UpperClause(x: seq<Lit>, mn: int) returns (r: Result<Clause, Failure>)
    requires NonZero(x)
    ensures r.Ok? <==> 0 <= mn < Pow2(|x|)
    ensures r.Err? ==> r.error == AssertionError("")
    ensures r.Ok? ==> |r.value| <= |x|
    ensures r.Ok? ==> forall asg :: !ClauseSat(r.value, asg) <==> AtLeast(x, mn, asg)
  {
    var clause: Clause := [];
    var rest := x;
    var m := mn;
    while rest != []
      invariant |rest| <= |x| && rest == x[..|rest|]
      invariant m == Shr(mn, |x| - |rest|)
      invariant |clause| <= |x| - |rest|
      invariant forall j :: |rest| <= j < |x| && Bit(mn, |x| - 1 - j) ==> Not(x[j]) in clause
      invariant forall l :: l in clause ==> exists j :: |rest| <= j < |x| && Bit(mn, |x| - 1 - j) && Not(x[j]) == l
    {
      var xx := rest[|rest| - 1];
      rest := rest[..|rest| - 1];
      if m % 2 == 1 {
        clause := clause + [Not(xx)];
      }
      m := m / 2;
    }
    ShrZero(mn, |x|);
    if m != 0 {
      return Err(AssertionError(""));
    }
    UpperSemantics(x, mn, clause);
    return Ok(clause);
  }

  lemma UpperSemantics(x: seq<Lit>, mn: int, clause: Clause)
    requires NonZero(x)
    requires forall j :: 0 <= j < |x| && Bit(mn, |x| - 1 - j) ==> Not(x[j]) in clause
    requires forall l :: l in clause ==> exists j :: 0 <= j < |x| && Bit(mn, |x| - 1 - j) && Not(x[j]) == l
    ensures forall asg :: !ClauseSat(clause, asg) <==> AtLeast(x, mn, asg)
  {
    forall asg ensures !ClauseSat(clause, asg) <==> AtLeast(x, mn, asg) {
      if AtLeast(x, mn, asg) {
        forall l | l in clause ensures !LitVal(l, asg) {
          var j :| 0 <= j < |x| && Bit(mn, |x| - 1 - j) && Not(x[j]) == l;
          assert x[j] in x;
          Neg(x[j], asg);
        }
      } else {
        var j :| 0 <= j < |x| && Bit(mn, |x| - 1 - j) && !LitVal(x[j], asg);
        assert x[j] in x;
        Neg(x[j], asg);
        assert Not(x[j]) in clause;
      }
    }
  }
}
