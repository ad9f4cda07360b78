/**
  The sequential-counter cardinality encoding of CNF.Cardinality (Sinz,
  "Towards an Optimal CNF Encoding of Boolean Cardinality Constraints",
  CP 2005), as a pure function of the inputs, the clipped limit and the
  value of the variable counter before the call. The encoder folds the
  inputs front to back: the counter of vec[..n-1] is extended by the last
  input v with `lim` fresh variables res, where
    res[0] <=> sub[0] || v
    res[i] <=> sub[i] || (sub[i-1] && v)    when sub has an entry i
    res[i] <=> sub[i-1] && v                 otherwise (then i == lim - 1).
  The lemmas prove that every model of the clauses makes the output a
  thermometer of the number of true inputs, that every assignment of the
  inputs extends to a model, and that the extension is unique.
 */
module SeqCounter {
  import opened Clauses
  import opened Gates

  datatype Encoding = Encoding(out: seq<Lit>, cs: seq<Clause>, used: nat)

  function Min(a: int, b: int): int { if a < b then a else b }

  /** k consecutive variables after `base`. */
  function Fresh(base: nat, k: nat): (r: seq<Lit>)
    ensures |r| == k
    ensures forall i :: 0 <= i < k ==> r[i] == base + 1 + i
    ensures NonZero(r)
  {
    if k == 0 then [] else Fresh(base, k - 1) + [base + k]
  }

  /** The clauses of level i >= 1 of one fold step. */
  function Level(sub: seq<Lit>, v: Lit, res: seq<Lit>, i: nat): seq<Clause>
    requires NonZero(sub) && v != 0 && NonZero(res)
    requires 1 <= i < |res| <= |sub| + 1
  {
    assert sub[i - 1] in sub && res[i] in res;
    if |sub| >= i + 1 then
      assert sub[i] in sub;
      CounterClauses(sub[i], sub[i - 1], v, res[i])
    else
      AndClauses(sub[i - 1], v, res[i])
  }

  /** The clauses of levels 1..k-1, in the order the loop over i emits them. */
  function Levels(sub: seq<Lit>, v: Lit, res: seq<Lit>, k: nat): (cs: seq<Clause>)
    requires NonZero(sub) && v != 0 && NonZero(res)
    requires k <= |res| <= |sub| + 1
    ensures |cs| <= 4 * (k - 1) || k == 0
  {
    if k <= 1 then [] else Levels(sub, v, res, k - 1) + Level(sub, v, res, k - 1)
  }

  /** The clauses of one fold step: level 0 (an OR gate) and levels 1..|res|-1. */
  function StepClauses(sub: seq<Lit>, v: Lit, res: seq<Lit>): (cs: seq<Clause>)
    requires NonZero(sub) && v != 0 && NonZero(res)
    requires 1 <= |res| <= |sub| + 1 && 1 <= |sub|
    ensures |cs| <= 4 * |res|
  {
    assert sub[0] in sub && res[0] in res;
    OrClauses(sub[0], v, res[0]) + Levels(sub, v, res, |res|)
  }

  /**
    The encoding of `vec` with limit `lim` when the variable counter stood at
    `base`: the output vector, the clauses in emission order and the number of
    variables allocated. One input is its own counter; otherwise the result
    is `lim` fresh variables allocated after those of the prefix's counter.
   */
  function Encode(vec: seq<Lit>, lim: nat, base: nat): (e: Encoding)
    requires 1 <= lim <= |vec| && NonZero(vec)
    ensures |e.out| == lim && NonZero(e.out)
    ensures |vec| == 1 ==> e == Encoding(vec, [], 0)
    ensures |vec| >= 2 ==> e.used >= lim && e.out == Fresh(base + e.used - lim, lim)
    decreases |vec|
  {
    if |vec| == 1 then Encoding(vec, [], 0)
    else
      var init := vec[..|vec| - 1];
      assert NonZero(init) by { forall l | l in init ensures l != 0 { assert l in vec; } }
      var lim' := Min(lim, |vec| - 1);
      var sub := Encode(init, lim', base);
      var res := Fresh(base + sub.used, lim);
      var v := vec[|vec| - 1];
      assert v in vec;
      Encoding(res, sub.cs + StepClauses(sub.out, v, res), sub.used + lim)
  }

  lemma {:induction false} LevelsSat(sub: seq<Lit>, v: Lit, res: seq<Lit>, k: nat, asg: Assignment)
    requires NonZero(sub) && v != 0 && NonZero(res)
    requires k <= |res| <= |sub| + 1
    ensures Sat(Levels(sub, v, res, k), asg) <==> forall i :: 1 <= i < k ==> Sat(Level(sub, v, res, i), asg)
  {
    if k > 1 {
      LevelsSat(sub, v, res, k - 1, asg);
      SatAppend(Levels(sub, v, res, k - 1), Level(sub, v, res, k - 1), asg);
    }
  }

  /** What level i of a step forces on a model, read as counts: sub is the
      thermometer of c' true inputs, v the new input. */
  lemma LevelCounts(sub: seq<Lit>, v: Lit, res: seq<Lit>, i: nat, asg: Assignment, c': nat)
    requires NonZero(sub) && v != 0 && NonZero(res)
    requires 1 <= i < |res| <= |sub| + 1
    requires |sub| >= i + 1 || c' <= |sub|
    requires forall j :: 0 <= j < |sub| ==> (LitVal(sub[j], asg) <==> c' >= j + 1)
    ensures Sat(Level(sub, v, res, i), asg) <==>
      (LitVal(res[i], asg) <==> c' + (if LitVal(v, asg) then 1 else 0) >= i + 1)
  {
  }

  /**
    Soundness: in every model of the clauses, output i is true exactly when
    at least i + 1 inputs are true.
   */
  lemma {:induction false} EncodeCounts(vec: seq<Lit>, lim: nat, base: nat, asg: Assignment)
    requires 1 <= lim <= |vec| && NonZero(vec)
    requires Sat(Encode(vec, lim, base).cs, asg)
    ensures forall i :: 0 <= i < lim ==>
      (LitVal(Encode(vec, lim, base).out[i], asg) <==> Count(vec, asg) >= i + 1)
    decreases |vec|
  {
    var e := Encode(vec, lim, base);
    if |vec| == 1 {
      assert vec[..0] == [];
    } else {
      var init := vec[..|vec| - 1];
      assert NonZero(init) by { forall l | l in init ensures l != 0 { assert l in vec; } }
      var lim' := Min(lim, |vec| - 1);
      var sub := Encode(init, lim', base);
      var v := vec[|vec| - 1];
      assert v in vec;
      var res := e.out;
      SatAppend(sub.cs, StepClauses(sub.out, v, res), asg);
      EncodeCounts(init, lim', base, asg);
      var c' := Count(init, asg);
      assert sub.out[0] in sub.out && res[0] in res;
      SatAppend(OrClauses(sub.out[0], v, res[0]), Levels(sub.out, v, res, lim), asg);
      LevelsSat(sub.out, v, res, lim, asg);
      forall i | 0 <= i < lim ensures LitVal(res[i], asg) <==> Count(vec, asg) >= i + 1 {
        if i > 0 {
          assert Sat(Level(sub.out, v, res, i), asg);
          LevelCounts(sub.out, v, res, i, asg, c');
        }
      }
    }
  }

  lemma {:induction false} LevelsWithin(sub: seq<Lit>, v: Lit, res: seq<Lit>, k: nat, bound: int)
    requires NonZero(sub) && v != 0 && NonZero(res)
    requires k <= |res| <= |sub| + 1
    requires VarsWithin(sub, bound) && Abs(v) <= bound && VarsWithin(res, bound)
    ensures ClausesWithin(Levels(sub, v, res, k), bound)
  {
    if k > 1 {
      LevelsWithin(sub, v, res, k - 1, bound);
      var i := k - 1;
      assert sub[i - 1] in sub && res[i] in res;
      if |sub| >= i + 1 { assert sub[i] in sub; }
      var cs := Levels(sub, v, res, k - 1) + Level(sub, v, res, i);
      assert forall c :: c in cs ==> c in Levels(sub, v, res, k - 1) || c in Level(sub, v, res, i);
    }
  }

  lemma WithinAppend(cs1: seq<Clause>, cs2: seq<Clause>, bound: int)
    requires ClausesWithin(cs1, bound) && ClausesWithin(cs2, bound)
    ensures ClausesWithin(cs1 + cs2, bound)
  {
    assert forall c :: c in cs1 + cs2 ==> c in cs1 || c in cs2;
  }

  lemma WithinMono(cs: seq<Clause>, b1: int, b2: int)
    requires ClausesWithin(cs, b1) && b1 <= b2
    ensures ClausesWithin(cs, b2)
  {
  }

  lemma StepWithin(sub: seq<Lit>, v: Lit, res: seq<Lit>, bound: int)
    requires NonZero(sub) && v != 0 && NonZero(res)
    requires 1 <= |res| <= |sub| + 1 && 1 <= |sub|
    requires VarsWithin(sub, bound) && Abs(v) <= bound && VarsWithin(res, bound)
    ensures ClausesWithin(StepClauses(sub, v, res), bound)
  {
    assert sub[0] in sub && res[0] in res;
    LevelsWithin(sub, v, res, |res|, bound);
    WithinAppend(OrClauses(sub[0], v, res[0]), Levels(sub, v, res, |res|), bound);
  }

  /** Every variable of the clauses and of the output is an input or one of the allocated ones. */
  lemma {:induction false} EncodeWithin(vec: seq<Lit>, lim: nat, base: nat)
    requires 1 <= lim <= |vec| && VarsWithin(vec, base)
    ensures ClausesWithin(Encode(vec, lim, base).cs, base + Encode(vec, lim, base).used)
    ensures VarsWithin(Encode(vec, lim, base).out, base + Encode(vec, lim, base).used)
    decreases |vec|
  {
    var e := Encode(vec, lim, base);
    if |vec| >= 2 {
      var init := vec[..|vec| - 1];
      assert VarsWithin(init, base) by { forall l | l in init ensures l != 0 && Abs(l) <= base { assert l in vec; } }
      var lim' := Min(lim, |vec| - 1);
      var sub := Encode(init, lim', base);
      var v := vec[|vec| - 1];
      assert v in vec;
      EncodeWithin(init, lim', base);
      var bound := base + e.used;
      assert e.used == sub.used + lim;
      assert VarsWithin(e.out, bound);
      StepWithin(sub.out, v, e.out, bound);
      WithinMono(sub.cs, base + sub.used, bound);
      WithinAppend(sub.cs, StepClauses(sub.out, v, e.out), bound);
    }
  }

  /**
    The intended values of the allocated variables for input assignment asg:
    each output variable of each fold step holds "at least i + 1 of the
    inputs folded so far are true"; every other variable keeps its value.
   */
  ghost function Extend(vec: seq<Lit>, lim: nat, base: nat, asg: Assignment): Assignment
    requires 1 <= lim <= |vec| && NonZero(vec)
    decreases |vec|
  {
    if |vec| == 1 then asg
    else
      var init := vec[..|vec| - 1];
      assert NonZero(init) by { forall l | l in init ensures l != 0 { assert l in vec; } }
      var lim' := Min(lim, |vec| - 1);
      var lo := base + Encode(init, lim', base).used;
      var a1 := Extend(init, lim', base, asg);
      var n := Count(vec, asg);
      x => if lo < x <= lo + lim then n >= x - lo else a1(x)
  }

  /** One unfolding of Extend for two or more inputs, given the prefix's encoding sub and extension a1. */
  lemma ExtendUnfold(vec: seq<Lit>, lim: nat, base: nat, asg: Assignment, sub: Encoding, a1: Assignment, a': Assignment)
    requires 2 <= |vec| && 1 <= lim <= |vec| && NonZero(vec)
    requires NonZero(vec[..|vec| - 1])
    requires sub == Encode(vec[..|vec| - 1], Min(lim, |vec| - 1), base)
    requires a1 == Extend(vec[..|vec| - 1], Min(lim, |vec| - 1), base, asg)
    requires a' == Extend(vec, lim, base, asg)
    ensures forall x :: a'(x) == (if base + sub.used < x <= base + sub.used + lim
                                  then Count(vec, asg) >= x - (base + sub.used) else a1(x))
  {
  }

  /** A step's clauses hold when sub is the thermometer of c' and res that of c' plus v. */
  lemma StepSat(sub: seq<Lit>, v: Lit, res: seq<Lit>, asg: Assignment, c': nat)
    requires NonZero(sub) && v != 0 && NonZero(res)
    requires 1 <= |res| <= |sub| + 1 && 1 <= |sub|
    requires |sub| < |res| ==> c' <= |sub|
    requires forall j :: 0 <= j < |sub| ==> (LitVal(sub[j], asg) <==> c' >= j + 1)
    requires forall i :: 0 <= i < |res| ==>
      (LitVal(res[i], asg) <==> c' + (if LitVal(v, asg) then 1 else 0) >= i + 1)
    ensures Sat(StepClauses(sub, v, res), asg)
  {
    assert sub[0] in sub && res[0] in res;
    forall i | 1 <= i < |res| ensures Sat(Level(sub, v, res, i), asg) {
      LevelCounts(sub, v, res, i, asg, c');
    }
    LevelsSat(sub, v, res, |res|, asg);
    SatAppend(OrClauses(sub[0], v, res[0]), Levels(sub, v, res, |res|), asg);
  }

  /** Under an assignment that agrees with a model a1 of the prefix's clauses
      up to lo, the prefix counter still counts the inputs under asg. */
  lemma PrefixCounts(init: seq<Lit>, lim': nat, base: nat, asg: Assignment, a1: Assignment, a': Assignment, lo: int)
    requires 1 <= lim' <= |init| && VarsWithin(init, base)
    requires lo == base + Encode(init, lim', base).used
    requires Sat(Encode(init, lim', base).cs, a1) && AgreeUpTo(a1, asg, base) && AgreeUpTo(a', a1, lo)
    ensures forall j :: 0 <= j < lim' ==>
      (LitVal(Encode(init, lim', base).out[j], a') <==> Count(init, asg) >= j + 1)
  {
    var sub := Encode(init, lim', base);
    EncodeWithin(init, lim', base);
    EncodeCounts(init, lim', base, a1);
    CountAgree(init, a1, asg, base);
    forall j | 0 <= j < lim' ensures LitVal(sub.out[j], a') == LitVal(sub.out[j], a1) {
      assert sub.out[j] in sub.out;
      LitValAgree(sub.out[j], a', a1, lo);
    }
  }

  /** One unfolding of Encode for two or more inputs, given the prefix's encoding sub. */
  lemma EncodeStep(vec: seq<Lit>, lim: nat, base: nat, sub: Encoding)
    requires 2 <= |vec| && 1 <= lim <= |vec| && NonZero(vec)
    requires NonZero(vec[..|vec| - 1])
    requires sub == Encode(vec[..|vec| - 1], Min(lim, |vec| - 1), base)
    ensures vec[|vec| - 1] != 0
    ensures Encode(vec, lim, base).used == sub.used + lim
    ensures Encode(vec, lim, base).out == Fresh(base + sub.used, lim)
    ensures Encode(vec, lim, base).cs == sub.cs + StepClauses(sub.out, vec[|vec| - 1], Fresh(base + sub.used, lim))
  {
    assert vec[|vec| - 1] in vec;
  }

  /** The extension only changes the variables the encoding allocates. */
  lemma {:induction false} ExtendKeeps(vec: seq<Lit>, lim: nat, base: nat, asg: Assignment)
    requires 1 <= lim <= |vec| && NonZero(vec)
    ensures forall x :: (x <= base || x > base + Encode(vec, lim, base).used) ==>
      Extend(vec, lim, base, asg)(x) == asg(x)
    decreases |vec|
  {
    if |vec| >= 2 {
      var init := vec[..|vec| - 1];
      assert NonZero(init) by { forall l | l in init ensures l != 0 { assert l in vec; } }
      ExtendKeeps(init, Min(lim, |vec| - 1), base, asg);
    }
  }

  /** Existence: every assignment of the inputs extends to a model of the clauses,
      changing only the allocated variables. */
  lemma {:induction false} ExtendSat(vec: seq<Lit>, lim: nat, base: nat, asg: Assignment)
    requires 1 <= lim <= |vec| && VarsWithin(vec, base)
    ensures AgreeUpTo(Extend(vec, lim, base, asg), asg, base)
    ensures Sat(Encode(vec, lim, base).cs, Extend(vec, lim, base, asg))
    decreases |vec|
  {
    ExtendKeeps(vec, lim, base, asg);
    if |vec| >= 2 {
      var init := vec[..|vec| - 1];
      assert VarsWithin(init, base) by { forall l | l in init ensures l != 0 && Abs(l) <= base { assert l in vec; } }
      var lim' := Min(lim, |vec| - 1);
      ExtendSat(init, lim', base, asg);
      ExtendStep(vec, lim, base, asg);
    }
  }

  /** Fresh outputs that hold exactly the thermometer code of n. */
  lemma FreshCounts(out: seq<Lit>, lo: nat, lim: nat, a: Assignment, n: nat)
    requires out == Fresh(lo, lim)
    requires forall x :: lo < x <= lo + lim ==> a(x) == (n >= x - lo)
    ensures forall i :: 0 <= i < lim ==> (LitVal(out[i], a) <==> n >= i + 1)
  {
    forall i | 0 <= i < lim ensures LitVal(out[i], a) <==> n >= i + 1 {
      assert out[i] == lo + 1 + i;
    }
  }

  /** The clauses of one more counter step hold once the prefix's outputs carry
      the thermometer code of c' and the fresh outputs that of c' plus v. */
  lemma StepFromParts(out: seq<Lit>, used: nat, v: Lit, base: nat, lim: nat, a: Assignment, c': nat, n: nat)
    requires NonZero(out) && v != 0
    requires 1 <= |out| && 1 <= lim <= |out| + 1
    requires |out| < lim ==> c' <= |out|
    requires forall j :: 0 <= j < |out| ==> (LitVal(out[j], a) <==> c' >= j + 1)
    requires forall x :: base + used < x <= base + used + lim ==> a(x) == (n >= x - (base + used))
    requires n == c' + (if LitVal(v, a) then 1 else 0)
    ensures Sat(StepClauses(out, v, Fresh(base + used, lim)), a)
  {
    var lo := base + used;
    FreshCounts(Fresh(lo, lim), lo, lim, a, n);
    StepSat(out, v, Fresh(lo, lim), a, c');
  }

  /** What the extension inherits from the prefix: the prefix's clauses still
      hold, its outputs still count the prefix, the last input adds to that
      count, and the fresh outputs carry the thermometer code of the total. */
  lemma ExtendPrefix(vec: seq<Lit>, lim: nat, base: nat, asg: Assignment, a1: Assignment, a': Assignment)
    returns (sub: Encoding)
    requires 2 <= |vec| && 1 <= lim <= |vec| && VarsWithin(vec, base)
    requires VarsWithin(vec[..|vec| - 1], base)
    requires a1 == Extend(vec[..|vec| - 1], Min(lim, |vec| - 1), base, asg)
    requires a' == Extend(vec, lim, base, asg)
    requires AgreeUpTo(a1, asg, base)
    requires Sat(Encode(vec[..|vec| - 1], Min(lim, |vec| - 1), base).cs, a1)
    ensures sub == Encode(vec[..|vec| - 1], Min(lim, |vec| - 1), base)
    ensures var c' := Count(vec[..|vec| - 1], asg);
      && Sat(sub.cs, a')
      && (forall j :: 0 <= j < |sub.out| ==> (LitVal(sub.out[j], a') <==> c' >= j + 1))
      && Count(vec, asg) == c' + (if LitVal(vec[|vec| - 1], a') then 1 else 0)
      && (forall x :: base + sub.used < x <= base + sub.used + lim ==>
            a'(x) == (Count(vec, asg) >= x - (base + sub.used)))
  {
    var init := vec[..|vec| - 1];
    var lim' := Min(lim, |vec| - 1);
    sub := Encode(init, lim', base);
    var v := vec[|vec| - 1];
    assert v in vec;
    var lo := base + sub.used;
    ExtendUnfold(vec, lim, base, asg, sub, a1, a');
    assert AgreeUpTo(a', a1, lo);
    assert Sat(sub.cs, a') by {
      // the prefix's clauses only see variables up to lo, where a' and a1 agree
      EncodeWithin(init, lim', base);
      SatAgree(sub.cs, a1, a', lo);
    }
    PrefixCounts(init, lim', base, asg, a1, a', lo);
    LitValAgree(v, a', a1, lo);
    LitValAgree(v, a1, asg, base);
  }

  /** The inductive step of ExtendSat, given the claim for the prefix. */
  lemma ExtendStep(vec: seq<Lit>, lim: nat, base: nat, asg: Assignment)
    requires 2 <= |vec| && 1 <= lim <= |vec| && VarsWithin(vec, base)
    requires VarsWithin(vec[..|vec| - 1], base)
    requires AgreeUpTo(Extend(vec[..|vec| - 1], Min(lim, |vec| - 1), base, asg), asg, base)
    requires Sat(Encode(vec[..|vec| - 1], Min(lim, |vec| - 1), base).cs,
                 Extend(vec[..|vec| - 1], Min(lim, |vec| - 1), base, asg))
    ensures Sat(Encode(vec, lim, base).cs, Extend(vec, lim, base, asg))
  {
    assert vec[|vec| - 1] in vec;
    var sub := ExtendPrefix(vec, lim, base, asg, Extend(vec[..|vec| - 1], Min(lim, |vec| - 1), base, asg), Extend(vec, lim, base, asg));
    StepParts(vec, lim, base, Extend(vec, lim, base, asg), Count(vec[..|vec| - 1], asg), Count(vec, asg), sub);
    EncodeStepSat(vec, lim, base, Extend(vec, lim, base, asg), sub);
  }

  /** The step's clauses hold once the prefix's outputs carry the thermometer
      code of c' and the fresh outputs that of n. */
  lemma StepParts(vec: seq<Lit>, lim: nat, base: nat, a: Assignment, c': nat, n: nat, sub: Encoding)
    requires 2 <= |vec| && 1 <= lim <= |vec| && NonZero(vec) && NonZero(vec[..|vec| - 1])
    requires sub == Encode(vec[..|vec| - 1], Min(lim, |vec| - 1), base)
    requires c' <= |vec| - 1
    requires forall j :: 0 <= j < |sub.out| ==> (LitVal(sub.out[j], a) <==> c' >= j + 1)
    requires forall x :: base + sub.used < x <= base + sub.used + lim ==> a(x) == (n >= x - (base + sub.used))
    requires n == c' + (if LitVal(vec[|vec| - 1], a) then 1 else 0)
    ensures vec[|vec| - 1] != 0
    ensures Sat(StepClauses(sub.out, vec[|vec| - 1], Fresh(base + sub.used, lim)), a)
  {
    assert vec[|vec| - 1] in vec;
    StepFromParts(sub.out, sub.used, vec[|vec| - 1], base, lim, a, c', n);
  }

  /** The clauses of the encoding hold when the prefix's clauses and the step's clauses do. */
  lemma EncodeStepSat(vec: seq<Lit>, lim: nat, base: nat, a: Assignment, sub: Encoding)
    requires 2 <= |vec| && 1 <= lim <= |vec| && NonZero(vec) && NonZero(vec[..|vec| - 1])
    requires vec[|vec| - 1] != 0
    requires sub == Encode(vec[..|vec| - 1], Min(lim, |vec| - 1), base)
    requires Sat(sub.cs, a)
    requires Sat(StepClauses(sub.out, vec[|vec| - 1], Fresh(base + sub.used, lim)), a)
    ensures Sat(Encode(vec, lim, base).cs, a)
  {
    EncodeStep(vec, lim, base, sub);
    SatAppend(sub.cs, StepClauses(sub.out, vec[|vec| - 1], Fresh(base + sub.used, lim)), a);
  }

  /** Uniqueness: two models of the clauses that agree on the variables up to
      `base` (the inputs) agree on every allocated variable as well. */
  lemma {:induction false} EncodeUnique(vec: seq<Lit>, lim: nat, base: nat, a: Assignment, b: Assignment)
    requires 1 <= lim <= |vec| && VarsWithin(vec, base)
    requires Sat(Encode(vec, lim, base).cs, a) && Sat(Encode(vec, lim, base).cs, b)
    requires AgreeUpTo(a, b, base)
    ensures AgreeUpTo(a, b, base + Encode(vec, lim, base).used)
    decreases |vec|
  {
    var e := Encode(vec, lim, base);
    if |vec| >= 2 {
      var init := vec[..|vec| - 1];
      assert VarsWithin(init, base) by { forall l | l in init ensures l != 0 && Abs(l) <= base { assert l in vec; } }
      var lim' := Min(lim, |vec| - 1);
      var sub := Encode(init, lim', base);
      var v := vec[|vec| - 1];
      assert v in vec;
      SatAppend(sub.cs, StepClauses(sub.out, v, e.out), a);
      SatAppend(sub.cs, StepClauses(sub.out, v, e.out), b);
      EncodeUnique(init, lim', base, a, b);
      EncodeCounts(vec, lim, base, a);
      EncodeCounts(vec, lim, base, b);
      CountAgree(vec, a, b, base);
      var lo := base + sub.used;
      forall x | 1 <= x <= base + e.used ensures a(x) == b(x) {
        if x > lo {
          assert e.out[x - lo - 1] == x;
        }
      }
    }
  }

  /**
   * Cardinality's fold step produces the encoding of vec: the prefix's
   * counter, followed by the step's clauses over `l` fresh outputs.
   */
  lemma FoldStep(vec: seq<Lit>, l: int, base: nat, sub: Encoding, res: seq<Lit>, cs0: seq<Clause>, cs: seq<Clause>, cnt: int)
    requires 2 <= |vec| && 1 <= l <= |vec| && NonZero(vec) && NonZero(vec[..|vec| - 1])
    requires sub == Encode(vec[..|vec| - 1], Min(l, |vec| - 1), base)
    requires vec[|vec| - 1] != 0
    requires res == Fresh(base + sub.used, l)
    requires cs == cs0 + sub.cs + StepClauses(sub.out, vec[|vec| - 1], res)
    requires cnt == base + sub.used + l
    ensures res == Encode(vec, l, base).out
    ensures cs == cs0 + Encode(vec, l, base).cs
    ensures cnt == base + Encode(vec, l, base).used
  {
    EncodeStep(vec, l, base, sub);
    AppendAssoc(cs0, sub.cs, StepClauses(sub.out, vec[|vec| - 1], res));
  }
}
