/**
 * The pysat backends turn the model a native solver returns (a list whose
 * i-th entry is positive when variable i + 1 is true) into solution
 * dictionaries. `model_to_sol` completes the model with 0 for every variable
 * the solver never saw; `model_to_sols` instead yields one dictionary per
 * way of setting those variables, in the order `itertools.product` gives.
 *
 * The number of variables is the builder's `n_vars`, passed in as nVars.
 */
module SatPysat {
  import opened Clauses
  import opened Gates

  function Max(a: int, b: int): int { if a < b then b else a }

  /** The comprehension of `model_to_sol`: key i + 1 holds `int(model[i] > 0)`. */
  function ModelMap(model: seq<int>): map<int, Bit>
    decreases |model|
  {
    if model == [] then map[]
    else ModelMap(model[..|model| - 1])[|model| := BitOf(model[|model| - 1])]
  }

  /** The model's dictionary with vals set on the keys after |model|, in order. */
  function Filled(model: seq<int>, vals: seq<Bit>): map<int, Bit>
    decreases |vals|
  {
    if vals == [] then ModelMap(model)
    else Filled(model, vals[..|vals| - 1])[|model| + |vals| := vals[|vals| - 1]]
  }

  lemma {:induction false} ModelMapMeaning(model: seq<int>)
    ensures forall x :: x in ModelMap(model) <==> 1 <= x <= |model|
    ensures forall x :: 1 <= x <= |model| ==> ModelMap(model)[x] == BitOf(model[x - 1])
    decreases |model|
  {
    if model != [] {
      var init := model[..|model| - 1];
      ModelMapMeaning(init);
      assert forall j :: 0 <= j < |init| ==> init[j] == model[j];
    }
  }

  lemma {:induction false} FilledKeys(model: seq<int>, vals: seq<Bit>)
    ensures forall x :: x in Filled(model, vals) <==> 1 <= x <= |model| + |vals|
    decreases |vals|
  {
    if vals == [] {
      ModelMapMeaning(model);
    } else {
      FilledKeys(model, vals[..|vals| - 1]);
    }
  }

  /** Filled holds the model on 1..|model| and vals on the keys after it, and nothing else. */
  lemma {:induction false} FilledMeaning(model: seq<int>, vals: seq<Bit>)
    ensures forall x :: x in Filled(model, vals) <==> 1 <= x <= |model| + |vals|
    ensures forall x :: 1 <= x <= |model| ==> Filled(model, vals)[x] == BitOf(model[x - 1])
    ensures forall j :: 0 <= j < |vals| ==> Filled(model, vals)[|model| + 1 + j] == vals[j]
    decreases |vals|
  {
    if vals == [] {
      ModelMapMeaning(model);
    } else {
      var init := vals[..|vals| - 1];
      FilledMeaning(model, init);
      assert forall j :: 0 <= j < |init| ==> init[j] == vals[j];
    }
  }

  function Zeros(n: nat): (z: seq<Bit>)
    ensures |z| == n && forall j :: 0 <= j < n ==> z[j] == 0
  {
    seq(n, j => 0)
  }

  /** The dictionary `model_to_sol` returns: the model, then 0 up to variable nVars. */
  function Completed(model: seq<int>, nVars: int): map<int, Bit> {
    Filled(model, Zeros(Max(nVars - |model|, 0)))
  }

  /**
   * `model_to_sol(model)`: the comprehension over the model, then a loop
   * adding 0 for the variables |model| + 1 .. nVars, none of which is a key
   * yet (the assertion in the loop never fails).
   */
  method ModelToSol(model: seq<int>, nVars: int) returns (res: map<int, Bit>)
    ensures res == Completed(model, nVars)
    ensures forall x :: x in res <==> 1 <= x <= Max(|model|, nVars)
    ensures forall x :: 1 <= x <= |model| ==> x in res && (res[x] == 1 <==> model[x - 1] > 0)
    ensures forall x :: |model| < x <= nVars ==> x in res && res[x] == 0
  {
    res := ModelMap(model);
    var i := |model|;
    while i < nVars
      invariant |model| <= i && (i == |model| || i <= nVars)
      invariant res == Filled(model, Zeros(i - |model|))
    {
      FilledKeys(model, Zeros(i - |model|));
      assert i + 1 !in res;
      res := res[i + 1 := 0];
      assert Zeros(i + 1 - |model|)[..i - |model|] == Zeros(i - |model|);
      i := i + 1;
    }
    FilledMeaning(model, Zeros(i - |model|));
    forall x | |model| < x <= nVars ensures res[x] == 0 {
      var j := x - |model| - 1;
      assert 0 <= j < i - |model| && Zeros(i - |model|)[j] == 0;
      assert res[|model| + 1 + j] == 0;
    }
  }

  // ------------------------------------------------------------- model_to_sols

  /** Every vector of vs with b put in front. */
  function Prefixed(b: Bit, vs: seq<seq<Bit>>): (r: seq<seq<Bit>>)
    ensures |r| == |vs| && forall k :: 0 <= k < |vs| ==> r[k] == [b] + vs[k]
  {
    seq(|vs|, k requires 0 <= k < |vs| => [b] + vs[k])
  }

  /** `itertools.product(range(2), repeat=n)`: every 0/1 vector of length n, first position slowest. */
  function Vectors(n: nat): (r: seq<seq<Bit>>)
    ensures |r| == Pow2(n)
    decreases n
  {
    if n == 0 then [[]] else Prefixed(0, Vectors(n - 1)) + Prefixed(1, Vectors(n - 1))
  }

  /** k written with n binary digits, most significant first. */
  function Binary(k: nat, n: nat): (v: seq<Bit>)
    requires k < Pow2(n)
    ensures |v| == n
    decreases n
  {
    if n == 0 then []
    else if k < Pow2(n - 1) then [0 as Bit] + Binary(k, n - 1)
    else [1 as Bit] + Binary(k - Pow2(n - 1), n - 1)
  }

  /** The number a 0/1 vector spells, most significant digit first. */
  function Value(v: seq<Bit>): (k: nat)
    ensures k < Pow2(|v|)
    decreases |v|
  {
    if v == [] then 0 else v[0] * Pow2(|v| - 1) + Value(v[1..])
  }

  /** The k-th vector of the product is k in binary: the vectors come in lexicographic order. */
  lemma {:induction false} VectorsInOrder(n: nat)
    ensures forall k :: 0 <= k < Pow2(n) ==> Vectors(n)[k] == Binary(k, n)
    decreases n
  {
    if n > 0 {
      VectorsInOrder(n - 1);
      var h := Pow2(n - 1);
      forall k | 0 <= k < Pow2(n) ensures Vectors(n)[k] == Binary(k, n) {
        var p0, p1 := Prefixed(0, Vectors(n - 1)), Prefixed(1, Vectors(n - 1));
        if k < h {
          assert Vectors(n)[k] == p0[k];
        } else {
          assert Vectors(n)[k] == p1[k - h];
        }
      }
    }
  }

  /** Reading back a number written in binary gives the number. */
  lemma {:induction false} ValueOfBinary(k: nat, n: nat)
    requires k < Pow2(n)
    ensures Value(Binary(k, n)) == k
    decreases n
  {
    if n > 0 {
      var h := Pow2(n - 1);
      if k < h {
        var b := Binary(k, n - 1);
        assert Binary(k, n) == [0 as Bit] + b;
        assert ([0 as Bit] + b)[1..] == b;
        ValueOfBinary(k, n - 1);
      } else {
        var b := Binary(k - h, n - 1);
        assert Binary(k, n) == [1 as Bit] + b;
        assert ([1 as Bit] + b)[1..] == b;
        ValueOfBinary(k - h, n - 1);
      }
    }
  }

  /** Writing a vector's number in binary gives the vector back. */
  lemma {:induction false} BinaryOfValue(v: seq<Bit>)
    ensures Binary(Value(v), |v|) == v
    decreases |v|
  {
    if v != [] {
      BinaryOfValue(v[1..]);
      assert v == [v[0]] + v[1..];
    }
  }

  /** Zero in binary is the all-zero vector. */
  lemma {:induction false} BinaryZero(n: nat)
    ensures Binary(0, n) == Zeros(n)
    decreases n
  {
    if n > 0 {
      BinaryZero(n - 1);
    }
  }

  /**
   * `model_to_sols(model)`: with variables beyond the model, one dictionary
   * per product vector, the vector filling variables |model| + 1 .. nVars;
   * otherwise the model's own dictionary alone.
   */
  function ModelToSols(model: seq<int>, nVars: int): (sols: seq<map<int, Bit>>)
    ensures |sols| == if nVars > |model| then Pow2(nVars - |model|) else 1
  {
    if nVars > |model| then
      var vs := Vectors(nVars - |model|);
      seq(|vs|, k requires 0 <= k < |vs| => Filled(model, vs[k]))
    else
      [Filled(model, [])]
  }

  /**
   * Every dictionary model_to_sols yields has the keys 1..max(|model|, nVars)
   * and agrees with the model on 1..|model|.
   */
  lemma SolsAgree(model: seq<int>, nVars: int)
    ensures forall s :: s in ModelToSols(model, nVars) ==>
      && (forall x :: x in s <==> 1 <= x <= Max(|model|, nVars))
      && (forall x :: 1 <= x <= |model| ==> x in s && (s[x] == 1 <==> model[x - 1] > 0))
  {
    var sols := ModelToSols(model, nVars);
    forall s | s in sols
      ensures forall x :: x in s <==> 1 <= x <= Max(|model|, nVars)
      ensures forall x :: 1 <= x <= |model| ==> x in s && (s[x] == 1 <==> model[x - 1] > 0)
    {
      var k :| 0 <= k < |sols| && sols[k] == s;
      SolAgrees(model, nVars, k);
    }
  }

  /** The k-th dictionary has the keys 1..max(|model|, nVars) and agrees with the model. */
  lemma SolAgrees(model: seq<int>, nVars: int, k: nat)
    requires k < |ModelToSols(model, nVars)|
    ensures forall x :: x in ModelToSols(model, nVars)[k] <==> 1 <= x <= Max(|model|, nVars)
    ensures forall x :: 1 <= x <= |model| ==>
      x in ModelToSols(model, nVars)[k] && (ModelToSols(model, nVars)[k][x] == 1 <==> model[x - 1] > 0)
  {
    var vals: seq<Bit> := [];
    if nVars > |model| {
      SolsInOrder(model, nVars);
      vals := Binary(k, nVars - |model|);
    }
    assert ModelToSols(model, nVars)[k] == Filled(model, vals);
    assert |model| + |vals| == Max(|model|, nVars);
    FilledMeaning(model, vals);
  }

  /** The k-th dictionary sets the variables beyond the model to k in binary: lexicographic order. */
  lemma SolsInOrder(model: seq<int>, nVars: int)
    requires nVars > |model|
    ensures forall k :: 0 <= k < |ModelToSols(model, nVars)| ==>
      ModelToSols(model, nVars)[k] == Filled(model, Binary(k, nVars - |model|))
  {
    VectorsInOrder(nVars - |model|);
  }

  /**
   * Every way of setting the variables beyond the model is yielded, exactly
   * once: at the index its vector spells.
   */
  lemma SolsComplete(model: seq<int>, nVars: int, vals: seq<Bit>)
    requires nVars > |model| && |vals| == nVars - |model|
    ensures Value(vals) < |ModelToSols(model, nVars)|
    ensures ModelToSols(model, nVars)[Value(vals)] == Filled(model, vals)
    ensures forall k :: 0 <= k < |ModelToSols(model, nVars)| && ModelToSols(model, nVars)[k] == Filled(model, vals)
                        ==> k == Value(vals)
  {
    var n := nVars - |model|;
    var sols := ModelToSols(model, nVars);
    SolsInOrder(model, nVars);
    BinaryOfValue(vals);
    forall k | 0 <= k < |sols| && sols[k] == Filled(model, vals) ensures k == Value(vals) {
      SameFill(model, Binary(k, n), vals);
      ValueOfBinary(k, n);
    }
  }

  /** Two fillings of the same length are the same dictionary only when the vectors are equal. */
  lemma SameFill(model: seq<int>, a: seq<Bit>, b: seq<Bit>)
    requires |a| == |b| && Filled(model, a) == Filled(model, b)
    ensures a == b
  {
    FilledMeaning(model, a);
    FilledMeaning(model, b);
    forall j | 0 <= j < |a| ensures a[j] == b[j] {
      assert Filled(model, a)[|model| + 1 + j] == a[j];
    }
  }

  /** The first dictionary model_to_sols yields is the one model_to_sol returns. */
  lemma SolsFirst(model: seq<int>, nVars: int)
    ensures ModelToSols(model, nVars)[0] == Completed(model, nVars)
  {
    if nVars > |model| {
      SolsInOrder(model, nVars);
      BinaryZero(nVars - |model|);
    } else {
      assert Zeros(0) == [];
    }
  }
}
