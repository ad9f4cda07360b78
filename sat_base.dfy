/**
 * The CNF builder shared by every SAT backend, with the two backends that
 * keep the clauses themselves: `formula` (a clause list) and `writer` (a
 * DIMACS text buffer written out for an external solver). The pysat backends
 * hand each clause to a native solver; the model records what they were handed.
 *
 * Literals are nonzero integers: variable x is the literal x, its negation -x.
 * ZERO is variable 1, forced false by the unit clause [-1]; ONE is its
 * negation -1, so it needs no variable of its own.
 */
module SatBase {
  import opened Wrappers
  import opened Clauses
  import opened Text
  import Dimacs
  import SatExt

  /** Which subclass a CNF object is, with that subclass's own state. */
  datatype Backend =
    | FormulaBackend(clauses: seq<Clause>)
    | WriterBackend(buffer: string, solver: Option<SatExt.ExtSolver>)
    | PysatBackend(name: string)

  datatype Kind = Formula | Writer | Pysat

  predicate StartsWith(s: string, prefix: string) {
    |prefix| <= |s| && s[..|prefix|] == prefix
  }

  /**
   * `init_solver` of each backend: `formula` accepts only the exact name
   * "formula", the pysat backends a name starting with "pysat/" (the rest
   * names the native solver), the writer any name.
   */
  function InitBackend(kind: Kind, solver: string): (r: Result<Backend, Failure>)
    ensures r.Ok? <==> (kind == Formula ==> solver == "formula")
                       && (kind == Pysat ==> StartsWith(solver, "pysat/"))
    ensures r.Ok? ==> match kind
      case Formula => r.value == FormulaBackend([])
      case Writer => r.value == WriterBackend("", None)
      case Pysat => r.value == PysatBackend(solver[6..])
    ensures r.Err? ==> r.error.AssertionError?
  {
    match kind
    case Formula => if solver == "formula" then Ok(FormulaBackend([])) else Err(AssertionError(""))
    case Writer => Ok(WriterBackend("", None))
    case Pysat => if StartsWith(solver, "pysat/") then Ok(PysatBackend(solver[6..])) else Err(AssertionError(""))
  }

  /** What one `add_clause` does to the backend's own state. */
  function Record(b: Backend, c: Clause): (r: Backend)
    ensures r.FormulaBackend? == b.FormulaBackend? && r.WriterBackend? == b.WriterBackend?
    ensures b.FormulaBackend? ==> r.clauses == b.clauses + [c]
    ensures b.WriterBackend? ==> r.buffer == b.buffer + Dimacs.ClauseLine(c) && r.solver == b.solver
    ensures b.PysatBackend? ==> r == b
  {
    match b
    case FormulaBackend(cs) => FormulaBackend(cs + [c])
    case WriterBackend(buf, s) => WriterBackend(buf + JoinSpaced(Dimacs.Literals(c)) + " 0\n", s)
    case PysatBackend(_) => b
  }

  /** What a solver run needs: the command line and the DIMACS file it reads. */
  datatype Invocation = Invocation(command: seq<string>, file: string)

  class Cnf {
    var nVars: nat
    var nClauses: nat
    var backend: Backend
    var ZERO: Lit
    var ONE: Lit
    /** Every clause handed to add_clause / add_clauses since construction, in order. */
    ghost var sent: seq<Clause>

    ghost predicate Valid()
      reads this
    {
      && ZERO == 1 && ONE == -ZERO
      && nVars >= 1
      && nClauses == |sent| && |sent| >= 1 && sent[0] == [-ZERO]
      && (backend.FormulaBackend? ==> backend.clauses == sent)
      && (backend.WriterBackend? ==> backend.buffer == Dimacs.ClauseLines(sent))
    }

    /** `CNF.__init__` after `init_solver` has produced `initial`. */
    constructor (initial: Backend)
      requires initial == FormulaBackend([]) || initial == WriterBackend("", None) || initial.PysatBackend?
      ensures Valid()
      ensures nVars == 1 && nClauses == 1 && sent == [[-1]] && ZERO == 1 && ONE == -1
      ensures backend == Record(initial, [-1])
    {
      nVars := 1;
      ZERO := 1;
      nClauses := 1;
      sent := [[-1]];
      backend := Record(initial, [-1]);
      ONE := -1;
      new;
      Dimacs.ClauseLinesSnoc([], [-1]);
      assert [] + [[-1]] == [[-1]];
    }

    /** Construction by backend kind and solver name; `init_solver` may reject the name. */
    static method Create(kind: Kind, solver: string) returns (r: Result<Cnf, Failure>)
      ensures r.Err? <==> InitBackend(kind, solver).Err?
      ensures r.Ok? ==> fresh(r.value) && r.value.Valid()
      ensures r.Ok? ==> r.value.nVars == 1 && r.value.sent == [[-1]]
      ensures r.Ok? ==> r.value.backend == Record(InitBackend(kind, solver).value, [-1])
    {
      var b := InitBackend(kind, solver);
      if b.Err? {
        return Err(b.error);
      }
      var c := new Cnf(b.value);
      return Ok(c);
    }

    /** `var()`: the next variable, 1, 2, 3, ...; never reused. */
    method Var() returns (v: Lit)
      requires Valid()
      modifies this`nVars
      ensures Valid()
      ensures v == old(nVars) + 1 && nVars == v
    {
      nVars := nVars + 1;
      v := nVars;
    }

    /** `vars(n)`: n consecutive fresh variables. */
    method Vars(n: nat) returns (vs: seq<Lit>)
      requires Valid()
      modifies this`nVars
      ensures Valid()
      ensures nVars == old(nVars) + n
      ensures |vs| == n && forall i :: 0 <= i < n ==> vs[i] == old(nVars) + 1 + i
    {
      vs := [];
      var k := 0;
      while k < n
        invariant 0 <= k <= n && nVars == old(nVars) + k && Valid()
        invariant |vs| == k && forall i :: 0 <= i < k ==> vs[i] == old(nVars) + 1 + i
      {
        var v := Var();
        vs := vs + [v];
        k := k + 1;
      }
    }

    /** `add_clause(c)`: one more clause, counted and recorded by the backend. */
    method AddClause(c: Clause)
      requires Valid()
      modifies this`nClauses, this`backend, this`sent
      ensures Valid()
      ensures sent == old(sent) + [c] && nClauses == old(nClauses) + 1
      ensures backend == Record(old(backend), c)
    {
      Dimacs.ClauseLinesSnoc(sent, c);
      nClauses := nClauses + 1;
      match backend {
        case FormulaBackend(cs) =>
          backend := FormulaBackend(cs + [c]);
        case WriterBackend(buf, s) =>
          backend := WriterBackend(buf + JoinSpaced(Dimacs.Literals(c)) + " 0\n", s);
        case PysatBackend(_) =>
      }
      sent := sent + [c];
    }

    /**
     * `add_clauses(cs)`: the same as adding each clause in order. The writer
     * does exactly that; the formula extends its list, a pysat solver takes
     * the whole batch.
     */
    method AddClauses(cs: seq<Clause>)
      requires Valid()
      modifies this`nClauses, this`backend, this`sent
      ensures Valid()
      ensures sent == old(sent) + cs && nClauses == old(nClauses) + |cs|
      ensures backend.FormulaBackend? == old(backend).FormulaBackend?
      ensures backend.WriterBackend? == old(backend).WriterBackend?
      ensures old(backend).WriterBackend? ==> backend.solver == old(backend).solver
      ensures old(backend).PysatBackend? ==> backend == old(backend)
    {
      if backend.WriterBackend? {
        AddEach(cs);
      } else {
        nClauses := nClauses + |cs|;
        if backend.FormulaBackend? {
          backend := FormulaBackend(backend.clauses + cs);
        }
        sent := sent + cs;
      }
    }

    /** The writer's `add_clauses`: one `add_clause` per clause, in order. */
    method AddEach(cs: seq<Clause>)
      requires Valid() && backend.WriterBackend?
      modifies this`nClauses, this`backend, this`sent
      ensures Valid() && backend.WriterBackend? && backend.solver == old(backend).solver
      ensures sent == old(sent) + cs && nClauses == old(nClauses) + |cs|
    {
      var i := 0;
      while i < |cs|
        invariant 0 <= i <= |cs| && Valid()
        invariant sent == old(sent) + cs[..i] && nClauses == old(nClauses) + i
        invariant backend.WriterBackend? && backend.solver == old(backend).solver
      {
        AddClause(cs[i]);
        PrefixSnoc(old(sent), cs, i);
        i := i + 1;
      }
      assert cs[..i] == cs;
    }

    /** `Writer.set_solver`: the external solver `solve` will run. */
    method SetSolver(solver: Option<SatExt.ExtSolver>)
      requires Valid() && backend.WriterBackend?
      modifies this`backend
      ensures Valid() && backend == old(backend).(solver := solver)
    {
      backend := backend.(solver := solver);
    }

    /**
     * `Writer.write_dimacs`, producing the file content. The header counts
     * every clause line the file holds, and reading the file back gives the
     * clauses added so far, the assumptions as unit clauses and the extra
     * clauses, in that order; a literal 0 anywhere (nothing rejects one)
     * makes the file unreadable instead.
     */
    method WriteDimacs(assumptions: seq<Lit>, extra: seq<Clause>) returns (content: string)
      requires Valid() && backend.WriterBackend?
      ensures content == Dimacs.WriterFile(nVars, nClauses, backend.buffer, assumptions, extra)
      ensures Dimacs.ReadDimacs(content)
        == if AllNonZero(sent) && NonZero(assumptions) && AllNonZero(extra)
           then Some(Dimacs.Cnf(nVars, nClauses + |assumptions| + |extra|, sent + Dimacs.Units(assumptions) + extra))
           else None
    {
      var n := nClauses + |assumptions| + |extra|;
      var units := WriteAssumptions(assumptions);
      var lines := WriteClauses(extra);
      content := Dimacs.Header(nVars, n) + (backend.buffer + units + lines);
      Dimacs.WriterFileIs(nVars, sent, assumptions, extra);
      assert content == Dimacs.WriterFile(nVars, |sent|, Dimacs.ClauseLines(sent), assumptions, extra);
      Dimacs.ReadWriterFile(content, nVars, sent, assumptions, extra);
    }

    /**
     * `Writer.solve` up to running the solver: it needs a solver set with
     * `set_solver`, writes the DIMACS file and builds the solver's command
     * line for it. The solver's output then goes to `SatExt.ParseOutput`.
     */
    method Solve(assumptions: seq<Lit>, extra: seq<Clause>, filename: string) returns (r: Result<Invocation, Failure>)
      requires Valid() && backend.WriterBackend?
      ensures backend.solver.None? ==> r == Err(AssertionError("solver not set"))
      ensures backend.solver.Some? ==>
        var cmd := SatExt.BuildCommand(backend.solver.value.cmd, backend.solver.value.flags, filename);
        (r.Ok? <==> cmd.Ok?)
        && (r.Ok? ==> r.value.command == cmd.value
                      && r.value.file == Dimacs.WriterFile(nVars, nClauses, backend.buffer, assumptions, extra))
    {
      if backend.solver.None? {
        return Err(AssertionError("solver not set"));
      }
      var file := WriteDimacs(assumptions, extra);
      var s := backend.solver.value;
      var cmd := SatExt.BuildCommand(s.cmd, s.flags, filename);
      if cmd.Err? {
        return Err(cmd.error);
      }
      return Ok(Invocation(cmd.value, file));
    }
  }

  // ------------------------------------------------------------ pure helpers

  /** The assumption lines `write_dimacs` writes, one `b"%d 0\n"` per literal. */
  method WriteAssumptions(vs: seq<Lit>) returns (s: string)
    ensures s == Dimacs.AssumptionLines(vs)
    ensures Dimacs.ReadLines(s) == if NonZero(vs) then Some(Dimacs.Units(vs)) else None
  {
    s := "";
    var i := 0;
    while i < |vs|
      invariant 0 <= i <= |vs| && s == Dimacs.AssumptionLines(vs[..i])
    {
      Dimacs.AssumptionLinesPrefix(vs, i);
      s := s + Dimacs.AssumptionLine(vs[i]);
      i := i + 1;
    }
    assert vs[..i] == vs;
    Dimacs.ReadAssumptionLines(vs);
  }

  /** The extra clause lines `write_dimacs` writes, in the format of `add_clause`. */
  method WriteClauses(cs: seq<Clause>) returns (s: string)
    ensures s == Dimacs.ClauseLines(cs)
    ensures Dimacs.ReadLines(s) == if AllNonZero(cs) then Some(cs) else None
  {
    s := "";
    var i := 0;
    while i < |cs|
      invariant 0 <= i <= |cs| && s == Dimacs.ClauseLines(cs[..i])
    {
      Dimacs.ClauseLinesPrefix(cs, i);
      s := s + Dimacs.ClauseLine(cs[i]);
      i := i + 1;
    }
    assert cs[..i] == cs;
    Dimacs.ReadClauseLines(cs);
  }

  /** `make_assumption(xs, values)`: x where the value is set, -x where it is not, pairwise. */
  function MakeAssumption(xs: seq<Lit>, values: seq<int>): (r: seq<Lit>)
    ensures |r| == if |xs| <= |values| then |xs| else |values|
    ensures forall i :: 0 <= i < |r| ==> r[i] == (if values[i] != 0 then xs[i] else -xs[i])
  {
    var n := if |xs| <= |values| then |xs| else |values|;
    seq(n, i requires 0 <= i < n => if values[i] != 0 then xs[i] else -xs[i])
  }

  /** Assuming the literals of make_assumption means fixing each xs[i] to its value. */
  lemma AssumptionMeaning(xs: seq<Lit>, values: seq<int>, asg: Assignment)
    requires forall i :: 0 <= i < |xs| ==> xs[i] != 0
    ensures var r := MakeAssumption(xs, values);
      Sat(Dimacs.Units(r), asg) <==> forall i :: 0 <= i < |r| ==> (LitVal(xs[i], asg) <==> values[i] != 0)
  {
    var r := MakeAssumption(xs, values);
    var us := Dimacs.Units(r);
    forall i | 0 <= i < |r| ensures ClauseSat(us[i], asg) <==> (LitVal(xs[i], asg) <==> values[i] != 0) {
      assert us[i] == [r[i]];
      assert r[i] in us[i];
      if values[i] == 0 {
        assert LitVal(-xs[i], asg) == !LitVal(xs[i], asg);
      }
    }
    if Sat(us, asg) {
      forall i | 0 <= i < |r| ensures LitVal(xs[i], asg) <==> values[i] != 0 {
        assert us[i] in us;
      }
    }
  }

  /** The assignment a solution map stands for: a variable is true when it maps to 1. */
  function SolAssignment(sol: map<int, Bit>): Assignment {
    x => x in sol && sol[x] == 1
  }

  /** The literals of vec other than 0, in order. */
  function NonZeroLits(vec: seq<Lit>): (r: seq<Lit>)
    ensures forall l :: l in r <==> l in vec && l != 0
    decreases |vec|
  {
    if vec == [] then []
    else
      var init := NonZeroLits(vec[..|vec| - 1]);
      var v := vec[|vec| - 1];
      assert forall l :: l in vec <==> l in vec[..|vec| - 1] || l == v;
      if v == 0 then init else init + [v]
  }

  /** `sol_eval(sol, vec)`: each nonzero literal's value under sol; zeros are skipped. */
  function SolEval(sol: map<int, Bit>, vec: seq<Lit>): Result<seq<Bit>, Failure>
    decreases |vec|
  {
    if vec == [] then Ok([])
    else match SolEval(sol, vec[..|vec| - 1])
      case Err(e) => Err(e)
      case Ok(bits) =>
        var v := vec[|vec| - 1];
        if v == 0 then Ok(bits)
        else if Abs(v) !in sol then Err(KeyError)
        else Ok(bits + [if v < 0 then 1 - sol[Abs(v)] else sol[Abs(v)]])
  }

  /**
   * sol_eval succeeds exactly when every nonzero literal's variable has a
   * value, and then gives 1 for each nonzero literal the solution makes true.
   */
  lemma {:induction false} SolEvalMeaning(sol: map<int, Bit>, vec: seq<Lit>)
    ensures SolEval(sol, vec).Ok? <==> forall l :: l in vec && l != 0 ==> Abs(l) in sol
    ensures SolEval(sol, vec).Ok? ==>
      var lits := NonZeroLits(vec);
      |SolEval(sol, vec).value| == |lits|
      && forall j :: 0 <= j < |lits| ==>
           (SolEval(sol, vec).value[j] == 1 <==> LitVal(lits[j], SolAssignment(sol)))
    decreases |vec|
  {
    if vec != [] {
      var init := vec[..|vec| - 1];
      var v := vec[|vec| - 1];
      SolEvalMeaning(sol, init);
      assert forall l :: l in vec <==> l in init || l == v;
    }
  }
}
