/**
 * The MILP facade's factories and variable vocabulary. `maximization`,
 * `minimization` and `feasibility` pick an implementation by solver name
 * (falling back to a default name when none is given) and pass it the
 * optimisation direction; variables are registered by name with a type.
 */
module MilpBase {
  import opened Wrappers
  import SolverRegistry

  /** The two MILP front ends: `MILP` and the lower-level `MILPX`. */
  datatype Family = Milp | Milpx

  /** What the model is asked to do with the objective. */
  datatype Goal = Maximize | Minimize | Feasibility

  /** The solver name a factory uses when the caller gives none. */
  function DefaultSolver(family: Family): string {
    match family
    case Milp => "sage/glpk"
    case Milpx => "swiglpk"
  }

  /** The `maximization` argument a factory passes: True, False or None. */
  function Direction(goal: Goal): (r: Option<bool>)
    ensures r == Some(true) <==> goal == Maximize
    ensures r == Some(false) <==> goal == Minimize
    ensures r.None? <==> goal == Feasibility
  {
    match goal
    case Maximize => Some(true)
    case Minimize => Some(false)
    case Feasibility => None
  }

  /** `if not solver: solver = <default>`: a missing or empty name means the default. */
  function SolverName(family: Family, solver: Option<string>): (r: string)
    ensures solver.Some? && solver.value != "" ==> r == solver.value
    ensures solver.None? || solver.value == "" ==> r == DefaultSolver(family)
    ensures r != ""
  {
    if solver.None? || solver.value == "" then DefaultSolver(family) else solver.value
  }

  /** What a factory hands the chosen implementation's constructor. */
  datatype Request<T> = Request(impl: T, maximization: Option<bool>, solver: string)

  /**
   * `MILP.maximization` / `minimization` / `feasibility` and the `MILPX`
   * ones: resolve the name, look up its lower-cased form in the family's
   * registry (a missing entry is a KeyError), and pass the direction and the
   * name as resolved (not lower-cased).
   */
  method Factory<T>(registry: SolverRegistry.Registry<T>, family: Family, goal: Goal, solver: Option<string>)
    returns (r: Result<Request<T>, Failure>)
    ensures var name := SolverName(family, solver);
      && (r.Ok? <==> SolverRegistry.Lower(name) in registry.bySolver)
      && (r.Ok? ==> r.value == Request(registry.bySolver[SolverRegistry.Lower(name)], Direction(goal), name))
      && (r.Err? ==> r.error == KeyError)
  {
    var name := SolverName(family, solver);
    var impl := registry.New(name);
    if impl.Err? {
      return Err(impl.error);
    }
    return Ok(Request(impl.value, Direction(goal), name));
  }

  /** Variable types: integer "I", continuous "C", binary "B". */
  datatype VarType = I | C | B {
    /** Whether the type makes the model a mixed-integer one. */
    predicate IsInteger() {
      this != C
    }
  }

  /** A registered variable: its name, type and 1-based column id. */
  datatype VarInfo = VarInfo(name: string, typ: VarType, id: int)
}
