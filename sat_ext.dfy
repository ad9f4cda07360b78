/**
 * External SAT solvers driven through the command line: the command template
 * an ExtSolver is built with, the command line it runs for a DIMACS file, and
 * the parser of the solver's output in the SAT-competition format
 * ("s SATISFIABLE" / "s UNSATISFIABLE" status lines, "v ..." value lines,
 * "c ..." comment lines).
 */
module SatExt {
  import opened Wrappers
  import opened Clauses
  import opened Text
  import Dimacs

  const FLAGS: string := "<FLAGS>"
  const DIMACS: string := "<DIMACS>"

  /** The `command` argument of the constructor. */
  datatype Command = NoCommand | CommandString(s: string) | CommandList(args: seq<string>)

  /** An external solver's settings; none of them change after construction. */
  datatype ExtSolver = ExtSolver(cmd: seq<string>, flags: seq<string>, solver: string)

  /**
   * `ExtSolver.__init__` up to the CNF part of the construction. `classCmd` is
   * the class-level CMD (None when the class leaves it unset), `onPath` the
   * commands `shutil.which` finds.
   */
  function Create(classCmd: Option<seq<string>>, command: Command, flags: seq<string>,
                  solver: Option<string>, onPath: set<string>): (r: Result<ExtSolver, Failure>)
    ensures classCmd.None? && command.NoCommand? ==>
      r == Err(ValueError("command was not passed to ExtSolver"))
    ensures classCmd.None? && command.CommandString? ==>
      (r.Ok? <==> command.s in onPath)
      && (r.Ok? ==> r.value.cmd == [command.s, FLAGS, DIMACS]
                    && r.value.solver == (if solver.Some? then solver.value else "ext/" + command.s))
    ensures classCmd.None? && command.CommandList? ==>
      (r.Ok? <==> |command.args| >= 1 && command.args[0] in onPath)
      && (r.Ok? ==> r.value.cmd == command.args)
    ensures classCmd.Some? ==>
      (r.Ok? <==> solver.Some? || |classCmd.value| >= 1)
      && (r.Ok? ==> r.value.cmd == classCmd.value)
    ensures r.Ok? ==> r.value.flags == flags
    ensures r.Ok? && solver.Some? ==> r.value.solver == solver.value
    ensures r.Ok? && solver.None? ==> |r.value.cmd| >= 1 && r.value.solver == "ext/" + r.value.cmd[0]
    ensures classCmd.None? && command.CommandList? && |command.args| == 0 ==> r == Err(IndexError)
    ensures classCmd.None? && command.CommandString? && command.s !in onPath ==>
      r == Err(RuntimeError("command " + command.s + " is not available"))
    ensures classCmd.None? && command.CommandList? && |command.args| >= 1 && command.args[0] !in onPath ==>
      r == Err(RuntimeError("command " + command.args[0] + " is not available"))
    ensures classCmd.Some? && |classCmd.value| == 0 && solver.None? ==> r == Err(IndexError)
  {
    var cmd :=
      if classCmd.Some? then Ok(classCmd.value)
      else match command
        case NoCommand => Err(ValueError("command was not passed to ExtSolver"))
        case CommandString(s) => Ok([s, FLAGS, DIMACS])
        case CommandList(args) => Ok(args);
    if cmd.Err? then Err(cmd.error)
    else if classCmd.None? && |cmd.value| == 0 then Err(IndexError)
    else if classCmd.None? && cmd.value[0] !in onPath then
      Err(RuntimeError("command " + cmd.value[0] + " is not available"))
    else if solver.None? && |cmd.value| == 0 then Err(IndexError)
    else Ok(ExtSolver(cmd.value, flags, if solver.Some? then solver.value else "ext/" + cmd.value[0]))
  }

  /** Every DIMACS placeholder replaced by the file name. */
  function Substitute(cmd: seq<string>, filename: string): (r: seq<string>)
    ensures |r| == |cmd|
    ensures forall i :: 0 <= i < |cmd| ==> r[i] == (if cmd[i] == DIMACS then filename else cmd[i])
  {
    seq(|cmd|, i requires 0 <= i < |cmd| => if cmd[i] == DIMACS then filename else cmd[i])
  }

  /** `list.index`: the first position of x. */
  function IndexOf(s: seq<string>, x: string): (k: nat)
    requires x in s
    ensures k < |s| && s[k] == x && forall i :: 0 <= i < k ==> s[i] != x
  {
    if s[0] == x then 0 else 1 + IndexOf(s[1..], x)
  }

  /**
   * The command line of `solve_file`: the placeholders substituted, then the
   * flags spliced in place of the first FLAGS placeholder; a template without
   * one fails as `list.index` does.
   */
  function BuildCommand(cmd: seq<string>, flags: seq<string>, filename: string): (r: Result<seq<string>, Failure>)
    ensures r.Ok? <==> FLAGS in Substitute(cmd, filename)
    ensures r.Err? ==> r.error.ValueError?
    ensures r.Ok? ==>
      var c := Substitute(cmd, filename);
      var p := IndexOf(c, FLAGS);
      |r.value| == |cmd| - 1 + |flags|
      && (forall i :: 0 <= i < p ==> r.value[i] == c[i] && r.value[i] != FLAGS)
      && r.value[p..p + |flags|] == flags
      && (forall i :: p < i < |cmd| ==> r.value[i - 1 + |flags|] == c[i])
  {
    var c := Substitute(cmd, filename);
    if FLAGS !in c then Err(ValueError("'<FLAGS>' is not in list"))
    else
      var p := IndexOf(c, FLAGS);
      SpliceAt(c, p, flags);
      Ok(c[..p] + flags + c[p + 1..])
  }

  /** Replacing entry p by a run of entries: what comes before, the run, what comes after. */
  lemma SpliceAt(c: seq<string>, p: nat, run: seq<string>)
    requires p < |c|
    ensures var r := c[..p] + run + c[p + 1..];
      |r| == |c| - 1 + |run|
      && (forall i :: 0 <= i < p ==> r[i] == c[i])
      && r[p..p + |run|] == run
      && (forall i :: p < i < |c| ==> r[i - 1 + |run|] == c[i])
  {
  }

  /** With the template a command string yields, the command line is the command, the flags, the file. */
  lemma TemplateCommand(command: string, flags: seq<string>, filename: string)
    requires command != FLAGS && command != DIMACS
    ensures BuildCommand([command, FLAGS, DIMACS], flags, filename) == Ok([command] + flags + [filename])
  {
    var c := Substitute([command, FLAGS, DIMACS], filename);
    assert c == [command, FLAGS, filename];
    assert IndexOf(c, FLAGS) == 1;
    assert c[..1] == [command] && c[2..] == [filename];
  }

  // ------------------------------------------------------------ output parser

  /** The parser's state: the last status seen and the values read so far. */
  datatype Scan = Scan(ret: Option<bool>, sol: seq<int>)

  datatype Outcome = Unsat | Model(sol: map<int, Bit>)

  /** The effect of one output line. */
  function Step(st: Scan, line: string): Result<Scan, Failure> {
    if IsBlank(line) then Ok(st)
    else if line[0] == 's' then
      var ws := Split(line);
      if |ws| < 2 then Err(IndexError)
      else if ws[1] == "SATISFIABLE" then Ok(st.(ret := Some(true)))
      else if ws[1] == "UNSATISFIABLE" then Ok(st.(ret := Some(false)))
      else Err(RuntimeError("unknown status " + ws[1]))
    else if line[0] == 'v' then
      match ParseAll(Split(line[1..]))
      case Some(xs) => Ok(st.(sol := st.sol + xs))
      case None => Err(ValueError("invalid literal for int()"))
    else Ok(st)
  }

  /** The state after reading all lines, or the first failure. */
  function ScanLines(lines: seq<string>): Result<Scan, Failure>
    decreases |lines|
  {
    if lines == [] then Ok(Scan(None, []))
    else match ScanLines(lines[..|lines| - 1])
      case Ok(st) => Step(st, lines[|lines| - 1])
      case Err(e) => Err(e)
  }

  predicate DistinctAbs(sol: seq<int>) {
    forall i, j :: 0 <= i < j < |sol| ==> Abs(sol[i]) != Abs(sol[j])
  }

  /** `{abs(v): int(v > 0) for v in sol}`: later entries override earlier ones. */
  function SolOf(sol: seq<int>): map<int, Bit>
    decreases |sol|
  {
    if sol == [] then map[]
    else SolOf(sol[..|sol| - 1])[Abs(sol[|sol| - 1]) := BitOf(sol[|sol| - 1])]
  }

  /** What `solve_file` returns once all lines are read. */
  function Finish(st: Scan): Result<Outcome, Failure> {
    match st.ret
    case None => Err(RuntimeError("Solver did not solve"))
    case Some(true) => if DistinctAbs(st.sol) then Ok(Model(SolOf(st.sol))) else Err(AssertionError(""))
    case Some(false) => Ok(Unsat)
  }

  function SolveResult(lines: seq<string>): Result<Outcome, Failure> {
    match ScanLines(lines)
    case Ok(st) => Finish(st)
    case Err(e) => Err(e)
  }

  /** A failure stops the parse: it is the result whatever lines follow. */
  lemma {:induction false} ScanFailureSticks(lines: seq<string>, i: nat)
    requires i <= |lines| && ScanLines(lines[..i]).Err?
    ensures ScanLines(lines) == ScanLines(lines[..i])
    decreases |lines| - i
  {
    if i < |lines| {
      assert lines[..i + 1][..i] == lines[..i];
      ScanFailureSticks(lines, i + 1);
    } else {
      assert lines[..i] == lines;
    }
  }

  /** The read loop of `solve_file`, fed the solver's output lines. */
  method ParseOutput(lines: seq<string>) returns (r: Result<Outcome, Failure>)
    ensures r == SolveResult(lines)
  {
    var ret: Option<bool> := None;
    var sol: seq<int> := [];
    var i := 0;
    while i < |lines|
      invariant 0 <= i <= |lines|
      invariant ScanLines(lines[..i]) == Ok(Scan(ret, sol))
    {
      var line := lines[i];
      assert lines[..i + 1][..i] == lines[..i];
      if IsBlank(line) {
      } else if line[0] == 's' {
        var ws := Split(line);
        if |ws| < 2 {
          ScanFailureSticks(lines, i + 1);
          return Err(IndexError);
        }
        if ws[1] == "SATISFIABLE" {
          ret := Some(true);
        } else if ws[1] == "UNSATISFIABLE" {
          ret := Some(false);
        } else {
          ScanFailureSticks(lines, i + 1);
          return Err(RuntimeError("unknown status " + ws[1]));
        }
      } else if line[0] == 'v' {
        var xs := ParseAll(Split(line[1..]));
        if xs.None? {
          ScanFailureSticks(lines, i + 1);
          return Err(ValueError("invalid literal for int()"));
        }
        sol := sol + xs.value;
      }
      i := i + 1;
    }
    assert lines[..i] == lines;
    if ret.None? {
      return Err(RuntimeError("Solver did not solve"));
    }
    if ret.value {
      if !DistinctAbs(sol) {
        return Err(AssertionError(""));
      }
      return Ok(Model(SolOf(sol)));
    }
    return Ok(Unsat);
  }

  // ------------------------------------------------------------ properties

  /** Lines that leave the parser's state alone: blank, comment and unknown lines. */
  predicate Noise(line: string) {
    IsBlank(line) || (line[0] != 's' && line[0] != 'v')
  }

  lemma {:induction false} NoiseSuffix(a: seq<string>, noise: seq<string>)
    requires forall i :: 0 <= i < |noise| ==> Noise(noise[i])
    ensures ScanLines(a + noise) == ScanLines(a)
    decreases |noise|
  {
    if noise == [] {
      assert a + noise == a;
    } else {
      var n' := noise[..|noise| - 1];
      assert (a + noise)[..|a + noise| - 1] == a + n';
      NoiseSuffix(a, n');
    }
  }

  /** Blank, comment and unknown lines anywhere in the output change nothing. */
  lemma {:induction false} NoiseIgnored(a: seq<string>, noise: seq<string>, b: seq<string>)
    requires forall i :: 0 <= i < |noise| ==> Noise(noise[i])
    ensures ScanLines(a + noise + b) == ScanLines(a + b)
    decreases |b|
  {
    if b == [] {
      assert a + noise + b == a + noise && a + b == a;
      NoiseSuffix(a, noise);
    } else {
      var b' := b[..|b| - 1];
      assert (a + noise + b)[..|a + noise + b| - 1] == a + noise + b';
      assert (a + b)[..|a + b| - 1] == a + b';
      assert (a + noise + b)[|a + noise + b| - 1] == (a + b)[|a + b| - 1];
      NoiseIgnored(a, noise, b');
    }
  }

  /** Without any status line the parse fails with "Solver did not solve". */
  lemma {:induction false} NoStatusFails(lines: seq<string>)
    requires forall i :: 0 <= i < |lines| ==> IsBlank(lines[i]) || lines[i][0] != 's'
    ensures ScanLines(lines).Ok? ==> ScanLines(lines).value.ret.None?
    ensures ScanLines(lines).Ok? ==> SolveResult(lines) == Err(RuntimeError("Solver did not solve"))
    decreases |lines|
  {
    if lines != [] {
      NoStatusFails(lines[..|lines| - 1]);
    }
  }

  /** The solution map of distinct values: each value's variable maps to its sign, and nothing else. */
  lemma {:induction false} SolOfAt(sol: seq<int>)
    requires DistinctAbs(sol)
    ensures forall i :: 0 <= i < |sol| ==> Abs(sol[i]) in SolOf(sol) && SolOf(sol)[Abs(sol[i])] == BitOf(sol[i])
    ensures forall x :: x in SolOf(sol) ==> exists i :: 0 <= i < |sol| && Abs(sol[i]) == x
    decreases |sol|
  {
    if sol != [] {
      var init := sol[..|sol| - 1];
      SolOfAt(init);
      forall x | x in SolOf(sol) ensures exists i :: 0 <= i < |sol| && Abs(sol[i]) == x {
        if x != Abs(sol[|sol| - 1]) {
          var i :| 0 <= i < |init| && Abs(init[i]) == x;
          assert sol[i] == init[i];
        }
      }
    }
  }

  /** A satisfiable answer the way a solver prints it: status, then the values ending in 0. */
  function Render(model: seq<int>): seq<string> {
    ["c solver output", "s SATISFIABLE", "v " + JoinSpaced(Dimacs.Literals(model + [0]))]
  }

  lemma StatusLine(st: Scan)
    ensures Step(st, "s SATISFIABLE") == Ok(st.(ret := Some(true)))
  {
    var sl := "s SATISFIABLE";
    var ws := ["s", "SATISFIABLE"];
    assert !IsBlank(sl) by { assert !IsSpace(sl[0]); }
    SplitJoin(ws, "");
    assert JoinSpaced(ws) + "" == sl;
    StatusStep(st, sl, ws + []);
  }

  lemma CommentLine(st: Scan)
    ensures Step(st, "c solver output") == Ok(st)
  {
    var cl := "c solver output";
    assert !IsBlank(cl) by { assert !IsSpace(cl[0]); }
    assert cl[0] == 'c';
  }

  /** A nonblank `s` line whose second word is SATISFIABLE records a satisfiable status. */
  lemma StatusStep(st: Scan, line: string, ws: seq<string>)
    requires !IsBlank(line) && line[0] == 's' && Split(line) == ws
    requires |ws| == 2 && ws[1] == "SATISFIABLE"
    ensures Step(st, line) == Ok(st.(ret := Some(true)))
  {
  }

  /** A value line appends its integers to those read so far. */
  lemma ValueLine(st: Scan, xs: seq<int>)
    ensures Step(st, "v " + JoinSpaced(Dimacs.Literals(xs))) == Ok(st.(sol := st.sol + xs))
  {
    var words := Dimacs.Literals(xs);
    var vl := "v " + JoinSpaced(words);
    assert !IsBlank(vl) by { assert !IsSpace(vl[0]); }
    assert vl[1..] == " " + JoinSpaced(words);
    assert Split(vl[1..]) == Split(JoinSpaced(words));
    SplitJoin(words, "");
    assert JoinSpaced(words) + "" == JoinSpaced(words);
    assert words + [] == words;
    assert Split(vl[1..]) == words;
    Dimacs.ParseAllLiterals(xs);
    assert ParseAll(Split(vl[1..])) == Some(xs);
    assert vl[0] == 'v';
  }

  /** Parsing a printed answer gives back the values, keyed by variable, including the final 0. */
  lemma ParseRendered(model: seq<int>)
    requires DistinctAbs(model + [0])
    ensures SolveResult(Render(model)) == Ok(Model(SolOf(model + [0])))
  {
    var lines := Render(model);
    var st0 := Scan(None, []);
    assert lines[..1][..0] == [];
    CommentLine(st0);
    assert ScanLines(lines[..1]) == Ok(st0);
    StatusLine(st0);
    assert lines[..2][..1] == lines[..1];
    assert ScanLines(lines[..2]) == Ok(Scan(Some(true), []));
    ValueLine(Scan(Some(true), []), model + [0]);
    assert lines[..3][..2] == lines[..2] && lines[..3] == lines;
    assert [] + (model + [0]) == model + [0];
    var st := Scan(Some(true), model + [0]);
    assert ScanLines(lines) == Ok(st);
    assert Finish(st) == Ok(Model(SolOf(model + [0])));
  }
}
