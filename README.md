# optisolveapi core, modelled in Dafny

optisolveapi is a thin Python front end over SAT and MILP solvers. This
project models the parts of it that hold real logic, and proves properties of them:

- **The GLPK row-id store** (`SWIGLPK`, module `Glpk`).
  - Two dictionaries form one bijection. `constraints` maps a stable constraint id
    (counting up from 10**6) to a dense 1-based row, and `rowid2cid` is its inverse.
  - `add_constraint` appends a row.
  - `remove_constraint` shifts every higher row down by one.
  - `remove_constraints` deletes a batch and then renumbers the survivors densely
    with a free-pointer sweep.
  - The model is the class `GlpkModel`, with those two maps as fields. A ghost
    `order` records the constraint id of each row, and ghost row and column
    counts stand for the GLPK problem object.
  - The sequence-level specification (`RowOrder.Without`) and the loop
    invariants (`RowIndex`) are separate modules.
- **The legacy CNF builder of `optisolveapi/sat.py`** (class `SatLegacy.LegacyCnf`).
  - It has a variable counter and the gate encoders (`and`, `or`, unary
    order, bit-vector lower and upper bounds).
  - Its `Cardinality` is the sequential counter of Sinz ("Towards an Optimal CNF
    Encoding of Boolean Cardinality Constraints", CP 2005).
  - The recursive method is proved against the pure function
    `SeqCounter.Encode`, which makes the same clauses. For that function the
    project proves three things:
    - soundness: every model of the clauses makes the outputs a thermometer of the
      input count;
    - existence: every input assignment extends to a model;
    - uniqueness: that extension is unique.
- **The CNF base class and its `formula` / `writer` backends** (`SatBase.Cnf`).
  - It keeps the variable and clause counters and the `ZERO`/`ONE` constants.
  - The DIMACS text that `writer` produces is proved to read back as the header
    counts and the clauses in order, exactly when no clause holds the literal 0,
    which DIMACS reserves as the clause terminator (`Dimacs`, `Text`).
- **The pysat backend's model completion** (`SatPysat`): `model_to_sol` and the
  enumeration of all completions in `model_to_sols`.
- **The external-solver backend** (`SatExt`): the command template, the command
  splice, and the parser of SAT-competition output (`s`/`v`/`c` lines).
- **The solver registry** (`SolverRegistry`): lower-cased keys, last registration
  wins, and default preference.
- **The MILP factories** (`MilpBase`).

Literals are nonzero integers and an assignment is a function from integers to
booleans (`Clauses`). Failures the Python code raises (`AssertionError`,
`KeyError`, `ValueError`, `IndexError`, `RuntimeError`) are the error side of a
`Result` (`Wrappers`).

Where the code and its documentation differ, the model follows the code. Where
the code cannot run as written, the model follows what it evidently intends:

- `SWIGLPK` subclasses `MILP` (swiglpk.py:53-54). Neither `MILP` nor `SolverBase`
  defines `__init__`, so `super().__init__(maximization, solver)` (swiglpk.py:58)
  reaches `object.__init__` with two arguments and raises `TypeError`: the class
  as written cannot be built.
- Everything else in `SWIGLPK` uses the fields and methods of `MILPX`
  (`_constraint_id`, `constraints`, `vars`, `var_int`, `var_real`). The model
  therefore builds a `GlpkModel` as `MILPX.__init__` (base.py:126-132) followed by
  the body of `SWIGLPK.__init__` (swiglpk.py:59-66).
- `sat/base.py` drops zero literals in `sol_eval`, and `sat.py` does not. Both are
  modelled, and `SatLegacy.LegacySolEvalAgrees` proves they agree on nonzero literals.
- In `sat/base.py`, `ONE` is the literal `-ZERO` rather than a fresh variable.
  In `sat.py` it is variable 2, forced true by the unit clause `[2]`.

## Model

| member | source | states |
|---|---|---|
| Clauses.SatAppend | optisolveapi/sat.py:54-55 | Clauses added one after another: an assignment satisfies the concatenation iff it satisfies both parts |
| Clauses.Count | optisolveapi/sat.py:174 | The number of true literals of a vector (its popcount under an assignment) is at most its length; it equals the length exactly when every literal is true, and 0 exactly when none is |
| Clauses.LitValAgree | optisolveapi/sat.py:170-171 | A literal whose variable is at most `bound` has the same value under two assignments that agree up to `bound` |
| Clauses.CountAgree | optisolveapi/sat.py:170-171 | A vector over variables at most `bound` has the same count under assignments agreeing up to `bound`, so fresh variables do not change the input count |
| Clauses.SatAgree | optisolveapi/sat.py:170-171 | Clauses over variables at most `bound` are satisfied alike by assignments agreeing up to `bound` |
| Text.IntToString | optisolveapi/sat/simple.py:48 | `b"%d" % v`: a nonempty word without spaces, starting with '-' exactly for negative numbers |
| Text.DigitsOfNat | optisolveapi/sat/simple.py:48 | The decimal digits of n read back as n |
| Text.ParseIntToString | optisolveapi/sat/ext.py:79 | `int()` applied to the decimal text of any integer gives that integer back |
| Text.Split | optisolveapi/sat/ext.py:69 | `bytes.split()` yields only nonempty words without spaces |
| Text.WordLen | optisolveapi/sat/ext.py:69 | The first word of a text is the longest prefix without spaces, and the next character (if any) is a space |
| Text.SplitWord | optisolveapi/sat/ext.py:79 | Splitting a word followed by a space-led rest gives the word, then the split of the rest |
| Text.SplitJoin | optisolveapi/sat/ext.py:79 | Splitting words joined by single spaces (then a space-led tail) gives the words back, then the tail's words |
| Text.LineLen | optisolveapi/sat/ext.py:58 | `readline`: a line runs up to, not including, the first newline, and the character after it (if any) is the newline |
| Text.LineLenOf | optisolveapi/sat/ext.py:58 | The line read from `line + "\n" + rest` is exactly `line` when `line` holds no newline |
| Dimacs.Literals | optisolveapi/sat/simple.py:48 | A clause's literals rendered one decimal word each, in order |
| Dimacs.Units | optisolveapi/sat/simple.py:63-65 | The assumption literals as unit clauses `[v]`, one per literal, in order |
| Dimacs.ParseAllLiterals | optisolveapi/sat/simple.py:48 | Parsing the rendered words of a clause gives the clause back |
| Dimacs.ReadClause | optisolveapi/sat/simple.py:48-49 | A clause read from a line never holds a 0: in DIMACS a 0 ends the clause, so a line with an earlier 0 is rejected |
| Dimacs.ReadLines | optisolveapi/sat/simple.py:46-53 | Clauses read from newline-terminated lines never hold a 0 |
| Dimacs.ReadClauseText | optisolveapi/sat/simple.py:46-49 | A clause line without its newline (the literals, then the terminating 0) reads back as the clause exactly when no literal is 0, and is rejected otherwise: DIMACS reads a 0 as the end of a clause |
| Dimacs.ReadClauseLines | optisolveapi/sat/simple.py:46-53 | The lines of a clause sequence read back as exactly that sequence when no clause holds a 0, and are rejected otherwise |
| Dimacs.ClauseLinesAppend | optisolveapi/sat/simple.py:51-53 | The lines of two clause sequences, one after the other, are the lines of their concatenation |
| Dimacs.AssumptionLinesUnits | optisolveapi/sat/simple.py:63-65 | An assumption line `"%d 0"` is the clause line of the unit clause `[v]` |
| Dimacs.ReadAssumptionLines | optisolveapi/sat/simple.py:63-65 | Assumption lines read back as one unit clause per assumption when no assumption is 0, and are rejected otherwise |
| Dimacs.ReadHeader | optisolveapi/sat/simple.py:59 | The header line splits into `p`, `cnf` and the two counts, and the text after it is the rest |
| Dimacs.ReadHeaderAndLines | optisolveapi/sat/simple.py:57-61 | A header followed by any body reads back as the header counts and the body's clauses, and is rejected exactly when the body is |
| Dimacs.WriterBodyLines | optisolveapi/sat/simple.py:61-69 | The buffer, the assumption lines and the extra clause lines together are the lines of buffered clauses ++ assumption units ++ extra clauses |
| Dimacs.ReadWritten | optisolveapi/sat/simple.py:55-69 | A header followed by the lines of some clauses reads back as the header counts and exactly those clauses when no clause holds a 0, and is rejected otherwise |
| Dimacs.ReadWriterFile | optisolveapi/sat/simple.py:55-69 | The file `write_dimacs` writes reads back as its header counts and the buffered clauses, the assumptions as unit clauses and the extra clauses, in that order, exactly when none of them is or holds a 0; otherwise it is rejected |
| Dimacs.AllNonZeroWritten | optisolveapi/sat/simple.py:55-69 | The clauses of a written file are free of 0 exactly when the buffered clauses, the assumptions and the extra clauses each are |
| Dimacs.WriterFileIs | optisolveapi/sat/simple.py:55-69 | The written file is the header, counting buffered clauses plus assumptions plus extra clauses, followed by the lines of all of them |
| Gates.Neg | optisolveapi/sat.py:368 | The negated literal `-l` has the opposite value of `l` (the `^ (v < 0)` of `sol_eval`) |
| Gates.AndClauses | optisolveapi/sat.py:61-67 | Exactly 3 clauses, satisfied by an assignment iff `ab <=> a && b`, so each (a, b) has exactly one satisfying value of ab |
| Gates.OrClauses | optisolveapi/sat.py:69-75 | Exactly 3 clauses, satisfied iff `ab <=> a \|\| b` |
| Gates.CounterClauses | optisolveapi/sat.py:188-191 | The 4 clauses of one counter level (one literal of the first dropped) are satisfied iff `x0 => x1` and `x3 <=> x0 \|\| (x1 && x2)` |
| Gates.UnaryClauses | optisolveapi/sat.py:57-59 | One clause `[a, -b]` per adjacent pair (`|vec|-1` clauses), satisfied iff no false element is followed by a true one |
| Gates.Pow2 | optisolveapi/sat.py:282-283 | Powers of two, at least 1 |
| Gates.ShrZero | optisolveapi/sat.py:282-283 | Shifting m right n times gives 0 iff 0 <= m < 2^n (so `assert not mx` holds iff mx fits in len(x) bits) |
| Gates.ShrSign | optisolveapi/sat.py:282-283 | An arithmetic right shift keeps the sign: a negative mx never reaches 0 |
| Gates.ShrBelow | optisolveapi/sat.py:282-283 | `m >> n < c` iff `m < c * 2^n` |
| Gates.LowerClause | optisolveapi/sat.py:275-284 | Succeeds iff 0 <= mx < 2^len(x). The clause takes at most one literal per bit, and it is falsified exactly by the assignments whose bits (last element least significant) are componentwise <= mx |
| Gates.UpperClause | optisolveapi/sat.py:286-295 | Succeeds iff 0 <= mn < 2^len(x). The clause is falsified exactly by the assignments componentwise >= mn |
| Gates.UpperSemantics | optisolveapi/sat.py:286-295 | The literals `-x` for the set bits of mn form a clause falsified exactly when every one of those bits is set |
| SeqCounter.Fresh | optisolveapi/sat.py:171 | `[self.var() for _ in range(lim)]`: lim consecutive new variables base+1 ... base+lim, all nonzero |
| SeqCounter.Levels | optisolveapi/sat.py:177-194 | The levels 1..k-1 of one counter step emit at most 4 clauses each |
| SeqCounter.StepClauses | optisolveapi/sat.py:176-194 | One fold step emits at most 4 clauses per output |
| SeqCounter.Encode | optisolveapi/sat.py:153-195 | The encoder's result: exactly `lim` nonzero outputs. One input is returned as is, with no variables or clauses. Otherwise the outputs are the last `lim` of the fresh variables used |
| SeqCounter.LevelsSat | optisolveapi/sat.py:177-194 | The step's levels are satisfied iff every level is |
| SeqCounter.LevelCounts | optisolveapi/sat.py:177-194 | When the prefix outputs are a thermometer of count c', level i is satisfied iff `res[i]` is true exactly when c' plus the new input reaches i+1 |
| SeqCounter.EncodeCounts | optisolveapi/sat.py:174-195 | Soundness: in every model of the clauses, output i is true iff popcount(inputs) >= i+1 (so the outputs are non-increasing) |
| SeqCounter.EncodeWithin | optisolveapi/sat.py:170-195 | The clauses and outputs mention only inputs and variables allocated by this call |
| SeqCounter.EncodeStep | optisolveapi/sat.py:170-194 | The recursive case: the encoding of vec is the prefix's encoding, then lim fresh variables, then one step's clauses |
| SeqCounter.ExtendKeeps | optisolveapi/sat.py:170-171 | The canonical extension changes no variable outside the ones this call allocated |
| SeqCounter.ExtendSat | optisolveapi/sat.py:174-195 | Existence: every input assignment extends (on the fresh variables only) to a model of the clauses |
| SeqCounter.EncodeUnique | optisolveapi/sat.py:174-195 | Uniqueness: two models that agree on the inputs agree on every allocated variable |
| SeqCounter.FoldStep | optisolveapi/sat.py:170-195 | The clauses, counter and outputs after one fold step are exactly those of the encoding of the whole vector |
| SatLegacy.LegacyCnf.constructor | optisolveapi/sat.py:32-39 | ZERO = 1 and ONE = 2 with the unit clauses [-1] and [2]; the native solver name is the part after "pysat/" |
| SatLegacy.LegacyCnf.Create | optisolveapi/sat.py:327-331 | Construction fails with AssertionError iff the name does not start with "pysat/" |
| SatLegacy.LegacyCnf.Var | optisolveapi/sat.py:47-49 | Returns the old counter + 1 and stores it, so ids are 1, 2, 3, ... and never reused |
| SatLegacy.LegacyCnf.Vars | optisolveapi/sat.py:51-52 | n consecutive fresh ids, and the counter advances by n |
| SatLegacy.LegacyCnf.AddClause | optisolveapi/sat.py:54-55 | The clause is appended to the clauses handed to the solver |
| SatLegacy.LegacyCnf.ConstraintUnary | optisolveapi/sat.py:57-59 | Appends exactly the unary-order clauses of the vector |
| SatLegacy.LegacyCnf.ConstraintAnd | optisolveapi/sat.py:61-67 | Appends exactly the three AND-gate clauses |
| SatLegacy.LegacyCnf.ConstraintOr | optisolveapi/sat.py:69-75 | Appends exactly the three OR-gate clauses |
| SatLegacy.LegacyCnf.Cardinality | optisolveapi/sat.py:153-195 | An empty vec fails the assertion and a single input is returned unchanged, with no new state. Otherwise, for lim clipped to len(vec): lim < 1 is an IndexError, else the result, the new clauses and the new counter are those of `Encode`. The assertion `i == lim - 1` never fails |
| SatLegacy.LegacyCnf.Finish | optisolveapi/sat.py:170-195 | From the recursive call's result to the whole call's: an error passes through, lim < 1 is an IndexError, else the state is the whole vector's encoding |
| SatLegacy.LegacyCnf.Fold | optisolveapi/sat.py:171-195 | Allocating lim outputs and emitting the step clauses turns the prefix's encoding into the whole vector's |
| SatLegacy.LegacyCnf.CounterStep | optisolveapi/sat.py:176-194 | Appends exactly the step clauses: the OR for output 0 and one level per later output |
| SatLegacy.LegacyCnf.EmitLevel | optisolveapi/sat.py:179-194 | One loop iteration appends exactly that level's clauses: the 4 counter clauses, or the AND gate on the last output when the prefix is shorter |
| SatLegacy.LegacyCnf.ConstraintRemoveLower | optisolveapi/sat.py:275-284 | Fails (AssertionError, nothing added) iff mx is outside [0, 2^len(x)). Otherwise it appends one clause, falsified exactly by the assignments <= mx |
| SatLegacy.LegacyCnf.ConstraintRemoveUpper | optisolveapi/sat.py:286-295 | Fails iff mn is outside [0, 2^len(x)). Otherwise it appends one clause, falsified exactly by the assignments >= mn |
| SatLegacy.LegacyCnf.ConstraintConvex | optisolveapi/sat.py:297-303 | Succeeds iff every bound fits in len(xs) bits. It then appends one clause per lb entry (falsified exactly by the assignments <= it) and one per ub entry (>= it) |
| SatLegacy.FoldSizes | optisolveapi/sat.py:170 | The prefix is encoded with lim clipped to its length, and its result is nonzero with that length |
| SatLegacy.ConstantsFixed | optisolveapi/sat.py:36-39 | Every model of the clauses makes ZERO false and ONE true |
| SatLegacy.LegacySolEvalMeaning | optisolveapi/sat.py:367-368 | Succeeds iff every literal's variable is in the solution. Each value is the literal's truth value, in order, zero literals included |
| SatLegacy.LegacySolEvalAgrees | optisolveapi/sat.py:367-368 | On a vector without zero literals, the legacy `sol_eval` and the base class's give the same result |
| SatBase.InitBackend | optisolveapi/sat/simple.py:9-11 | `init_solver` of formula (only the name "formula"), writer (any name, empty buffer, no solver) and pysat (names starting "pysat/", sat/pysat.py:26-30). Any other name is an AssertionError |
| SatBase.Record | optisolveapi/sat/simple.py:13-15 | One add_clause: formula appends the clause, writer appends its DIMACS line (simple.py:46-49), and pysat keeps no clause state of its own |
| SatBase.Cnf.constructor | optisolveapi/sat/base.py:10-17 | n_vars = 1, n_clauses = 1, the clause [-1] recorded, ZERO = 1 and ONE = -1 |
| SatBase.Cnf.Create | optisolveapi/sat/base.py:10-17 | Construction fails iff `init_solver` rejects the name. Otherwise the object is fresh and in its initial state |
| SatBase.Cnf.Var | optisolveapi/sat/base.py:25-27 | Returns n_vars + 1 and stores it |
| SatBase.Cnf.Vars | optisolveapi/sat/base.py:29-30 | n consecutive fresh ids old+1 ... old+n, and n_vars advances by n |
| SatBase.Cnf.AddClause | optisolveapi/sat/base.py:32-34 | n_clauses + 1, the clause recorded, and the backend updated as `Record` says |
| SatBase.Cnf.AddClauses | optisolveapi/sat/base.py:36-38 | n_clauses + len(cs), the clauses recorded in order, the backend kind and solver kept; n_clauses still counts every clause recorded |
| SatBase.Cnf.AddEach | optisolveapi/sat/simple.py:51-53 | Writer's add_clauses is add_clause on each clause in order: the buffer then holds the lines of every recorded clause |
| SatBase.Cnf.SetSolver | optisolveapi/sat/simple.py:71-72 | Only the writer's solver changes |
| SatBase.Cnf.WriteDimacs | optisolveapi/sat/simple.py:55-69 | The file is the header `p cnf n_vars n_clauses+len(assumptions)+len(extra)`, the buffer, the assumption lines and the extra clauses. When no recorded clause, assumption or extra clause holds a 0, reading it back gives exactly those counts and the recorded clauses, the assumptions as units, and the extra clauses, in order, so the header count equals the number of clause lines. Nothing rejects a 0 on the way in; with one, the file does not read back at all |
| SatBase.Cnf.Solve | optisolveapi/sat/simple.py:74-82 | Fails with "solver not set" when no solver was set. Otherwise it writes that DIMACS file and builds the solver's command for the file name |
| SatBase.WriteAssumptions | optisolveapi/sat/simple.py:63-65 | The loop writes one `"%d 0"` line per assumption, which read back as their unit clauses exactly when no assumption is 0 |
| SatBase.WriteClauses | optisolveapi/sat/simple.py:66-69 | The loop writes the extra clauses' lines, which read back as those clauses exactly when none holds a 0 |
| SatBase.MakeAssumption | optisolveapi/sat/base.py:40-41 | Pairwise over min(len(xs), len(values)): x when the bit is set, -x otherwise |
| SatBase.AssumptionMeaning | optisolveapi/sat/base.py:40-41 | The assumptions as unit clauses are satisfied iff each x is true exactly when its bit is set |
| SatBase.NonZeroLits | optisolveapi/sat/base.py:44 | The `if v` filter keeps exactly the nonzero literals |
| SatBase.SolEvalMeaning | optisolveapi/sat/base.py:43-44 | Succeeds iff every nonzero literal's variable is in the solution. The values are the truth values of the nonzero literals, in order (`sol[abs(v)] ^ (v < 0)`) |
| SatPysat.ModelMapMeaning | optisolveapi/sat/pysat.py:33 | The model dict has keys exactly 1..len(model), and key i+1 maps to 1 iff model[i] > 0 |
| SatPysat.FilledMeaning | optisolveapi/sat/pysat.py:43-47 | A model filled with values vals has keys 1..len(model)+len(vals), agrees with the model on its prefix, and holds vals after it |
| SatPysat.Zeros | optisolveapi/sat/pysat.py:35-37 | n zero values |
| SatPysat.ModelToSol | optisolveapi/sat/pysat.py:32-40 | Keys exactly 1..max(len(model), n_vars). Key i+1 is 1 iff model[i] > 0, and every key after the model is 0. The loop's assertion that a key is new never fails |
| SatPysat.Vectors | optisolveapi/sat/pysat.py:45 | `product(range(2), repeat=n)` yields 2^n vectors |
| SatPysat.VectorsInOrder | optisolveapi/sat/pysat.py:45 | The k-th vector is the n-bit binary form of k, so the vectors come in lexicographic order |
| SatPysat.ValueOfBinary | optisolveapi/sat/pysat.py:45 | Reading the binary form of k gives k back |
| SatPysat.BinaryOfValue | optisolveapi/sat/pysat.py:45 | Every 0/1 vector is the binary form of its value, so `product` reaches all of them |
| SatPysat.BinaryZero | optisolveapi/sat/pysat.py:45 | The first vector is all zeros |
| SatPysat.ModelToSols | optisolveapi/sat/pysat.py:42-50 | Yields 2^(n_vars - len(model)) solutions when n_vars > len(model), else exactly one |
| SatPysat.SolsAgree | optisolveapi/sat/pysat.py:42-50 | Every yielded solution has keys 1..max(len(model), n_vars) and agrees with the model on its prefix |
| SatPysat.SolAgrees | optisolveapi/sat/pysat.py:42-50 | The same facts, for the k-th yielded solution |
| SatPysat.SolsInOrder | optisolveapi/sat/pysat.py:44-48 | The k-th solution's free suffix is the binary form of k |
| SatPysat.SolsComplete | optisolveapi/sat/pysat.py:44-48 | Every completion of the model appears, exactly once, at the position of its value |
| SatPysat.SameFill | optisolveapi/sat/pysat.py:44-48 | Different fill vectors give different solutions, so the yielded solutions are pairwise distinct |
| SatPysat.SolsFirst | optisolveapi/sat/pysat.py:42-50 | The first yielded solution is the one `model_to_sol` returns (all free variables 0) |
| SatExt.Create | optisolveapi/sat/ext.py:25-42 | Without a class CMD: no command is a ValueError, a string becomes `[command, <FLAGS>, <DIMACS>]` and a list is kept. The command must be on the path: an empty list is an IndexError, and a head not on the path a RuntimeError `command … is not available`. With a class CMD, an empty one and no solver name is an IndexError. A given solver name is kept, otherwise it is `ext/<cmd[0]>`; the flags are kept |
| SatExt.Substitute | optisolveapi/sat/ext.py:45 | Every `<DIMACS>` becomes the file name, and every other element stays in place |
| SatExt.IndexOf | optisolveapi/sat/ext.py:46 | `list.index`: the first position holding the element |
| SatExt.BuildCommand | optisolveapi/sat/ext.py:45-47 | Fails (ValueError) iff there is no `<FLAGS>`. Otherwise the flags are spliced in place of the first `<FLAGS>`, with everything before and after kept in order |
| SatExt.TemplateCommand | optisolveapi/sat/ext.py:30 | For the template of a string command, the command is `[command] + flags + [filename]` |
| SatExt.ParseOutput | optisolveapi/sat/ext.py:55-92 | The line loop's result equals the specification `SolveResult` |
| SatExt.ScanFailureSticks | optisolveapi/sat/ext.py:76-77 | Once a line raises, later lines do not change the outcome |
| SatExt.NoiseSuffix | optisolveapi/sat/ext.py:61-62 | Blank and `c` lines at the end change nothing |
| SatExt.NoiseIgnored | optisolveapi/sat/ext.py:80-81 | Blank and `c` lines anywhere change nothing |
| SatExt.NoStatusFails | optisolveapi/sat/ext.py:85-86 | Output without an `s` line raises "Solver did not solve" |
| SatExt.SolOfAt | optisolveapi/sat/ext.py:88-91 | With distinct absolute values, the solution maps each abs(v) to (v > 0 ? 1 : 0), and it has no other keys |
| SatExt.StatusLine | optisolveapi/sat/ext.py:68-72 | An `s SATISFIABLE` line sets the status to True, whatever came before |
| SatExt.ValueLine | optisolveapi/sat/ext.py:78-79 | A `v` line appends its integers, in order, to the values seen so far |
| SatExt.ParseRendered | optisolveapi/sat/ext.py:55-91 | The output `s SATISFIABLE` then `v <model> 0`, with distinct variables, parses to exactly the model's solution |
| RowOrder.Without | optisolveapi/milp/swiglpk.py:199-206 | The row order after deleting a set of ids: the survivors, in order, no longer than before |
| RowOrder.WithoutElements | optisolveapi/milp/swiglpk.py:199-206 | Exactly the ids not deleted survive |
| RowOrder.WithoutDistinct | optisolveapi/milp/swiglpk.py:199-206 | Survivors of distinct ids stay distinct |
| RowOrder.WithoutOne | optisolveapi/milp/swiglpk.py:175-179 | Deleting the single id at row i+1 removes position i and shifts the rest down by one |
| RowOrder.WithoutTwice | optisolveapi/milp/swiglpk.py:186-211 | Deleting a then b equals deleting a ∪ b |
| RowOrder.RemoveEachIsWithout | optisolveapi/milp/swiglpk.py:163-211 | Removing ids one by one, in any order, gives the same rows as the batch deletion |
| RowOrder.WithoutKeepsPrefix | optisolveapi/milp/swiglpk.py:199-200 | Rows below the first deleted row are untouched |
| RowOrder.WithoutPosition | optisolveapi/milp/swiglpk.py:200-206 | A survivor's new row is one past the number of survivors before it, so survivors are renumbered densely in their order |
| RowOrder.WithoutCount | optisolveapi/milp/swiglpk.py:208-210 | Deleting d distinct live ids leaves exactly |order| - d rows |
| RowOrder.Least | optisolveapi/milp/swiglpk.py:199 | `min` of the deleted rows: a member, no larger than any other |
| RowOrder.FirstRepeat | optisolveapi/milp/swiglpk.py:192-196 | None iff the ids are distinct. Otherwise it is the first position whose id already occurred, where the second `del` raises |
| RowOrder.FirstRepeatUnique | optisolveapi/milp/swiglpk.py:192-196 | That position is the only one with those properties |
| RowIndex.RowMapsInverse | optisolveapi/milp/swiglpk.py:136-137 | In the row bijection, a live id sits at row ids[c] and is the only id on that row |
| RowIndex.RowMapsBijection | optisolveapi/milp/swiglpk.py:136-137 | `constraints` and `rowid2cid` are mutual inverses |
| RowIndex.RowMapsCount | optisolveapi/milp/swiglpk.py:181-183 | `len(constraints)` and `len(rowid2cid)` both equal the number of rows |
| RowIndex.RowMapsUnique | optisolveapi/milp/swiglpk.py:136-137 | The row order determines both maps |
| RowIndex.RowMapsAppend | optisolveapi/milp/swiglpk.py:136-137 | A new id at row N+1 keeps the bijection |
| RowIndex.Cut | optisolveapi/milp/swiglpk.py:175-179 | The order with one row removed, with the rows above it shifted down by one |
| RowIndex.RowMapsCut | optisolveapi/milp/swiglpk.py:163-179 | After a single removal, the ids are those minus the removed one, rows below are unchanged, and rows above move down by exactly one |
| RowIndex.ShiftStep | optisolveapi/milp/swiglpk.py:175-179 | One shift iteration keeps the loop invariant, and `(rowid-1) not in rowid2cid` holds |
| RowIndex.ShiftEnd | optisolveapi/milp/swiglpk.py:175-179 | When the shift loop ends, the maps are the bijection for the cut order |
| RowIndex.SweepMove | optisolveapi/milp/swiglpk.py:201-206 | Moving a survivor to row `free` keeps the sweep invariant, and `free not in rowid2cid` holds |
| RowIndex.SweepSkip | optisolveapi/milp/swiglpk.py:200-201 | Skipping a deleted row keeps the sweep invariant |
| RowIndex.SweepEnd | optisolveapi/milp/swiglpk.py:200-206 | When the sweep ends, the maps are the bijection for the surviving order |
| RowIndex.RowMapsWithout | optisolveapi/milp/swiglpk.py:186-206 | After a batch removal, the ids are exactly the survivors, each renumbered to one past the survivors before it |
| RowIndex.FirstDeleted | optisolveapi/milp/swiglpk.py:199 | No id below row `min(deleted rows)` is deleted |
| RowIndex.SweepBegin | optisolveapi/milp/swiglpk.py:192-200 | After the deletion loop, the sweep invariant holds at `free = min(deleted rows)` |
| Glpk.BoundsOf | optisolveapi/milp/swiglpk.py:100-124 | `_bounds`: FR without bounds, UP with only ub, LO with only lb, DB with both, and equal bounds are an AssertionError |
| Glpk.BoundsMeaning | optisolveapi/milp/swiglpk.py:100-124 | A value is admitted iff it satisfies the bounds given: any one of them, or both |
| Glpk.BinaryBounds | optisolveapi/milp/base.py:51-52 | Bounds (0, 1) on an integer column admit exactly 0 and 1 |
| Glpk.RowBookAppend | optisolveapi/milp/swiglpk.py:132-142 | A new row for the next id keeps the whole row-store invariant (bijection, row count, ids below the counter, bounds per live id) |
| Glpk.RowBookRemove | optisolveapi/milp/swiglpk.py:163-184 | A single removal keeps the row-store invariant, drops the id, and renumbers the others as RowMapsCut says |
| Glpk.RowBookRemoveAll | optisolveapi/milp/swiglpk.py:186-211 | A batch removal of distinct live ids keeps the invariant, with the row count reduced by their number and the survivors renumbered densely |
| Glpk.GlpkModel.constructor | optisolveapi/milp/base.py:126-132 | The id counter starts at 10**6. constraints, rowid2cid and vars are empty, there are no integer columns, and there are no rows or columns (swiglpk.py:57-66) |
| Glpk.GlpkModel.NewColumn | optisolveapi/milp/swiglpk.py:72-91 | `_var`: the column id is len(vars)+1, the column count grows by one, and has_ints is set for a non-continuous type |
| Glpk.GlpkModel.Register | optisolveapi/milp/base.py:144 | The name is added to vars and to the column order, and the column invariant is kept |
| Glpk.GlpkModel.AddVar | optisolveapi/milp/base.py:142-152 | A duplicate name is an AssertionError with nothing changed. Otherwise the column is added, and then its bounds are set (swiglpk.py:93-98) or the bound error is returned |
| Glpk.GlpkModel.VarInt | optisolveapi/milp/base.py:142-146 | `var_int`: type I, has_ints set, and the name returned |
| Glpk.GlpkModel.VarReal | optisolveapi/milp/base.py:148-152 | `var_real`: type C, has_ints unchanged |
| Glpk.GlpkModel.VarBinary | optisolveapi/milp/base.py:154-157 | `var_binary`: duplicate rejected, otherwise type B, name returned, no bounds set |
| Glpk.GlpkModel.IntBinary | optisolveapi/milp/base.py:51-52 | `MILP.var_binary`: an integer column with bounds (0, 1) |
| Glpk.GlpkModel.AddConstraint | optisolveapi/milp/swiglpk.py:126-161 | No bound at all is an AssertionError with nothing changed. Otherwise the counter grows, so ids are never reused, and the new row is N+1 in both maps. The result is the id that `return cid` promises, or the bound error with the row left free |
| Glpk.GlpkModel.NewRow | optisolveapi/milp/swiglpk.py:132-142 | The next id on a new last row, recorded in both maps, with the given bounds |
| Glpk.GlpkModel.RemoveConstraint | optisolveapi/milp/swiglpk.py:163-184 | An unknown id is a KeyError with nothing changed. Otherwise the id leaves both maps, higher rows move down by one and lower rows stay; the row count drops by one |
| Glpk.GlpkModel.ShiftDown | optisolveapi/milp/swiglpk.py:175-179 | The shift loop turns the maps into the bijection for the cut order |
| Glpk.GlpkModel.RowsOf | optisolveapi/milp/swiglpk.py:187 | `todel`: each id's row, or a KeyError iff some id is not live |
| Glpk.GlpkModel.DeleteListed | optisolveapi/milp/swiglpk.py:192-196 | Deletes the listed ids from both maps until the first repeated id, where it stops (the KeyError) |
| Glpk.GlpkModel.RemoveConstraints | optisolveapi/milp/swiglpk.py:186-211 | An unknown id is a KeyError with nothing changed, and an empty list is the ValueError of `min`. A repeated id is a KeyError after the ids before it left the maps. Distinct live ids leave, and survivors are renumbered densely in order |
| Glpk.GlpkModel.RemoveListed | optisolveapi/milp/swiglpk.py:197-211 | After the deletions, the sweep restores the row-store invariant with the surviving order and the row count reduced |
| Glpk.GlpkModel.SweepListed | optisolveapi/milp/swiglpk.py:199-206 | From `free = min(deleted rows)`, the sweep leaves the bijection for the surviving order |
| Glpk.GlpkModel.Sweep | optisolveapi/milp/swiglpk.py:200-206 | The free-pointer loop turns maps satisfying the sweep invariant into the bijection for the surviving order; the loop's assertion never fails |
| MilpBase.Direction | optisolveapi/milp/base.py:78-112 | `maximization` is True, False or None for the three factories respectively |
| MilpBase.SolverName | optisolveapi/milp/base.py:80-81 | A missing or empty name means "swiglpk" for MILPX ("sage/glpk" for MILP), otherwise the given name |
| MilpBase.Factory | optisolveapi/milp/base.py:78-112 | Looks up the lower-cased resolved name (KeyError if absent) and passes the direction and the name as given |
| SolverRegistry.LowerChar | optisolveapi/solver_base.py:27 | ASCII lower-casing of one character (A-Z only) |
| SolverRegistry.Lower | optisolveapi/solver_base.py:27 | Character-wise ASCII lower-casing |
| SolverRegistry.LowerIdempotent | optisolveapi/solver_base.py:27 | Lower-casing gives a lower-case name, is idempotent, and leaves exactly the lower-case names unchanged |
| SolverRegistry.FirstPresent | optisolveapi/solver_base.py:12-18 | The first preference present in the registry, or None iff none is present |
| SolverRegistry.Registry.constructor | optisolveapi/solver_base.py:7-9 | An empty registry with the given preference and no default |
| SolverRegistry.Registry.Register | optisolveapi/solver_base.py:20-29 | Stores the class under the lower-cased name and returns it unchanged. The warning is raised iff the raw name is already a key |
| SolverRegistry.Registry.MixedCaseNeverWarns | optisolveapi/solver_base.py:23 | A name with an upper-case letter is never a key, so its duplicate check never warns |
| SolverRegistry.Registry.New | optisolveapi/solver_base.py:31-37 | Looks up the lower-cased name, and an unknown name is a KeyError |
| SolverRegistry.Registry.DecideDefault | optisolveapi/solver_base.py:11-18 | Returns the first preference present and stores it. With none present it returns None and leaves the default unchanged |
| SolverRegistry.LastRegistrationWins | optisolveapi/solver_base.py:27 | Two registrations whose names lower-case alike leave only the second |

## Left out

- Every call into GLPK is left out: creating the problem, adding and deleting rows and columns, setting matrix rows and objective coefficients, `glp_std_basis`, `optimize`, `write_lp`, `__del__`. The model replaces the problem object with ghost row and column counts and per-row and per-column bounds.
- Glpk.GlpkModel.AddConstraint: as written, `add_constraint` never returns. `coefs = tuple(coefs)` (swiglpk.py:130) makes `coefs.items()` (swiglpk.py:148) raise `AttributeError` on every call, the empty tuple included. By then the id counter has grown, both maps hold the new row and its bounds are set (swiglpk.py:132-142). The model returns the id that the `-> int` signature and `return cid` (swiglpk.py:161) promise, and treats the coefficient row as opaque, because its entries only reach GLPK.
- Glpk.GlpkModel.constructor: the `TypeError` that `SWIGLPK(...)` raises as written (see above) is not modelled; the model builds the object that `MILPX.__init__` and the rest of `SWIGLPK.__init__` describe.
- Glpk.GlpkModel.IntBinary: `MILP.var_binary` calls `self.var_int`, which `MILP` and `SWIGLPK` do not define, so on a `SWIGLPK` as written it raises `AttributeError`. The model gives it the `var_int` of `MILPX`, as for the rest of the class.
- `set_objective` and the objective direction on the GLPK problem are GLPK calls, so they are not part of this model.
- optisolveapi/milp/gurobi.py is not part of this model. It is a thin wrapper over a foreign library.
- `trunc` and `EPS` are not modelled. They are floating-point rounding, and Dafny reals have no rounding to compare with.
- SatLegacy.LegacyCnf.Cardinality: `shuffle=True` is not modelled. It permutes the inputs randomly and does not change which outputs the encoding computes.
- The commented-out sequential encoders and `Convex` in sat.py are not modelled. `Convex` depends on `Vector.concat` from a file not part of this model.
- SeqCounter.Encode: no bound on the number of clauses or variables beyond 4 clauses per output per step is proved.
- `Formula.write_dimacs` and `Formula.apply` are not modelled. They use attributes that `Formula` never sets (`_solver`, `nvars`).
- The native SAT solver is not modelled: `PySAT.solve`, `solve_all`, `__del__`, the solver objects behind `add_clause`, and `has_pysat`. The model records the clauses handed to the solver and states their meaning with a satisfaction predicate.
- SatPysat.ModelToSol: `n_vars` is a parameter rather than the object's counter.
- In sat/ext.py, `subprocess`, `__init_subclass__` and `shutil.which` are not modelled. The last is a parameter, the set of commands on the path. The parser takes the output as a sequence of lines.
- The `unknown line type` warning and all logging are not modelled. They only log.
- The temporary file and the file handle in `Writer.solve` / `write_dimacs` are not modelled. The model produces the file content as text and the command line; running the solver is left out.
- Bytes are modelled as characters: literals and keywords are ASCII, so `bytes` and `str` agree on everything the code writes or parses.
- SatLegacy.LegacyCnf.ConstraintUnary: requires nonzero literals, which the code does not check. The literal 0 has no negation, and it is the DIMACS clause terminator, so the gates' meaning is stated only for real literals.
- SatLegacy.LegacyCnf.ConstraintAnd: requires nonzero literals, which the code does not check. The literal 0 has no negation, and it is the DIMACS clause terminator, so the gates' meaning is stated only for real literals.
- SatLegacy.LegacyCnf.ConstraintOr: requires nonzero literals, which the code does not check. The literal 0 has no negation, and it is the DIMACS clause terminator, so the gates' meaning is stated only for real literals.
- SatLegacy.LegacyCnf.ConstraintRemoveUpper: requires nonzero literals, which the code does not check. The literal 0 has no negation, and it is the DIMACS clause terminator, so the gates' meaning is stated only for real literals.
- SatLegacy.LegacyCnf.ConstraintConvex: requires nonzero literals, which the code does not check. The literal 0 has no negation, and it is the DIMACS clause terminator, so the gates' meaning is stated only for real literals.
- SatLegacy.LegacyCnf.Cardinality: requires nonzero literals, which the code does not check. The literal 0 has no negation, and it is the DIMACS clause terminator, so the gates' meaning is stated only for real literals.
- SatExt.Create: only the command and flag handling of `ExtSolver.__init__` is modelled; the class-level `CMD` is a parameter. The CNF part of the construction is not: `ExtSolver` keeps the no-op `init_solver` of sat/base.py:19-20 and never sets `_solver`, while `CNF.__init__` adds the clause `[-ZERO]` (sat/base.py:16) through `self._solver.add_clause` (sat/base.py:34). So `super().__init__` (sat/ext.py:42), the last line of `ExtSolver.__init__`, raises `AttributeError` as written.
- SolverRegistry.LowerChar: lower-cases the ASCII letters A-Z only. Python's `str.lower()` is Unicode-wide ("Ä" becomes "ä", the Kelvin sign becomes "k", "İ" becomes two code points). Solver names are taken to be ASCII.
- SolverRegistry.Lower: the same ASCII restriction, and so for the keys of Register, New and the factories, which all lower-case through it.
- SolverRegistry.Registry.MixedCaseNeverWarns: stated for ASCII capitals only. A name whose only capitals are non-ASCII is not covered.
- Text.ParseInt: accepts an optional sign and ASCII digits only. Python's `int()` (sat/ext.py:79) also accepts digit-group underscores (`int(b"1_000")` is 1000), so such a token makes the model's parser fail where the code reads a number.
- MilpBase.Factory: the `assert cls is MILP` and `assert cls is MILPX` checks (milp/base.py:20, 32, 44, 83, 95, 107) are not modelled. The model calls a factory on a family (`Family`), never through a subclass, so the AssertionError a subclass call raises has no counterpart.
- optisolveapi/milp/__init__.py, setup.py and the tests are not modelled. They hold imports, packaging and benchmarks.
