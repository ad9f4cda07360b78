/**
 * The name -> implementation registry every solver family (CNF, MILP, MILPX)
 * keeps: `register` files an implementation under the lower-cased name,
 * `new` looks a name up case-insensitively, and `decide_default_solver`
 * picks the first preferred name that is registered.
 */
module SolverRegistry {
  import opened Wrappers

  /** ASCII `str.lower()` on one character. */
  function LowerChar(ch: char): (r: char)
    ensures 'A' <= ch <= 'Z' ==> r as int == ch as int + 32
    ensures !('A' <= ch <= 'Z') ==> r == ch
    ensures !('A' <= r <= 'Z')
  {
    if 'A' <= ch <= 'Z' then (ch as int + 32) as char else ch
  }

  /** ASCII `str.lower()`. */
  function Lower(s: string): (r: string)
    ensures |r| == |s| && forall i :: 0 <= i < |s| ==> r[i] == LowerChar(s[i])
  {
    seq(|s|, i requires 0 <= i < |s| => LowerChar(s[i]))
  }

  /** A name `lower()` leaves as it is. */
  predicate IsLower(s: string) {
    forall i :: 0 <= i < |s| ==> !('A' <= s[i] <= 'Z')
  }

  /** Lower-casing gives a lower-case name, and doing it twice changes nothing more. */
  lemma LowerIdempotent(s: string)
    ensures IsLower(Lower(s))
    ensures Lower(Lower(s)) == Lower(s)
    ensures IsLower(s) <==> Lower(s) == s
  {
    if Lower(s) == s {
      forall i | 0 <= i < |s| ensures !('A' <= s[i] <= 'Z') {
        assert s[i] == Lower(s)[i];
      }
    }
  }

  /** The first name of `prefs` that is a key of `m`, if any. */
  function FirstPresent<T>(prefs: seq<string>, m: map<string, T>): (r: Option<string>)
    ensures r.Some? ==> r.value in m
    ensures r.Some? ==> exists k :: 0 <= k < |prefs| && prefs[k] == r.value && forall j :: 0 <= j < k ==> prefs[j] !in m
    ensures r.None? <==> forall j :: 0 <= j < |prefs| ==> prefs[j] !in m
    decreases |prefs|
  {
    if prefs == [] then None
    else if prefs[0] in m then Some(prefs[0])
    else
      var r := FirstPresent(prefs[1..], m);
      if r.Some? then
        ghost var k :| 0 <= k < |prefs[1..]| && prefs[1..][k] == r.value && forall j :: 0 <= j < k ==> prefs[1..][j] !in m;
        assert prefs[k + 1] == r.value;
        r
      else r
  }

  /**
   * The class-level state of one solver family: `BY_SOLVER`,
   * `DEFAULT_PREFERENCE` and `DEFAULT_SOLVER`.
   */
  class Registry<T> {
    var bySolver: map<string, T>
    const preference: seq<string>
    var defaultSolver: Option<string>

    /** Keys are always stored lower-cased. */
    ghost predicate Valid()
      reads this
    {
      forall k :: k in bySolver ==> IsLower(k)
    }

    constructor (preference: seq<string>)
      ensures Valid() && bySolver == map[] && this.preference == preference && defaultSolver == None
    {
      bySolver := map[];
      this.preference := preference;
      defaultSolver := None;
    }

    /**
     * `register(name)(impl)`: files `impl` under the lower-cased name,
     * replacing an earlier entry, and returns `impl` unchanged. `warn` is the
     * re-registration check, which looks for the name as given.
     */
    method Register(name: string, impl: T) returns (r: T, warn: bool)
      requires Valid()
      modifies this`bySolver
      ensures Valid()
      ensures r == impl && warn == (name in old(bySolver))
      ensures bySolver == old(bySolver)[Lower(name) := impl]
    {
      warn := name in bySolver;
      LowerIdempotent(name);
      bySolver := bySolver[Lower(name) := impl];
      r := impl;
    }

    /**
     * The re-registration warning never fires for a name with an upper-case
     * letter, even when that name is registered already: the keys it is
     * compared against are all lower-case.
     */
    lemma MixedCaseNeverWarns(name: string)
      requires Valid() && !IsLower(name)
      ensures name !in bySolver
    {
    }

    /** `new(solver=name)`: the implementation filed under the lower-cased name. */
    method New(name: string) returns (r: Result<T, Failure>)
      ensures r.Ok? <==> Lower(name) in bySolver
      ensures r.Ok? ==> r.value == bySolver[Lower(name)]
      ensures r.Err? ==> r.error == KeyError
    {
      if Lower(name) in bySolver {
        return Ok(bySolver[Lower(name)]);
      }
      return Err(KeyError);
    }

    /**
     * `decide_default_solver()`: the first preferred name that is registered
     * (compared as given), which also becomes the default; with none, None and
     * the default is left alone.
     */
    method DecideDefault() returns (r: Option<string>)
      modifies this`defaultSolver
      ensures r == FirstPresent(preference, bySolver)
      ensures defaultSolver == if r.Some? then r else old(defaultSolver)
    {
      var i := 0;
      while i < |preference|
        invariant 0 <= i <= |preference|
        invariant FirstPresent(preference, bySolver) == FirstPresent(preference[i..], bySolver)
        invariant defaultSolver == old(defaultSolver)
      {
        if preference[i] in bySolver {
          defaultSolver := Some(preference[i]);
          return Some(preference[i]);
        }
        assert preference[i..][1..] == preference[i + 1..];
        i := i + 1;
      }
      return None;
    }
  }

  /** Registering the same name twice, in any letter case, keeps only the second. */
  lemma LastRegistrationWins<T>(m: map<string, T>, name1: string, name2: string, a: T, b: T)
    requires Lower(name1) == Lower(name2)
    ensures m[Lower(name1) := a][Lower(name2) := b] == m[Lower(name2) := b]
  {
  }
}
