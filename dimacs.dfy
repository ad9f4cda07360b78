/**
 * The DIMACS CNF text that the `writer` backend produces, and a reader for it.
 * A clause is written as its literals in decimal separated by single spaces and
 * terminated by " 0\n"; a file starts with the header line "p cnf <vars> <clauses>".
 * The reader exists to state what the written text means: reading back a
 * written file gives the header numbers and every clause, in order.
 */
module Dimacs {
  import opened Wrappers
  import opened Clauses
  import opened Text

  /** The decimal renderings of a clause's literals. */
  function Literals(c: Clause): (ws: seq<string>)
    ensures |ws| == |c|
    ensures forall i :: 0 <= i < |c| ==> ws[i] == IntToString(c[i]) && IsWord(ws[i])
  {
    seq(|c|, i requires 0 <= i < |c| => IntToString(c[i]))
  }

  /** One clause line, as `Writer.add_clause` writes it. */
  function ClauseLine(c: Clause): string {
    JoinSpaced(Literals(c)) + " 0\n"
  }

  /** The lines of several clauses, in order. */
  function ClauseLines(cs: seq<Clause>): string
    decreases |cs|
  {
    if cs == [] then "" else ClauseLine(cs[0]) + ClauseLines(cs[1..])
  }

  /** One assumption line, `b"%d 0\n" % v`. */
  function AssumptionLine(v: Lit): string {
    IntToString(v) + " 0\n"
  }

  function AssumptionLines(vs: seq<Lit>): string
    decreases |vs|
  {
    if vs == [] then "" else AssumptionLine(vs[0]) + AssumptionLines(vs[1..])
  }

  /** The header line, `b"p cnf %d %d\n"`. */
  function Header(nVars: int, nClauses: int): string {
    "p cnf " + IntToString(nVars) + " " + IntToString(nClauses) + "\n"
  }

  /**
   * The content `Writer.write_dimacs` writes: the header counting the buffered
   * clauses plus the assumptions plus the extra clauses, the buffered clause
   * text, one unit line per assumption, then the extra clauses.
   */
  function WriterFile(nVars: int, nClauses: int, buffer: string,
                      assumptions: seq<Lit>, extra: seq<Clause>): string {
    Header(nVars, nClauses + |assumptions| + |extra|) + WriterBody(buffer, assumptions, extra)
  }

  /** Everything after the header. */
  function WriterBody(buffer: string, assumptions: seq<Lit>, extra: seq<Clause>): string {
    buffer + AssumptionLines(assumptions) + ClauseLines(extra)
  }

  /** The unit clauses that assumption literals stand for. */
  function Units(vs: seq<Lit>): (cs: seq<Clause>)
    ensures |cs| == |vs| && forall i :: 0 <= i < |vs| ==> cs[i] == [vs[i]]
  {
    seq(|vs|, i requires 0 <= i < |vs| => [vs[i]])
  }

  // ---------------------------------------------------------------- reader

  /**
   * A clause line without its newline: integers of which the last, and only
   * the last, is 0 (a 0 ends a clause in DIMACS, so an earlier one is not a literal).
   */
  function ReadClause(line: string): (r: Option<Clause>)
    ensures r.Some? ==> NonZero(r.value)
  {
    match ParseAll(Split(line))
    case Some(xs) =>
      if |xs| >= 1 && xs[|xs| - 1] == 0 && 0 !in xs[..|xs| - 1] then Some(xs[..|xs| - 1]) else None
    case None => None
  }

  /** Newline-terminated clause lines. */
  function ReadLines(text: string): (r: Option<seq<Clause>>)
    ensures r.Some? ==> AllNonZero(r.value)
    decreases |text|
  {
    if text == [] then Some([])
    else
      var k := LineLen(text);
      if k == |text| then None
      else match (ReadClause(text[..k]), ReadLines(text[k + 1..]))
        case (Some(c), Some(cs)) => Some([c] + cs)
        case _ => None
  }

  datatype Cnf = Cnf(nVars: int, nClauses: int, clauses: seq<Clause>)

  /** A whole file: the "p cnf" header and the clause lines. */
  function ReadDimacs(text: string): Option<Cnf> {
    var k := LineLen(text);
    if k == |text| then None
    else
      var h := Split(text[..k]);
      if |h| == 4 && h[0] == "p" && h[1] == "cnf" && ParseInt(h[2]).Some? && ParseInt(h[3]).Some? then
        match ReadLines(text[k + 1..])
        case Some(cs) => Some(Cnf(ParseInt(h[2]).value, ParseInt(h[3]).value, cs))
        case None => None
      else None
  }

  // ---------------------------------------------------------------- lemmas

  lemma {:induction false} ParseAllLiterals(c: Clause)
    ensures ParseAll(Literals(c)) == Some(c)
    decreases |c|
  {
    if c != [] {
      ParseIntToString(c[0]);
      assert Literals(c)[1..] == Literals(c[1..]);
      ParseAllLiterals(c[1..]);
      assert c == [c[0]] + c[1..];
    }
  }

  lemma {:induction false} ParseAllAppend(ws: seq<string>, w: string, xs: seq<int>, x: int)
    requires ParseAll(ws) == Some(xs) && ParseInt(w) == Some(x)
    ensures ParseAll(ws + [w]) == Some(xs + [x])
    decreases |ws|
  {
    if ws == [] {
      assert ws + [w] == [w];
      assert ParseAll([w][1..]) == Some([]);
      assert xs == [];
      assert ParseAll([w]) == Some([x] + []);
      assert [x] + [] == [x] && xs + [x] == [x];
    } else {
      var xs' := ParseAll(ws[1..]).value;
      assert (ws + [w])[0] == ws[0];
      assert (ws + [w])[1..] == ws[1..] + [w];
      ParseAllAppend(ws[1..], w, xs', x);
      assert xs == [xs[0]] + xs';
      assert [xs[0]] + (xs' + [x]) == xs + [x];
    }
  }

  lemma {:induction false} JoinNoNewline(ws: seq<string>)
    requires forall i :: 0 <= i < |ws| ==> IsWord(ws[i])
    ensures forall i :: 0 <= i < |JoinSpaced(ws)| ==> JoinSpaced(ws)[i] != '\n'
    decreases |ws|
  {
    if |ws| >= 2 {
      JoinNoNewline(ws[1..]);
      var j := JoinSpaced(ws);
      assert j == ws[0] + " " + JoinSpaced(ws[1..]);
      forall i | 0 <= i < |j| ensures j[i] != '\n' {
        if i < |ws[0]| {
          assert j[i] == ws[0][i];
        } else if i > |ws[0]| {
          assert j[i] == JoinSpaced(ws[1..])[i - |ws[0]| - 1];
        }
      }
    } else if |ws| == 1 {
      assert JoinSpaced(ws) == ws[0];
    }
  }

  /** A written clause line without its newline. */
  function ClauseText(c: Clause): string {
    JoinSpaced(Literals(c)) + " 0"
  }

  lemma ClauseTextNoNewline(c: Clause)
    ensures forall i :: 0 <= i < |ClauseText(c)| ==> ClauseText(c)[i] != '\n'
    ensures ClauseLine(c) == ClauseText(c) + "\n"
  {
    var j := JoinSpaced(Literals(c));
    JoinNoNewline(Literals(c));
    forall i | 0 <= i < |ClauseText(c)| ensures ClauseText(c)[i] != '\n' {
      if i < |j| {
        assert ClauseText(c)[i] == j[i];
      }
    }
  }

  /** A written clause line reads back as the clause exactly when no literal is 0. */
  lemma ReadClauseText(c: Clause)
    ensures ReadClause(ClauseText(c)) == if NonZero(c) then Some(c) else None
  {
    SplitJoin(Literals(c), " 0");
    assert Split(" 0") == ["0"] by {
      assert Split(" 0") == Split("0");
      SplitWord("0", "");
      assert "0" + "" == "0";
    }
    assert Split(ClauseText(c)) == Literals(c) + ["0"];
    ParseAllLiterals(c);
    assert IntToString(0) == "0";
    ParseIntToString(0);
    ParseAllAppend(Literals(c), "0", c, 0);
    assert (c + [0])[..|c|] == c;
  }

  /** A written clause line reads back as the clause, and ends at its newline. */
  lemma ReadClauseLine(c: Clause, rest: string)
    ensures var t := ClauseLine(c) + rest;
      LineLen(t) == |ClauseText(c)|
      && t[..LineLen(t)] == ClauseText(c)
      && t[LineLen(t) + 1..] == rest
  {
    var line := ClauseText(c);
    ClauseTextNoNewline(c);
    assert ClauseLine(c) + rest == line + "\n" + rest;
    LineLenOf(line, rest);
    var t := ClauseLine(c) + rest;
    assert t[..|line|] == line;
    assert t[|line| + 1..] == rest;
  }

  /**
   * Reading back the lines of a clause list gives the list exactly when no
   * clause holds a 0; otherwise the text does not read as clauses at all.
   */
  lemma {:induction false} ReadClauseLines(cs: seq<Clause>)
    ensures ReadLines(ClauseLines(cs)) == if AllNonZero(cs) then Some(cs) else None
    decreases |cs|
  {
    if cs != [] {
      var c, rest := cs[0], ClauseLines(cs[1..]);
      assert ClauseLines(cs) == ClauseLine(c) + rest;
      ReadLinesCons(c, rest);
      ReadClauseText(c);
      ReadClauseLines(cs[1..]);
      AllNonZeroCons(cs);
      if !NonZero(c) {
        assert ReadClause(ClauseText(c)).None?;
      } else if !AllNonZero(cs[1..]) {
        assert ReadLines(rest).None?;
      } else {
        assert [c] + cs[1..] == cs;
      }
    }
  }

  /** One step of the line reader over a written clause line and the text after it. */
  lemma ReadLinesCons(c: Clause, rest: string)
    ensures ReadLines(ClauseLine(c) + rest)
      == match (ReadClause(ClauseText(c)), ReadLines(rest))
         case (Some(d), Some(ds)) => Some([d] + ds)
         case _ => None
  {
    ReadClauseLine(c, rest);
  }

  lemma AllNonZeroCons(cs: seq<Clause>)
    requires cs != []
    ensures AllNonZero(cs) <==> NonZero(cs[0]) && AllNonZero(cs[1..])
  {
    assert cs == [cs[0]] + cs[1..];
    if NonZero(cs[0]) && AllNonZero(cs[1..]) {
      forall c | c in cs ensures NonZero(c) {
        if c != cs[0] { assert c in cs[1..]; }
      }
    }
  }

  lemma AllNonZeroAppend(cs: seq<Clause>, ds: seq<Clause>)
    ensures AllNonZero(cs + ds) <==> AllNonZero(cs) && AllNonZero(ds)
  {
    if AllNonZero(cs) && AllNonZero(ds) {
      forall c | c in cs + ds ensures NonZero(c) {
        if c !in cs { assert c in ds; }
      }
    }
  }

  /** The units of some literals are free of 0 exactly when the literals are. */
  lemma AllNonZeroUnits(vs: seq<Lit>)
    ensures AllNonZero(Units(vs)) <==> NonZero(vs)
  {
    var us := Units(vs);
    if AllNonZero(us) {
      forall l | l in vs ensures l != 0 {
        var i :| 0 <= i < |vs| && vs[i] == l;
        assert us[i] in us && us[i] == [l] && l in us[i];
      }
    }
    if NonZero(vs) {
      forall c | c in us ensures NonZero(c) {
        var i :| 0 <= i < |us| && us[i] == c;
        assert vs[i] in vs;
      }
    }
  }

  lemma {:induction false} ClauseLinesAppend(cs: seq<Clause>, ds: seq<Clause>)
    ensures ClauseLines(cs + ds) == ClauseLines(cs) + ClauseLines(ds)
    decreases |cs|
  {
    if cs == [] {
      assert cs + ds == ds;
    } else {
      assert (cs + ds)[1..] == cs[1..] + ds;
      ClauseLinesAppend(cs[1..], ds);
    }
  }

  /** Appending one clause appends its line. */
  lemma ClauseLinesSnoc(cs: seq<Clause>, c: Clause)
    ensures ClauseLines(cs + [c]) == ClauseLines(cs) + ClauseLine(c)
  {
    ClauseLinesAppend(cs, [c]);
    assert ClauseLines([c]) == ClauseLine(c) + ClauseLines([]);
  }

  lemma {:induction false} AssumptionLinesSnoc(vs: seq<Lit>, v: Lit)
    ensures AssumptionLines(vs + [v]) == AssumptionLines(vs) + AssumptionLine(v)
    decreases |vs|
  {
    if vs == [] {
      assert vs + [v] == [v];
      assert AssumptionLines([v]) == AssumptionLine(v) + AssumptionLines([]);
    } else {
      assert (vs + [v])[1..] == vs[1..] + [v];
      AssumptionLinesSnoc(vs[1..], v);
    }
  }

  /** The lines of the first i + 1 clauses extend the lines of the first i by one line. */
  lemma ClauseLinesPrefix(cs: seq<Clause>, i: nat)
    requires i < |cs|
    ensures ClauseLines(cs[..i + 1]) == ClauseLines(cs[..i]) + ClauseLine(cs[i])
  {
    assert cs[..i + 1] == cs[..i] + [cs[i]];
    ClauseLinesSnoc(cs[..i], cs[i]);
  }

  /** The same for assumption lines. */
  lemma AssumptionLinesPrefix(vs: seq<Lit>, i: nat)
    requires i < |vs|
    ensures AssumptionLines(vs[..i + 1]) == AssumptionLines(vs[..i]) + AssumptionLine(vs[i])
  {
    assert vs[..i + 1] == vs[..i] + [vs[i]];
    AssumptionLinesSnoc(vs[..i], vs[i]);
  }

  /** An assumption line is the line of the unit clause it stands for. */
  lemma {:induction false} AssumptionLinesUnits(vs: seq<Lit>)
    ensures AssumptionLines(vs) == ClauseLines(Units(vs))
    decreases |vs|
  {
    if vs != [] {
      assert Literals([vs[0]]) == [IntToString(vs[0])];
      assert Units(vs)[1..] == Units(vs[1..]);
      AssumptionLinesUnits(vs[1..]);
    }
  }

  /** Assumption lines read back as their unit clauses exactly when no assumption is 0. */
  lemma ReadAssumptionLines(vs: seq<Lit>)
    ensures ReadLines(AssumptionLines(vs)) == if NonZero(vs) then Some(Units(vs)) else None
  {
    AssumptionLinesUnits(vs);
    ReadClauseLines(Units(vs));
    AllNonZeroUnits(vs);
  }

  lemma ReadHeader(nVars: int, n: int, rest: string)
    ensures var t := Header(nVars, n) + rest;
      var k := LineLen(t);
      k < |t| && t[k + 1..] == rest
      && Split(t[..k]) == ["p", "cnf", IntToString(nVars), IntToString(n)]
  {
    var ws := ["p", "cnf", IntToString(nVars), IntToString(n)];
    var line := JoinSpaced(ws);
    assert JoinSpaced(ws[3..]) == IntToString(n);
    assert ws[2..][1..] == ws[3..];
    assert JoinSpaced(ws[2..]) == IntToString(nVars) + " " + IntToString(n);
    assert ws[1..][1..] == ws[2..];
    assert JoinSpaced(ws[1..]) == "cnf" + " " + JoinSpaced(ws[2..]);
    assert line == "p cnf " + IntToString(nVars) + " " + IntToString(n);
    JoinNoNewline(ws);
    assert Header(nVars, n) + rest == line + "\n" + rest;
    LineLenOf(line, rest);
    var t := Header(nVars, n) + rest;
    assert t[..|line|] == line;
    assert t[|line| + 1..] == rest;
    SplitJoin(ws, "");
    assert line + "" == line;
    assert ws + [] == ws;
  }

  /**
   * A header followed by some body reads back as the header numbers and the
   * clauses of the body, and fails exactly when the body does.
   */
  lemma ReadHeaderAndLines(nVars: int, n: int, body: string)
    ensures ReadDimacs(Header(nVars, n) + body)
      == match ReadLines(body)
         case Some(cs) => Some(Cnf(nVars, n, cs))
         case None => None
  {
    ReadHeader(nVars, n, body);
    ParseIntToString(nVars);
    ParseIntToString(n);
  }

  /** When the buffer holds the lines of some clauses, the body is the lines of those clauses, the assumption units and the extra clauses. */
  lemma WriterBodyLines(sent: seq<Clause>, assumptions: seq<Lit>, extra: seq<Clause>)
    ensures WriterBody(ClauseLines(sent), assumptions, extra) == ClauseLines(sent + Units(assumptions) + extra)
  {
    AssumptionLinesUnits(assumptions);
    ClauseLinesAppend(sent, Units(assumptions));
    ClauseLinesAppend(sent + Units(assumptions), extra);
  }

  /**
   * A header followed by the lines of some clauses reads back as the header
   * numbers and the clauses, exactly when no clause holds a 0.
   */
  lemma ReadWritten(text: string, nVars: int, n: int, cs: seq<Clause>)
    requires text == Header(nVars, n) + ClauseLines(cs)
    ensures ReadDimacs(text) == if AllNonZero(cs) then Some(Cnf(nVars, n, cs)) else None
  {
    ReadClauseLines(cs);
    ReadHeaderAndLines(nVars, n, ClauseLines(cs));
  }

  /**
   * A written file, once put as its header and the lines of every clause it
   * holds, reads back as the header counts and those clauses exactly when no
   * buffered clause, assumption or extra clause is 0 or holds a 0.
   */
  lemma ReadWriterFile(text: string, nVars: int, sent: seq<Clause>, assumptions: seq<Lit>, extra: seq<Clause>)
    requires text == Header(nVars, |sent| + |assumptions| + |extra|) + ClauseLines(sent + Units(assumptions) + extra)
    ensures ReadDimacs(text)
      == if AllNonZero(sent) && NonZero(assumptions) && AllNonZero(extra)
         then Some(Cnf(nVars, |sent| + |assumptions| + |extra|, sent + Units(assumptions) + extra))
         else None
  {
    ReadWritten(text, nVars, |sent| + |assumptions| + |extra|, sent + Units(assumptions) + extra);
    AllNonZeroWritten(sent, assumptions, extra);
  }

  /** The clauses of a written file hold no 0 exactly when none of its three parts does. */
  lemma AllNonZeroWritten(sent: seq<Clause>, assumptions: seq<Lit>, extra: seq<Clause>)
    ensures AllNonZero(sent + Units(assumptions) + extra)
      <==> AllNonZero(sent) && NonZero(assumptions) && AllNonZero(extra)
  {
    AllNonZeroAppend(sent, Units(assumptions));
    AllNonZeroAppend(sent + Units(assumptions), extra);
    AllNonZeroUnits(assumptions);
  }

  /** The whole written file is the header followed by the lines of every clause it holds. */
  lemma WriterFileIs(nVars: int, sent: seq<Clause>, assumptions: seq<Lit>, extra: seq<Clause>)
    ensures WriterFile(nVars, |sent|, ClauseLines(sent), assumptions, extra)
      == Header(nVars, |sent| + |assumptions| + |extra|) + ClauseLines(sent + Units(assumptions) + extra)
  {
    WriterBodyLines(sent, assumptions, extra);
  }
}
