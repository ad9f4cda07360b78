/**
 * Byte-string helpers shared by the DIMACS writer and the solver-output parser:
 * decimal rendering of integers (Python's `b"%d" % v`), decimal parsing
 * (Python's `int(token)`), splitting on ASCII whitespace (`bytes.split()`),
 * and joining with single spaces (`b" ".join`).
 * Byte strings are modelled as `string`; only ASCII characters occur.
 */
module Text {
  import opened Wrappers

  /** The characters `bytes.split()` and `bytes.strip()` treat as whitespace. */
  predicate IsSpace(ch: char) {
    ch == ' ' || 9 <= ch as int <= 13
  }

  predicate IsDigit(ch: char) {
    '0' <= ch <= '9'
  }

  /** A non-empty run of non-whitespace characters, as `split()` produces. */
  predicate IsWord(w: string) {
    |w| >= 1 && forall i :: 0 <= i < |w| ==> !IsSpace(w[i])
  }

  /** A string that `strip()` reduces to the empty string. */
  predicate IsBlank(s: string) {
    forall i :: 0 <= i < |s| ==> IsSpace(s[i])
  }

  predicate AllDigits(s: string) {
    |s| >= 1 && forall i :: 0 <= i < |s| ==> IsDigit(s[i])
  }

  function DigitChar(d: nat): (ch: char)
    requires d < 10
    ensures IsDigit(ch)
  {
    ('0' as int + d) as char
  }

  /** Decimal digits of n, most significant first, no leading zeros. */
  function NatToString(n: nat): (s: string)
    ensures AllDigits(s)
    decreases n
  {
    if n < 10 then [DigitChar(n)] else NatToString(n / 10) + [DigitChar(n % 10)]
  }

  /** `b"%d" % i`: an optional minus sign followed by the decimal digits. */
  function IntToString(i: int): (s: string)
    ensures IsWord(s)
    ensures (i < 0) == (s[0] == '-')
  {
    if i < 0 then "-" + NatToString(-i) else NatToString(i)
  }

  function DigitsValue(s: string): nat
    requires forall i :: 0 <= i < |s| ==> IsDigit(s[i])
    decreases |s|
  {
    if s == [] then 0
    else
      assert IsDigit(s[|s| - 1]);
      10 * DigitsValue(s[..|s| - 1]) + (s[|s| - 1] as int - '0' as int)
  }

  /** `int(token)` on a whitespace-free token: an optional sign and at least one digit. */
  function ParseInt(w: string): Option<int> {
    if AllDigits(w) then Some(DigitsValue(w))
    else if |w| >= 2 && (w[0] == '-' || w[0] == '+') && AllDigits(w[1..]) then
      Some(if w[0] == '-' then -(DigitsValue(w[1..]) as int) else DigitsValue(w[1..]))
    else None
  }

  /** `map(int, tokens)`, failing when any token is not an integer. */
  function ParseAll(ws: seq<string>): Option<seq<int>>
    decreases |ws|
  {
    if ws == [] then Some([])
    else match (ParseInt(ws[0]), ParseAll(ws[1..]))
      case (Some(x), Some(xs)) => Some([x] + xs)
      case _ => None
  }

  lemma {:induction false} DigitsOfNat(n: nat)
    ensures DigitsValue(NatToString(n)) == n
    decreases n
  {
    if n >= 10 {
      var s := NatToString(n);
      assert s[..|s| - 1] == NatToString(n / 10);
      DigitsOfNat(n / 10);
    }
  }

  /** Parsing the decimal rendering of an integer gives the integer back. */
  lemma ParseIntToString(i: int)
    ensures ParseInt(IntToString(i)) == Some(i)
  {
    var s := IntToString(i);
    if i < 0 {
      assert !AllDigits(s) by { assert !IsDigit(s[0]); }
      assert s[1..] == NatToString(-i);
      DigitsOfNat(-i);
    } else {
      DigitsOfNat(i);
    }
  }

  /** Length of the leading run of non-whitespace characters. */
  function WordLen(s: string): (k: nat)
    ensures k <= |s|
    ensures forall i :: 0 <= i < k ==> !IsSpace(s[i])
    ensures k < |s| ==> IsSpace(s[k])
    decreases |s|
  {
    if s == [] || IsSpace(s[0]) then 0 else 1 + WordLen(s[1..])
  }

  /** `bytes.split()`: the maximal runs of non-whitespace characters, in order. */
  function Split(s: string): (ws: seq<string>)
    ensures forall i :: 0 <= i < |ws| ==> IsWord(ws[i])
    decreases |s|
  {
    if s == [] then []
    else if IsSpace(s[0]) then Split(s[1..])
    else
      var k := WordLen(s);
      [s[..k]] + Split(s[k..])
  }

  /** `b" ".join(ws)`. */
  function JoinSpaced(ws: seq<string>): string
    decreases |ws|
  {
    if ws == [] then ""
    else if |ws| == 1 then ws[0]
    else ws[0] + " " + JoinSpaced(ws[1..])
  }

  /** WordLen is determined by where the first whitespace character sits. */
  lemma {:induction false} WordLenAt(s: string, k: nat)
    requires k <= |s| && (k < |s| ==> IsSpace(s[k]))
    requires forall i :: 0 <= i < k ==> !IsSpace(s[i])
    ensures WordLen(s) == k
    decreases k
  {
    if k > 0 {
      WordLenAt(s[1..], k - 1);
    }
  }

  lemma WordLenOf(w: string, rest: string)
    requires IsWord(w) && (rest == [] || IsSpace(rest[0]))
    ensures WordLen(w + rest) == |w|
  {
    var s := w + rest;
    assert forall i :: 0 <= i < |w| ==> s[i] == w[i];
    if rest != [] {
      assert s[|w|] == rest[0];
    }
    WordLenAt(s, |w|);
  }

  lemma SplitWord(w: string, rest: string)
    requires IsWord(w) && (rest == [] || IsSpace(rest[0]))
    ensures Split(w + rest) == [w] + Split(rest)
  {
    WordLenOf(w, rest);
    var s := w + rest;
    assert s[0] == w[0];
    assert s[..|w|] == w && s[|w|..] == rest;
  }

  /** Splitting words joined by single spaces gives the words back. */
  lemma {:induction false} SplitJoin(ws: seq<string>, tail: string)
    requires forall i :: 0 <= i < |ws| ==> IsWord(ws[i])
    requires tail == [] || IsSpace(tail[0])
    ensures Split(JoinSpaced(ws) + tail) == ws + Split(tail)
    decreases |ws|
  {
    if ws == [] {
      assert JoinSpaced(ws) + tail == tail;
    } else if |ws| == 1 {
      SplitWord(ws[0], tail);
    } else {
      SplitJoinStep(ws, tail);
      SplitJoin(ws[1..], tail);
      ConsAppend(ws, Split(tail));
    }
  }

  lemma ConsAppend(ws: seq<string>, vs: seq<string>)
    requires ws != []
    ensures [ws[0]] + (ws[1..] + vs) == ws + vs
  {
    assert [ws[0]] + ws[1..] == ws;
  }

  lemma SplitJoinStep(ws: seq<string>, tail: string)
    requires |ws| >= 2 && IsWord(ws[0])
    ensures Split(JoinSpaced(ws) + tail) == [ws[0]] + Split(JoinSpaced(ws[1..]) + tail)
  {
    var rest := " " + JoinSpaced(ws[1..]) + tail;
    assert JoinSpaced(ws) + tail == ws[0] + rest;
    SplitWord(ws[0], rest);
    assert rest[1..] == JoinSpaced(ws[1..]) + tail;
  }

  /** Length of the leading part of s up to (not including) the first newline. */
  function LineLen(s: string): (k: nat)
    ensures k <= |s|
    ensures forall i :: 0 <= i < k ==> s[i] != '\n'
    ensures k < |s| ==> s[k] == '\n'
    decreases |s|
  {
    if s == [] || s[0] == '\n' then 0 else 1 + LineLen(s[1..])
  }

  lemma {:induction false} LineLenOf(line: string, rest: string)
    requires forall i :: 0 <= i < |line| ==> line[i] != '\n'
    ensures LineLen(line + "\n" + rest) == |line|
  {
    var s := line + "\n" + rest;
    assert forall i :: 0 <= i < |line| ==> s[i] == line[i];
    assert s[|line|] == '\n';
  }
}
