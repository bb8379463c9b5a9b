/** The DIMACS CNF reader of the driver (read_cnf in main.cc).

    A file is a sequence of lines. Each line is given as its raw text, which
    decides whether the line is skipped or rejected, and as the signed integers
    that a stream extraction reads from it, in order. Variables are remapped to
    dense ids 1, 2, ... in first-seen order; a reverse map recovers the original
    ids for reporting. */
module Cnf {

  /** One input line: its text and the integer tokens read from it. */
  datatype Line = Line(text: string, tokens: seq<int>)

  /** The reader's accumulated state: the forward map `variables` (original id
      to dense id), the reverse map, and the clauses read so far, whose literals
      are signed dense ids. */
  datatype State = State(variables: map<nat, nat>, reverseVariables: map<nat, nat>, clauses: seq<seq<int>>)

  /** Reading either succeeds with a new state or stops on an XOR clause line,
      which the program reports as fatal ("Cannot read XOR clauses"). */
  datatype Result = Ok(state: State) | XorClauses

  function Empty(): State
  {
    State(map[], map[], [])
  }

  function Abs(x: int): nat
  {
    if x < 0 then -x else x
  }

  /** The literal `v2 * (l < 0 ? -1 : 1)`: dense id `v2` with the sign of `l`. */
  function Signed(l: int, v2: nat): int
  {
    if l < 0 then -(v2 as int) else v2
  }

  /** The signed literal names `v2` and, for a real variable, keeps the sign of `l`. */
  lemma SignedKeepsSign(l: int, v2: nat)
    ensures Abs(Signed(l, v2)) == v2
    ensures v2 > 0 ==> (Signed(l, v2) < 0 <==> l < 0)
  {
  }

  /** Empty lines, problem lines (`p`) and comment lines (`c`) are skipped. */
  predicate Skipped(line: Line)
  {
    |line.text| == 0 || line.text[0] == 'p' || line.text[0] == 'c'
  }

  predicate IsXor(line: Line)
  {
    |line.text| > 0 && line.text[0] == 'x'
  }

  /** The number of tokens read before the terminating 0 (or the end of the line). */
  function ClauseLength(tokens: seq<int>): (len: nat)
    ensures len <= |tokens|
    ensures forall k :: 0 <= k < len ==> tokens[k] != 0
    ensures len < |tokens| ==> tokens[len] == 0
  {
    if |tokens| == 0 || tokens[0] == 0 then 0 else 1 + ClauseLength(tokens[1..])
  }

  /** The forward map of `st2` agrees with that of `st` on every key of `st`. */
  predicate Extends(st: State, st2: State)
  {
    forall v :: v in st.variables ==> v in st2.variables && st2.variables[v] == st.variables[v]
  }

  /** The remapping invariant: dense ids are exactly 1..|variables|, original ids
      are nonzero, and the two maps are mutual inverses. */
  predicate Bijective(variables: map<nat, nat>, reverseVariables: map<nat, nat>)
  {
    && (forall v :: v in variables ==> v != 0 && 1 <= variables[v] <= |variables|)
    && (forall v :: v in variables ==> variables[v] in reverseVariables && reverseVariables[variables[v]] == v)
    && (forall j :: j in reverseVariables ==> 1 <= j <= |variables|)
    && (forall j :: 1 <= j <= |variables| ==> j in reverseVariables)
    && (forall j :: j in reverseVariables ==> reverseVariables[j] in variables && variables[reverseVariables[j]] == j)
  }

  /** Every stored literal is a nonzero signed dense id no larger than `n`. */
  predicate LiteralsInRange(clauses: seq<seq<int>>, n: nat)
  {
    forall i, k :: 0 <= i < |clauses| && 0 <= k < |clauses[i]| ==> clauses[i][k] != 0 && Abs(clauses[i][k]) <= n
  }

  predicate Valid(st: State)
  {
    Bijective(st.variables, st.reverseVariables) && LiteralsInRange(st.clauses, |st.variables|)
  }

  /** Looks up original variable `v`, giving it the next dense id when it is new. */
  function Intern(st: State, v: nat): (r: (State, nat))
    ensures v in r.0.variables && r.0.variables[v] == r.1
    ensures Extends(st, r.0) && r.0.clauses == st.clauses
    ensures v in st.variables ==> r.0 == st
    ensures v !in st.variables ==>
      && r.1 == 1 + |st.variables|
      && r.0.variables.Keys == st.variables.Keys + {v}
      && r.0.reverseVariables == st.reverseVariables[r.1 := v]
  {
    if v in st.variables then (st, st.variables[v])
    else
      var v2 := 1 + |st.variables|;
      (st.(variables := st.variables[v := v2], reverseVariables := st.reverseVariables[v2 := v]), v2)
  }

  /** The original variables a line mentions before its terminating 0. */
  function Mentioned(tokens: seq<int>): (vs: set<nat>)
    ensures forall k :: 0 <= k < ClauseLength(tokens) ==> Abs(tokens[k]) in vs
  {
    if |tokens| == 0 || tokens[0] == 0 then {}
    else
      assert forall k :: 0 < k < ClauseLength(tokens) ==> tokens[k] == tokens[1..][k - 1];
      {Abs(tokens[0])} + Mentioned(tokens[1..])
  }

  /** Only the variables of the line's tokens are mentioned. */
  lemma {:induction false} MentionedOnly(tokens: seq<int>, x: nat)
    requires x in Mentioned(tokens)
    ensures exists k :: 0 <= k < ClauseLength(tokens) && Abs(tokens[k]) == x
    decreases |tokens|
  {
    if Abs(tokens[0]) != x {
      MentionedOnly(tokens[1..], x);
      var k :| 0 <= k < ClauseLength(tokens[1..]) && Abs(tokens[1..][k]) == x;
      assert Abs(tokens[k + 1]) == x;
    }
  }

  /** What reading the tokens of a line into `c` from `st` gives in `r`: the
      clause list is untouched, every earlier mapping is kept, and `c` is
      extended by one literal per token before the first 0, with the token's
      sign and the dense id of its magnitude. */
  predicate ClauseParsed(st: State, tokens: seq<int>, c: seq<int>, r: (State, seq<int>))
  {
    && r.0.clauses == st.clauses && Extends(st, r.0)
    && |r.1| == |c| + ClauseLength(tokens) && r.1[..|c|] == c
    && forall k :: 0 <= k < ClauseLength(tokens) ==>
      Abs(tokens[k]) in r.0.variables && r.1[|c| + k] == Signed(tokens[k], r.0.variables[Abs(tokens[k])])
  }

  /** Reads the literals of one line, appending them to `c`, up to the first 0. */
  function ParseClause(st: State, tokens: seq<int>, c: seq<int>): (r: (State, seq<int>))
    ensures r.0.clauses == st.clauses && Extends(st, r.0)
    ensures |r.1| == |c| + ClauseLength(tokens) && r.1[..|c|] == c
    ensures forall k :: 0 <= k < ClauseLength(tokens) ==>
      Abs(tokens[k]) in r.0.variables && r.1[|c| + k] == Signed(tokens[k], r.0.variables[Abs(tokens[k])])
    decreases |tokens|
  {
    if |tokens| == 0 || tokens[0] == 0 then (st, c)
    else
      var iv := Intern(st, Abs(tokens[0]));
      var r := ParseClause(iv.0, tokens[1..], c + [Signed(tokens[0], iv.1)]);
      ParseClauseStep(st, tokens, c, r);
      r
  }

  /** One token of ParseClause: what the rest of the line gives after the
      first token was interned is what the whole line gives. */
  lemma ParseClauseStep(st: State, tokens: seq<int>, c: seq<int>, r: (State, seq<int>))
    requires |tokens| > 0 && tokens[0] != 0
    requires var iv := Intern(st, Abs(tokens[0]));
      ClauseParsed(iv.0, tokens[1..], c + [Signed(tokens[0], iv.1)], r)
    ensures ClauseParsed(st, tokens, c, r)
  {
    var iv := Intern(st, Abs(tokens[0]));
    var c2 := c + [Signed(tokens[0], iv.1)];
    assert r.1[..|c|] == c by {
      assert r.1[..|c2|] == c2;
      assert r.1[..|c|] == r.1[..|c2|][..|c|];
    }
    forall k | 0 <= k < ClauseLength(tokens)
      ensures Abs(tokens[k]) in r.0.variables && r.1[|c| + k] == Signed(tokens[k], r.0.variables[Abs(tokens[k])])
    {
      if k == 0 {
        assert r.1[|c|] == r.1[..|c2|][|c|];
      } else {
        assert tokens[k] == tokens[1..][k - 1];
        assert |c| + k == |c2| + (k - 1);
      }
    }
  }

  /** Reading from token `i` on, when it is not 0, interns it and goes on from `i + 1`. */
  lemma ParseClauseCons(st: State, tokens: seq<int>, i: nat, c: seq<int>)
    requires i < |tokens| && tokens[i] != 0
    ensures var iv := Intern(st, Abs(tokens[i]));
      ParseClause(st, tokens[i..], c) == ParseClause(iv.0, tokens[i + 1..], c + [Signed(tokens[i], iv.1)])
  {
    assert tokens[i..][1..] == tokens[i + 1..];
  }

  /** Reading a line adds exactly the variables it mentions to the forward map. */
  lemma {:induction false} ParseClauseKeys(st: State, tokens: seq<int>, c: seq<int>)
    ensures ParseClause(st, tokens, c).0.variables.Keys == st.variables.Keys + Mentioned(tokens)
    decreases |tokens|
  {
    if |tokens| > 0 && tokens[0] != 0 {
      var iv := Intern(st, Abs(tokens[0]));
      ParseClauseKeys(iv.0, tokens[1..], c + [Signed(tokens[0], iv.1)]);
      ParseClauseKeysStep(st, tokens, c);
    }
  }

  /** One token of ParseClauseKeys: the first token's variable joins the keys
      the rest of the line adds. */
  lemma ParseClauseKeysStep(st: State, tokens: seq<int>, c: seq<int>)
    requires |tokens| > 0 && tokens[0] != 0
    requires var iv := Intern(st, Abs(tokens[0]));
      ParseClause(iv.0, tokens[1..], c + [Signed(tokens[0], iv.1)]).0.variables.Keys
        == iv.0.variables.Keys + Mentioned(tokens[1..])
    ensures ParseClause(st, tokens, c).0.variables.Keys == st.variables.Keys + Mentioned(tokens)
  {
    var l := tokens[0];
    var iv := Intern(st, Abs(l));
    var c2 := c + [Signed(l, iv.1)];
    assert ParseClause(st, tokens, c) == ParseClause(iv.0, tokens[1..], c2);
    var r := ParseClause(iv.0, tokens[1..], c2);
    var rest := Mentioned(tokens[1..]);
    assert Mentioned(tokens) == {Abs(l)} + rest;
    assert iv.0.variables.Keys == st.variables.Keys + {Abs(l)};
    assert r.0.variables.Keys == st.variables.Keys + ({Abs(l)} + rest);
  }

  /** The effect of one line on the reader. */
  function ParseLine(st: State, line: Line): (r: Result)
    ensures Skipped(line) ==> r == Ok(st)
    ensures IsXor(line) ==> r == XorClauses
    ensures !Skipped(line) && !IsXor(line) ==>
      && r.Ok?
      && |r.state.clauses| == |st.clauses| + 1
      && r.state.clauses[..|st.clauses|] == st.clauses
      && |r.state.clauses[|st.clauses|]| == ClauseLength(line.tokens)
      && Extends(st, r.state)
  {
    if Skipped(line) then Ok(st)
    else if IsXor(line) then XorClauses
    else
      var r := ParseClause(st, line.tokens, []);
      Ok(r.0.(clauses := r.0.clauses + [r.1]))
  }

  /** The number of lines that are neither skipped nor rejected. */
  function ClauseLineCount(lines: seq<Line>): nat
  {
    if |lines| == 0 then 0
    else (if Skipped(lines[0]) || IsXor(lines[0]) then 0 else 1) + ClauseLineCount(lines[1..])
  }

  /** Reads the lines of one file in order (read_cnf). */
  function ParseLines(st: State, lines: seq<Line>): (r: Result)
    ensures r.XorClauses? <==> exists k :: 0 <= k < |lines| && IsXor(lines[k])
    ensures r.Ok? ==>
      && |r.state.clauses| == |st.clauses| + ClauseLineCount(lines)
      && r.state.clauses[..|st.clauses|] == st.clauses
      && Extends(st, r.state)
    decreases |lines|
  {
    if |lines| == 0 then Ok(st)
    else
      match ParseLine(st, lines[0])
      case XorClauses => XorClauses
      case Ok(st2) =>
        var r := ParseLines(st2, lines[1..]);
        assert forall k :: 0 < k < |lines| ==> lines[k] == lines[1..][k - 1];
        assert r.Ok? ==> r.state.clauses[..|st.clauses|] == st2.clauses[..|st2.clauses|][..|st.clauses|];
        r
  }

  /** Reads the files in order into the same maps and clause list (the loop of main). */
  function ParseFiles(st: State, files: seq<seq<Line>>): (r: Result)
    ensures r.Ok? ==> |st.clauses| <= |r.state.clauses|
    ensures r.Ok? ==> r.state.clauses[..|st.clauses|] == st.clauses && Extends(st, r.state)
    decreases |files|
  {
    if |files| == 0 then Ok(st)
    else
      match ParseLines(st, files[0])
      case XorClauses => XorClauses
      case Ok(st2) =>
        var r := ParseFiles(st2, files[1..]);
        assert r.Ok? ==> r.state.clauses[..|st.clauses|] == st2.clauses[..|st2.clauses|][..|st.clauses|];
        r
  }

  function Concat(files: seq<seq<Line>>): seq<Line>
  {
    if |files| == 0 then [] else files[0] + Concat(files[1..])
  }

  // ---------------------------------------------------------------------------
  // Properties of the remapping

  /** Giving a new original variable the next dense id keeps the bijection. */
  lemma AddKeepsBijective(vars: map<nat, nat>, rev: map<nat, nat>, v: nat)
    requires Bijective(vars, rev) && v != 0 && v !in vars
    ensures |vars[v := |vars| + 1]| == |vars| + 1
    ensures Bijective(vars[v := |vars| + 1], rev[|vars| + 1 := v])
  {
    var n := |vars|;
    var vars2 := vars[v := n + 1];
    var rev2 := rev[n + 1 := v];
    assert |vars2| == n + 1;
    AddForward(vars, rev, v, vars2, rev2);
    AddBackward(vars, rev, v, vars2, rev2);
    forall j | 1 <= j <= n + 1
      ensures j in rev2
    {
    }
  }

  lemma AddForward(vars: map<nat, nat>, rev: map<nat, nat>, v: nat, vars2: map<nat, nat>, rev2: map<nat, nat>)
    requires Bijective(vars, rev) && v != 0 && v !in vars
    requires vars2 == vars[v := |vars| + 1] && rev2 == rev[|vars| + 1 := v]
    ensures forall x :: x in vars2 ==>
      x != 0 && 1 <= vars2[x] <= |vars| + 1 && vars2[x] in rev2 && rev2[vars2[x]] == x
  {
    forall x | x in vars2
      ensures x != 0 && 1 <= vars2[x] <= |vars| + 1 && vars2[x] in rev2 && rev2[vars2[x]] == x
    {
      if x != v {
        assert vars2[x] == vars[x] && vars[x] <= |vars|;
      }
    }
  }

  lemma AddBackward(vars: map<nat, nat>, rev: map<nat, nat>, v: nat, vars2: map<nat, nat>, rev2: map<nat, nat>)
    requires Bijective(vars, rev) && v != 0 && v !in vars
    requires vars2 == vars[v := |vars| + 1] && rev2 == rev[|vars| + 1 := v]
    ensures forall j :: j in rev2 ==> 1 <= j <= |vars| + 1 && rev2[j] in vars2 && vars2[rev2[j]] == j
  {
    forall j | j in rev2
      ensures 1 <= j <= |vars| + 1 && rev2[j] in vars2 && vars2[rev2[j]] == j
    {
      if j != |vars| + 1 {
        assert rev2[j] == rev[j] && rev[j] in vars;
      }
    }
  }

  lemma {:induction false} InternKeepsBijective(st: State, v: nat)
    requires Bijective(st.variables, st.reverseVariables) && v != 0
    ensures Bijective(Intern(st, v).0.variables, Intern(st, v).0.reverseVariables)
    ensures |st.variables| <= |Intern(st, v).0.variables|
  {
    if v !in st.variables {
      AddKeepsBijective(st.variables, st.reverseVariables, v);
    }
  }

  lemma {:induction false} ParseClauseKeepsBijective(st: State, tokens: seq<int>, c: seq<int>)
    requires Bijective(st.variables, st.reverseVariables)
    ensures Bijective(ParseClause(st, tokens, c).0.variables, ParseClause(st, tokens, c).0.reverseVariables)
    ensures |st.variables| <= |ParseClause(st, tokens, c).0.variables|
    decreases |tokens|
  {
    if |tokens| > 0 && tokens[0] != 0 {
      var iv := Intern(st, Abs(tokens[0]));
      InternKeepsBijective(st, Abs(tokens[0]));
      ParseClauseKeepsBijective(iv.0, tokens[1..], c + [Signed(tokens[0], iv.1)]);
    }
  }

  /** Every step of the reader keeps the remapping a bijection onto 1..n and keeps
      each stored literal a nonzero signed dense id. */
  lemma {:induction false} ParseLineKeepsValid(st: State, line: Line)
    requires Valid(st) && ParseLine(st, line).Ok?
    ensures Valid(ParseLine(st, line).state)
  {
    if !Skipped(line) && !IsXor(line) {
      var r := ParseClause(st, line.tokens, []);
      ParseClauseKeepsBijective(st, line.tokens, []);
      var n := |r.0.variables|;
      var clauses := r.0.clauses + [r.1];
      forall i, k | 0 <= i < |clauses| && 0 <= k < |clauses[i]|
        ensures clauses[i][k] != 0 && Abs(clauses[i][k]) <= n
      {
        if i == |st.clauses| {
          assert r.1[0 + k] == Signed(line.tokens[k], r.0.variables[Abs(line.tokens[k])]);
        }
      }
    }
  }

  lemma {:induction false} ParseLinesKeepsValid(st: State, lines: seq<Line>)
    requires Valid(st) && ParseLines(st, lines).Ok?
    ensures Valid(ParseLines(st, lines).state)
    decreases |lines|
  {
    if |lines| > 0 {
      ParseLineKeepsValid(st, lines[0]);
      ParseLinesKeepsValid(ParseLine(st, lines[0]).state, lines[1..]);
    }
  }

  /** Reading a second batch of lines continues from the state the first left. */
  lemma {:induction false} ParseLinesAppend(st: State, a: seq<Line>, b: seq<Line>)
    ensures ParseLines(st, a + b) ==
      match ParseLines(st, a)
      case XorClauses => XorClauses
      case Ok(st2) => ParseLines(st2, b)
    decreases |a|
  {
    if |a| > 0 {
      assert (a + b)[1..] == a[1..] + b;
      assert (a + b)[0] == a[0];
      if ParseLine(st, a[0]).Ok? {
        ParseLinesAppend(ParseLine(st, a[0]).state, a[1..], b);
      }
    } else {
      assert a + b == b;
    }
  }

  /** Several files read in turn give what their concatenation gives. */
  lemma {:induction false} ParseFilesIsConcat(st: State, files: seq<seq<Line>>)
    ensures ParseFiles(st, files) == ParseLines(st, Concat(files))
    decreases |files|
  {
    if |files| > 0 {
      ParseLinesAppend(st, files[0], Concat(files[1..]));
      if ParseLines(st, files[0]).Ok? {
        ParseFilesIsConcat(ParseLines(st, files[0]).state, files[1..]);
      }
    }
  }

  lemma {:induction false} ParseFilesKeepsValid(st: State, files: seq<seq<Line>>)
    requires Valid(st) && ParseFiles(st, files).Ok?
    ensures Valid(ParseFiles(st, files).state)
  {
    ParseFilesIsConcat(st, files);
    ParseLinesKeepsValid(st, Concat(files));
  }

  // ---------------------------------------------------------------------------
  // Meaning of a clause under an assignment

  /** A dense literal is true under `col` (indexed by dense id) when the value
      of its variable differs from its sign bit: `value ^ sign`. */
  predicate LiteralTrue(l: int, col: seq<bool>)
    requires Abs(l) < |col|
  {
    col[Abs(l)] != (l < 0)
  }

  predicate InRange(c: seq<int>, n: nat)
  {
    forall k :: 0 <= k < |c| ==> Abs(c[k]) < n
  }

  predicate ClauseSat(c: seq<int>, col: seq<bool>)
    requires InRange(c, |col|)
  {
    exists k :: 0 <= k < |c| && LiteralTrue(c[k], col)
  }

  /** Every clause is satisfied. */
  predicate Satisfies(clauses: seq<seq<int>>, col: seq<bool>)
    requires forall i :: 0 <= i < |clauses| ==> InRange(clauses[i], |col|)
  {
    forall i :: 0 <= i < |clauses| ==> ClauseSat(clauses[i], col)
  }

  // ---------------------------------------------------------------------------
  // The clauses as written in the input, and how the parsed ones relate to them

  /** The clauses of the input as written: for each clause line, its tokens
      before the terminating 0. */
  function InputClauses(lines: seq<Line>): seq<seq<int>>
    decreases |lines|
  {
    if |lines| == 0 then [] else LineClauses(lines[0]) + InputClauses(lines[1..])
  }

  /** The clause a line contributes as written, if any. */
  function LineClauses(line: Line): seq<seq<int>>
  {
    if Skipped(line) || IsXor(line) then [] else [line.tokens[..ClauseLength(line.tokens)]]
  }

  /** `c` is `orig` with every variable replaced by its dense id and every sign kept. */
  predicate Remapped(orig: seq<int>, c: seq<int>, variables: map<nat, nat>)
  {
    && |c| == |orig|
    && forall k :: 0 <= k < |orig| ==>
      orig[k] != 0 && Abs(orig[k]) in variables && c[k] == Signed(orig[k], variables[Abs(orig[k])])
  }

  predicate RemapsAll(origs: seq<seq<int>>, clauses: seq<seq<int>>, variables: map<nat, nat>)
  {
    |origs| == |clauses| && forall i :: 0 <= i < |origs| ==> Remapped(origs[i], clauses[i], variables)
  }

  /** A later state keeps the remapping of every earlier clause. */
  lemma RemapsAllExtends(origs: seq<seq<int>>, st: State, st2: State)
    requires RemapsAll(origs, st.clauses, st.variables) && Extends(st, st2)
    ensures RemapsAll(origs, st.clauses, st2.variables)
  {
    forall i, k | 0 <= i < |origs| && 0 <= k < |origs[i]|
      ensures Abs(origs[i][k]) in st2.variables && st2.variables[Abs(origs[i][k])] == st.variables[Abs(origs[i][k])]
    {
      assert Remapped(origs[i], st.clauses[i], st.variables);
    }
  }

  /** A clause line appends the remapped form of its own tokens. */
  lemma ParseLineRemaps(st: State, line: Line, origs: seq<seq<int>>)
    requires RemapsAll(origs, st.clauses, st.variables) && ParseLine(st, line).Ok?
    ensures RemapsAll(origs + LineClauses(line), ParseLine(st, line).state.clauses, ParseLine(st, line).state.variables)
  {
    var r := ParseLine(st, line).state;
    RemapsAllExtends(origs, st, r);
    if !Skipped(line) {
      var len := ClauseLength(line.tokens);
      var orig := line.tokens[..len];
      assert LineClauses(line) == [orig];
      assert Remapped(orig, r.clauses[|st.clauses|], r.variables);
      var all := origs + [orig];
      forall i | 0 <= i < |all|
        ensures Remapped(all[i], r.clauses[i], r.variables)
      {
        if i < |origs| {
          assert r.clauses[i] == r.clauses[..|st.clauses|][i];
        }
      }
    } else {
      assert LineClauses(line) == [];
      assert origs + [] == origs;
    }
  }

  lemma InputClausesSplit(origs: seq<seq<int>>, lines: seq<Line>)
    requires |lines| > 0
    ensures origs + LineClauses(lines[0]) + InputClauses(lines[1..]) == origs + InputClauses(lines)
  {
    var head, rest := LineClauses(lines[0]), InputClauses(lines[1..]);
    assert InputClauses(lines) == head + rest;
    ConcatAssoc(origs, head, rest);
  }

  lemma ConcatAssoc<T>(a: seq<T>, b: seq<T>, c: seq<T>)
    ensures a + b + c == a + (b + c)
  {
  }

  /** Every parsed clause is the remapped form of the input clause at the same
      position, under the final forward map. */
  lemma {:induction false} ParseLinesRemaps(st: State, lines: seq<Line>, origs: seq<seq<int>>)
    requires RemapsAll(origs, st.clauses, st.variables) && ParseLines(st, lines).Ok?
    ensures RemapsAll(origs + InputClauses(lines), ParseLines(st, lines).state.clauses, ParseLines(st, lines).state.variables)
    decreases |lines|
  {
    if |lines| == 0 {
      assert origs + [] == origs;
    } else {
      var st2 := ParseLine(st, lines[0]).state;
      var mid := origs + LineClauses(lines[0]);
      ParseLineRemaps(st, lines[0], origs);
      ParseLinesRemaps(st2, lines[1..], mid);
      assert ParseLines(st, lines) == ParseLines(st2, lines[1..]);
      InputClausesSplit(origs, lines);
    }
  }

  // ---------------------------------------------------------------------------
  // The reader as the program runs it: maps and clause list updated in place

  class CnfReader {
    var variables: map<nat, nat>
    var reverseVariables: map<nat, nat>
    var clauses: seq<seq<int>>

    function Current(): State
      reads this
    {
      State(variables, reverseVariables, clauses)
    }

    constructor ()
      ensures Current() == Empty()
    {
      variables, reverseVariables, clauses := map[], map[], [];
    }

    /** The dense id of original variable `v`, assigning the next one when `v`
        is new. */
    method Lookup(v: nat) returns (v2: nat)
      modifies this
      ensures (Current(), v2) == Intern(old(Current()), v)
    {
      if v !in variables {
        v2 := 1 + |variables|;
        variables := variables[v := v2];
        reverseVariables := reverseVariables[v2 := v];
      } else {
        v2 := variables[v];
      }
    }

    /** The token loop of a clause line: each literal before the first 0 is
        interned and appended with its sign. */
    method ReadClause(tokens: seq<int>) returns (c: seq<int>)
      modifies this
      ensures (Current(), c) == ParseClause(old(Current()), tokens, [])
    {
      ghost var st0 := Current();
      c := [];
      var i := 0;
      while i < |tokens|
        invariant 0 <= i <= |tokens|
        invariant ParseClause(Current(), tokens[i..], c) == ParseClause(st0, tokens, [])
      {
        var l := tokens[i];
        if l == 0 {
          break;
        }
        ParseClauseCons(Current(), tokens, i, c);
        var v2 := Lookup(Abs(l));
        c := c + [Signed(l, v2)];
        i := i + 1;
      }
      assert ParseClause(Current(), tokens[i..], c) == (Current(), c);
    }

    /** One iteration of the line loop of read_cnf. */
    method ReadLine(line: Line) returns (ok: bool)
      modifies this
      ensures ok == ParseLine(old(Current()), line).Ok?
      ensures ok ==> Current() == ParseLine(old(Current()), line).state
      ensures !ok ==> Current() == old(Current())
    {
      if |line.text| == 0 || line.text[0] == 'p' || line.text[0] == 'c' {
        return true;
      }
      if line.text[0] == 'x' {
        return false;
      }
      var c := ReadClause(line.tokens);
      clauses := clauses + [c];
      ok := true;
    }

    /** read_cnf: the lines of one file, in order. */
    method ReadCnf(lines: seq<Line>) returns (ok: bool)
      modifies this
      ensures ok == ParseLines(old(Current()), lines).Ok?
      ensures ok ==> Current() == ParseLines(old(Current()), lines).state
    {
      ghost var st0 := Current();
      var i := 0;
      while i < |lines|
        invariant 0 <= i <= |lines|
        invariant ParseLines(Current(), lines[i..]) == ParseLines(st0, lines)
      {
        assert lines[i..][1..] == lines[i + 1..];
        ok := ReadLine(lines[i]);
        if !ok {
          return;
        }
        i := i + 1;
      }
      ok := true;
    }

    /** The loop of main over its file arguments. */
    method ReadFiles(files: seq<seq<Line>>) returns (ok: bool)
      modifies this
      ensures ok == ParseFiles(old(Current()), files).Ok?
      ensures ok ==> Current() == ParseFiles(old(Current()), files).state
    {
      ghost var st0 := Current();
      var i := 0;
      while i < |files|
        invariant 0 <= i <= |files|
        invariant ParseFiles(Current(), files[i..]) == ParseFiles(st0, files)
      {
        assert files[i..][1..] == files[i + 1..];
        ok := ReadCnf(files[i]);
        if !ok {
          return;
        }
        i := i + 1;
      }
      ok := true;
    }
  }
}
