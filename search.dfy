/** The host side of the search loop of main.cc: setting up the search state,
    reading a round's results back, deciding whether any worker claims a
    solution, re-checking every claim against the original clauses, printing
    the solution in original variable numbering, and moving the clause window.

    The kernel itself is not part of this model: a round's effect is whatever
    worker states and assignment matrix the device hands back. */
module Search {
  import opened Cnf
  import opened Workers
  import opened Encoding
  import Window

  /** A printed solution line: the worker and the literals after "v". */
  datatype Solution = Solution(worker: nat, line: seq<int>)

  /** How a round ends. `Unsolved` prints "c best" and the loop goes on;
      `Solved` ends the loop after every candidate was checked and printed;
      `Inconsistent` is the host-side assertion failing for a candidate, after
      the solutions of the earlier candidates were printed. */
  datatype RoundOutcome =
    | Unsolved(best: nat)
    | Solved(solutions: seq<Solution>)
    | Inconsistent(worker: nat, printed: seq<Solution>)

  /** `max_nr_sat_clauses`: the largest count of the round, starting from 0. */
  function MaxSat(ts: seq<ThreadState>): (m: nat)
    ensures forall i :: 0 <= i < |ts| ==> ts[i].nrSatClauses <= m
    ensures m == 0 || exists i :: 0 <= i < |ts| && ts[i].nrSatClauses == m
  {
    if |ts| == 0 then 0
    else
      var prev := MaxSat(ts[..|ts| - 1]);
      var last := ts[|ts| - 1].nrSatClauses;
      assert forall i :: 0 <= i < |ts| - 1 ==> ts[..|ts| - 1][i] == ts[i];
      if last > prev then last else prev
  }

  /** The candidates of a round: the workers, in ascending order, whose count
      reaches the padded clause count. */
  function Candidates(ts: seq<ThreadState>, nrClauses: nat): seq<nat>
  {
    if |ts| == 0 then []
    else
      var prev := Candidates(ts[..|ts| - 1], nrClauses);
      if ts[|ts| - 1].nrSatClauses >= nrClauses then prev + [|ts| - 1] else prev
  }

  /** Exactly the workers reaching the count are candidates, each once, in
      ascending order. */
  lemma {:induction false} CandidatesExact(ts: seq<ThreadState>, nrClauses: nat)
    ensures var cs := Candidates(ts, nrClauses);
      && (forall k :: 0 <= k < |cs| ==> cs[k] < |ts| && ts[cs[k]].nrSatClauses >= nrClauses)
      && (forall w :: 0 <= w < |ts| && ts[w].nrSatClauses >= nrClauses ==> w in cs)
      && (forall k, k' :: 0 <= k < k' < |cs| ==> cs[k] < cs[k'])
  {
    if |ts| > 0 {
      CandidatesExact(ts[..|ts| - 1], nrClauses);
      assert forall i :: 0 <= i < |ts| - 1 ==> ts[..|ts| - 1][i] == ts[i];
    }
  }

  /** The candidates among the first `j` workers are the first candidates of all. */
  lemma {:induction false} CandidatesPrefix(ts: seq<ThreadState>, j: nat, nrClauses: nat)
    requires j <= |ts|
    ensures Candidates(ts[..j], nrClauses) <= Candidates(ts, nrClauses)
    decreases |ts| - j
  {
    if j < |ts| {
      CandidatesPrefix(ts, j + 1, nrClauses);
      assert ts[..j + 1][..j] == ts[..j];
    } else {
      assert ts[..j] == ts;
    }
  }

  /** The round maximum after one more worker. */
  lemma MaxSatSnoc(ts: seq<ThreadState>, i: nat)
    requires i < |ts|
    ensures MaxSat(ts[..i + 1]) ==
      if ts[i].nrSatClauses > MaxSat(ts[..i]) then ts[i].nrSatClauses else MaxSat(ts[..i])
  {
    assert ts[..i + 1][..i] == ts[..i];
  }

  /** The candidates after one more worker. */
  lemma CandidatesSnoc(ts: seq<ThreadState>, i: nat, nrClauses: nat)
    requires i < |ts|
    ensures Candidates(ts[..i + 1], nrClauses) ==
      if ts[i].nrSatClauses >= nrClauses then Candidates(ts[..i], nrClauses) + [i] else Candidates(ts[..i], nrClauses)
  {
    assert ts[..i + 1][..i] == ts[..i];
  }

  /** A worker reaching the count is the candidate right after those before it. */
  lemma CandidateAt(ts: seq<ThreadState>, i: nat, nrClauses: nat)
    requires i < |ts| && ts[i].nrSatClauses >= nrClauses
    ensures var p := |Candidates(ts[..i], nrClauses)|;
      && p < |Candidates(ts, nrClauses)|
      && Candidates(ts, nrClauses)[p] == i
      && Candidates(ts, nrClauses)[..p] == Candidates(ts[..i], nrClauses)
  {
    CandidatesPrefix(ts, i + 1, nrClauses);
    CandidatesSnoc(ts, i, nrClauses);
  }

  /** `reverse_variables[j]`: std::map's operator[] gives 0 for a missing key. */
  function Original(reverseVariables: map<nat, nat>, j: nat): nat
  {
    if j in reverseVariables then reverseVariables[j] else 0
  }

  /** The literals printed after "v" for one worker's column. */
  function RenderLine(col: seq<bool>, reverseVariables: map<nat, nat>): (line: seq<int>)
    requires |col| >= 1
  {
    seq(|col| - 1, k requires 0 <= k < |col| - 1 =>
      if col[k + 1] then Original(reverseVariables, k + 1) else -(Original(reverseVariables, k + 1) as int))
  }

  /** Under a bijective remap the printed line lists every dense variable, in
      ascending order, as its own original id, negated exactly when the worker's
      value is false; reading it back through the forward map recovers the
      column, and no original id is printed twice. */
  lemma RenderRoundTrip(col: seq<bool>, variables: map<nat, nat>, reverseVariables: map<nat, nat>)
    requires Bijective(variables, reverseVariables) && |col| == 1 + |variables|
    ensures |RenderLine(col, reverseVariables)| == |variables|
    ensures forall k :: 0 <= k < |variables| ==>
      && RenderLine(col, reverseVariables)[k] != 0
      && Abs(RenderLine(col, reverseVariables)[k]) in variables
      && variables[Abs(RenderLine(col, reverseVariables)[k])] == k + 1
      && (RenderLine(col, reverseVariables)[k] > 0 <==> col[k + 1])
    ensures forall k, k' :: 0 <= k < k' < |variables| ==>
      Abs(RenderLine(col, reverseVariables)[k]) != Abs(RenderLine(col, reverseVariables)[k'])
  {
    var line := RenderLine(col, reverseVariables);
    forall k | 0 <= k < |variables|
      ensures Abs(line[k]) == reverseVariables[k + 1] && reverseVariables[k + 1] in variables
    {
      assert k + 1 in reverseVariables;
    }
  }

  /** One of the clause's literals, as written in the input, is on the line. */
  predicate ClauseOnLine(orig: seq<int>, line: seq<int>)
  {
    exists k :: 0 <= k < |orig| && orig[k] in line
  }

  /** Every clause of the input as written has one of its own literals on the line. */
  predicate LineSatisfies(origs: seq<seq<int>>, line: seq<int>)
  {
    forall i :: 0 <= i < |origs| ==> ClauseOnLine(origs[i], line)
  }

  /** A remapped clause holds under a column exactly when one of the clause's
      literals as written appears on the printed line. */
  lemma PrintedLineSatisfiesClause(orig: seq<int>, c: seq<int>, col: seq<bool>,
                                   variables: map<nat, nat>, reverseVariables: map<nat, nat>)
    requires Bijective(variables, reverseVariables) && |col| == 1 + |variables|
    requires Remapped(orig, c, variables) && InRange(c, |col|)
    ensures ClauseSat(c, col) <==> ClauseOnLine(orig, RenderLine(col, reverseVariables))
  {
    var line := RenderLine(col, reverseVariables);
    RenderRoundTrip(col, variables, reverseVariables);
    if ClauseSat(c, col) {
      var k :| 0 <= k < |c| && LiteralTrue(c[k], col);
      var d := variables[Abs(orig[k])];
      assert line[d - 1] == orig[k];
      assert ClauseOnLine(orig, line);
    }
    if ClauseOnLine(orig, line) {
      var k :| 0 <= k < |orig| && orig[k] in line;
      var j :| 0 <= j < |line| && line[j] == orig[k];
      assert variables[Abs(orig[k])] == j + 1;
      assert LiteralTrue(c[k], col);
    }
  }

  /** The same for a whole clause list: a column satisfies the remapped
      clauses exactly when the printed line satisfies the clauses as written. */
  lemma PrintedLineSatisfiesAll(origs: seq<seq<int>>, clauses: seq<seq<int>>, col: seq<bool>,
                                variables: map<nat, nat>, reverseVariables: map<nat, nat>)
    requires Bijective(variables, reverseVariables) && |col| == 1 + |variables|
    requires RemapsAll(origs, clauses, variables)
    requires forall i :: 0 <= i < |clauses| ==> InRange(clauses[i], |col|)
    ensures Satisfies(clauses, col) <==> LineSatisfies(origs, RenderLine(col, reverseVariables))
  {
    var line := RenderLine(col, reverseVariables);
    if Satisfies(clauses, col) {
      forall i | 0 <= i < |origs|
        ensures ClauseOnLine(origs[i], line)
      {
        assert ClauseSat(clauses[i], col);
        PrintedLineSatisfiesClause(origs[i], clauses[i], col, variables, reverseVariables);
      }
    }
    if LineSatisfies(origs, line) {
      forall i | 0 <= i < |clauses|
        ensures ClauseSat(clauses[i], col)
      {
        assert ClauseOnLine(origs[i], line);
        PrintedLineSatisfiesClause(origs[i], clauses[i], col, variables, reverseVariables);
      }
      assert Satisfies(clauses, col);
    }
  }

  /** End to end: after the files are read, a column satisfies the parsed
      clauses exactly when the line printed for it satisfies every clause of
      the input in its own variable numbering. */
  lemma SolutionSatisfiesInput(files: seq<seq<Line>>, col: seq<bool>)
    requires ParseFiles(Empty(), files).Ok?
    requires |col| == 1 + |ParseFiles(Empty(), files).state.variables|
    ensures var st := ParseFiles(Empty(), files).state;
      && Cnf.Valid(st)
      && (Satisfies(st.clauses, col) <==> LineSatisfies(InputClauses(Concat(files)), RenderLine(col, st.reverseVariables)))
  {
    var st := ParseFiles(Empty(), files).state;
    ParseFilesKeepsValid(Empty(), files);
    ParseFilesIsConcat(Empty(), files);
    ParseLinesRemaps(Empty(), Concat(files), []);
    var origs := InputClauses(Concat(files));
    assert [] + origs == origs;
    PrintedLineSatisfiesAll(origs, st.clauses, col, st.variables, st.reverseVariables);
  }

  /** The two-line DIMACS example: dense ids follow first appearance, the
      clauses keep their literals, and the first two literals pack to 2 and 5. */
  lemma SmallExample()
    ensures var lines := [Line("p cnf 3 2", []), Line("1 -2 0", [1, -2, 0]), Line("-1 2 3 0", [-1, 2, 3, 0])];
      && ParseLines(Empty(), lines).Ok?
      && ParseLines(Empty(), lines).state.clauses == [[1, -2], [-1, 2, 3]]
      && ParseLines(Empty(), lines).state.variables == map[1 := 1, 2 := 2, 3 := 3]
      && PackLiteral(1) == 2 && PackLiteral(-2) == 5
  {
    var lines := [Line("p cnf 3 2", []), Line("1 -2 0", [1, -2, 0]), Line("-1 2 3 0", [-1, 2, 3, 0])];
    var s2 := State(map[1 := 1, 2 := 2], map[1 := 1, 2 := 2], []);
    var s3 := State(map[1 := 1, 2 := 2, 3 := 3], map[1 := 1, 2 := 2, 3 := 3], [[1, -2]]);
    ExampleFirstLine();
    ExampleSecondLine();
    assert ParseLine(Empty(), lines[1]) == Ok(s2.(clauses := [[1, -2]]));
    assert ParseLine(s2.(clauses := [[1, -2]]), lines[2]) == Ok(s3.(clauses := [[1, -2], [-1, 2, 3]]));
    assert lines[1..][1..] == [lines[2]] && [lines[2]][1..] == [];
    assert ParseLines(Empty(), lines) == Ok(s3.(clauses := [[1, -2], [-1, 2, 3]]));
  }

  lemma ExampleFirstLine()
    ensures ParseClause(Empty(), [1, -2, 0], []) == (State(map[1 := 1, 2 := 2], map[1 := 1, 2 := 2], []), [1, -2])
  {
    var s1 := State(map[1 := 1], map[1 := 1], []);
    var s2 := State(map[1 := 1, 2 := 2], map[1 := 1, 2 := 2], []);
    assert Intern(Empty(), 1) == (s1, 1);
    assert Intern(s1, 2) == (s2, 2);
    assert [1, -2, 0][1..] == [-2, 0] && [-2, 0][1..] == [0];
    assert ParseClause(s2, [0], [1, -2]) == (s2, [1, -2]);
    assert Abs(-2) == 2 && [1] + [Signed(-2, 2)] == [1, -2];
    assert ParseClause(s1, [-2, 0], [1]) == ParseClause(s2, [0], [1, -2]);
    assert Abs(1) == 1 && [] + [Signed(1, 1)] == [1];
  }

  lemma ExampleSecondLine()
    ensures ParseClause(State(map[1 := 1, 2 := 2], map[1 := 1, 2 := 2], [[1, -2]]), [-1, 2, 3, 0], []) ==
      (State(map[1 := 1, 2 := 2, 3 := 3], map[1 := 1, 2 := 2, 3 := 3], [[1, -2]]), [-1, 2, 3])
  {
    var t2 := State(map[1 := 1, 2 := 2], map[1 := 1, 2 := 2], [[1, -2]]);
    var s3 := State(map[1 := 1, 2 := 2, 3 := 3], map[1 := 1, 2 := 2, 3 := 3], [[1, -2]]);
    assert Intern(t2, 1) == (t2, 1) && Intern(t2, 2) == (t2, 2);
    assert Intern(t2, 3) == (s3, 3);
    assert [-1, 2, 3, 0][1..] == [2, 3, 0] && [2, 3, 0][1..] == [3, 0] && [3, 0][1..] == [0];
    assert ParseClause(s3, [0], [-1, 2, 3]) == (s3, [-1, 2, 3]);
    assert [-1, 2] + [Signed(3, 3)] == [-1, 2, 3] && [-1] + [Signed(2, 2)] == [-1, 2];
    assert Abs(-1) == 1 && [] + [Signed(-1, 1)] == [-1];
    assert ParseClause(t2, [3, 0], [-1, 2]) == ParseClause(s3, [0], [-1, 2, 3]);
    assert ParseClause(t2, [2, 3, 0], [-1]) == ParseClause(t2, [3, 0], [-1, 2]);
  }

  /** A variable forced both ways is never accepted by the host re-check. */
  lemma ContradictionNeverVerified(col: seq<bool>)
    requires |col| >= 2
    ensures !Satisfies([[1], [-1]], col)
  {
    var cs := [[1], [-1]];
    assert cs[0] == [1] && cs[1] == [-1];
    if col[1] {
      assert !ClauseSat(cs[1], col);
    } else {
      assert !ClauseSat(cs[0], col);
    }
  }

  /** The search state kept by main across rounds. */
  class Searcher {
    /** The original clauses over dense ids, which the host re-checks. */
    const clauses: seq<seq<int>>
    const reverseVariables: map<nat, nat>
    /** `1 + variables.size()`: the rows of the assignment matrix. */
    const nrVariables: nat
    const nrThreads: nat
    /** The padded clause count. */
    const nrClauses: nat
    /** The window step. */
    const n: nat
    /** host_threads. */
    const threads: array<ThreadState>
    /** host_variables: one row per dense variable, one column per worker. */
    const values: array2<bool>
    /** The window offset. */
    var clauseI: nat

    ghost predicate Valid()
      reads this
    {
      && nrThreads > 0 && nrVariables >= 1 && nrClauses > 0
      && threads.Length == nrThreads
      && values.Length0 == nrVariables && values.Length1 == nrThreads
      && nrClauses % nrThreads == 0 && n % nrThreads == 0
      && clauseI < nrClauses && clauseI % nrThreads == 0
      && (forall i :: 0 <= i < |clauses| ==> InRange(clauses[i], nrVariables))
    }

    /** Worker states and assignment matrix as main sets them up before the
        first round; `coin` stands for the random bits. */
    constructor (st: State, coin: (nat, nat) -> bool)
      requires Cnf.Valid(st)
      ensures Valid() && fresh(threads) && fresh(values)
      ensures clauses == st.clauses && reverseVariables == st.reverseVariables
      ensures nrThreads == NrThreads && nrVariables == 1 + |st.variables|
      ensures nrClauses == PaddedCount(|st.clauses|, NrThreads) && n == Window.Step(NrThreads)
      ensures clauseI == 0
      ensures forall i :: 0 <= i < nrThreads ==> threads[i] == ThreadState(i, 0)
      ensures forall w :: 0 <= w < nrThreads ==> !values[0, w]
      ensures forall v, w :: 1 <= v < nrVariables && 0 <= w < nrThreads ==> values[v, w] == coin(v, w)
    {
      clauses := st.clauses;
      reverseVariables := st.reverseVariables;
      nrThreads := NrThreads;
      nrVariables := 1 + |st.variables|;
      var ts := InitThreads(NrThreads);
      var vs := InitValues(|st.variables|, NrThreads, coin);
      threads := ts;
      values := vs;
      nrClauses := PaddedCount(|st.clauses|, NrThreads);
      n := Window.Step(NrThreads);
      clauseI := 0;
      Window.StepAligned(NrThreads);
      Arithmetic.MultipleMod(NrThreads, 0);
      new;
      forall i, k | 0 <= i < |clauses| && 0 <= k < |clauses[i]| ensures Abs(clauses[i][k]) < nrVariables {
      }
    }

    /** The blocking read of the worker states after the kernel has run. */
    method Collect(deviceThreads: seq<ThreadState>)
      requires Valid() && |deviceThreads| == nrThreads
      modifies threads
      ensures threads[..] == deviceThreads
    {
      forall i | 0 <= i < threads.Length {
        threads[i] := deviceThreads[i];
      }
    }

    /** The blocking read of the whole assignment matrix. */
    method FetchValues(deviceValues: array2<bool>)
      requires Valid() && deviceValues != values
      requires deviceValues.Length0 == nrVariables && deviceValues.Length1 == nrThreads
      modifies values
      ensures forall v, w :: 0 <= v < nrVariables && 0 <= w < nrThreads ==> values[v, w] == deviceValues[v, w]
    {
      forall v, w | 0 <= v < nrVariables && 0 <= w < nrThreads {
        values[v, w] := deviceValues[v, w];
      }
    }

    /** The host-side double check: every original clause (never a filler) has
        a literal whose value differs from its sign bit. A `false` result is the
        program's assertion failing. */
    method VerifyWorker(w: nat) returns (ok: bool)
      requires Valid() && w < nrThreads
      ensures ok <==> Satisfies(clauses, Column(values, w))
    {
      ghost var col := Column(values, w);
      for j := 0 to |clauses|
        invariant forall j' :: 0 <= j' < j ==> ClauseSat(clauses[j'], col)
      {
        var c := clauses[j];
        var value := false;
        for k := 0 to |c|
          invariant value <==> exists k' :: 0 <= k' < k && LiteralTrue(c[k'], col)
        {
          var l := c[k];
          var v := Abs(l);
          var sign := l < 0;
          value := value || (values[v, w] != sign);
        }
        if !value {
          return false;
        }
      }
      return true;
    }

    /** The "v" line of worker `w`. */
    method Render(w: nat) returns (line: seq<int>)
      requires Valid() && w < nrThreads
      ensures line == RenderLine(Column(values, w), reverseVariables)
    {
      line := [];
      for j := 1 to nrVariables
        invariant line == RenderLine(Column(values, w), reverseVariables)[..j - 1]
      {
        var v := Original(reverseVariables, j);
        line := line + [if values[j, w] then v else -(v as int)];
      }
    }

    /** The solutions printed for candidates `cands`: each one re-checked
        against every original clause and rendered from its column. */
    ghost predicate Reported(sols: seq<Solution>, cands: seq<nat>)
      reads this, values
      requires Valid()
    {
      && |sols| == |cands|
      && forall k :: 0 <= k < |cands| ==>
        && cands[k] < nrThreads
        && Satisfies(clauses, Column(values, cands[k]))
        && sols[k] == Solution(cands[k], RenderLine(Column(values, cands[k]), reverseVariables))
    }

    /** A re-checked and rendered candidate extends the printed solutions. */
    lemma ReportedAppend(sols: seq<Solution>, cands: seq<nat>, w: nat, line: seq<int>)
      requires Valid() && Reported(sols, cands) && w < nrThreads
      requires Satisfies(clauses, Column(values, w))
      requires line == RenderLine(Column(values, w), reverseVariables)
      ensures Reported(sols + [Solution(w, line)], cands + [w])
    {
    }

    /** The decision part of one round, after the worker states were read back.
        `fetches` counts the reads of the assignment matrix. */
    method Decide(deviceValues: array2<bool>) returns (outcome: RoundOutcome, fetches: nat)
      requires Valid() && deviceValues != values
      requires deviceValues.Length0 == nrVariables && deviceValues.Length1 == nrThreads
      modifies this, values
      ensures Valid()
      ensures var cands := Candidates(threads[..], nrClauses);
        && fetches == (if cands == [] then 0 else 1)
        && (outcome.Unsolved? <==> cands == [])
        && (cands == [] ==>
          && outcome == Unsolved(MaxSat(threads[..]))
          && clauseI == Window.NextOffset(old(clauseI), n, nrClauses)
          && forall v, w :: 0 <= v < nrVariables && 0 <= w < nrThreads ==> values[v, w] == old(values[v, w]))
        && (cands != [] ==>
          && clauseI == old(clauseI)
          && forall v, w :: 0 <= v < nrVariables && 0 <= w < nrThreads ==> values[v, w] == deviceValues[v, w])
        && (outcome.Solved? ==> Reported(outcome.solutions, cands))
        && (outcome.Inconsistent? ==>
          && outcome.worker < nrThreads
          && !Satisfies(clauses, Column(values, outcome.worker))
          && exists p :: 0 <= p < |cands| && cands[p] == outcome.worker && Reported(outcome.printed, cands[..p]))
    {
      ghost var ts := threads[..];
      var found := false;
      var best := 0;
      fetches := 0;
      var sols: seq<Solution> := [];
      for i := 0 to nrThreads
        invariant Valid() && clauseI == old(clauseI) && threads[..] == ts
        invariant best == MaxSat(ts[..i])
        invariant found <==> Candidates(ts[..i], nrClauses) != []
        invariant fetches == (if found then 1 else 0)
        invariant !found ==> unchanged(values)
        invariant found ==> forall v, w :: 0 <= v < nrVariables && 0 <= w < nrThreads ==> values[v, w] == deviceValues[v, w]
        invariant Reported(sols, Candidates(ts[..i], nrClauses))
      {
        MaxSatSnoc(ts, i);
        CandidatesSnoc(ts, i, nrClauses);
        var count := threads[i].nrSatClauses;
        if count > best {
          best := count;
        }
        if count < nrClauses {
          continue;
        }
        if !found {
          FetchValues(deviceValues);
          fetches := fetches + 1;
        }
        found := true;
        var ok := VerifyWorker(i);
        if !ok {
          CandidateAt(ts, i, nrClauses);
          outcome := Inconsistent(i, sols);
          return;
        }
        var line := Render(i);
        ReportedAppend(sols, Candidates(ts[..i], nrClauses), i, line);
        sols := sols + [Solution(i, line)];
      }
      assert ts[..nrThreads] == ts;
      if found {
        outcome := Solved(sols);
        return;
      }
      Window.NextOffsetAligned(clauseI, n, nrClauses, nrThreads);
      clauseI := Window.NextOffset(clauseI, n, nrClauses);
      outcome := Unsolved(best);
    }

    /** One round as the host sees it: the worker states come back from the
        device, then the round is decided. */
    method Round(deviceThreads: seq<ThreadState>, deviceValues: array2<bool>) returns (outcome: RoundOutcome, fetches: nat)
      requires Valid() && |deviceThreads| == nrThreads && deviceValues != values
      requires deviceValues.Length0 == nrVariables && deviceValues.Length1 == nrThreads
      modifies this, threads, values
      ensures Valid() && threads[..] == deviceThreads
      ensures var cands := Candidates(deviceThreads, nrClauses);
        && fetches == (if cands == [] then 0 else 1)
        && (outcome.Unsolved? <==> cands == [])
        && (cands == [] ==>
          && outcome == Unsolved(MaxSat(deviceThreads))
          && clauseI == Window.NextOffset(old(clauseI), n, nrClauses)
          && forall v, w :: 0 <= v < nrVariables && 0 <= w < nrThreads ==> values[v, w] == old(values[v, w]))
        && (cands != [] ==>
          && clauseI == old(clauseI)
          && forall v, w :: 0 <= v < nrVariables && 0 <= w < nrThreads ==> values[v, w] == deviceValues[v, w])
        && (outcome.Solved? ==> Reported(outcome.solutions, cands))
        && (outcome.Inconsistent? ==>
          && outcome.worker < nrThreads
          && !Satisfies(clauses, Column(values, outcome.worker))
          && exists p :: 0 <= p < |cands| && cands[p] == outcome.worker && Reported(outcome.printed, cands[..p]))
    {
      Collect(deviceThreads);
      outcome, fetches := Decide(deviceValues);
    }
  }

  /** main up to the first round: the search state, then the packed clause
      buffer. `ok` is false when a clause trips the arity assertion. */
  method Start(st: State, coin: (nat, nat) -> bool) returns (searcher: Searcher, ok: bool, hostClauses: array2<Word16>)
    requires Cnf.Valid(st) && |st.variables| < VariableLimit
    ensures fresh(searcher) && fresh(searcher.threads) && fresh(searcher.values) && fresh(hostClauses)
    ensures searcher.Valid() && searcher.clauseI == 0
    ensures searcher.clauses == st.clauses && searcher.reverseVariables == st.reverseVariables
    ensures searcher.nrThreads == NrThreads && searcher.nrVariables == 1 + |st.variables|
    ensures searcher.nrClauses == PaddedCount(|st.clauses|, NrThreads) && searcher.n == Window.Step(NrThreads)
    ensures forall i :: 0 <= i < searcher.nrThreads ==> searcher.threads[i] == ThreadState(i, 0)
    ensures forall w :: 0 <= w < searcher.nrThreads ==> !searcher.values[0, w]
    ensures forall v, w :: 1 <= v < searcher.nrVariables && 0 <= w < searcher.nrThreads ==>
      searcher.values[v, w] == coin(v, w)
    ensures ok <==> forall i :: 0 <= i < |st.clauses| ==> 1 <= |st.clauses[i]| <= Arity
    ensures hostClauses.Length0 == searcher.nrClauses && hostClauses.Length1 == Arity
    ensures ok ==> forall i, j :: 0 <= i < searcher.nrClauses && 0 <= j < Arity ==>
      hostClauses[i, j] == PackedClause(st.clauses, i)[j]
  {
    searcher := new Searcher(st, coin);
    ok, hostClauses := PackClauses(st.clauses, NrThreads);
  }
}
