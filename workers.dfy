/** Per-worker search state and the assignment matrix (host_threads and
    host_variables in main.cc). */
module Workers {

  /** The worker count of the program. */
  const NrThreads: nat := 256

  /** A host_threads entry: the worker's random state and the number of
      clauses it reported satisfied after the last round. */
  datatype ThreadState = ThreadState(rnd: nat, nrSatClauses: nat)

  /** Worker `i` starts with `rnd = i` and no satisfied clauses. */
  method InitThreads(nrThreads: nat) returns (threads: array<ThreadState>)
    ensures fresh(threads) && threads.Length == nrThreads
    ensures forall i :: 0 <= i < nrThreads ==> threads[i] == ThreadState(i, 0)
  {
    threads := new ThreadState[nrThreads];
    for i := 0 to nrThreads
      invariant forall i' :: 0 <= i' < i ==> threads[i'] == ThreadState(i', 0)
    {
      threads[i] := ThreadState(i, 0);
    }
  }

  /** The assignment matrix, one row per dense variable 0..variableCount and
      one column per worker. Row 0 is false for every worker; every other entry
      is a random bit, given here by `coin`. */
  method InitValues(variableCount: nat, nrThreads: nat, coin: (nat, nat) -> bool) returns (values: array2<bool>)
    ensures fresh(values) && values.Length0 == 1 + variableCount && values.Length1 == nrThreads
    ensures forall j :: 0 <= j < nrThreads ==> !values[0, j]
    ensures forall i, j :: 1 <= i <= variableCount && 0 <= j < nrThreads ==> values[i, j] == coin(i, j)
  {
    var nrVariables := 1 + variableCount;
    values := new bool[nrVariables, nrThreads];
    for j := 0 to nrThreads
      invariant forall j' :: 0 <= j' < j ==> !values[0, j']
    {
      values[0, j] := false;
    }
    for i := 1 to nrVariables
      invariant forall j :: 0 <= j < nrThreads ==> !values[0, j]
      invariant forall i', j :: 1 <= i' < i && 0 <= j < nrThreads ==> values[i', j] == coin(i', j)
    {
      for j := 0 to nrThreads
        invariant forall j' :: 0 <= j' < nrThreads ==> !values[0, j']
        invariant forall i', j' :: 1 <= i' < i && 0 <= j' < nrThreads ==> values[i', j'] == coin(i', j')
        invariant forall j' :: 0 <= j' < j ==> values[i, j'] == coin(i, j')
      {
        values[i, j] := coin(i, j);
      }
    }
  }

  /** One worker's column of the matrix, indexed by dense variable. */
  function Column(values: array2<bool>, w: nat): (col: seq<bool>)
    reads values
    requires w < values.Length1
  {
    seq(values.Length0, v requires 0 <= v < values.Length0 reads values => values[v, w])
  }
}
