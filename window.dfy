/** The rotating clause window of the search loop (clause_i and n in main.cc).

    Each round the kernel works on the clauses from offset `clause_i`; after a
    round without a solution the offset moves on by `n = nr_threads * 256`,
    modulo the padded clause count. */
module Window {
  import opened Arithmetic

  /** `n`: how far the window moves per round, for a given worker count. */
  function Step(nrThreads: nat): nat
  {
    nrThreads * 256
  }

  /** `clause_i = (clause_i + n) % nr_clauses`. */
  function NextOffset(clauseI: nat, n: nat, nrClauses: nat): (next: nat)
    requires nrClauses > 0
    ensures next < nrClauses
  {
    (clauseI + n) % nrClauses
  }

  /** The window step is a multiple of the worker count. */
  lemma StepAligned(nrThreads: nat)
    requires nrThreads > 0
    ensures Step(nrThreads) % nrThreads == 0
  {
    MultipleMod(nrThreads, 256);
  }

  /** With the step and the padded count both multiples of the worker count, an
      aligned offset stays aligned. */
  lemma NextOffsetAligned(clauseI: nat, n: nat, nrClauses: nat, nrThreads: nat)
    requires nrThreads > 0 && nrClauses > 0
    requires clauseI % nrThreads == 0 && n % nrThreads == 0 && nrClauses % nrThreads == 0
    ensures NextOffset(clauseI, n, nrClauses) % nrThreads == 0
  {
    ModOfMultiples(nrThreads, clauseI, n, nrClauses);
  }

  /** The offset after `k` rounds without a solution, starting from 0. */
  function OffsetAfter(k: nat, n: nat, nrClauses: nat): (offset: nat)
    requires nrClauses > 0
    ensures offset < nrClauses
  {
    if k == 0 then 0 else NextOffset(OffsetAfter(k - 1, n, nrClauses), n, nrClauses)
  }

  /** Every offset the schedule reaches is in range and aligned. */
  lemma {:induction false} OffsetAfterInvariant(k: nat, n: nat, nrClauses: nat, nrThreads: nat)
    requires nrThreads > 0 && nrClauses > 0 && n % nrThreads == 0 && nrClauses % nrThreads == 0
    ensures OffsetAfter(k, n, nrClauses) < nrClauses
    ensures OffsetAfter(k, n, nrClauses) % nrThreads == 0
  {
    if k > 0 {
      OffsetAfterInvariant(k - 1, n, nrClauses, nrThreads);
      NextOffsetAligned(OffsetAfter(k - 1, n, nrClauses), n, nrClauses, nrThreads);
    } else {
      MultipleMod(nrThreads, 0);
    }
  }

  /** Until the window first wraps, the offset after `k` rounds is `k * n`. */
  lemma {:induction false} OffsetBeforeWrap(k: nat, n: nat, nrClauses: nat)
    requires nrClauses > 0 && k * n < nrClauses
    ensures OffsetAfter(k, n, nrClauses) == k * n
  {
    if k > 0 {
      MulPred(k, n);
      OffsetBeforeWrap(k - 1, n, nrClauses);
      ModBelow(k * n, nrClauses);
    }
  }

  /** Coverage: every clause index lies in the window [offset, offset + n) of
      some round among the first ceil(nrClauses / n). */
  lemma WindowCovers(n: nat, nrClauses: nat, c: nat)
    requires n > 0 && c < nrClauses
    ensures exists k :: 0 <= k <= (nrClauses - 1) / n && OffsetAfter(k, n, nrClauses) <= c < OffsetAfter(k, n, nrClauses) + n
  {
    var k, b := c / n, (nrClauses - 1) / n;
    DivMod(c, n);
    DivMod(nrClauses - 1, n);
    OffsetBeforeWrap(k, n, nrClauses);
    MulStrictCancel(n, k, b + 1);
  }

  /** The offset does not in general come back to 0 once every clause was
      covered: with 256 workers and 768 padded clauses one round covers all
      of them, yet the next offset is 256. */
  lemma NoReturnAfterCoverage()
    ensures (768 - 1) / Step(256) + 1 == 1
    ensures OffsetAfter(1, Step(256), 768) == 256
  {
    assert Step(256) == 65536 == 85 * 768 + 256;
  }
}
