# clsat host driver in Dafny

This project models the host side of clsat, a local-search SAT solver whose
search runs as an OpenCL kernel on a GPU, and proves properties of that model.
The host program (`main.cc`) does five things, and each has a module here:

- **Cnf** (`cnf.dfy`): `read_cnf`, the DIMACS reader. It skips blank, `p` and
  `c` lines and rejects XOR (`x`) lines. It reads the integers of a clause line
  up to the first `0`. Each original variable is renamed to a dense id
  `1 + |variables|` in first-seen order, and a reverse map is kept. Several
  files accumulate into the same maps and clause list. The pure specification
  (`ParseClause`, `ParseLine`, `ParseLines`, `ParseFiles`) sits beside the
  class `CnfReader`, which updates its maps and list in place as the program
  does. Input is a sequence of lines already split into integer tokens.
- **Encoding** (`encoding.dfy`): the clause packer. Each clause of one to four
  literals becomes four 16-bit slots holding `(var << 1) | sign`. Unused slots
  hold 0, the positive literal of the reserved variable 0, which is always
  false. The clause count is padded to a multiple of the worker count with
  filler clauses made of literal 1, which is always true. The packed buffer is
  an `array2` filled by `PackClauses`.
- **Workers** (`workers.dfy`): the initial worker states (`rnd = i`, no
  satisfied clauses) and the assignment matrix. Row 0 of the matrix is false
  for every worker, and the other entries are random bits.
- **Window** (`window.dfy`): the rotating clause offset
  `clause_i = (clause_i + n) % nr_clauses` with `n = nr_threads * 256`.
- **Search** (`search.dfy`): one round of the main loop, after the kernel has
  run. It reads the worker states back and takes the round's maximum count. A
  worker whose count reaches the padded clause count is a candidate. On the
  first candidate the assignment matrix is fetched, once per round. Each
  candidate is re-checked against every original clause and printed as a `v`
  line in original variable numbering. Without a candidate the window moves
  on. The class `Searcher` holds the state kept across rounds.

The main results are these:

- The variable maps stay a bijection between the original ids and `1..n`.
- Every parsed clause is the remapped form of the input clause at the same
  position.
- A packed clause decodes back to the clause it packs.
- The padded buffer is satisfied exactly when the original clauses are.
- The window offset stays in range and aligned, and covers every clause.
- The host check accepts a worker exactly when its column satisfies every
  clause.
- The printed line of an accepted worker satisfies every input clause in its
  own numbering (`Search.SolutionSatisfiesInput`).

Several behaviours are parameters of the model. The random bits are a
function `coin`. A round's effect on the device is whatever worker states and
matrix it hands back (`deviceThreads`, `deviceValues`). A call that ends the
program (the XOR rejection, a failing `assert`) becomes a result value:
`XorClauses`, `ok == false`, `Inconsistent`.

## Model

| member | source | states |
|---|---|---|
| Cnf.Skipped | main.cc:56-65 | Specification predicate: a line is skipped when it is empty or starts with `p` or `c`. |
| Cnf.IsXor | main.cc:67-71 | Specification predicate: a line is the XOR error when it starts with `x`. |
| Cnf.Signed | main.cc:97 | Specification function: the stored literal is the dense id, negated exactly when the token is negative. |
| Cnf.SignedKeepsSign | main.cc:97 | The stored literal's magnitude is the dense id, and for a real variable (id above 0) it is negative exactly when the token is. |
| Cnf.ClauseLength | main.cc:76-82 | Reading stops at the first 0 or at the end of the line: every token before the returned length is nonzero, and the token at the length, if any, is 0. |
| Cnf.Intern | main.cc:83-95 | The variable is mapped to the returned dense id. A known variable leaves the state unchanged. A new one gets `1 + variables.size()`, is added to the forward keys, and the reverse map gains that id for it. Earlier mappings and the clause list are kept. |
| Cnf.AddKeepsBijective | main.cc:89-92 | Inserting a new nonzero variable with id `variables.size() + 1` into both maps keeps them mutual inverses with dense ids exactly `1..variables.size()`. |
| Cnf.InternKeepsBijective | main.cc:85-95 | Looking up or inserting a nonzero variable keeps the maps a bijection onto `1..n`, and the map never shrinks. |
| Cnf.ParseClause | main.cc:76-98 | Reading a line's tokens leaves the clause list alone and keeps every earlier mapping. It appends one literal per token before the first 0. Literal k has the token's sign and the dense id of the token's magnitude. |
| Cnf.ParseClauseKeys | main.cc:76-98 | After reading a line, the forward keys are the old keys plus exactly the variables the line mentions before its 0. |
| Cnf.ParseClauseKeepsBijective | main.cc:76-98 | Reading a line's literals keeps the maps a bijection onto `1..n`. |
| Cnf.ParseLine | main.cc:53-100 | Blank, `p` and `c` lines leave the state unchanged. An `x` line is the XOR error. Any other line appends exactly one clause, of the line's length up to its 0, keeps the earlier clauses and extends the maps. |
| Cnf.ParseLineKeepsValid | main.cc:73-100 | A line keeps the maps a bijection, and keeps every stored literal a nonzero signed dense id within `1..n`. |
| Cnf.ParseLines | main.cc:52-101 | A file fails exactly when it has an XOR line. Otherwise it appends one clause per clause line, in order, after the clauses already there, and extends the maps. |
| Cnf.ParseLinesKeepsValid | main.cc:52-101 | A whole file keeps the bijection and the literal-range invariant. |
| Cnf.ParseLinesAppend | main.cc:52-101 | Reading two batches of lines in turn is reading their concatenation. |
| Cnf.ParseFiles | main.cc:115-116 | Files accumulate into the same state: earlier clauses are kept as a prefix and earlier mappings are kept. |
| Cnf.ParseFilesIsConcat | main.cc:115-116 | Reading several files in turn gives what reading their lines concatenated gives. |
| Cnf.ParseFilesKeepsValid | main.cc:115-116 | Reading any files from a valid state keeps the bijection and the literal-range invariant. |
| Cnf.ParseLineRemaps | main.cc:97-100 | The clause a line appends is the line's own literals up to its 0, each renamed to its dense id with its sign kept. Earlier clauses stay remapped under the extended map. |
| Cnf.ParseLinesRemaps | main.cc:42-104 | After a file, every stored clause is the renamed form of the input clause at the same position, under the final forward map. |
| Cnf.CnfReader.constructor | main.cc:111-113 | The reader starts with empty maps and no clauses. |
| Cnf.CnfReader.Lookup | main.cc:87-95 | The in-place find-or-insert leaves the reader in the state, and returns the id, that `Intern` specifies. |
| Cnf.CnfReader.ReadClause | main.cc:75-98 | The token loop, interning each variable in place, reaches exactly the state and the clause that `ParseClause` gives from an empty clause. |
| Cnf.CnfReader.ReadLine | main.cc:53-100 | One iteration of the line loop, updating the maps and clause list in place. It succeeds exactly when `ParseLine` does, and then reaches its state. On an XOR line nothing changes. |
| Cnf.CnfReader.ReadCnf | main.cc:42-104 | `read_cnf` over one file succeeds exactly when `ParseLines` does, and then reaches its state. |
| Cnf.CnfReader.ReadFiles | main.cc:115-116 | The loop over the file arguments succeeds exactly when `ParseFiles` does, and then reaches its state. |
| Encoding.PackLiteral | main.cc:310-314 | For a variable below 32768, the packed slot decodes (`>> 1`, `& 1`) back to the literal's variable and sign. |
| Encoding.ShiftOrIsArithmetic | main.cc:314 | On 16-bit words, `(var << 1) \| sign` equals `2 * var + sign` for `var < 32768`. |
| Encoding.PackLiteralInjective | main.cc:314 | Two literals pack to the same slot exactly when they are equal. |
| Encoding.PackLiteralAsWritten | main.cc:310-314 | Specification function: `2 * abs(l) + sign` reduced modulo 2^16, the value a `uint16_t` keeps of the unsigned result. |
| Encoding.AsWrittenKeepsLowBits | main.cc:310-314 | The stored slot always keeps the sign bit, and decodes to the variable modulo 32768: the store drops every bit of the variable from the sixteenth up. |
| Encoding.AsWrittenAgreesBelowLimit | main.cc:314 | Below the width limit, the store as written into a 16-bit slot equals `PackLiteral`. |
| Encoding.AsWrittenTruncates | main.cc:314 | Dense variable 32768 packs to 0, the always-false padding literal, and its negation packs to 1, the always-true filler literal. |
| Encoding.PaddedCount | main.cc:302 | The padded count is a multiple of the worker count and exceeds the clause count by 1 to `nr_threads`. |
| Encoding.PaddedCountIsLeast | main.cc:302 | The padded count is the least multiple of the worker count strictly above the clause count, so a full filler block is added when the count is already a multiple. |
| Encoding.ClauseSlots | main.cc:309-319 | Four slots: slot `j < c.size()` decodes to `abs(c[j])` and `c[j] < 0`, and every later slot is 0. |
| Encoding.PackedClause | main.cc:322-328 | Every clause index at or beyond the real count holds literal 1 in all four slots. |
| Encoding.SentinelLiterals | main.cc:317-328 | With variable 0 false, padding literal 0 never holds, literal 1 always holds, and a filler clause is satisfied. |
| Encoding.ClauseSlotsAgree | main.cc:305-320 | With variable 0 false, the packed form of a clause is satisfied exactly when the clause is. |
| Encoding.PackedProblemAgrees | main.cc:302-328 | With variable 0 false, all padded clauses are satisfied exactly when all original clauses are: fillers add no constraint. |
| Encoding.PackClauses | main.cc:302-328 | Allocates a padded-count × 4 buffer. It succeeds exactly when every clause has 1 to 4 literals, and then row i is the packed clause i, or a filler row beyond the real clauses. |
| Workers.InitThreads | main.cc:266-273 | Worker i starts with `rnd = i` and zero satisfied clauses. |
| Workers.InitValues | main.cc:282-293 | The matrix has `1 + variables.size()` rows and one column per worker. Row 0 is false for every worker, and every other entry is the given random bit. |
| Window.Step | main.cc:338 | Specification function: the step `n` is `nr_threads * 256`. |
| Window.NextOffset | main.cc:474 | The next offset is below the padded count. |
| Window.StepAligned | main.cc:363-365 | The step `nr_threads * 256` is a multiple of the worker count. |
| Window.NextOffsetAligned | main.cc:474 | When the offset, the step and the padded count are multiples of the worker count, so is the next offset. |
| Window.OffsetAfter | main.cc:337-474 | The offset after k rounds without a solution, `clause_i` updated k times from 0, is below the padded count. |
| Window.OffsetAfterInvariant | main.cc:474 | From `clause_i = 0`, every offset the schedule reaches is below the padded count and a multiple of the worker count. |
| Window.OffsetBeforeWrap | main.cc:474 | Until the first wrap, the offset after k rounds is `k * n`. |
| Window.WindowCovers | main.cc:474 | Every clause index lies in the window `[offset, offset + n)` of some round among the first `ceil(nr_clauses / n)`. |
| Window.NoReturnAfterCoverage | main.cc:474 | The offset need not return to 0 after those rounds: with 256 workers and 768 padded clauses, one round covers all clauses and the next offset is 256. |
| Search.MaxSat | main.cc:414-420 | The round maximum bounds every worker's count and is 0 or some worker's count. |
| Search.Candidates | main.cc:416-423 | Specification function: the workers, in ascending index order, whose count is at least the padded clause count. Characterised by `CandidatesExact`. |
| Search.CandidatesExact | main.cc:416-423 | The candidates are exactly the workers whose count reaches the padded count, each once, in ascending order. |
| Search.CandidatesPrefix | main.cc:416-467 | The candidates among the first j workers are a prefix of all the candidates. |
| Search.Original | main.cc:462 | Specification function: `reverse_variables[j]`, reading 0 for a missing key as `std::map::operator[]` does. |
| Search.RenderLine | main.cc:460-466 | Specification function: for dense ids `1..n` in order, the original id when the worker's value is true and its negation otherwise. Characterised by `RenderRoundTrip`. |
| Search.RenderRoundTrip | main.cc:460-466 | Under the bijection the `v` line lists every dense id in ascending order as its original id. The literal is negated exactly when the worker's value is false. Reading it back through the forward map gives the position, and no original id is printed twice. |
| Search.PrintedLineSatisfiesClause | main.cc:444-466 | A renamed clause holds under a worker's column exactly when one of the clause's literals as written appears on the printed line. |
| Search.PrintedLineSatisfiesAll | main.cc:444-466 | A column satisfies all renamed clauses exactly when its printed line satisfies every clause as written. |
| Search.SolutionSatisfiesInput | main.cc:444-466 | After reading any files, the parsed state is valid. A column passes the host check exactly when the line printed for it satisfies every input clause in the input's own numbering. |
| Search.SmallExample | main.cc:73-100 | The two-clause example `1 -2 0` / `-1 2 3 0` after a `p` line yields ids 1, 2, 3 in first-seen order and clauses `[[1,-2],[-1,2,3]]`. Literals 1 and -2 pack to 2 and 5. |
| Search.ContradictionNeverVerified | main.cc:444-458 | The clauses `1 0` and `-1 0` are never satisfied by any column, so the host check never accepts them. |
| Search.Searcher.constructor | main.cc:266-338 | Sets up the state before the first round: worker states, the matrix with row 0 false and random bits elsewhere, the padded count, the step `n`, and offset 0. |
| Search.Searcher.Collect | main.cc:401-406 | The worker states become the ones the device returned. |
| Search.Searcher.FetchValues | main.cc:425-439 | The assignment matrix becomes the device's. |
| Search.Searcher.VerifyWorker | main.cc:444-458 | The `value \|= values[var][i] ^ sign` folds accept worker i exactly when its column satisfies every original clause; fillers are never checked. |
| Search.Searcher.Render | main.cc:460-466 | The printed literals are, for dense ids `1..n` in order, `reverse_variables[j]` when the worker's value is true and its negation otherwise. |
| Search.Searcher.Decide | main.cc:413-474 | Without candidates: outcome `Unsolved` with the round maximum, the matrix untouched, no fetch, and the offset moved to `NextOffset`. With candidates: exactly one fetch, the offset kept, and the matrix equal to the device's. `Solved` means every candidate, in order, was re-checked and printed. `Inconsistent(w)` means candidate w failed the re-check after all earlier candidates passed and were printed. |
| Search.Searcher.Round | main.cc:401-474 | The worker states become the device's, and the round is then decided as `Decide` states, over the candidates of those states. Without candidates: `Unsolved` with the round maximum, no fetch, the matrix unchanged, and the offset moved. With candidates: exactly one fetch, the offset kept, and the matrix equal to the device's. `Solved` reports every candidate re-checked and printed; `Inconsistent(w)` names a candidate in range that fails the re-check after all earlier candidates were printed. |
| Search.Start | main.cc:266-338 | Sets up the search state: 256 workers with `rnd = i` and no satisfied clauses, a matrix with row 0 false and the given random bits elsewhere, the padded count `PaddedCount(clauses.size(), 256)`, the step `n` and offset 0. It packs a fresh buffer with that many rows. The packing succeeds exactly when every clause has 1 to 4 literals, and then row i is the packed clause i, or a filler row beyond the real clauses. Requires fewer than 32768 variables. |

## Behaviour of the code worth noting

The model follows the code throughout, including these behaviours.

- The candidate test and the window modulus use the padded clause count,
  not the number of real clauses (`Searcher.Decide`, `Window.NextOffset`).
- Every candidate of a round is re-checked and printed, not only the first.
- The reported "best" is the maximum of the current round only: it is reset
  every round, so it can go down from one round to the next (`Search.MaxSat`).
- Padding adds a full block of fillers when the clause count is already a
  multiple of the worker count, so the padded count is the least multiple
  strictly above the count (`Encoding.PaddedCountIsLeast`).
- The window covers every clause within `ceil(nr_clauses / n)` rounds
  (`Window.WindowCovers`). It does not in general return to offset 0 at that
  point (`Window.NoReturnAfterCoverage`).

## Left out

- OpenCL platform, device, context, queue, program and kernel setup (main.cc:118-264): foreign library calls.
- The search kernel and the mmap of its source: the kernel is external. A round's effect is given as arbitrary worker states and an arbitrary matrix.
- Buffer creation, kernel arguments, enqueueing and `clFinish` (main.cc:275-300, 330-411): device I/O. Only the reads back into host memory are kept, as `Collect` and `FetchValues`, with the number of matrix fetches per round.
- `srand(time(NULL))` and `rand() % 2`: randomness, given as the `coin` parameter.
- `gettimeofday` and the wall-time print: timing.
- The `c clause index` and `c best` progress lines: output. The best value is carried in the `Unsolved` outcome.
- `ifstream`/`stringstream` mechanics: I/O. A line is given as its text, for the first-character tests, and the integers the stream extracts. A clause line without a trailing 0 is read to its end, as the stream's `eof` test does. One `eof` quirk is not modelled: on a line ending in whitespace without a 0, the last extraction fails and the program uses a `literal` it never set.
- Stack exhaustion: `host_threads` (main.cc:268), `host_variables` (main.cc:284) and `host_clauses` (main.cc:304) are stack variable-length arrays; the model allocates them as heap arrays (`Workers.InitThreads`, `Workers.InitValues`, `Encoding.PackClauses`). Running out of stack is not modelled. With a default 8 MiB stack it happens at around 32K variables (the matrix takes `(1 + variables) * 256` bytes) or around 1M clauses (8 bytes per packed clause).
- `NDEBUG`: the model assumes `assert` is compiled in. Without it the arity check (main.cc:308) and the host re-check (main.cc:457) vanish. An empty clause would then be packed as four padding slots, which never hold. A clause of five or more literals would write `literals[j]` for `j >= 4` past its own `gpu_clause`. Later rows and the filler rows overwrite those writes, so in effect the clause is cut to its first four literals. Near the end of the buffer the writes would go past the buffer itself. Every candidate would also be printed unchecked.
- The unbounded `while (1)` loop: non-termination. The model gives one round (`Searcher.Round`) and proves invariants across rounds (`Searcher.Valid`, `Window.OffsetAfterInvariant`).
- Encoding.PackLiteral: requires the dense variable to be below 32768 instead of modelling the silent 16-bit truncation. The truncation itself is modelled separately, see Findings.
- Search.Start: requires fewer than 32768 variables, for the same reason.
- Window.NextOffset: `clause_i + n` is computed on unbounded integers. The 32-bit wrap-around of `unsigned int` is not modelled; it needs more than four billion padded clauses.
- Workers.InitValues: the matrix holds `bool`. The `uint8_t` cells of the program only ever hold 0 or 1 on the host side. Other byte values the kernel might write back are not modelled.
- Search.Searcher.VerifyWorker: reads each cell as a `bool`, so `value ^ sign` is a boolean inequality. A kernel writing bytes other than 0 or 1 is not modelled.
- Search.Searcher.Render: prints `-v` as a negative integer. The program negates an `unsigned int` and prints it with `%d`; the two agree for original ids below 2^31, and larger ids are not modelled.
- Search.Original: a missing reverse-map key reads as 0, as `std::map::operator[]` does. The key that operator inserts as a side effect is not modelled; under the bijection no key is ever missing.
- Cnf.Abs: takes the magnitude on unbounded integers. `abs(INT_MIN)` and the conversion of a negative `int` to `unsigned int` are not modelled.
- The worker fields `rnd` and `nr_sat_clauses` are unbounded naturals rather than `uint32_t`; the kernel's use of `rnd` is outside the model.

## Findings

| source | as written | input that shows it | evidently intended | confidence | as-written member | corrected member |
|---|---|---|---|---|---|---|
| main.cc:314 | `(var << 1) \| sign` is stored into a 16-bit slot with no check that `var` fits in 15 bits | a CNF with 32768 distinct variables, run with a stack limit above 8 MiB (e.g. `ulimit -s unlimited`): dense id 32768 packs to 0, the always-false padding literal, and its negation packs to 1, the always-true filler literal | reject inputs with 32768 or more variables (or widen the slot), so that every slot decodes back to its literal | not executed | Encoding.AsWrittenTruncates | Encoding.PackLiteral |
