/** The clause packer of the driver (main.cc, the host_clauses buffer).

    Each clause of one to four literals becomes a gpu_clause of four 16-bit
    slots. A slot holds `(var << 1) | sign`; unused slots hold 0, the positive
    literal of the reserved variable 0, which is always false; filler clauses,
    appended until the clause count is a multiple of the worker count, hold 1,
    the negated literal of variable 0, which is always true. */
module Encoding {
  import opened Cnf
  import opened Arithmetic

  /** The number of literal slots of a packed clause. */
  const Arity: nat := 4

  /** The largest dense variable plus one that fits a slot beside its sign bit. */
  const VariableLimit: nat := 0x8000

  /** A `uint16_t`. */
  type Word16 = x: int | 0 <= x < 0x1_0000

  /** The padding literal: variable 0, positive. */
  const Padding: Word16 := 0

  /** The filler literal: variable 0, negated. */
  const FillerLiteral: Word16 := 1

  /** `lit >> 1`: the variable of a packed literal. */
  function LiteralVariable(p: Word16): nat
  {
    p / 2
  }

  /** `lit & 1`: the sign bit of a packed literal. */
  function LiteralNegated(p: Word16): bool
  {
    p % 2 == 1
  }

  /** `(var << 1) | sign` for a literal whose variable fits beside the sign bit. */
  function PackLiteral(l: int): (p: Word16)
    requires Abs(l) < VariableLimit
    ensures LiteralVariable(p) == Abs(l) && LiteralNegated(p) == (l < 0)
  {
    2 * Abs(l) + (if l < 0 then 1 else 0)
  }

  /** The shift-and-or of the source is the arithmetic of PackLiteral on 16 bits. */
  lemma ShiftOrIsArithmetic(v: bv16, negated: bool)
    requires v < 0x8000
    ensures (v << 1) | (if negated then 1 else 0) == v * 2 + (if negated then 1 else 0)
  {
  }

  /** Packing does not merge two literals. */
  lemma PackLiteralInjective(a: int, b: int)
    requires Abs(a) < VariableLimit && Abs(b) < VariableLimit
    ensures PackLiteral(a) == PackLiteral(b) <==> a == b
  {
    if PackLiteral(a) == PackLiteral(b) {
      assert Abs(a) == Abs(b) && (a < 0) == (b < 0);
    }
  }

  // ---------------------------------------------------------------------------
  // The packing as written: no width check before the store into 16 bits

  /** The store `host_clauses[i].literals[j] = (var << 1) | sign`, which keeps
      only the low 16 bits of the unsigned result. */
  function PackLiteralAsWritten(l: int): Word16
  {
    (2 * Abs(l) + (if l < 0 then 1 else 0)) % 0x1_0000
  }

  /** Below the limit the store loses nothing. */
  lemma AsWrittenAgreesBelowLimit(l: int)
    requires Abs(l) < VariableLimit
    ensures PackLiteralAsWritten(l) == PackLiteral(l)
  {
  }

  /** The store keeps the sign bit and the low 15 bits of the variable: every
      variable is read back modulo 32768. */
  lemma AsWrittenKeepsLowBits(l: int)
    ensures LiteralVariable(PackLiteralAsWritten(l)) == Abs(l) % VariableLimit
    ensures LiteralNegated(PackLiteralAsWritten(l)) == (l < 0)
  {
    var a, s := Abs(l), if l < 0 then 1 else 0;
    var q, r := a / VariableLimit, a % VariableLimit;
    assert a == VariableLimit * q + r;
    assert 2 * a + s == 0x1_0000 * q + (2 * r + s);
    ModPlusMultiple(0x1_0000, q, 2 * r + s);
    assert PackLiteralAsWritten(l) == 2 * r + s;
  }

  /** Dense variable 32768 is stored as the padding literal, so its positive
      literal reads back as variable 0 and is always false. */
  lemma AsWrittenTruncates()
    ensures PackLiteralAsWritten(0x8000) == Padding
    ensures LiteralVariable(PackLiteralAsWritten(0x8000)) != 0x8000
    ensures PackLiteralAsWritten(-0x8000) == FillerLiteral
  {
  }

  // ---------------------------------------------------------------------------
  // Padded clause count

  /** `clauses.size() + nr_threads - clauses.size() % nr_threads`. */
  function PaddedCount(size: nat, nrThreads: nat): (nrClauses: nat)
    requires nrThreads > 0
    ensures nrClauses % nrThreads == 0
    ensures size < nrClauses <= size + nrThreads
  {
    var q := size / nrThreads;
    assert size == nrThreads * q + size % nrThreads;
    MultipleMod(nrThreads, q + 1);
    size + nrThreads - size % nrThreads
  }

  /** The padded count is the least multiple of the worker count strictly
      greater than the clause count (so a full filler block is added when the
      count is already a multiple). */
  lemma PaddedCountIsLeast(size: nat, nrThreads: nat, m: nat)
    requires nrThreads > 0 && m % nrThreads == 0 && size < m
    ensures PaddedCount(size, nrThreads) <= m
  {
    var q, a := size / nrThreads, m / nrThreads;
    assert size == nrThreads * q + size % nrThreads;
    assert m == nrThreads * a + m % nrThreads;
    assert PaddedCount(size, nrThreads) == nrThreads * q + nrThreads;
    MulStrictCancel(nrThreads, q, a);
    assert nrThreads * a == nrThreads * q + nrThreads + nrThreads * (a - q - 1);
    MulNonneg(nrThreads, a - q - 1);
  }

  // ---------------------------------------------------------------------------
  // Packed clauses

  /** Every literal of every clause has a variable that fits a slot. */
  predicate Encodable(clauses: seq<seq<int>>)
  {
    forall i, k :: 0 <= i < |clauses| && 0 <= k < |clauses[i]| ==> Abs(clauses[i][k]) < VariableLimit
  }

  /** The four slots of one clause: its packed literals, then padding. */
  function ClauseSlots(c: seq<int>): (s: seq<Word16>)
    requires |c| <= Arity
    requires forall k :: 0 <= k < |c| ==> Abs(c[k]) < VariableLimit
    ensures |s| == Arity
    ensures forall j :: 0 <= j < |c| ==> LiteralVariable(s[j]) == Abs(c[j]) && LiteralNegated(s[j]) == (c[j] < 0)
    ensures forall j :: |c| <= j < Arity ==> s[j] == Padding
  {
    seq(Arity, j requires 0 <= j < Arity => if j < |c| then PackLiteral(c[j]) else Padding)
  }

  /** Clause `i` of the packed buffer: a real clause or a filler. */
  function PackedClause(clauses: seq<seq<int>>, i: nat): (s: seq<Word16>)
    requires Encodable(clauses)
    requires i < |clauses| ==> |clauses[i]| <= Arity
    ensures |s| == Arity
    ensures i >= |clauses| ==> forall j :: 0 <= j < Arity ==> s[j] == FillerLiteral
  {
    if i < |clauses| then ClauseSlots(clauses[i]) else [FillerLiteral, FillerLiteral, FillerLiteral, FillerLiteral]
  }

  // ---------------------------------------------------------------------------
  // Meaning of packed clauses under one worker's assignment

  /** A packed literal is true when its variable's value differs from its sign bit. */
  predicate PackedLiteralTrue(p: Word16, col: seq<bool>)
    requires LiteralVariable(p) < |col|
  {
    col[LiteralVariable(p)] != LiteralNegated(p)
  }

  predicate SlotsInRange(s: seq<Word16>, n: nat)
  {
    forall j :: 0 <= j < |s| ==> LiteralVariable(s[j]) < n
  }

  predicate PackedClauseSat(s: seq<Word16>, col: seq<bool>)
    requires SlotsInRange(s, |col|)
  {
    exists j :: 0 <= j < |s| && PackedLiteralTrue(s[j], col)
  }

  /** With variable 0 false, padding never holds and the filler always holds. */
  lemma SentinelLiterals(col: seq<bool>)
    requires |col| > 0 && !col[0]
    ensures !PackedLiteralTrue(Padding, col)
    ensures PackedLiteralTrue(FillerLiteral, col)
    ensures PackedClauseSat([FillerLiteral, FillerLiteral, FillerLiteral, FillerLiteral], col)
  {
    assert PackedLiteralTrue([FillerLiteral, FillerLiteral, FillerLiteral, FillerLiteral][0], col);
  }

  /** A packed clause is satisfied exactly when the clause it packs is. */
  lemma ClauseSlotsAgree(c: seq<int>, col: seq<bool>)
    requires |c| <= Arity && InRange(c, |col|) && |col| > 0 && !col[0]
    requires forall k :: 0 <= k < |c| ==> Abs(c[k]) < VariableLimit
    ensures SlotsInRange(ClauseSlots(c), |col|)
    ensures PackedClauseSat(ClauseSlots(c), col) <==> ClauseSat(c, col)
  {
    var s := ClauseSlots(c);
    if PackedClauseSat(s, col) {
      var j :| 0 <= j < |s| && PackedLiteralTrue(s[j], col);
      assert j < |c|;
      assert LiteralTrue(c[j], col);
    }
    if ClauseSat(c, col) {
      var k :| 0 <= k < |c| && LiteralTrue(c[k], col);
      assert PackedLiteralTrue(s[k], col);
    }
  }

  /** The padded buffer is satisfied by an assignment with variable 0 false
      exactly when every original clause is: fillers add no constraint. */
  lemma PackedProblemAgrees(clauses: seq<seq<int>>, nrClauses: nat, col: seq<bool>)
    requires Encodable(clauses) && |clauses| <= nrClauses && |col| > 0 && !col[0]
    requires forall i :: 0 <= i < |clauses| ==> |clauses[i]| <= Arity && InRange(clauses[i], |col|)
    ensures forall i :: 0 <= i < nrClauses ==> SlotsInRange(PackedClause(clauses, i), |col|)
    ensures (forall i :: 0 <= i < nrClauses ==> PackedClauseSat(PackedClause(clauses, i), col))
        <==> (forall i :: 0 <= i < |clauses| ==> ClauseSat(clauses[i], col))
  {
    forall i | 0 <= i < nrClauses
      ensures SlotsInRange(PackedClause(clauses, i), |col|)
      ensures PackedClauseSat(PackedClause(clauses, i), col) <==> (i < |clauses| ==> ClauseSat(clauses[i], col))
    {
      if i < |clauses| {
        ClauseSlotsAgree(clauses[i], col);
      } else {
        SentinelLiterals(col);
      }
    }
  }

  // ---------------------------------------------------------------------------
  // The packing loop of main

  /** Fills the padded clause buffer row by row. A clause outside 1..4 literals
      trips the program's assertion: the result is then `ok == false`. */
  method PackClauses(clauses: seq<seq<int>>, nrThreads: nat) returns (ok: bool, hostClauses: array2<Word16>)
    requires nrThreads > 0 && Encodable(clauses)
    ensures fresh(hostClauses)
    ensures hostClauses.Length0 == PaddedCount(|clauses|, nrThreads) && hostClauses.Length1 == Arity
    ensures ok <==> forall i :: 0 <= i < |clauses| ==> 1 <= |clauses[i]| <= Arity
    ensures ok ==> forall i, j :: 0 <= i < hostClauses.Length0 && 0 <= j < Arity ==>
      hostClauses[i, j] == PackedClause(clauses, i)[j]
  {
    var nrClauses := |clauses| + nrThreads - |clauses| % nrThreads;
    hostClauses := new Word16[nrClauses, Arity];
    var i := 0;
    while i < |clauses|
      invariant 0 <= i <= |clauses|
      invariant forall r :: 0 <= r < i ==> 1 <= |clauses[r]| <= Arity
      invariant forall r, j :: 0 <= r < i && 0 <= j < Arity ==> hostClauses[r, j] == PackedClause(clauses, r)[j]
    {
      var c := clauses[i];
      if !(1 <= |c| <= Arity) {
        return false, hostClauses;
      }
      var j := 0;
      while j < |c|
        invariant 0 <= j <= |c|
        invariant forall r, j' :: 0 <= r < i && 0 <= j' < Arity ==> hostClauses[r, j'] == PackedClause(clauses, r)[j']
        invariant forall j' :: 0 <= j' < j ==> hostClauses[i, j'] == PackedClause(clauses, i)[j']
      {
        hostClauses[i, j] := PackLiteral(c[j]);
        j := j + 1;
      }
      while j < Arity
        invariant |c| <= j <= Arity
        invariant forall r, j' :: 0 <= r < i && 0 <= j' < Arity ==> hostClauses[r, j'] == PackedClause(clauses, r)[j']
        invariant forall j' :: 0 <= j' < j ==> hostClauses[i, j'] == PackedClause(clauses, i)[j']
      {
        hostClauses[i, j] := Padding;
        j := j + 1;
      }
      i := i + 1;
    }
    while i < nrClauses
      invariant |clauses| <= i <= nrClauses
      invariant forall r, j :: 0 <= r < i && 0 <= j < Arity ==> hostClauses[r, j] == PackedClause(clauses, r)[j]
    {
      hostClauses[i, 0] := FillerLiteral;
      hostClauses[i, 1] := FillerLiteral;
      hostClauses[i, 2] := FillerLiteral;
      hostClauses[i, 3] := FillerLiteral;
      i := i + 1;
    }
    ok := true;
  }
}
