/** The two static tables of the binding: host ordinal -> NLopt algorithm, and
    NLopt status -> host ordinal (the position of the status in the result
    table, which is the constructor index of the OCaml result variant). */
module Enums {

  /** The `nlopt_algorithm` values the binding exposes, one constructor per
      table entry, in table order. */
  datatype Algorithm =
    | GnDirect | GnDirectL | GnDirectLRand | GnDirectNoscal | GnDirectLNoscal | GnDirectLRandNoscal
    | GnOrigDirect | GnOrigDirectL
    | GdStogo | GdStogoRand
    | LdLbfgsNocedal
    | LdLbfgs
    | LnPraxis
    | LdVar1 | LdVar2
    | LdTnewton | LdTnewtonRestart | LdTnewtonPrecond | LdTnewtonPrecondRestart
    | GnCrs2Lm
    | GnMlsl | GdMlsl | GnMlslLds | GdMlslLds
    | LdMma
    | LnCobyla
    | LnNewuoa | LnNewuoaBound
    | LnNeldermead | LnSbplx
    | LnAuglag | LdAuglag | LnAuglagEq | LdAuglagEq
    | LnBobyqa
    | GnIsres
    | Auglag | AuglagEq | GMlsl | GMlslLds
    | LdSlsqp

  /** `map_algorithms`: the host passes an index into this sequence. */
  const AlgorithmTable: seq<Algorithm> := [
    GnDirect, GnDirectL, GnDirectLRand, GnDirectNoscal, GnDirectLNoscal, GnDirectLRandNoscal,
    GnOrigDirect, GnOrigDirectL,
    GdStogo, GdStogoRand,
    LdLbfgsNocedal,
    LdLbfgs,
    LnPraxis,
    LdVar1, LdVar2,
    LdTnewton, LdTnewtonRestart, LdTnewtonPrecond, LdTnewtonPrecondRestart,
    GnCrs2Lm,
    GnMlsl, GdMlsl, GnMlslLds, GdMlslLds,
    LdMma,
    LnCobyla,
    LnNewuoa, LnNewuoaBound,
    LnNeldermead, LnSbplx,
    LnAuglag, LdAuglag, LnAuglagEq, LdAuglagEq,
    LnBobyqa,
    GnIsres,
    Auglag, AuglagEq, GMlsl, GMlslLds,
    LdSlsqp
  ]

  /** The host ordinal of an algorithm: an independent definition by cases,
      used as the inverse of the table. */
  function AlgorithmOrdinal(a: Algorithm): nat {
    match a
    case GnDirect => 0
    case GnDirectL => 1
    case GnDirectLRand => 2
    case GnDirectNoscal => 3
    case GnDirectLNoscal => 4
    case GnDirectLRandNoscal => 5
    case GnOrigDirect => 6
    case GnOrigDirectL => 7
    case GdStogo => 8
    case GdStogoRand => 9
    case LdLbfgsNocedal => 10
    case LdLbfgs => 11
    case LnPraxis => 12
    case LdVar1 => 13
    case LdVar2 => 14
    case LdTnewton => 15
    case LdTnewtonRestart => 16
    case LdTnewtonPrecond => 17
    case LdTnewtonPrecondRestart => 18
    case GnCrs2Lm => 19
    case GnMlsl => 20
    case GdMlsl => 21
    case GnMlslLds => 22
    case GdMlslLds => 23
    case LdMma => 24
    case LnCobyla => 25
    case LnNewuoa => 26
    case LnNewuoaBound => 27
    case LnNeldermead => 28
    case LnSbplx => 29
    case LnAuglag => 30
    case LdAuglag => 31
    case LnAuglagEq => 32
    case LdAuglagEq => 33
    case LnBobyqa => 34
    case GnIsres => 35
    case Auglag => 36
    case AuglagEq => 37
    case GMlsl => 38
    case GMlslLds => 39
    case LdSlsqp => 40
  }

  /** Positions 0 to 9 of the algorithm table. */
  lemma AlgorithmTableInverse0()
    ensures forall i :: 0 <= i < 10 ==> AlgorithmOrdinal(AlgorithmTable[i]) == i
  {
  }

  /** Positions 10 to 19 of the algorithm table. */
  lemma AlgorithmTableInverse10()
    ensures forall i :: 10 <= i < 20 ==> AlgorithmOrdinal(AlgorithmTable[i]) == i
  {
  }

  /** Positions 20 to 29 of the algorithm table. */
  lemma AlgorithmTableInverse20()
    ensures forall i :: 20 <= i < 30 ==> AlgorithmOrdinal(AlgorithmTable[i]) == i
  {
  }

  /** Positions 30 to 40 of the algorithm table. */
  lemma AlgorithmTableInverse30()
    ensures forall i :: 30 <= i < 41 ==> AlgorithmOrdinal(AlgorithmTable[i]) == i
  {
  }

  /** The table has 41 entries and position i holds the algorithm whose
      ordinal is i. */
  lemma AlgorithmTableInverse()
    ensures |AlgorithmTable| == 41
    ensures forall i :: 0 <= i < |AlgorithmTable| ==> AlgorithmOrdinal(AlgorithmTable[i]) == i
  {
    AlgorithmTableInverse0();
    AlgorithmTableInverse10();
    AlgorithmTableInverse20();
    AlgorithmTableInverse30();
  }

  /** Every algorithm appears in the table, at its own ordinal. */
  lemma AlgorithmTableComplete(a: Algorithm)
    ensures AlgorithmOrdinal(a) < |AlgorithmTable|
    ensures AlgorithmTable[AlgorithmOrdinal(a)] == a
  {
    AlgorithmTableInverse();
  }

  /** The entries of the algorithm table are pairwise distinct. */
  lemma AlgorithmTableInjective()
    ensures forall i, j :: 0 <= i < j < |AlgorithmTable| ==> AlgorithmTable[i] != AlgorithmTable[j]
  {
    AlgorithmTableInverse();
    forall i, j | 0 <= i < j < |AlgorithmTable|
      ensures AlgorithmTable[i] != AlgorithmTable[j]
    {
      assert AlgorithmOrdinal(AlgorithmTable[i]) == i;
      assert AlgorithmOrdinal(AlgorithmTable[j]) == j;
    }
  }

  /** The lookup `map_algorithms[Int_val(algorithm)]` done by create. The C
      code does no bounds check, so the ordinal must be in range. */
  function AlgorithmOf(ordinal: int): (a: Algorithm)
    requires 0 <= ordinal < |AlgorithmTable|
    ensures AlgorithmOrdinal(a) == ordinal
  {
    AlgorithmTableInverse();
    AlgorithmTable[ordinal]
  }

  /** An `nlopt_result` as returned by the native library. `Unlisted` stands
      for a status value the binding's table does not list (for instance one
      introduced by a later NLopt release). */
  datatype NativeResult =
    | Failure | InvalidArgs | OutOfMemory | RoundoffLimited | ForcedStop
    | Success | StopvalReached | FtolReached | XtolReached | MaxevalReached | MaxtimeReached
    | Unlisted(code: int)

  /** `map_results`: position i is the status the host ordinal i stands for. */
  const ResultTable: seq<NativeResult> := [
    Failure, InvalidArgs, OutOfMemory, RoundoffLimited, ForcedStop,
    Success, StopvalReached, FtolReached, XtolReached, MaxevalReached, MaxtimeReached
  ]

  /** The ordinal of FAILURE, returned for a status missing from the table. */
  const FailureOrdinal: nat := 0

  /** The ordinal of SUCCESS. */
  const SuccessOrdinal: nat := 5

  /** The entries of the result table are pairwise distinct. */
  lemma ResultTableDistinct()
    ensures |ResultTable| == 11
    ensures forall i, j :: 0 <= i < j < |ResultTable| ==> ResultTable[i] != ResultTable[j]
  {
  }

  /** The linear search of `map_nlopt_result` over `table` from position
      `from`: the first index at or after `from` holding `r`, or
      FailureOrdinal when there is none. */
  function Find(table: seq<NativeResult>, r: NativeResult, from: nat): (ordinal: nat)
    requires 0 < |table| && from <= |table|
    ensures ordinal < |table|
    ensures (from <= ordinal && table[ordinal] == r
             && forall j :: from <= j < ordinal ==> table[j] != r)
         || (ordinal == FailureOrdinal
             && forall j :: from <= j < |table| ==> table[j] != r)
    decreases |table| - from
  {
    if from == |table| then FailureOrdinal
    else if table[from] == r then from
    else Find(table, r, from + 1)
  }

  /** `map_nlopt_result`, searching exactly the 11 table entries: a listed
      status maps to its position, an unlisted one to FAILURE; it never fails. */
  function MapResult(r: NativeResult): (ordinal: nat)
    ensures ordinal < |ResultTable|
    ensures ResultTable[ordinal] == r <==> r in ResultTable
    ensures r !in ResultTable ==> ordinal == FailureOrdinal
  {
    Find(ResultTable, r, 0)
  }

  /** Ordinal -> status -> ordinal is the identity on every table position. */
  lemma MapResultInverse(i: nat)
    requires i < |ResultTable|
    ensures MapResult(ResultTable[i]) == i
  {
    ResultTableDistinct();
    var k := MapResult(ResultTable[i]);
    assert ResultTable[k] == ResultTable[i];
  }

  /** Pinned ordinals: SUCCESS is 5, FAILURE is 0, and a status the table
      does not list is reported as FAILURE. */
  lemma MapResultPinned(code: int)
    ensures MapResult(Success) == SuccessOrdinal
    ensures MapResult(Failure) == FailureOrdinal
    ensures ResultTable[MapResult(Unlisted(code))] == Failure
  {
    MapResultInverse(5);
    MapResultInverse(0);
  }

  /** The loop bound of `map_nlopt_result` as written is `sizeof(map_results)`,
      a byte count: 11 entries of a 4-byte enum (the width of `int` on the
      usual C ABIs), so the loop may visit indices 0 to 43. */
  const EnumBytes: nat := 4
  const ScanBound: nat := 11 * EnumBytes

  /** What the loop as written can read: the 11 table entries followed by the
      33 values that happen to lie in memory after the array. */
  ghost predicate ScanMemory(memory: seq<NativeResult>) {
    |memory| == ScanBound && memory[..|ResultTable|] == ResultTable
  }

  /** `map_nlopt_result` as written: the same search, bounded by the byte
      count instead of the element count. */
  function MapResultAsWritten(memory: seq<NativeResult>, r: NativeResult): (ordinal: nat)
    requires ScanMemory(memory)
    ensures ordinal < ScanBound
  {
    Find(memory, r, 0)
  }

  /** For a status the table lists, the loop as written stops inside the
      array and agrees with the corrected search. */
  lemma MapResultAsWrittenAgrees(memory: seq<NativeResult>, r: NativeResult)
    requires ScanMemory(memory)
    requires r in ResultTable
    ensures MapResultAsWritten(memory, r) == MapResult(r)
  {
    var k := MapResult(r);
    assert forall j :: 0 <= j <= k ==> memory[j] == ResultTable[j];
  }

  /** A status the table does not list makes the loop as written read past
      the end of `map_results`: with the same 11 table entries, what lies
      after them decides the answer, and it can be 11, which no host
      constructor stands for. The corrected search answers FAILURE. */
  lemma MapResultAsWrittenOverruns()
    ensures var r := Unlisted(7);
            var quiet := ResultTable + seq(ScanBound - 11, _ => Unlisted(0));
            var noisy := ResultTable + seq(ScanBound - 11, _ => Unlisted(7));
            && ScanMemory(quiet) && ScanMemory(noisy)
            && MapResultAsWritten(quiet, r) == FailureOrdinal
            && MapResultAsWritten(noisy, r) == 11
            && 11 >= |ResultTable|
            && MapResult(r) == FailureOrdinal
  {
    var r := Unlisted(7);
    var quiet := ResultTable + seq(ScanBound - 11, _ => Unlisted(0));
    var noisy := ResultTable + seq(ScanBound - 11, _ => Unlisted(7));
    assert quiet[..|ResultTable|] == ResultTable;
    assert noisy[..|ResultTable|] == ResultTable;
    assert r !in ResultTable;
    assert forall j :: 0 <= j < |quiet| ==> quiet[j] != r;
    assert noisy[11] == r;
    assert forall j :: 0 <= j < 11 ==> noisy[j] != r;
  }
}
