/** The four address scorers, the nibble-run count two of them are built
    on, and the name-to-scorer table the command line selects from. */
module Scorers {
  import opened Types
  import Bytes

  // ---------------------------------------------------------------------
  // Nibbles and the ascending run
  // ---------------------------------------------------------------------

  /** The nibble of byte b at the given shift, as `(b >> shift) & 0xf`. */
  function Extract(b: bv8, shift: nat): (n: bv8)
    requires shift <= 8
    ensures n <= 0xf
  {
    (b >> shift) & 0xf
  }

  /** The k-th of the 40 nibbles of a, high nibble of each byte first. */
  function Nibble(a: Address, k: nat): (n: bv8)
    requires k < 40
    ensures n <= 0xf
  {
    Extract(a[k / 2], if k % 2 == 0 then 4 else 0)
  }

  /** The value of the running `last` nibble when nibble k is examined:
      the previous nibble, or 0 before the first. */
  function Last(a: Address, k: nat): (p: bv8)
    requires k < 40
    ensures p <= 0xf
  {
    if k == 0 then 0 else Nibble(a, k - 1)
  }

  /** The early-exit test: the nibble is below `last`, or, in strict mode,
      more than `last + 1`. */
  predicate Breaks(n: bv8, last: bv8, strict: bool)
  {
    n < last || (n > last + 1 && strict)
  }

  /** Nibble k continues the run begun at nibble 0. */
  predicate Continues(a: Address, strict: bool, k: nat)
    requires k < 40
  {
    !Breaks(Nibble(a, k), Last(a, k), strict)
  }

  /** The length of the run that starts at nibble k, counted from 0: the
      index of the first nibble from k on that breaks it, or 40. */
  function RunFrom(a: Address, strict: bool, k: nat): (r: nat)
    requires k <= 40
    ensures k <= r <= 40
    decreases 40 - k
  {
    if k == 40 then 40
    else if !Continues(a, strict, k) then k
    else RunFrom(a, strict, k + 1)
  }

  /** The number of leading nibbles of a that form a run. */
  function AscendingRun(a: Address, strict: bool): (r: nat)
    ensures r <= 40
  {
    RunFrom(a, strict, 0)
  }

  /** countAscending: walks the 40 nibbles, high nibble first, with a
      running `last` and `count`, and stops at the first nibble that
      breaks the run. */
  method CountAscending(data: Address, strict: bool) returns (count: int)
    ensures count == AscendingRun(data, strict)
  {
    count := 0;
    var last: bv8 := 0;
    var i := 0;
    while i < 20
      invariant 0 <= i <= 20
      invariant count == 2 * i
      invariant i > 0 ==> last == Nibble(data, count - 1)
      invariant i == 0 ==> last == 0
      invariant forall k :: 0 <= k < count ==> Continues(data, strict, k)
    {
      var j := 4;
      while j >= 0
        invariant j == 4 || j == 0 || j == -4
        invariant j == 4 ==> count == 2 * i
        invariant j == 0 ==> count == 2 * i + 1
        invariant j == -4 ==> count == 2 * i + 2
        invariant count > 0 ==> last == Nibble(data, count - 1)
        invariant count == 0 ==> last == 0
        invariant forall k :: 0 <= k < count ==> Continues(data, strict, k)
        decreases j + 4
      {
        var nybble := Extract(data[i], j);
        NybbleAt(data, i, j, count);
        RunStep(data, strict, count, last, nybble);
        if Breaks(nybble, last, strict) {
          AscendingRunIsFirstBreak(data, strict, count);
          return;
        }
        last := nybble;
        count := count + 1;
        j := j - 4;
      }
      i := i + 1;
    }
    AscendingRunIsFirstBreak(data, strict, 40);
    count := 40;
  }

  /** One step of the loop: the early-exit test on the current nibble and
      `last` is the negation of Continues, and decides the run length. */
  lemma RunStep(a: Address, strict: bool, k: nat, last: bv8, n: bv8)
    requires k < 40
    requires n == Nibble(a, k)
    requires k > 0 ==> last == Nibble(a, k - 1)
    requires k == 0 ==> last == 0
    ensures Breaks(n, last, strict) <==> !Continues(a, strict, k)
  {
  }

  /** The nibble the inner loop extracts at byte i, shift j, is the
      count-th nibble of the address. */
  lemma NybbleAt(data: Address, i: nat, j: int, count: nat)
    requires i < 20
    requires (j == 4 && count == 2 * i) || (j == 0 && count == 2 * i + 1)
    ensures Extract(data[i], j) == Nibble(data, count)
  {
  }

  /** The run length is the longest prefix of continuing nibbles: every
      nibble before it continues, and the one at it (if any) does not. */
  lemma {:induction false} RunFromIsFirstBreak(a: Address, strict: bool, k: nat)
    requires k <= 40
    ensures forall j :: k <= j < RunFrom(a, strict, k) ==> Continues(a, strict, j)
    ensures RunFrom(a, strict, k) < 40 ==> !Continues(a, strict, RunFrom(a, strict, k))
    decreases 40 - k
  {
    if k < 40 && Continues(a, strict, k) {
      RunFromIsFirstBreak(a, strict, k + 1);
    }
  }

  /** AscendingRun characterised without recursion, in both directions. */
  lemma AscendingRunIsFirstBreak(a: Address, strict: bool, r: nat)
    ensures r == AscendingRun(a, strict) <==>
      r <= 40 &&
      (forall j :: 0 <= j < r ==> Continues(a, strict, j)) &&
      (r < 40 ==> !Continues(a, strict, r))
  {
    RunFromIsFirstBreak(a, strict, 0);
    var run := AscendingRun(a, strict);
    if r <= 40 && (forall j :: 0 <= j < r ==> Continues(a, strict, j)) && (r < 40 ==> !Continues(a, strict, r)) {
      if r < run {
        assert false;
      } else if run < r {
        assert false;
      }
    }
  }

  /** The strict run never outlasts the non-strict one. */
  lemma StrictRunIsShorter(a: Address)
    ensures AscendingRun(a, true) <= AscendingRun(a, false)
  {
    var s, n := AscendingRun(a, true), AscendingRun(a, false);
    AscendingRunIsFirstBreak(a, true, s);
    AscendingRunIsFirstBreak(a, false, n);
    assert n < s ==> Continues(a, true, n);
  }

  /** The whole address scores 40 in non-strict mode exactly when its 40
      nibbles never decrease. */
  lemma FullRunIffNonDecreasing(a: Address)
    ensures AscendingRun(a, false) == 40 <==>
      forall k :: 0 <= k < 39 ==> Nibble(a, k) <= Nibble(a, k + 1)
  {
    AscendingRunIsFirstBreak(a, false, 40);
    if forall k :: 0 <= k < 39 ==> Nibble(a, k) <= Nibble(a, k + 1) {
      forall j | 0 <= j < 40 ensures Continues(a, false, j) {
        if j > 0 { assert Nibble(a, j - 1) <= Nibble(a, j); }
      }
    }
    if AscendingRun(a, false) == 40 {
      forall k | 0 <= k < 39 ensures Nibble(a, k) <= Nibble(a, k + 1) {
        assert Continues(a, false, k + 1);
      }
    }
  }

  /** Each nibble after the first equals its predecessor or exceeds it by
      one (nibbles are at most 0xf, so the + 1 cannot wrap). */
  ghost predicate Gapless(a: Address)
  {
    forall k :: 0 <= k < 39 ==> Nibble(a, k) <= Nibble(a, k + 1) <= Nibble(a, k) + 1
  }

  /** In strict mode, because `last` starts at 0, the whole address scores
      40 exactly when its first nibble is 0 or 1 and the nibbles are
      gapless. */
  lemma FullStrictRunIffGapless(a: Address)
    ensures AscendingRun(a, true) == 40 <==> Nibble(a, 0) <= 1 && Gapless(a)
  {
    if Nibble(a, 0) <= 1 && Gapless(a) {
      GaplessRunsToEnd(a);
    }
    if AscendingRun(a, true) == 40 {
      FullStrictRunIsGapless(a);
    }
  }

  lemma GaplessRunsToEnd(a: Address)
    requires Nibble(a, 0) <= 1 && Gapless(a)
    ensures AscendingRun(a, true) == 40
  {
    forall j | 0 <= j < 40 ensures Continues(a, true, j) {
      if j > 0 { assert Nibble(a, j - 1) <= Nibble(a, j) <= Nibble(a, j - 1) + 1; }
    }
    AscendingRunIsFirstBreak(a, true, 40);
  }

  lemma FullStrictRunIsGapless(a: Address)
    requires AscendingRun(a, true) == 40
    ensures Nibble(a, 0) <= 1 && Gapless(a)
  {
    AscendingRunIsFirstBreak(a, true, 40);
    assert Continues(a, true, 0);
    forall k | 0 <= k < 39 ensures Nibble(a, k) <= Nibble(a, k + 1) <= Nibble(a, k) + 1 {
      assert Continues(a, true, k + 1);
    }
  }

  /** The all-zero address scores 40 in both modes. */
  lemma ZeroHasFullRun(strict: bool)
    ensures AscendingRun(Zero, strict) == 40
  {
    forall j | 0 <= j < 40 ensures Continues(Zero, strict, j) {
      assert Zero[j / 2] == 0;
      if j > 0 { assert Zero[(j - 1) / 2] == 0; }
    }
    AscendingRunIsFirstBreak(Zero, strict, 40);
  }

  /** 0x0123456789abcdef0123456789abcdef01234567: the nibbles climb by one
      from 0 to f and then fall back to 0, so both runs stop at 16. */
  const Counting: Address := [0x01, 0x23, 0x45, 0x67, 0x89, 0xab, 0xcd, 0xef,
                              0x01, 0x23, 0x45, 0x67, 0x89, 0xab, 0xcd, 0xef,
                              0x01, 0x23, 0x45, 0x67]

  lemma CountingRunStopsAtWrap(strict: bool)
    ensures AscendingRun(Counting, strict) == 16
  {
    forall j | 0 <= j < 16 ensures Continues(Counting, strict, j) {
      if j < 8 { CountingClimbsLow(strict, j); } else { CountingClimbsHigh(strict, j); }
    }
    assert Nibble(Counting, 16) == 0 && Nibble(Counting, 15) == 0xf;
    AscendingRunIsFirstBreak(Counting, strict, 16);
  }

  /** Nibbles 0..7 of Counting are 0, 1, ..., 7. */
  lemma CountingClimbsLow(strict: bool, j: nat)
    requires j < 8
    ensures Continues(Counting, strict, j)
  {
  }

  /** Nibbles 8..15 of Counting are 8, 9, ..., f. */
  lemma CountingClimbsHigh(strict: bool, j: nat)
    requires 8 <= j < 16
    ensures Continues(Counting, strict, j)
  {
  }

  // ---------------------------------------------------------------------
  // The scorers
  // ---------------------------------------------------------------------

  /** leastScorer: the lexicographically smaller address is better. */
  function LeastScorer(a: Address, b: Address): int
  {
    -Bytes.Compare(a, b)
  }

  /** mostScorer: the lexicographically larger address is better. */
  function MostScorer(a: Address, b: Address): int
  {
    Bytes.Compare(a, b)
  }

  /** ascendingScorer: the longer non-decreasing nibble run is better. */
  function AscendingScorer(a: Address, b: Address): int
  {
    AscendingRun(a, false) - AscendingRun(b, false)
  }

  /** strictAscendingScorer: the longer gapless nibble run is better. */
  function StrictAscendingScorer(a: Address, b: Address): int
  {
    AscendingRun(a, true) - AscendingRun(b, true)
  }

  /** What the filters need of a scorer for "best so far" to mean "best":
      swapping the arguments negates the score, and "at least as good" is
      transitive. */
  ghost predicate IsComparer(score: Scorer)
  {
    (forall a: Address, b: Address :: score(a, b) == -score(b, a)) &&
    (forall a: Address, b: Address, c: Address ::
       score(a, b) >= 0 && score(b, c) >= 0 ==> score(a, c) >= 0)
  }

  /** mostScorer is big-endian lexicographic byte order: zero exactly on
      equal addresses, negative exactly when a precedes b. */
  lemma MostIsLexicographic(a: Address, b: Address)
    ensures MostScorer(a, b) == 0 <==> a == b
    ensures MostScorer(a, b) < 0 <==> Bytes.LexLess(a, b)
    ensures MostScorer(a, b) > 0 <==> Bytes.LexLess(b, a)
    ensures MostScorer(a, b) == -MostScorer(b, a)
  {
    Bytes.CompareZeroIffEqual(a, b);
    Bytes.CompareIsLexOrder(a, b);
    Bytes.CompareIsLexOrder(b, a);
    Bytes.CompareAntisymmetric(a, b);
  }

  /** leastScorer is mostScorer negated, which is mostScorer with its
      arguments swapped. */
  lemma LeastIsReversedMost(a: Address, b: Address)
    ensures LeastScorer(a, b) == -MostScorer(a, b)
    ensures LeastScorer(a, b) == MostScorer(b, a)
    ensures LeastScorer(a, b) == 0 <==> a == b
  {
    Bytes.CompareAntisymmetric(a, b);
    Bytes.CompareZeroIffEqual(a, b);
  }

  /** The all-zero address beats or ties every address under leastScorer,
      the all-0xff address every address under mostScorer. */
  lemma ExtremeAddresses(a: Address)
    ensures LeastScorer(Zero, a) >= 0
    ensures MostScorer(Ones, a) >= 0
  {
    Bytes.ZerosAreLeast(Zero, a);
    Bytes.OnesAreGreatest(Ones, a);
  }

  lemma MostIsComparer()
    ensures IsComparer(MostScorer)
  {
    forall a: Address, b: Address ensures MostScorer(a, b) == -MostScorer(b, a) {
      Bytes.CompareAntisymmetric(a, b);
    }
    forall a: Address, b: Address, c: Address | MostScorer(a, b) >= 0 && MostScorer(b, c) >= 0
      ensures MostScorer(a, c) >= 0
    {
      Bytes.CompareTransitive(a, b, c);
    }
  }

  lemma LeastIsComparer()
    ensures IsComparer(LeastScorer)
  {
    forall a: Address, b: Address ensures LeastScorer(a, b) == -LeastScorer(b, a) {
      Bytes.CompareAntisymmetric(a, b);
    }
    forall a: Address, b: Address, c: Address | LeastScorer(a, b) >= 0 && LeastScorer(b, c) >= 0
      ensures LeastScorer(a, c) >= 0
    {
      Bytes.CompareAntisymmetric(a, b);
      Bytes.CompareAntisymmetric(b, c);
      Bytes.CompareAntisymmetric(a, c);
      Bytes.CompareTransitive(c, b, a);
    }
  }

  /** The run scorers are differences of run lengths: antisymmetric, zero
      on equal addresses, and within [-40, 40]. */
  lemma RunScorersAreBoundedDifferences(a: Address, b: Address)
    ensures AscendingScorer(a, a) == 0 && StrictAscendingScorer(a, a) == 0
    ensures AscendingScorer(a, b) == -AscendingScorer(b, a)
    ensures StrictAscendingScorer(a, b) == -StrictAscendingScorer(b, a)
    ensures -40 <= AscendingScorer(a, b) <= 40
    ensures -40 <= StrictAscendingScorer(a, b) <= 40
  {
  }

  lemma RunScorersAreComparers()
    ensures IsComparer(AscendingScorer)
    ensures IsComparer(StrictAscendingScorer)
  {
  }

  /** The run scorers break no ties: the all-zero address and the one that
      differs from it only in its last nibble (0x...01) score the same. */
  lemma RunScorersTieDistinctAddresses()
    ensures Zero != Zero[19 := 1]
    ensures AscendingScorer(Zero, Zero[19 := 1]) == 0
    ensures StrictAscendingScorer(Zero, Zero[19 := 1]) == 0
  {
    var a: Address := Zero[19 := 1];
    assert a[19] != Zero[19];
    ZeroHasFullRun(false);
    ZeroHasFullRun(true);
    forall k | 0 <= k < 40 ensures Nibble(a, k) == if k == 39 then 1 else 0 {
      assert a[k / 2] == if k / 2 == 19 then 1 else 0;
    }
    assert Gapless(a);
    FullRunIffNonDecreasing(a);
    FullStrictRunIffGapless(a);
  }


  // ---------------------------------------------------------------------
  // The scorer table
  // ---------------------------------------------------------------------

  /** The `scorers` map: the names the -scorer flag may take. */
  const Table: map<string, Scorer> := map[
    "least" := LeastScorer,
    "most" := MostScorer,
    "ascending" := AscendingScorer,
    "strictAscending" := StrictAscendingScorer
  ]

  /** Looking a name up in the table; None stands for the
      "Invalid score function" exit. */
  function LookupScorer(name: string): (r: Option<Scorer>)
  {
    if name in Table then Some(Table[name]) else None
  }

  /** The lookup succeeds for exactly the four names, each giving its own
      scorer, and every scorer it can give is a comparer. */
  lemma LookupAcceptsExactlyFour(name: string)
    ensures LookupScorer(name).Some? <==>
      name == "least" || name == "most" || name == "ascending" || name == "strictAscending"
    ensures name == "least" ==> LookupScorer(name) == Some(LeastScorer)
    ensures name == "most" ==> LookupScorer(name) == Some(MostScorer)
    ensures name == "ascending" ==> LookupScorer(name) == Some(AscendingScorer)
    ensures name == "strictAscending" ==> LookupScorer(name) == Some(StrictAscendingScorer)
    ensures LookupScorer(name).Some? ==> IsComparer(LookupScorer(name).value)
  {
    LeastIsComparer();
    MostIsComparer();
    RunScorersAreComparers();
  }

  /** `prefixes` is advertised by the flag's help text but is not in the
      table, so it is rejected. */
  lemma PrefixesIsRejected()
    ensures LookupScorer("prefixes") == None
  {
  }

}
