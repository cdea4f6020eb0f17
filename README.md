# vaniteth search core, modelled in Dafny

vaniteth searches randomly generated Ethereum key pairs for one whose
address scores best under a chosen scorer. Several workers each generate
candidates and forward only the ones that tie or beat their own best so far;
`main` merges the forwarded streams into one channel and prints every
received result that ties or beats the global best so far.

This project models the core of `main.go`:

- `Types`: the 20-byte `Address` (`seq<bv8>` of length 20), the opaque
  `PrivateKey`, the `Result` record (address, key, nonce) and the `Scorer`
  function type (`addressComparer`).
- `Bytes`: `Compare`, with the semantics of Go's `bytes.Compare`, and its
  order properties. It is stated against an independent definition of
  lexicographic order, `LexLess`.
- `Scorers`: `countAscending` as the imperative method `CountAscending`,
  proved equal to the function `AscendingRun`; the four scorers
  `LeastScorer`, `MostScorer`, `AscendingScorer` and `StrictAscendingScorer`
  (main.go:26-40); the `scorers` table as the constant `Table`
  (main.go:64-69) and its lookup `LookupScorer` (main.go:75).
- `Filters`: the best-so-far rule shared by the worker filter in `start`
  and the global filter in `main`. Both loops are methods, proved against the
  spec functions `Kept` and `BestAfter`.
- `Generate`: `generateAddresses` for a finite sequence of keys, as a loop
  proved against the spec function `Candidates`.
- `FanIn`: the many-to-one channel as an interleaving of the forwarded
  streams, and the theorem that the global best is the maximum of everything
  generated.
- `Search`: `main` put together: lookup, the workers, the merge and the
  global filter.

A few facts about the code shape the model:

- `ascendingScorer` and `strictAscendingScorer` (main.go:34-40) only subtract
  run lengths, so they break no ties. `RunScorersTieDistinctAddresses` gives
  two distinct addresses that compare as 0. The scorers are therefore total
  preorders, not total orders; `IsComparer` states exactly what the filters
  need.
- The scorer table (main.go:64-69) holds exactly four scorers; there is no
  scorer that matches a target prefix and no way to combine several scorers.
- The `-scorer` help text lists `prefixes`, but the table does not contain
  it, so that name is rejected (`PrefixesIsRejected`).
- Addresses have 20 bytes, so the counting address of
  `CountingRunStopsAtWrap` repeats the pattern `0x0123456789abcdef` until
  20 bytes are filled; its run stops at nibble 16, where `f` falls to `0`.
- `Search.WorkerInputs` and `FanIn.ForwardedAll` are plain definitions of the
  per-worker streams: the first is `Candidates` of each worker's keys
  (main.go:82-83), the second the worker filter's output on each of those
  streams (main.go:99-110). What is proved about them is stated by
  `FanIn.LocalBestIsDelivered`, `FanIn.GlobalBestIsMaximum` and
  `Search.RunSearch`.

## Model

| member | source | states |
|---|---|---|
| `Bytes.Compare` | main.go:27 | the comparison yields only -1, 0 or +1 |
| `Bytes.CompareZeroIffEqual` | main.go:31 | the comparison is 0 exactly when the two byte strings are equal |
| `Bytes.CompareAntisymmetric` | main.go:31 | swapping the arguments negates the comparison |
| `Bytes.CompareTransitive` | main.go:31 | "at least" is transitive, and (a,c) is 0 only if both steps are 0 |
| `Bytes.CompareIsLexOrder` | main.go:31 | the comparison is negative exactly when a precedes b in lexicographic order (first differing byte smaller, or a proper prefix) |
| `Bytes.NegativeCompareWitness` | main.go:31 | a negative comparison has a first position where a ends or has the smaller byte, with equal bytes before it |
| `Bytes.WitnessMakesCompareNegative` | main.go:31 | such a position makes the comparison negative |
| `Bytes.ZerosAreLeast` | main.go:27 | a run of zero bytes compares at most any string at least as long |
| `Bytes.OnesAreGreatest` | main.go:31 | a run of 0xff bytes compares at least any string no longer than it |
| `Scorers.Extract` | main.go:47 | shifting a byte and masking with 0xf gives a value of at most 0xf |
| `Scorers.Nibble` | main.go:47 | the k-th nibble, high nibble of each byte first, is at most 0xf |
| `Scorers.Last` | main.go:44-51 | the running `last` value (0 at the start, then the previous nibble) is at most 0xf |
| `Scorers.RunFrom` | main.go:45-55 | the run starting from nibble k ends between k and 40 |
| `Scorers.AscendingRun` | main.go:42-56 | the run length is at most 40 |
| `Scorers.CountAscending` | main.go:42-56 | the nested nibble loop with early return computes exactly `AscendingRun` for both modes |
| `Scorers.RunStep` | main.go:48 | the early-exit test on the current nibble and `last` fails exactly when the nibble continues the run |
| `Scorers.NybbleAt` | main.go:46-47 | shift 4, then shift 0, of byte i extracts nibbles 2i and 2i+1 |
| `Scorers.RunFromIsFirstBreak` | main.go:45-55 | every nibble before the run's end continues the run, and the one at the end (if any) breaks it |
| `Scorers.AscendingRunIsFirstBreak` | main.go:42-56 | r is the run length if and only if nibbles 0..r-1 continue and nibble r (when r < 40) breaks the run |
| `Scorers.StrictRunIsShorter` | main.go:48 | the strict count never exceeds the non-strict count for the same address |
| `Scorers.FullRunIffNonDecreasing` | main.go:44-55 | the non-strict count is 40 exactly when the 40 nibbles never decrease |
| `Scorers.FullStrictRunIffGapless` | main.go:44-55 | the strict count is 40 exactly when the first nibble is 0 or 1 and each later nibble equals its predecessor or exceeds it by one |
| `Scorers.GaplessRunsToEnd` | main.go:44-55 | a first nibble of 0 or 1 followed by steps of +0 or +1 gives a strict count of 40 |
| `Scorers.FullStrictRunIsGapless` | main.go:44-55 | a strict count of 40 implies a first nibble of 0 or 1 and steps of +0 or +1 only |
| `Scorers.ZeroHasFullRun` | main.go:44-55 | the all-zero address scores 40 in both modes |
| `Scorers.CountingRunStopsAtWrap` | main.go:42-56 | for 0x0123456789abcdef0123456789abcdef01234567 both counts are 16 |
| `Scorers.CountingClimbsLow` | main.go:47-48 | nibbles 0..7 of that address continue the run in both modes |
| `Scorers.CountingClimbsHigh` | main.go:47-48 | nibbles 8..15 of that address continue the run in both modes |
| `Scorers.MostIsLexicographic` | main.go:30-32 | mostScorer is 0 iff the addresses are equal, negative iff a precedes b, positive iff b precedes a, and antisymmetric |
| `Scorers.LeastIsReversedMost` | main.go:26-32 | leastScorer(a,b) is -mostScorer(a,b), equals mostScorer(b,a), and is 0 iff a = b |
| `Scorers.ExtremeAddresses` | main.go:26-32 | the all-zero address is best under leastScorer and the all-0xff address is best under mostScorer, against every address |
| `Scorers.MostIsComparer` | main.go:30-32 | mostScorer is antisymmetric and "ties or beats" is transitive under it |
| `Scorers.LeastIsComparer` | main.go:26-28 | leastScorer is antisymmetric and "ties or beats" is transitive under it |
| `Scorers.RunScorersAreBoundedDifferences` | main.go:34-40 | both run scorers are 0 on equal inputs, antisymmetric, and lie in [-40, 40] |
| `Scorers.RunScorersAreComparers` | main.go:34-40 | both run scorers are antisymmetric and "ties or beats" is transitive under them |
| `Scorers.RunScorersTieDistinctAddresses` | main.go:34-40 | two distinct addresses (0x00…00 and 0x00…01) compare as 0 under both run scorers |
| `Scorers.LookupAcceptsExactlyFour` | main.go:64-69 | lookup succeeds exactly for least, most, ascending and strictAscending, gives each its own scorer, and every scorer it gives is a comparer |
| `Scorers.PrefixesIsRejected` | main.go:62-79 | the advertised name `prefixes` is rejected by the lookup |
| `Filters.WorkerFilter` | main.go:103-110 | the worker loop forwards exactly `Forwarded` of its input and ends with `Best` of it |
| `Filters.GlobalFilter` | main.go:86-96 | the global loop prints exactly `Printed` of what it receives and ends with `Best` of it |
| `Filters.KeptSnoc` | main.go:105-110 | one more result is kept, and becomes the best, exactly when it ties or beats the best so far |
| `Filters.WorkerForwardsImprovements` | main.go:103-110 | the first result is always forwarded; each later one is forwarded, and becomes the local best, iff it ties or beats the local best |
| `Filters.GlobalPrintsImprovements` | main.go:86-96 | the first received result is not printed; each later one is printed iff it ties or beats the global best |
| `Filters.KeptIsNonDecreasing` | main.go:105-110 | every kept result ties or beats the starting best and every result kept before it |
| `Filters.ForwardedIsNonDecreasing` | main.go:103-110 | the forwarded sequence is non-decreasing under the scorer: each later one ties or beats each earlier one |
| `Filters.PrintedIsNonDecreasing` | main.go:86-96 | the printed sequence is non-decreasing under the scorer |
| `Filters.BestAfterIsMaximum` | main.go:105-110 | the best is the start or an input, is the last result kept, and ties or beats everything consumed |
| `Filters.BestIsMaximum` | main.go:103-110 | after any prefix the best exists iff the prefix is non-empty, is one of its results, is the last one forwarded, and ties or beats every result seen |
| `Filters.KeptComeFromInput` | main.go:105-110 | only results of the input are kept |
| `Filters.ForwardedComeFromInput` | main.go:103-110 | the worker forwards and the global filter prints only results they received |
| `Generate.GenerateAddresses` | main.go:113-130 | the generator loop emits exactly `Candidates` of the keys it generated |
| `Generate.NonceResultsSnoc` | main.go:123-126 | one more nonce iteration appends the result for that nonce |
| `Generate.NonceResultsShape` | main.go:123-126 | the nonce loop from `from` emits maxNonce - from results, the t-th with nonce from + t and the same key |
| `Generate.KeyExpansion` | main.go:121-129 | contract mode emits maxNonce results with nonces 0..maxNonce-1 in order, all with the same key; account mode emits one result with nonce 0 |
| `Generate.CandidatesSnoc` | main.go:114-130 | one more generated key appends that key's results |
| `Generate.CandidatesAppend` | main.go:114-130 | generating from two key sequences in turn gives the two streams one after the other |
| `Generate.CandidatesLayout` | main.go:114-130 | result t of key k sits at position k * perKey + t of the stream |
| `Generate.CandidatesLength` | main.go:114-130 | the stream has perKey results per key |
| `FanIn.MergeIsInterleaving` | main.go:81-87 | merging by any schedule yields an interleaving of the forwarded streams |
| `FanIn.EveryInterleavingIsAMerge` | main.go:81-87 | every interleaving of the forwarded streams is produced by some schedule |
| `FanIn.InterleavingMembers` | main.go:81-87 | an interleaving holds exactly the results of its streams |
| `FanIn.LocalBestIsDelivered` | main.go:103-110 | a worker's local best reaches the global filter and ties or beats everything that worker generated |
| `FanIn.ReceivedWasGenerated` | main.go:86-110 | everything the global filter receives was generated by some worker |
| `FanIn.GlobalBestIsMaximum` | main.go:86-110 | for any interleaving, the global best exists iff some worker generated a result, is one of the generated results, and ties or beats every generated result |
| `Search.RunSearch` | main.go:72-97 | the outcome is the invalid-scorer one, carrying the given name, exactly when the name is unknown, and then no worker runs; for a known name the outcome is a report: the printed lines and best are the global filter over the merged worker outputs, and the final best is the maximum of all generated results |

## Left out

- Key generation (`ecdsa.GenerateKey` over secp256k1 with `crypto/rand`) and its error exit at main.go:115-119 are foreign cryptography and entropy. Each worker's generated keys are given as a finite sequence, and key material is opaque.
- `crypto.PubkeyToAddress` and `crypto.CreateAddress` (Keccak-256 and RLP) are foreign code. They are the parameters `derive` and `create`. Only their types are used.
- Goroutines and channels (main.go:81-84, 99-101) are not modelled as concurrency. Each stream is the finite sequence sent on it. The shared `results` channel is an arbitrary interleaving of the worker streams, chosen by a schedule. Blocking and unbuffered hand-off are not modelled.
- The endless `for {}` in `generateAddresses` and the endless receive loops are not modelled as infinite. The model covers finite prefixes in which every forwarded result has been received.
- Flag parsing and its defaults (2 threads, maxnonce 32, scorer `least`) are I/O. The flag values are parameters. `fmt.Printf` and hex formatting (main.go:77, 90-94) are also I/O: the printed lines are the list of printed results. `os.Exit` is not modelled.
- The target-prefix scorer and the multi-criterion mode are left out because main.go has neither.
- Edge cases the model keeps rather than excludes:
  - In contract mode with maxNonce <= 0, each key yields no results. A Go worker then waits forever; in the model its stream is empty.
  - With zero threads, Go's `main` deadlocks on its first receive. In the model the outcome has no printed lines and no best.

