# Verification of the PROOF repository's hard core

A Dafny 4.11 model of the parts of the repository whose correctness is not visible from one function body, with
proofs of what they are for. `dafny verify dfyconfig.toml` checks all of it.

- `ModularArithmetic`, `Summation`, `Divisibility`, `Field`, `Bits`, `Transform`, `Fft`, `RoundTrip`, `Convolution`,
  `ProductFactors`, `PrimeField`, `RootOfUnity`: go/galois. `big.Int` is `int`; a field is its order `q`. The
  specification is the naive transform `DFT` and the schoolbook product; the chain goes from Fermat's little theorem through the square roots of 1,
  roots with root^(n/2) = -1, one butterfly level, the recursive transform with its shared, stride-indexed table, and
  the undoing of its butterflies, to the convolution theorem.
- `EntropyOracle` (the contract as a class, each transaction proved against a step function), `EntropyRuns` (whole runs),
  `EnumerableSet`: contracts/entropy. `EntropyServer`: the signing server's cache.
- `FisherYates`: go/shuffle, in place on an array; the draws are a sequence, the i-th being what `Intn` returned.
- `Toggle`, `Firehose`: concurrent protocols as interleaved steps of goroutines with explicit program counters.
- `Rarity`, `RarityBalance`, `SetSums`: scoring of NFT collections over reals, for an arbitrary function in the place of log2.
- `SolCover`, `FlagType`, `Strings`: source-map decompression, the pc index, the flag printers and parsers.
- `IntSqrt`, `LastBlockBy`: Newton's square root on 256 bits, the binary search for a block by time.

## Where code and documentation disagree

The model follows the code. Each of these is proved, with the exact condition under which the promise is met and, where that
does not show a failure by itself, with an input or a run that fails.

- `FFT` accepts any n-th root of unity other than 1, not only primitive ones. The result is the transform on every
  input if and only if root^(n/2) = -1 (`Fft.FftIsDftExactly`); 4 modulo 5 is accepted for n = 4 and fails
  (`Fft.AcceptedRootFails`). That `FFTInverse` undoes `FFT` needs no such condition and is proved for every accepted root
  (`RoundTrip.InverseUndoesFft`). `Convolve`, whose documentation asks for "an nth root of unity" only, is right on all
  inputs if and only if root^(n/2) = -1 or n <= 2 (`Convolution.ConvolvesExactly`, `Convolution.AcceptedRootMisconvolves`).
- `Convolve` pads its first argument by `append`, before it reads the second. If the second lies in the spare capacity
  of the first, the product is with what is left of it (`Convolution.Convolve`). Over a prime field that is the product
  asked for exactly when the overwritten cells are zero modulo q already, or all of the first argument is
  (`ProductFactors.SeenProductExactly`, `Convolution.SharedStoreLosesFactor`).
- `FFTInverse` uses a nil inverse, and so panics, exactly when n > 1 and q is even (`Fft.LengthInvertible`).
- `RootOfUnity` promises a generator of all n-th roots for even n. A non-zero draw always gives one exactly when n is a
  power of two (`RootOfUnity.GeneratesExactly`). A zero draw is accepted and gives 0, which the transform then rejects
  (`RootOfUnity.ZeroDraw`). It also says that 1 is the only root when n does not divide q - 1: for even n, 1 is the only
  n-th root exactly when q = 2 (`RootOfUnity.OneIsOnlyRootExactly`).
- `GrowTo` and `Remaining` convert sizes to uint32. `GrowTo` does what is documented if and only if the size has not reached
  2^32 or the size asked for is at most its remainder modulo 2^32 (`FisherYates.GrowToReaches`); `Remaining` is exact if
  and only if fewer than 2^32 values remain (`FisherYates.Shuffler.Remaining`).
- `sign` promises a signature if and only if the block is mined. No block is signed too early; in every run a request is
  turned away exactly when the limiter or the node refused it or its fetch came before its block
  (`EntropyServer.RefusedExactly`), and for a block mined when it entered exactly when the limiter or the node refused it
  (`EntropyServer.MinedBlockRefusedExactly`, `EntropyServer.MinedBlocksAreRefused`).
- `Toggle.Close` promises that every waiter returns `ErrToggleClosed`. From the moment of `Close` a run can go on to a panic,
  of a waiter of then or of later, if and only if the toggle was on (`Toggle.PanicAfterCloseExactly`). A waiter on a closed
  toggle panics by its own next steps exactly when it holds the token or there is one to take
  (`Toggle.WaiterPanicsExactly`), and a run from the start gets there (`Toggle.PanicIsReachable`).
- `location` promises (nil, false) for a pc without an entry in the source map; an instruction start beyond the
  last entry indexes past the end of a slice instead (`SolCover.CompiledContract.LocationOf`), as for the second of two
  instructions with a map of one node (`SolCover.SecondInstructionHasNoLocation`).
- `RegisterSourceCode` promises that locations in files that were not registered lack line and column numbers. Instead
  the first node of a source map that names such a file dereferences nil, if no earlier node fails
  (`SolCover.PanicsExactly`); the map 0:1:0:-:0 does that (`SolCover.UnregisteredFilePanics`).
- `LastBlockBy` guards the latest block against overflow but not the hint. The length of a range is converted exactly if and
  only if it fits in an int (`LastBlockBy.SearchLengthExact`). A longer range is searched as an empty one
  (`LastBlockBy.TooLongIsEmpty`), and a reversed one is searched all the same if its ends are more than 2^63 + 1 apart:
  First = 2^64 - 1 and Last = 1 give length 3 (`LastBlockBy.ReversedIsSearched`). The error that should be impossible, a
  "broken invariant", is returned exactly when the search looks at a block before the last one, and of the same time
  (`LastBlockBy.Find`, `LastBlockBy.TieBreaksInvariant`).
- `StringToStringSet.Set` panics exactly at a part without "=", with the parts before it in place
  (`FlagType.PanicsExactly`).
- Rarity scores are "relative surprise", scaled by the entropy. Tokens with at most one attribute per trait type average
  exactly 1 (`Rarity.AverageScoreIsOne`). In general the raw scores add up to the size times the entropy, for every
  logarithm function, if and only if the classes of each weight are counted right together (`RarityBalance.BalancedExactly`);
  `Rarity.RepeatedTraitBreaksTheAverage` is a collection for which they do not.

## What an override can change

The oracle's books balance in every run, whatever the overrides: registrations are pending, removed or delivered, so that no
trigger repeats a delivery without a new registration (`EntropyRuns.Conservation`), and nothing is registered for a block that
has entropy (`EntropyRuns.NoLateRegistration`). An override is documented as the preferred source, and so may change or take
away the entropy of a block that has some. What that amounts to is exact, in terms a steerer can check before the call:

- Values: after a run whose overrides agreed with all available entropy, another is safe, whoever asks before it and whatever
  steady transactions follow, if and only if it agrees too (`EntropyRuns.SafeExactly`, `EntropyRuns.EntropyKept`).
- Deliveries: while no override takes entropy away, each callback is delivered by a trigger at most once
  (`EntropyRuns.DeliveredOnce`). After such a run, an override leaves room for a second registration and delivery if and only
  if it takes away the entropy of a block with a delivered callback (`EntropyRuns.DeliveredOnceExactly`).

## Model

| member | source | states |
|---|---|---|
| Bits.AndPredecessor | go/galois/fft.go:88 | n & (n-1) is zero exactly for powers of two, so the guard rejects exactly the other lengths |
| Transform.Butterfly | go/galois/fft.go:77-81 | the value of x at w^e and at w^(e+n/2) from the values of its even and odd halves at w^(2e), for every w with w^(n/2) = -1 |
| Fft.TransformedEvaluates | go/galois/fft.go:49-84 | by induction over the recursion: every sub-transform, at any stride of the shared table and without reduction, is congruent to the evaluation of its slice at the powers its stride selects |
| Fft.RootIndex | go/galois/fft.go:68-75 | the index, after Go's truncated remainder and the correction, is the Euclidean remainder of the possibly negative exponent |
| Fft.Deinterleave | go/galois/fft.go:54-59 | the two loops' arrays are the even- and odd-indexed elements |
| Fft.Recombine | go/galois/fft.go:63-83 | the in-place loop equals the butterfly recombination of the old halves |
| Fft.CooleyTukey | go/galois/fft.go:49-84 | the recursive method on arrays computes the recursion that TransformedEvaluates is about, on every input |
| Fft.TwiddleFactors | go/galois/fft.go:86-104 | each of the three errors under exactly its condition, in order; otherwise the table of powers |
| Fft.Transformation | go/galois/fft.go:33-45 | errors passed on; otherwise the transform, every entry reduced into [0, q) |
| Fft.FftComputesDft | go/galois/fft.go:9-13 | for every power-of-two length and every root with root^(n/2) = -1, FFT equals the naive transform |
| Fft.FftIsDftExactly | go/galois/fft.go:86-96 | among the roots that pass the checks, FFT is the naive transform on all inputs if and only if root^(n/2) = -1 |
| Fft.AcceptedRootFails | go/galois/fft.go:86-96 | 4 modulo 5 passes the checks for n = 4, its square is 1, and the transform of 0,1,0,0 is wrong |
| Fft.FFT | go/galois/fft.go:11-13 | the method's outcome: the errors, or the transform, which is the naive one for a suitable root |
| Fft.FFTInverse | go/galois/fft.go:15-30 | fails exactly as the checks or a missing inverse of the length say; otherwise the scaled inverse transform |
| Fft.LengthInvertible | go/galois/fft.go:22 | the length has an inverse if and only if it is 1 or q is odd |
| Fft.AcceptedRoot | go/galois/fft.go:86-96 | a root that passes the checks has n-th power 1, for a power of two n: all that the round trips need |
| RoundTrip.TransformedScaled | go/galois/fft.go:49-84 | the recursion is linear modulo q, for any table |
| RoundTrip.Decimation | go/galois/fft.go:49-84 | the recursion by parity of the input is also one by halves of it: its even outputs transform the sums, its odd outputs the twisted differences, for every n-th root of 1 |
| RoundTrip.Undone | go/galois/fft.go:49-84 | the recursion in one direction and then in the other, at any stride, multiplies every entry by the length modulo q, for every n-th root of 1 |
| RoundTrip.InverseUndoesFft | go/galois/fft.go:15-30 | FFTInverse(FFT(x)) is x reduced into [0, q), for all x and every n-th root of 1, primitive or not |
| RoundTrip.FftUndoesInverse | go/galois/fft.go:15-30 | FFT(FFTInverse(x)) is x reduced into [0, q), for all x and every n-th root of 1 |
| RoundTrip.InvertedRecovers | go/galois/convolution.go:10-12 | for root^(n/2) = -1, FFTInverse recovers x from any values congruent to its evaluations at the powers of the inverse root |
| Convolution.ConvolutionSize | go/galois/convolution.go:47-57 | the smallest power of two that is at least len(a)+len(b)-1 |
| Convolution.ZeroPad | go/galois/convolution.go:59-65 | the input followed by zeros: in place, overwriting the spare capacity and nothing else, when there is enough of it, and otherwise in a new store |
| Convolution.EvalSchoolbook | go/galois/convolution.go:10-12 | the value of the schoolbook product at an n-th root is the product of the values |
| Convolution.ConvolutionTheorem | go/galois/convolution.go:10-39 | transform, pointwise product, inverse transform and cut give exactly the schoolbook product's len(a)+len(b)-1 coefficients modulo q, for all non-empty a and b |
| Convolution.ConvolvesExactly | go/galois/convolution.go:14-18 | among accepted roots of the padded length n, Convolve is right on all inputs if and only if root^(n/2) = -1 or n <= 2 |
| Convolution.AcceptedRootMisconvolves | go/galois/convolution.go:14-18 | the accepted root 4 modulo 5 gives x * x a coefficient 1 where the product has 0 |
| Convolution.PadAndTransform | go/galois/convolution.go:20-28 | a is padded and transformed before b is padded, so b is transformed as padding a leaves it |
| Convolution.SeenExactly | go/galois/convolution.go:64 | padding a leaves b as it was if and only if the cells of b that it overwrites are zero |
| Convolution.SharedStoreLosesFactor | go/galois/convolution.go:64 | two halves of one array: padding the first zeroes the second, and coefficient 0 of the product is 0, not 1 |
| Convolution.Convolve | go/galois/convolution.go:19-39 | for slices of any arrays, shared or not: the errors of the transforms, or the product with what padding a leaves of b, which is the schoolbook one for a suitable root; and what is left in both arrays |
| Convolution.FactorsRemainExactly | go/galois/convolution.go:59-65 | the caller's a and b are as they were if and only if padding the one writes to no cell of the other that is not zero |
| ProductFactors.SameProductExactly | go/galois/convolution.go:10-12 | modulo a prime, a has the same product with b and with c if and only if b and c agree or a vanishes |
| ProductFactors.SeenProductExactly | go/galois/convolution.go:64 | modulo a prime, the product with what padding a leaves of b is that with b if and only if each cell lost was zero, or a is |
| Divisibility.ModInverse | go/galois/galois.go:42-45 | a returned inverse is one, in [0, q) |
| Divisibility.ModInverseComplete | go/galois/galois.go:42-45 | whenever an inverse exists one is returned, so nil means that there is none |
| Divisibility.NoZeroDivisors | go/galois/galois.go:62-70 | a product is 0 modulo a prime only if a factor is |
| PrimeField.Fermat | go/galois/galois.go:68-70 | x^(q-1) is 1 for every x not divisible by the prime q, by permuting the units |
| PrimeField.Lagrange | go/galois/galois.go:68-70 | a polynomial with leading coefficient 1 has at most as many roots modulo a prime as its degree |
| PrimeField.FewRoots | go/galois/galois.go:58-70 | at most k residues have a given k-th power |
| RootOfUnity.FindRoot | go/galois/galois.go:71-96 | each error and the 1 for a non-divisor under exactly its condition; otherwise the candidate of the first draw that is not rejected, or the reader's error when all are; without primitive, that of the very first draw |
| RootOfUnity.Euler | go/galois/galois.go:62-70 | x^((q-1)/2) is 1 or -1 for every non-zero x |
| RootOfUnity.AcceptedExactly | go/galois/galois.go:84-94 | a non-zero draw gives an n-th root of 1, accepted if and only if its (n/2)-th power is -1 |
| RootOfUnity.HalfOfDrawsAccepted | go/galois/galois.go:64-66 | the documented success rate: exactly half of the non-zero draws are accepted, for every even n |
| RootOfUnity.RootsAreEquallyLikely | go/galois/galois.go:58-61 | a random n-th root: there are exactly n of them modulo a prime with n dividing q - 1, and each is the candidate of exactly (q-1)/n of the non-zero draws |
| RootOfUnity.PrimitiveHasDistinctPowers | go/galois/galois.go:58-61 | for a power of two n, root^(n/2) = -1 makes the n powers pairwise distinct |
| RootOfUnity.DistinctPowersGenerate | go/galois/galois.go:58-61 | pairwise distinct powers of an n-th root are all the n-th roots of 1 modulo a prime |
| RootOfUnity.GeneratesExactly | go/galois/galois.go:58-61 | every accepted non-zero draw gives a generator of the n-th roots if and only if n is a power of two |
| RootOfUnity.OneIsOnlyRootExactly | go/galois/galois.go:60-61 | for even n, 1 is the only n-th root of 1 modulo q if and only if q = 2, contrary to the documentation |
| RootOfUnity.ZeroDraw | go/galois/galois.go:86-94 | the draw 0 is accepted and gives 0, which the transform's check rejects |
| RootOfUnity.FoundRootIsUsable | go/galois/galois.go:71-96 | the root of an accepted non-zero draw passes the transform's checks and meets the precondition of its theorem |
| RootOfUnity.FoundRootConvolves | go/galois/convolution.go:41-45 | end to end: with the root that ConvolutionRoot finds from a non-zero draw, Convolve gives the schoolbook product; with the root from a zero draw, or the 1 for a non-divisor, an error |
| FisherYates.Shuffler.constructor | go/shuffle/shuffle.go:14-21 | a valid shuffler over 0..n-1 in order, with nothing chosen: Permutation() is empty |
| FisherYates.Shuffler.Permute | go/shuffle/shuffle.go:59-77 | an error exactly when n exceeds what remains, and then nothing changes; otherwise the play of the draws, the values it chooses, the first of them the one its draw points at, and Permutation() extended by them |
| FisherYates.Shuffler.PermuteUpTo | go/shuffle/shuffle.go:36-47 | Permute of min(n, Remaining()), so that the panic is never reached |
| FisherYates.Shuffler.Grow | go/shuffle/shuffle.go:83-92 | the next indices are appended; the permutation stays one and what was chosen stays |
| FisherYates.Shuffler.GrowTo | go/shuffle/shuffle.go:94-102 | grows by the wrapped difference, keeping everything chosen |
| FisherYates.GrowToReaches | go/shuffle/shuffle.go:94-102 | the size becomes max(size, n) if and only if the size has not reached 2^32 or n is at most its remainder |
| FisherYates.Shuffler.Remaining | go/shuffle/shuffle.go:111-115 | never too much, and exact if and only if fewer than 2^32 values remain |
| FisherYates.Shuffler.Swap | go/shuffle/shuffle.go:79-81 | exchanges two entries and nothing else |
| FisherYates.PlayKeeps | go/shuffle/shuffle.go:68-74 | any draws, with growth in between, keep a permutation of 0..size-1 and every value chosen before |
| FisherYates.PlayComposes | go/shuffle/shuffle.go:61-77 | Permute(k) and then Permute(m) is Permute(k+m) on the concatenated draws, legal for the same draws |
| FisherYates.DrawsAreDetermined | go/shuffle/shuffle.go:70-72 | injective: different legal draws choose different values, with growth interleaved |
| FisherYates.OutcomesExactly | go/shuffle/shuffle.go:70-72 | onto: some legal draws choose the values if and only if these are distinct, unshuffled and within the pool of their time; with injectivity, uniform draws give uniform outcomes |
| EntropyOracle.UnpackUndoesPack | contracts/entropy/EntropyOracleV2.sol:88-98 | unpacking restores every address and ID |
| EntropyOracle.PackUndoesUnpack | contracts/entropy/EntropyOracleV2.sol:88-98 | packing restores every 256-bit word |
| EntropyOracle.Oracle.RequestEntropy | contracts/entropy/EntropyOracle.sol:74-79 | the role error and no change, or success; an unknown slot becomes requested, and nothing else changes |
| EntropyOracle.Oracle.RequestEntropyWithCallback | contracts/entropy/EntropyOracleV2.sol:47-58 | where there is entropy, immediate delivery of it to the sender's own ID, or the consumer's revert; otherwise the role error, or the callback is appended unless it is there already |
| EntropyOracle.Oracle.ProvideEntropy | contracts/entropy/EntropyOracleV2.sol:106-109 | succeeds exactly for a block that is past, signed by the signer and without entropy, with the errors in order; then the slot holds the hash and callbacks are triggered |
| EntropyOracle.Oracle.ProvideBatch | contracts/entropy/EntropyOracleV2.sol:121-126 | succeeds exactly when the single provisions, each with no limit, taken in turn all succeed, and then has their state and events; otherwise nothing changes. After it each slot holds its signature's hash |
| EntropyOracle.BatchExactly | contracts/entropy/EntropyOracleV2.sol:121-126 | a batch is the same as its fulfilments one by one, for every state and batch |
| EntropyOracle.BatchStores | contracts/entropy/EntropyOracleV2.sol:121-126 | after a batch that succeeded, the slot of each block in it is the hash of its own signature |
| EntropyOracle.RolesAreChecked | contracts/entropy/EntropyOracle.sol:74-139 | a transaction whose sender lacks the role changes no state, and delivers at most entropy that is available anyway |
| EntropyOracle.ImmediateIsOwn | contracts/entropy/EntropyOracleV2.sol:47-50 | only a request with callback delivers at once: the entropy of its block, to its sender, under the ID it gave |
| EntropyOracle.Oracle.TriggerCallbacks | contracts/entropy/EntropyOracleV2.sol:150-154 | succeeds if and only if the block has entropy, whatever consumers do, and then is the trigger loop |
| EntropyOracle.Oracle.TriggerLoop | contracts/entropy/EntropyOracleV2.sol:160-186 | both loops together equal the trigger function that TriggeringIsExact is about |
| EntropyOracle.Oracle.RemoveSuccessful | contracts/entropy/EntropyOracleV2.sol:183-185 | the backward loop removes the successes, last one first |
| EntropyOracle.Oracle.RemoveCallback | contracts/entropy/EntropyOracleV2.sol:131-141 | the two errors; otherwise this registration alone goes |
| EntropyOracle.Oracle.SetOverride | contracts/entropy/EntropyOracleV2.sol:213-215 | the role error, or the override changes and nothing else |
| EntropyOracle.Oracle.SetSigner | contracts/entropy/EntropyOracle.sol:139-141 | the role error, or the signer changes and nothing else |
| EnumerableSet.RemoveIsRemoval | contracts/entropy/EntropyOracleV2.sol:140 | swap-and-pop removes exactly the value, whatever it does to the order |
| EnumerableSet.RemoveFillsGap | contracts/entropy/EntropyOracleV2.sol:160-186 | a removal moves the last value into the gap and leaves all others in place |
| EnumerableSet.RemoveBackwardsIsRemoval | contracts/entropy/EntropyOracleV2.sol:183-185 | the removal loop leaves exactly the others, despite reordering |
| EntropyRuns.TriggeringIsExact | contracts/entropy/EntropyOracleV2.sol:160-186 | exactly the first min(length, max) callbacks are called, once each and in order, with the entropy; those whose consumer succeeded leave, and exactly the failed and the uncalled stay; nothing else changes |
| EntropyRuns.EveryStepIsGood | contracts/entropy/EntropyOracleV2.sol:47-215 | every transaction balances registrations against removals and deliveries, registers only where there is no entropy, and delivers only the block's; every one but a disagreeing override also keeps the entropy there is |
| EntropyRuns.RunsBalance | contracts/entropy/EntropyOracleV2.sol:47-215 | in every run, any overrides among it: duplicate-free callbacks, only under requested blocks, and balanced books |
| EntropyRuns.RunsKeepInvariant | contracts/entropy/EntropyOracleV2.sol:47-186 | in every run whose overrides agree with available entropy, also: genuine deliveries, and one per callback |
| EntropyRuns.Conservation | contracts/entropy/EntropyOracleV2.sol:143-149 | over every run, any overrides among it, per block and callback: registrations = pending + removed + delivered by trigger, so at most as many such deliveries as registrations |
| EntropyRuns.SameEntropy | contracts/entropy/EntropyOracleV2.sol:193-207 | in every run whose overrides agree with available entropy, all deliveries for a block, immediate or triggered, carry one non-zero value |
| EntropyRuns.NoLateRegistration | contracts/entropy/EntropyOracleV2.sol:47-58 | after every run, no transaction registers anything for a block that has entropy |
| EntropyRuns.EntropyIsSigned | contracts/entropy/EntropyOracle.sol:97-113 | in every run, entropy in a slot is the hash of a signature by the signer of that moment, provided after the block |
| EntropyRuns.EntropyKept | contracts/entropy/EntropyOracleV2.sol:193-215 | a transaction keeps all available entropy if and only if it is not an override that answers otherwise for such a block, or knows nothing of one whose entropy the contract's own slot does not hold |
| EntropyRuns.SafeExactly | contracts/entropy/EntropyOracleV2.sol:188-215 | after a steady run: no request before an override and no steady continuation ever gives a block two values if and only if the override agrees with all available entropy |
| EntropyRuns.DisagreementDelivers | contracts/entropy/EntropyOracleV2.sol:188-215 | after any run: an override that disagrees on a block can be continued so that two different values are delivered for it |
| EntropyRuns.DeliveredOnce | contracts/entropy/EntropyOracleV2.sol:143-149 | in every run whose overrides take no available entropy away, though they may replace it: at most one triggered delivery per block and callback |
| EntropyRuns.DeliveredOnceExactly | contracts/entropy/EntropyOracleV2.sol:188-215 | after such a run: an override leaves all callbacks at one delivery, whatever follows that takes none away, if and only if no block that loses its entropy by it has a delivered callback |
| EntropyRuns.SecondDelivery | contracts/entropy/EntropyOracleV2.sol:188-215 | after any run: an override that takes away the entropy of a block with a delivered callback can be continued by a request and a provision to another delivery of it |
| EntropyRuns.UnsteadyOverrideDeliversTwice | contracts/entropy/EntropyOracleV2.sol:188-215 | such a run from the initial state: a callback, registered again after an override is dropped, is delivered again, with another value |
| EntropyRuns.DrainsByMax | contracts/entropy/EntropyOracleV2.sol:150-186 | with succeeding consumers, k triggers leave max(0, N - k*max) callbacks |
| EntropyRuns.DrainsExactly | contracts/entropy/EntropyOracleV2.sol:150-186 | the list is empty after k triggers if and only if k is at least N/max rounded up |
| EntropyServer.StepKeepsInvariant | contracts/entropy/entropyserver/main.go:208-229 | each interleaved step keeps cache and answers behind the head and moves neither head nor cache back |
| EntropyServer.OnlyMinedBlocksAreSigned | contracts/entropy/entropyserver/main.go:164-188 | in every interleaving blockMined answers true only for mined blocks |
| EntropyServer.CacheFollowsHead | contracts/entropy/entropyserver/main.go:211-226 | compare-and-swap never moves the cache back or past the head |
| EntropyServer.CachedBlocksAreServed | contracts/entropy/entropyserver/main.go:208-214 | in every run, a request for a block that is in the cache when it enters is answered yes, without limiter or node |
| EntropyServer.FetchedBlocksAreServed | contracts/entropy/entropyserver/main.go:226 | in every run, the head that a request fetched and swapped in serves all later requests for blocks up to it |
| EntropyServer.SwapsExactly | contracts/entropy/entropyserver/main.go:226-228 | the cache becomes the fetched head if and only if it still is what the request loaded; the answer is yes if that head has reached the block |
| EntropyServer.RefusedExactly | contracts/entropy/entropyserver/main.go:208-229 | in every run, a request that is over was turned away if and only if the limiter refused it, the node failed it, or the head it fetched was behind its block, however far the head has come since |
| EntropyServer.MinedBlockRefusedExactly | contracts/entropy/entropyserver/main.go:164-165 | in every run, a request whose block was mined when it entered is turned away if and only if the limiter or the node refused it |
| EntropyServer.MinedBlocksAreRefused | contracts/entropy/entropyserver/main.go:164-165 | two runs that refuse a mined block: one mined before the request, one between its fetch and its answer |
| Toggle.StepKeepsInvariant | go/sync/toggle.go:33-102 | every step of any number of goroutines keeps mutual exclusion and the token count |
| Toggle.RunsKeepInvariant | go/sync/toggle.go:33-102 | the same in every state of every run |
| Toggle.SetLeavesItSet | go/sync/toggle.go:79-94 | in every run, a Set(to) that returns leaves the state at to, and a token in buffer or hands exactly if to |
| Toggle.StateIsLastSet | go/sync/toggle.go:79-94 | in every run and at every moment the state is the value of the last Set to take effect, or false |
| Toggle.StateReturnsLastSet | go/sync/toggle.go:96-102 | in every run State returns that value |
| Toggle.OffMeansNoNil | go/sync/toggle.go:56-57 | in every run, a Wait begun after a Set(false) returned does not return nil unless a later Set(true) takes effect |
| Toggle.OnCanReturnNil | go/sync/toggle.go:56-57 | after every run, with the toggle on, open and no Set under way to provide the token, a waiter in its select can go on to return nil |
| Toggle.WaitCanBeCancelled | go/sync/toggle.go:62-63 | a waiter in its select can always return its context's error |
| Toggle.OneToken | go/sync/toggle.go:18-22 | at most one token in buffer and hands together; with the mutex free there is one exactly when the toggle is on |
| Toggle.ResendNeverBlocks | go/sync/toggle.go:70 | a waiter that took the token finds the buffer empty |
| Toggle.SetTrueNeverBlocks | go/sync/toggle.go:89-90 | Set(true) finds neither a buffered nor a held token |
| Toggle.SetFalseCanProceed | go/sync/toggle.go:91-92 | Set(false) finds the token, or a waiter that can put it back |
| Toggle.WaitEndsOnlyWhenOn | go/sync/toggle.go:56-73 | a waiter takes the token only if the toggle is on or a Set(false) is in progress |
| Toggle.NilOnlyAfterToken | go/sync/toggle.go:65-71 | Wait returns nil only after holding the token of an open toggle |
| Toggle.NilMeansOn | go/sync/toggle.go:56-73 | in every run: a call of Wait that returned nil had a moment, from its entry on, when the toggle was on or a Set(false) in progress |
| Toggle.StateReadsToken | go/sync/toggle.go:96-102 | State returns true exactly when there is a token |
| Toggle.CanMoveExactly | go/sync/toggle.go:33-102 | a goroutine counts as able to move if and only if the step relation lets it, without cancellation |
| Toggle.BlockedExactly | go/sync/toggle.go:33-102 | nothing can move if and only if every goroutine is between calls or waits on a toggle that is off: no deadlock |
| Toggle.ClosedWhenOff | go/sync/toggle.go:47-51 | once closed while off, no step panics and every waiter ends with ErrToggleClosed or its context's error |
| Toggle.ClosingLeavesToken | go/sync/toggle.go:49-51 | closing leaves a token if and only if the toggle is on |
| Toggle.WaiterPanicsExactly | go/sync/toggle.go:47-51 | on a closed toggle a waiter can go on to panic if and only if it holds the token or there is one to take |
| Toggle.PanicAfterCloseExactly | go/sync/toggle.go:47-51 | in every run, from the state right after Close: some continuation by any goroutines, later waiters included, ends in a panic if and only if the toggle was on |
| Toggle.PanicIsReachable | go/sync/toggle.go:47-51 | a run of Set(true), Wait and Close from the initial state that ends in the panic |
| Firehose.StepKeepsInvariant | go/firehose/ethservice.go:294-324 | each step of producer, handler, client and canceller keeps what is delivered, in flight and reported consistent |
| Firehose.RunsKeepInvariant | go/firehose/firehose.go:132-164 | the same in every state of every run |
| Firehose.RecvReturnsPrefix | go/firehose/ethservice.go:218-229 | the responses returned by Recv are the extraction of the first blocks of the stream, in order, no gap, no repeat |
| Firehose.EofMeansComplete | go/firehose/ethservice.go:205-213 | io.EOF is returned only after the whole, unfailing stream was delivered |
| Firehose.ErrorsRepeat | go/firehose/ethservice.go:218-222 | after the first error every Recv returns that error |
| Firehose.CleanStreamsEndInEof | go/firehose/ethservice.go:205-213 | without cancellation, a stream that can be read and extracted to its end can only end in io.EOF, or in the failure to open it if it cannot be opened |
| Firehose.SetupExactly | go/firehose/ethservice.go:287-290 | in every run without cancellation, the failure to open the stream is returned if and only if it cannot be opened |
| Firehose.RecvIsExact | go/firehose/ethservice.go:294-324 | in every run without cancellation, of every upstream: the i-th call of Recv returned the i-th response before the first message that is no block or cannot be extracted, and then the one error there is to report |
| Firehose.DeliversEverything | go/firehose/ethservice.go:294-324 | every run without cancellation, of every upstream, can go on until Recv has returned all of that: every response, in order, and the error |
| Firehose.CleanStreamIsDelivered | go/firehose/firehose.go:127-166 | for a stream that opens, can be extracted and does not fail, that is every response and then io.EOF |
| Firehose.CancelledCanStop | go/firehose/ethservice.go:297-299 | once the context is done, a Recv under way can go on to return that, whatever upstream still has |
| Firehose.RecvIsNeverStuck | go/firehose/ethservice.go:223-229 | while the client is in Recv some goroutine can move |
| Firehose.StepsLowerEffort | go/firehose/ethservice.go:223-229 | while the client is in Recv every step but a cancellation makes it return or lowers a measure of what is left |
| Firehose.RecvReturnsSoon | go/firehose/ethservice.go:223-229 | in every run Recv returns within 12 steps of any goroutines, cancellations apart |
| Firehose.NothingLeaks | go/firehose/ethservice.go:218-222 | once Recv has returned an error the handler has finished and the producer can and must run to its end |
| Rarity.Tally | go/erc721/rarity.go:50-74 | the counting loops, in any order of the map, give for every trait type the number of attributes of it, for every value the number of those that have it, as text or by bucket, and for every token its last value of the type |
| Rarity.AddValues | go/erc721/rarity.go:79-82 | the inner entropy loop adds the term of every value, in any order |
| Rarity.SumEntropy | go/erc721/rarity.go:76-87 | the entropy loops give the entropy as a sum over traits and values, null values included |
| Rarity.AddScore | go/erc721/rarity.go:94-103 | the inner scoring loop gives the token's information over all traits, in any order; no entry without traits |
| Rarity.SumScores | go/erc721/rarity.go:89-104 | every token has its score, or none has when there is no trait |
| Rarity.Normalise | go/erc721/rarity.go:106-110 | every score is divided by a positive entropy, once |
| Rarity.ComputeRarity | go/erc721/rarity.go:43-115 | the result is the entropy and the scaled scores of the labels, which are those of the attributes one by one; with at most one attribute per trait type and positive entropy the scores add up to the number of tokens |
| Rarity.ScoresByValue | go/erc721/rarity.go:94-103 | for every collection, the sum of scores over tokens equals the sum over traits and values of information times number of holders |
| Rarity.WeightIsHolders | go/erc721/rarity.go:95-100 | with at most one attribute per trait type, the count a score uses is the number of tokens with that value, or without the trait |
| Rarity.ScoresSumToEntropy | go/erc721/rarity.go:76-104 | then the raw scores add up to the size times the entropy |
| Rarity.AverageScoreIsOne | go/erc721/rarity.go:20-22 | then scores scaled by a positive entropy average exactly 1 |
| Rarity.LogArgumentsInRange | go/erc721/rarity.go:102 | then every argument of a score's logarithm is positive and at most 1 |
| Rarity.EntropyArgumentsInRange | go/erc721/rarity.go:80-86 | then every argument of the entropy's logarithm is too: the probability of each value, and of a null value where it is used, that is, not 0 |
| Rarity.RepeatedTraitBreaksTheAverage | go/erc721/rarity.go:67 | four tokens, one with a trait twice, whose scores add up to 5 where the size times the entropy is 6 |
| RarityBalance.ScoresAndGaps | go/erc721/rarity.go:76-104 | for every collection, the scores exceed the size times the entropy by the logarithms of the weights times their miscounts |
| RarityBalance.BalancedExactly | go/erc721/rarity.go:76-104 | scores and entropy balance for every logarithm function if and only if, for each weight, weight minus holders adds up to 0 over the classes of that weight |
| RarityBalance.AverageIsOneExactly | go/erc721/rarity.go:106-110 | with positive entropy the scaled scores average exactly 1 if and only if the raw scores balance |
| RarityBalance.OnePerKindIsEven | go/erc721/rarity.go:56-73 | at most one attribute per trait type gives that condition, class by class |
| SolCover.ParseCode | go/solcover/solcover.go:300-326 | the index holds exactly the instruction starts, each with its ordinal, and the op codes found there |
| SolCover.StartsOfProgram | go/solcover/solcover.go:295-299 | for every program, the starts of its assembled bytes are the offsets of its instructions; nothing in PUSH data is one |
| SolCover.DataFollowsPushes | go/solcover/solcover.go:321-323 | 0x60 + k pushes k + 1 bytes for k below 32, and no other op code pushes any |
| SolCover.PushedByteIsNoInstruction | go/solcover/solcover.go:295-299 | 60 80 52 is two instructions, at 0 and 2 |
| SolCover.FillIn | go/solcover/solcover.go:345-352 | the field loop repeats exactly the blank and the missing fields |
| SolCover.ParseSrcMap | go/solcover/solcover.go:336-423 | the locations of all expanded nodes, each describing its node, or the error or panic of the first node that has none |
| SolCover.LocationDescribes | go/solcover/solcover.go:385-422 | every location has the start, length, depth, jump and source its node names; in a registered file with contents, the end is one past line and column of start + length, and the start, if the length is not 0, one past those of start |
| SolCover.AtoiReadsDecimals | go/solcover/solcover.go:368-383 | every int is read from its decimal digits, with a sign if negative |
| SolCover.DigitsExactly | go/solcover/solcover.go:368-383 | a number is read exactly from strings of digits only |
| SolCover.LocatedExactly | go/solcover/solcover.go:367-423 | a node gives a location if and only if its four numbers can be read and its file index is outside the list, as for a node with a negative number, or its file is registered and empty, or registered with both offsets inside |
| SolCover.PanicsExactly | go/solcover/solcover.go:404-406 | parsing panics if and only if the first node that is not so names a file of the source list that is not registered; it fails or panics if and only if there is such a node |
| SolCover.UnregisteredFilePanics | go/solcover/solcover.go:404-406 | the source map 0:1:0:-:0 panics when its file is not registered, and not when it is, empty |
| SolCover.ExpandedNode | go/solcover/solcover.go:343-352 | node i is text i completed from node i-1 |
| SolCover.DecompressionUndoesCompression | go/solcover/solcover.go:331-334 | every legal compression (blank repeated fields, omitted trailing ones) of every sequence of nodes expands to that sequence |
| SolCover.ShortestIsLegal | go/solcover/solcover.go:331-334 | the compressor's shortest form is a legal one |
| SolCover.CompiledContract.LocationOf | go/solcover/solcover.go:94-109 | an instruction start with an entry is found with its ordinal's location; other bytes are not found; a start without an entry is out of range |
| SolCover.SecondInstructionHasNoLocation | go/solcover/solcover.go:94-109 | two instructions and a source map of one node that is registered: the start of the second is out of range |
| SolCover.Register | go/solcover/solcover.go:182-200 | panics exactly when a node has no location or there are more nodes than instructions; otherwise each location is its node's, with its instruction's op code |
| Strings.SplitUndoesJoin | go/solcover/solcover.go:340 | splitting restores parts free of the separator |
| Strings.SplitStep | go/solcover/solcover.go:340 | the part before the first separator comes first, and then those of the rest |
| Strings.JoinUndoesSplit | go/flagtype/flagtype.go:49 | joining the parts restores the string |
| Strings.SortedIsUnique | go/flagtype/flagtype.go:34 | a set has one sorted listing |
| Strings.LessExactly | go/flagtype/flagtype.go:34 | the order is ascending by the first character that differs, the shorter of two that do not first |
| FlagType.SortedElements | go/flagtype/flagtype.go:30-34 | whatever order the map is walked in, the sorted listing of the set |
| FlagType.ListingIsUnique | go/flagtype/flagtype.go:30-34 | so String does not depend on map iteration order |
| FlagType.StringSet.String | go/flagtype/flagtype.go:28-36 | the rendering that SetRoundTrip is about |
| FlagType.StringSet.Set | go/flagtype/flagtype.go:38-53 | the old elements are gone; the new ones are those parsed |
| FlagType.PrintsInOrder | go/flagtype/flagtype.go:28-36 | the set of b and a is printed as a,b |
| FlagType.SetRoundTrip | go/flagtype/flagtype.go:14-16 | Set(String(s)) restores s if and only if no element has a comma and s is not {""} |
| FlagType.StringToStringSet.String | go/flagtype/flagtype.go:72-84 | the rendering that MapRoundTrip is about |
| FlagType.StringToStringSet.Set | go/flagtype/flagtype.go:86-107 | panics if and only if some part has no "="; what is in place then, or at the end, has the keys of the parts before the first such part, each with the set of the last part of that key |
| FlagType.DocumentedMap | go/flagtype/flagtype.go:65-68 | foo=a,b;baz= is {foo: [a,b], baz: []} |
| FlagType.PanicsExactly | go/flagtype/flagtype.go:97-106 | the same of the parsed map |
| FlagType.MapRoundTrip | go/flagtype/flagtype.go:60-71 | Set(String(m)) restores m if and only if no key has ';' or '=', no value ';' or ',', and no set is {""} |
| FlagType.PanicIsFinal | go/flagtype/flagtype.go:97-99 | parts after the first bad one make no difference |
| IntSqrt.NewtonStaysAbove | contracts/constants/src/Math.sol:25 | an iterate is never below the root, whatever it is computed from |
| IntSqrt.NewtonStopsBelow | contracts/constants/src/Math.sol:23 | an iterate that does not decrease is at most the root |
| IntSqrt.SumInRange | contracts/constants/src/Math.sol:25 | no sum of the loop overflows 256 bits |
| IntSqrt.Iterate | contracts/constants/src/Math.sol:21-28 | the loop terminates, strictly decreasing, at the root |
| IntSqrt.IntSqrt | contracts/constants/src/Math.sol:12-29 | root^2 <= x < (root+1)^2 for every uint256 |
| IntSqrt.RootIsUnique | contracts/constants/src/Math.sol:7 | that determines the root |
| LastBlockBy.Search | go/eth/eth.go:114-126 | on blocks in order of time: fails exactly when it looks for one that is not there; otherwise ends one past the last block mined in time, having kept that block exactly if it looked at no other of its time; at most floor(log2 n)+1 fetches |
| LastBlockBy.Find | go/eth/eth.go:81-139 | on blocks in order of time, for ranges with any ends: a failed fetch exactly when the search looks past the last int, not found exactly when no block is mined in time, the broken invariant exactly on a tie, otherwise the last block by the time; on strictly increasing times below 2^63 never an error but not found; not found without a fetch when the converted length is not positive; every other error under its condition; without a hint the blocks from 0 to the latest are searched, and up to the latest where the hint names no last one |
| LastBlockBy.ProbesOfFour | go/eth/eth.go:107-114 | of four blocks the third is looked at first, then the fourth if the third is mined in time, else the second and the first |
| LastBlockBy.TieBreaksInvariant | go/eth/eth.go:132-136 | blocks of times 1, 2, 5, 5: of 5, the last block is there and the broken invariant is reported |
| LastBlockBy.ReversedIsSearched | go/eth/eth.go:114 | a reversed range has a positive length if and only if its ends are more than 2^63 + 1 apart |
| LastBlockBy.SearchLengthExact | go/eth/eth.go:114 | for all uint64 ends: the converted length is the length of the range if and only if that fits in an int |
| LastBlockBy.TooLongIsEmpty | go/eth/eth.go:114 | a range of 2^63 blocks or more is searched as an empty one |

## Left out

- go/galois/polynomial.go: it calls functions with other signatures than fft.go and convolution.go have.
- Inputs of length 0 to `FFT`, on which the recursion does not end, and to `Convolve`: preconditions.
- Convolution.ConvolutionSize: the combined length is at most 2^62, so that the size fits in an int.
- RootOfUnity.FindRoot: the reader is a finite sequence of draws in [0, q) after which it fails; that the search ends with probability 1 is not stated. Of n = 0 the model returns an error where the source divides by zero and panics.
- FisherYates.Shuffler.Permute: the returned slice shares memory with the shuffler in Go; here it is a copy. Integers are unbounded, `uint32` conversions are explicit.
- EntropyOracle.Oracle.RequestEntropyWithCallback: consumers succeed or fail and do not call back into the oracle; calls to an override do not revert. Signature recovery, hashing and the answers of overrides are uninterpreted, fixed functions, and hashes exceed 1.
- Role administration, block digests, events other than those about callbacks, and the view functions that only index the callbacks.
- EntropyServer.StepKeepsInvariant: the head never decreases and the node answers with it; HTTP and header handling are left out.
- Toggle.StepKeepsInvariant: one `Close`, not during a `Set`, and no `Set` during or after it, as documented.
- Firehose.StepKeepsInvariant: gRPC, cursors and the contents of blocks are left out; whether the stream can be opened is a fact of the upstream, though a done context may prevent it; a block is extracted by an arbitrary partial function; the proxy's `Close` is called once, by the handler.
- Firehose.RecvReturnsSoon: that enabled steps are eventually taken is not stated; upstream's answer to a read is one step.
- Rarity.ComputeRarity: reals for floats, an arbitrary function for the logarithm, and a bucket function of a number for non-string values; a nil metadata entry panics in Go and is not modelled.
- SolCover.ParseCode: hexadecimal decoding and library placeholders are left out; the code is a sequence of bytes.
- SolCover.ParseSrcMap: the library that finds lines and columns is an arbitrary partial function of the offset.
- LastBlockBy.Find: where times decrease or blocks within an int are missing, and for reversed ranges, only the errors and the time of the block are stated; a node's special meanings of negative numbers are not modelled.
- EntropyRuns.SafeExactly: assumes that a block can be given other entropy than a certain value, by some signature; callbacks in the continuation are counted by value only.
- EntropyRuns.DeliveredOnceExactly: assumes that every block has some recoverable signature, for the second delivery.
- Convolution.Convolve: the elements of slices are numbers, not pointers; the transforms copy them and change only the copies.
- FlagType.StringSet.String: strings are sequences of characters, ordered by character.
- go/usbwallet, go/ethkms, go/eth/signer.go, go/eth/nullable.go, proto: these forward to other libraries.
- Regular expressions for contract matching, LCOV output, HTTP, gRPC, Docker, Discord, IPFS and build rules: input and output without a hard property.
