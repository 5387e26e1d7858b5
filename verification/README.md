# Threshold secret recovery: a verified model

This project models, in Dafny, the reconstruction engine of a small
Shamir-style secret-recovery tool (`src/recoverSecret.js`). The tool reads
shares `(x, value, base)` and a threshold `k`, and then:

- decodes each share value from its base with `parseInt`;
- for subset sizes from `min(k, n)` up to `n`, enumerates every subset of
  the points with a backtracking `getCombinations`;
- evaluates the Lagrange polynomial of each subset at `x = 0` with BigInt
  arithmetic (`interpolateAtZero`);
- counts the secrets in an insertion-ordered `Map`;
- stops at the first size that produced any secret, and returns the secret
  with the highest count. On a tie, the entry inserted first wins.

The model is split into six modules:

- `Outcomes` (`outcomes.dfy`): `Option`, `Result` and the error cases.
  The errors are an invalid base, a value that is not a number, a zero
  denominator, too few points, and no valid subset.
- `Sequences` (`sequences.dfy`): the first position of a value in a
  sequence, used for points in `Lagrange` and for secrets in `Consensus`.
- `ShareDecoding` (`share_decoding.dfy`): `parseInt` on exact integers,
  following section 19.2.5 of ECMA-262, and `decodeShareValue`. The model
  covers leading white space, the sign, ToInt32 of the radix, the `0x`
  prefix, the longest digit run, and NaN.
- `Lagrange` (`lagrange.dfy`): `interpolateAtZero`. It is an imperative
  method with both nested loops, proved against the function
  `Interpolation`. BigInt division is modelled as truncation toward zero.
- `Combinations` (`combinations.dfy`): `getCombinations`. The shared
  `combo` buffer and `results` list are fields of a class `Enumerator`, and
  `Helper` pushes, recurses and pops on them. The enumeration is specified
  by the index tuples `Tuples(lo, n, m)` in the order `helper` visits them.
- `Consensus` (`consensus.dfy`): the size loop with its early break, the
  tally and the `reduce`, all specified by `RecoverSpec`. It also covers
  the decoding of all shares before the search.

Three specification functions take a function value as a parameter:
`Successes` (the interpolation of one subset), `Search` (the tally of one
size) and `DecodeAll` (the decoding of one share). The model instantiates
them with the concrete `Lagrange.Interpolation`, `Consensus.TallyAt` and
`Consensus.DecodeShare`. With the parameter, the lemmas about counting,
searching and mapping do not depend on how a secret is computed.

The division in `interpolateAtZero` is BigInt division. It truncates toward
zero and drops any remainder without raising an error. The model follows the
code. A subset whose terms do not divide evenly therefore still yields a
secret, which is usually wrong. `Lagrange.TruncatedPairExample` shows this:
the points (1, 1494) and (3, 1898) lie on y = 1292 + 202x, yet they give 1494.
Only a zero denominator makes a subset fail.

## Model

| member | source | states |
|---|---|---|
| ShareDecoding.DigitValue | src/recoverSecret.js:9 | a character's digit value is at most 36, and below 36 only for 0-9, a-z and A-Z |
| ShareDecoding.DigitChar | src/recoverSecret.js:9 | the digit character written for d has digit value d |
| ShareDecoding.ToInt32Congruent | src/recoverSecret.js:5 | the radix conversion lands in the signed 32-bit range and differs from its argument by a multiple of 2^32 |
| ShareDecoding.TrimStartSuffix | src/recoverSecret.js:9 | parseInt continues on a suffix of the text that does not start with white space, and only white space was skipped |
| ShareDecoding.DigitRun | src/recoverSecret.js:9 | the digit run is no longer than the text |
| ShareDecoding.DigitRunMaximal | src/recoverSecret.js:9 | every character of the run is a digit of the radix, and the character after it is not |
| ShareDecoding.ParseInt | src/recoverSecret.js:9 | a radix outside [2, 36] other than 0 gives NaN |
| ShareDecoding.DecodeShareValue | src/recoverSecret.js:4-10 | InvalidBase exactly when the base parses to NaN or to a number outside [2, 36]; on success the value is what parseInt reads in that base; NotANumber exactly when the base is valid and parseInt gives NaN; no other error is possible |
| ShareDecoding.ToDigits | src/recoverSecret.js:9 | the digits written for n are non-empty and all digits of the radix |
| ShareDecoding.ValueOfToDigits | src/recoverSecret.js:9 | the positional value of the digits of n is n |
| ShareDecoding.DigitRunOfDigits | src/recoverSecret.js:9 | on a text made only of digits the digit run is the whole text |
| ShareDecoding.DigitIsPlain | src/recoverSecret.js:9 | a digit character is neither white space nor a sign |
| ShareDecoding.ParseLeadingRun | src/recoverSecret.js:9 | a text starting with a digit parses to the value of its longest leading run of digits, except that in radix 16 a "0x"/"0X" prefix is skipped first (that case is excluded) |
| ShareDecoding.ParseNoLeadingDigit | src/recoverSecret.js:9 | a text whose first character is not white space, a sign or a digit parses to NaN |
| ShareDecoding.ParsePlainDigits | src/recoverSecret.js:9 | a plain digit string parses to its positional value, with an explicit radix or the default radix 10 |
| ShareDecoding.MagnitudeOfDigits | src/recoverSecret.js:9 | after the sign, a plain digit string is read whole as its positional value |
| ShareDecoding.ParseToDigits | src/recoverSecret.js:9 | round trip: for n below 2^53, the digits of n in any radix 2..36 parse back to n |
| ShareDecoding.DecodeToDigits | src/recoverSecret.js:4-10 | round trip: for n below 2^53, n written in base b, with b written in decimal, decodes to n |
| ShareDecoding.DecodeParsed | src/recoverSecret.js:4-10 | with a valid base, decoding returns what parseInt reads, or NotANumber for NaN |
| ShareDecoding.ParseBase2 | src/recoverSecret.js:5 | parseInt("2") is 2 |
| ShareDecoding.ParseBase16 | src/recoverSecret.js:5 | parseInt("16") is 16 |
| ShareDecoding.ParseBase36 | src/recoverSecret.js:5 | parseInt("36") is 36 |
| ShareDecoding.ParseUpperHex | src/recoverSecret.js:9 | parseInt("1A", 16) is 26 |
| ShareDecoding.ParseLowerHex | src/recoverSecret.js:9 | parseInt("1a", 16) is 26 |
| ShareDecoding.ParseBinary | src/recoverSecret.js:9 | parseInt("101", 2) is 5 |
| ShareDecoding.ParseBase36Digit | src/recoverSecret.js:9 | parseInt("Z", 36) is 35 |
| ShareDecoding.DecodeHexExample | src/recoverSecret.js:4-10 | "1A" in base "16" decodes to 26 |
| ShareDecoding.DecodeLowerHexExample | src/recoverSecret.js:4-10 | "1a" in base "16" decodes to 26 (letters are case-insensitive) |
| ShareDecoding.DecodeBase36Example | src/recoverSecret.js:4-10 | "Z" in base "36" decodes to 35 |
| ShareDecoding.DecodeBinaryExample | src/recoverSecret.js:4-10 | "101" in base "2" decodes to 5 |
| ShareDecoding.DecodeBadDigitExample | src/recoverSecret.js:9 | "2" in base "2" is NaN, so BigInt throws |
| ShareDecoding.DecodeBadBaseExamples | src/recoverSecret.js:6-7 | bases "37" and "1" are rejected |
| ShareDecoding.DecodeNaNBaseExample | src/recoverSecret.js:6-7 | a base that is not a number ("ten") is rejected |
| Lagrange.TruncDivRemainder | src/recoverSecret.js:27 | BigInt division leaves a remainder smaller than the divisor with the sign of the dividend |
| Lagrange.TruncDivExact | src/recoverSecret.js:27 | when the denominator divides the numerator the quotient is exact |
| Lagrange.InterpolateAtZero | src/recoverSecret.js:12-31 | the nested loops return Interpolation(pts): the accumulated terms, or DivisionByZero at the first zero denominator |
| Lagrange.InterpolationClosedForm | src/recoverSecret.js:12-31 | the result is the sum of all terms y_i * trunc(num_i / den_i), or DivisionByZero when some denominator is zero |
| Lagrange.ClosedFormFrom | src/recoverSecret.js:15-28 | the outer loop from point i on, started from the partial sum, ends in the closed form |
| Lagrange.ProdByAppend | src/recoverSecret.js:20-25 | one more point multiplies one more factor in |
| Lagrange.DenZeroPrefix | src/recoverSecret.js:20-25 | the denominator built so far is zero exactly when an earlier other point repeats x_i |
| Lagrange.DenZeroIff | src/recoverSecret.js:20-25 | the denominator of point i is zero exactly when another point has the same x |
| Lagrange.InterpolationFailsIffDuplicateX | src/recoverSecret.js:12-31 | interpolateAtZero throws exactly when two points share an x, and then with DivisionByZero |
| Lagrange.SinglePoint | src/recoverSecret.js:12-31 | a single point interpolates to its own y |
| Lagrange.NoPoints | src/recoverSecret.js:12-31 | no points give 0 |
| Lagrange.ProdByRemove | src/recoverSecret.js:20-25 | a product is the product without one point times that point's factor |
| Lagrange.PermRemove | src/recoverSecret.js:20-25 | the last point of one ordering occurs in another ordering of the same points, and removing it leaves orderings of the same points |
| Lagrange.ProdByPerm | src/recoverSecret.js:20-25 | the product of the factors does not depend on the order of the points |
| Lagrange.Others | src/recoverSecret.js:20-22 | the points the inner loop multiplies in number one fewer than the points seen when i is among them |
| Lagrange.PartialIsProdBy | src/recoverSecret.js:20-25 | the inner loop's product is the product over all points other than point i |
| Lagrange.OthersSlices | src/recoverSecret.js:20-22 | the points other than point i are the points before and after it |
| Lagrange.OthersMultiset | src/recoverSecret.js:20-22 | the points other than point i, plus point i, are all the points |
| Lagrange.OthersOfSamePoint | src/recoverSecret.js:15-25 | the same point has the same numerator and denominator in any ordering of the points |
| Lagrange.SumOverRemove | src/recoverSecret.js:15-28 | a sum of point terms is the sum without one point plus that point's term |
| Lagrange.SumOverPerm | src/recoverSecret.js:15-28 | the sum of the point terms does not depend on the order in which they are added |
| Lagrange.SumTermsIsSumOver | src/recoverSecret.js:15-28 | the outer loop's sum is the sum of the terms of the points visited |
| Lagrange.SumOverSameTerms | src/recoverSecret.js:15-28 | two orderings of the same points give every point the same term |
| Lagrange.NoZeroDenPerm | src/recoverSecret.js:20-25 | no zero denominator in one ordering means none in another |
| Lagrange.InterpolationPermutation | src/recoverSecret.js:12-31 | the result, or the failure, is the same for every ordering of the points |
| Lagrange.PairProducts | src/recoverSecret.js:20-25 | the numerators and denominators of a pair of points |
| Lagrange.TwoPointExample | src/recoverSecret.js:12-31 | (1, 1494), (2, 1696) give 1292 |
| Lagrange.ShiftedPairExample | src/recoverSecret.js:12-31 | (2, 1696), (3, 1898) give 1292 |
| Lagrange.TruncatedPairExample | src/recoverSecret.js:27 | (1, 1494), (3, 1898) give 1494: truncation drops the remainders |
| Combinations.Enumerator.constructor | src/recoverSecret.js:34 | a new enumeration starts with an empty combo and no results |
| Combinations.Enumerator.Helper | src/recoverSecret.js:36-46 | helper appends combo followed by every completion from start, in the order of Tuples, and leaves combo as it found it |
| Combinations.GetCombinations | src/recoverSecret.js:33-50 | getCombinations(arr, k) returns Combos(arr, k) |
| Combinations.ExtendAppend | src/recoverSecret.js:41-45 | the lists for two blocks of tuples are the lists of each block, in order |
| Combinations.ExtendPrefix | src/recoverSecret.js:42-43 | completing combo with tuples that start with i is completing combo + [arr[i]] with the rest |
| Combinations.ExtendRangeStep | src/recoverSecret.js:41-45 | one more turn of the for loop appends the completions that start with arr[i] |
| Combinations.RangeFront | src/recoverSecret.js:41-45 | the loop's blocks read from the front: the completions that start at lo, then the rest |
| Combinations.TuplesShape | src/recoverSecret.js:36-46 | every enumerated tuple has m strictly increasing indices in [lo, n) |
| Combinations.TuplesShapeStep | src/recoverSecret.js:41-45 | the shape carries over from the tuples from lo + 1 to the tuples from lo |
| Combinations.PrefixShape | src/recoverSecret.js:42-43 | putting i in front of tuples drawn above i keeps them increasing |
| Combinations.TuplesSorted | src/recoverSecret.js:36-46 | the tuples come in strictly increasing lexicographic order |
| Combinations.TuplesAtMostOne | src/recoverSecret.js:37-40 | with no index or no entry left there is at most one tuple |
| Combinations.TuplesSortedStep | src/recoverSecret.js:41-45 | sortedness carries over from the tuples from lo + 1 to the tuples from lo |
| Combinations.SortedPrefix | src/recoverSecret.js:42-43 | putting the same index in front keeps tuples sorted |
| Combinations.PrefixBefore | src/recoverSecret.js:41-45 | the tuples that start with i come before those that start above i |
| Combinations.SortedAppend | src/recoverSecret.js:41-45 | two sorted blocks, the first below the second, make a sorted list |
| Combinations.TuplesDistinct | src/recoverSecret.js:36-46 | no index tuple is enumerated twice |
| Combinations.RangeContains | src/recoverSecret.js:41-45 | a completion that starts with i is produced by the loop once i has been passed |
| Combinations.TuplesComplete | src/recoverSecret.js:36-46 | every strictly increasing tuple of indices in [lo, n) is enumerated |
| Combinations.TuplesCount | src/recoverSecret.js:36-46 | there are C(n - lo, m) tuples |
| Combinations.TuplesNegative | src/recoverSecret.js:37 | a negative k is never reached by the pushes, so nothing is enumerated |
| Combinations.ChooseAbove | src/recoverSecret.js:33-50 | C(n, m) is 0 for m > n |
| Combinations.ChooseWithin | src/recoverSecret.js:33-50 | C(n, m) is at least 1 for m <= n |
| Combinations.CombosCount | src/recoverSecret.js:33-50 | getCombinations returns C(n, k) lists for 0 <= k <= n, and none for other k |
| Combinations.CombosShape | src/recoverSecret.js:33-50 | each list is arr at k strictly increasing in-range indices, and the index tuples are in lexicographic order |
| Combinations.PickIndex | src/recoverSecret.js:38 | an in-range tuple picks arr at each of its indices |
| Combinations.CombosComplete | src/recoverSecret.js:33-50 | every choice of strictly increasing indices of arr is among the lists |
| Combinations.TuplesOfLastIndex | src/recoverSecret.js:41-45 | one index from {2} gives [[2]] |
| Combinations.TuplesOfLastTwo | src/recoverSecret.js:41-45 | one index from {1, 2} gives [[1], [2]] |
| Combinations.ThreeChooseTwoTuples | src/recoverSecret.js:36-46 | 2 of 3 indices are visited as [0, 1], [0, 2], [1, 2] |
| Combinations.PickPair | src/recoverSecret.js:38 | a pair of indices picks the pair of elements |
| Combinations.ThreeChooseTwoExample | src/recoverSecret.js:33-50 | getCombinations([a, b, c], 2) is [[a, b], [a, c], [b, c]] |
| Consensus.Keys | src/recoverSecret.js:99 | the tally has one key per entry |
| Sequences.FirstIndex | src/recoverSecret.js:88 | the first occurrence of a value (a secret in the tally, a point in the interpolation proofs) holds it, and no earlier position does |
| Consensus.Search | src/recoverSecret.js:82-93 | the size the search stops at lies in [size, total] and has a non-empty tally |
| Consensus.MostFrequent | src/recoverSecret.js:99-101 | the reduce returns an entry of the tally whose count is at least every other count |
| Consensus.Recover | src/recoverSecret.js:71-103 | the consensus part returns RecoverSpec: NotEnoughPoints below two points, otherwise the winner of the first non-empty size, or NoValidCombination |
| Consensus.SearchSizes | src/recoverSecret.js:82-93 | the size loop stops at the first size with a non-empty tally and returns that tally, or an empty tally when there is none |
| Consensus.SearchStep | src/recoverSecret.js:82-93 | a size with a non-empty tally ends the search, and an empty one moves to the next size |
| Consensus.TallySize | src/recoverSecret.js:83-90 | the inner loop returns the tally of all subsets of the size |
| Consensus.TallyStep | src/recoverSecret.js:85-90 | one more subset bumps its secret, or leaves the tally alone when interpolation throws |
| Consensus.BumpCount | src/recoverSecret.js:88 | a set raises the count of its secret by one and leaves the others alone |
| Consensus.BumpKeys | src/recoverSecret.js:88 | an existing key keeps its place and a new key goes last |
| Consensus.DedupMembers | src/recoverSecret.js:88 | the keys in first-occurrence order are the distinct secrets, each once |
| Consensus.TallyCounts | src/recoverSecret.js:85-90 | the tally counts each secret as often as it occurs, with keys in order of first occurrence |
| Consensus.KeysIndex | src/recoverSecret.js:99 | the p-th key is the secret of the p-th entry |
| Consensus.CountOfEntry | src/recoverSecret.js:88 | with distinct keys, get reads the stored count of the key, and 0 for an absent key |
| Consensus.OccurrencesPositive | src/recoverSecret.js:88 | a secret occurs exactly when its count is positive |
| Sequences.FirstIndexPrefix | src/recoverSecret.js:88 | appending secrets does not move a first occurrence |
| Consensus.DedupOrder | src/recoverSecret.js:88 | the keys are in order of first occurrence |
| Consensus.MostFrequentIsFirstMax | src/recoverSecret.js:99-101 | the reduce keeps the first entry with the highest count |
| Consensus.SearchFirst | src/recoverSecret.js:82-93 | the search stops at the first size with a non-empty tally, and fails only when every size is empty |
| Consensus.SearchSkip | src/recoverSecret.js:82-93 | sizes with empty tallies are passed over |
| Consensus.MostFrequentWinner | src/recoverSecret.js:99-101 | the returned secret occurs as often as any other, and a secret that occurs as often is returned only if it occurs first |
| Consensus.RecoverWinner | src/recoverSecret.js:82-103 | the recovered secret is produced by the most subsets of the stopping size, with ties going to the secret produced first |
| Consensus.SearchBelowZero | src/recoverSecret.js:77-83 | a negative k searches from size 0, since negative sizes have no subsets |
| Consensus.PickDistinctX | src/recoverSecret.js:83 | a subset of points with distinct labels has distinct labels |
| Consensus.SuccessesNonEmpty | src/recoverSecret.js:85-92 | one subset that interpolates makes the tally non-empty |
| Consensus.TallyAtDistinctX | src/recoverSecret.js:82-92 | with distinct labels, every size from 0 to n has a non-empty tally |
| Consensus.RecoverDistinctX | src/recoverSecret.js:71-103 | with distinct labels and at least two points, the search stops at the first size it tries, min(k, n), or 0 when k is negative, and a secret is returned |
| Consensus.DecodeAllSucceeds | src/recoverSecret.js:62-69 | decoding succeeds exactly when every share decodes |
| Consensus.DecodeAllPoints | src/recoverSecret.js:62-69 | a successful decoding gives one point per share, in order, labelled by the share and valued by its decoding |
| Consensus.DecodeAllFirstError | src/recoverSecret.js:62-69 | a failed decoding carries the error of the first share that does not decode |
| Consensus.RecoverSecret | src/recoverSecret.js:62-103 | a decoding error is returned as is; otherwise the result is RecoverSpec of the decoded points |
| Consensus.ThreePointSuccesses | src/recoverSecret.js:83-90 | the pairs of (1, 1494), (2, 1696), (3, 1898) give 1292, 1494, 1292 |
| Consensus.ThreePointTally | src/recoverSecret.js:85-90 | counting 1292, 1494, 1292 gives 1292 twice, then 1494 once |
| Consensus.ThreePointWinner | src/recoverSecret.js:99-101 | the reduce over that tally keeps 1292 |
| Consensus.OutcomeAt | src/recoverSecret.js:95-103 | a search that starts at a size with a non-empty tally returns that tally's winner |
| Consensus.ThreePointExample | src/recoverSecret.js:71-103 | the three points with k = 2 recover 1292 |

## Left out

- DecodeShareValue: parseInt's result is a Number, an IEEE-754 double, and the model keeps the exact integer instead. Two effects of the double are not modelled. Above 2^53 the double loses digits before BigInt sees it, so "9007199254740993" in base "10" decodes to 9007199254740992. From 2^1024 up parseInt gives Infinity, and `BigInt(Infinity)` throws a RangeError at `src/recoverSecret.js:9`; line 68 is outside any `try`, so the program aborts the whole recovery where the model returns `Ok`.
- ParseToDigits: the round trip is stated only for n below 2^53. Above that bound parseInt's double rounds the value, so the program does not round-trip.
- DecodeToDigits: the round trip is stated only for n below 2^53, for the same reason as ParseToDigits.
- Reading the file, JSON parsing and the check of `keys.k` are not modelled (`src/recoverSecret.js:53-60`). These are I/O and input validation; the model starts from the parsed shares and `k`.
- The check that `value` and `base` are present is not modelled (`src/recoverSecret.js:65-67`). A `Share` always carries both texts.
- The command-line driver `index.js` is not part of this model.
- `k` is modelled as an integer. A `k` that is a fractional number is left out.
- SearchSizes: `size` at `src/recoverSecret.js:77` and `:82` is a Number, and the model counts with an exact integer. At or below -2^54, and for a `k` of -Infinity (which `JSON.parse("-1e999")` produces and the `typeof` test at line 56 lets through), `size++` rounds back to `size`, so the source never leaves the size loop. The model's counter climbs to size 0, and `Recover` returns `Ok(0)` there. Between -2^54 and -2^53 the source's counter is not exact either. The model therefore matches the source only for `k` from -2^53 up.
- The labels `x` are taken as integers. The NaN that `parseInt(x)` gives for a key that is not numeric is not modelled.
- InterpolateAtZero: the labels are Numbers from `parseInt(x)` at `src/recoverSecret.js:68`, and `BigInt(xi - xj)` at line 24 rounds the difference to a double before BigInt sees it. The model subtracts exact integers (`Lagrange.FactorAt`), so it agrees with the source only while every |xi - xj| is at most 2^53. For the points (9007199254740992, 5) and (-1, 7), the source rounds both denominators to ±2^53 and returns 7, while `Interpolation` gives `Ok(0)`. Labels beyond 2^53 are also rounded by `parseInt` itself, which is not modelled either.
- The order of the shares is the order of the input sequence. How `Object.entries` orders integer-like keys is not modelled.
- The tally is keyed by the integer secret, while the source keys it by the secret's decimal string. BigInt's `toString()` is injective, so the counts are the same.
- Pick skips an index past the end of the array. The enumeration never produces such an index (`Combinations.TuplesShape`).
- `results.push([...combo])` copies the buffer. With value sequences every push is already a copy, so aliasing between `combo` and `results` cannot arise in the model and is not modelled.
- Detecting a non-zero remainder is not modelled, because the code does not do it. BigInt division truncates, so such a subset yields a truncated value instead of being discarded.
- Only a thrown interpolation is caught (`src/recoverSecret.js:86-89`). In the model that is a zero denominator, the only way the BigInt arithmetic can throw there.
