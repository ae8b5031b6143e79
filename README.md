# Optimal q-gram hashing (`ohash2.c`)

`search(x, m, y, n)` counts the occurrences of the pattern `x[0..m-1]` in the text
`y[0..n-1]` with a Horspool-style q-gram hashing matcher. It picks q from the pattern's
longest repeated factor. It builds the suffix array of the pattern (`buildSuffixArray`,
whose comparator is `cmp`). It computes the largest longest-common-prefix of
rank-adjacent suffixes with Kasai's algorithm (`computeMaxLCP`). It copies the pattern
and the byte after it behind the text, as a sentinel. Then it runs `ohash<q>`
for q = maxLCP + 1 when q <= 10, and `hash8` otherwise.

Each matcher does the same two things.
- It preprocesses a shift table indexed by the key of a q-byte window. Every bucket
  starts at a default. Each window of the pattern ending at k stores m - 1 - k in its
  bucket, so a later window overwrites an earlier one. These are the first window
  (ending at q - 1, storing m - q) and then every window ending before m - 1. When
  m = q the first window is also the last one, and it stores 0. The pattern's final
  bucket is then read into `sh1` (raised from 0 to 1) and cleared.
- It scans, adding the shift of the text window ending at the current position until
  a zero shift marks a candidate. It compares the candidate with the pattern, counts
  it, and moves on by `sh1`. When the candidate lies past the text, it returns the
  count.

The model is imperative Dafny over arrays, and every method is proved against a pure
specification:
- `Text`: the lexicographic order that `strcmp` decides, longest common prefixes, and
  occurrence counts (`CountOcc`).
- `SuffixArrays`: `cmp`, and `buildSuffixArray` with an insertion sort in the role of
  `qsort`. The result is proved to be a permutation of 0..m-1 whose suffixes are
  sorted.
- `Repetition`: `computeMaxLCP`.
  - For any permutation the result lies in [0, max(0, n-1)].
  - For the true suffix array it equals the largest LCP of rank-adjacent suffixes,
    and it is the length of the longest factor that occurs at two different
    positions.
  - Kasai's inequality is proved.
- `Hashing`: the window keys of all eleven matchers. One `Strategy` value stands for
  the matcher: `Order(q)` is `ohash<q>` and `Fallback(wsize)` is `hash8`. The module
  also holds the standalone `HS`.
- `ShiftTables`: the preprocessing, one method for all the matchers, specified by
  `ShiftTable` and `Sh1`. Its properties are proved about those functions.
- `Scanning`: the searching loop. It returns exactly `CountOcc` and skips no
  occurrence.
- `OHash`: the matchers, `search` with its sentinel write and dispatch, and worked
  examples.

The model follows the code in two places where it behaves less uniformly than one
might expect.
- `ohash10` and `hash8` reduce their hash to the table size, but `ohash3` .. `ohash9`
  index the table with the unreduced shift-by-one hash.
  - For windows of at most 8 bytes this is the same bucket (`Hashing.RawIndexFits`).
  - For `ohash9` the index can leave the table (under Findings).
- `search` does not reject m = 0. For an empty pattern it runs `ohash1`, which returns
  -1, and `OHash.Search` does the same.

The pattern copy that `search` writes behind the text stays there: the caller treats
that region as scratch. `OHash.Search` states the new contents of the whole buffer, and
`OHash.SearchTwice` shows that the copy does not change a repeated search.

## Model

| member | source | states |
|---|---|---|
| Text.LexLeqReflexive | ohash2.c:48-50 | every suffix compares no later than itself |
| Text.LexLeqTotal | ohash2.c:48-50 | any two byte strings are ordered one way or the other, so the comparator is total |
| Text.LexLeqAntisymmetric | ohash2.c:48-50 | strings ordered both ways are equal |
| Text.LexLeqTransitive | ohash2.c:48-50 | the order of `strcmp` is transitive, as sorting needs |
| Text.LexLeqAfterCommonPrefix | ohash2.c:48-50 | after a common prefix, the order is that of what follows |
| Text.LCP | ohash2.c:94-96 | the longest common prefix is no longer than either string |
| Text.LCPIsCommonPrefix | ohash2.c:94-96 | the LCP is a common prefix, and the bytes after it differ when both exist |
| Text.LCPUnique | ohash2.c:94-96 | a common prefix ending at a mismatch or at an end is the LCP, which is where the inner `while` stops |
| Text.LCPSymmetric | ohash2.c:94-96 | the LCP does not depend on the argument order |
| Text.LCPAtLeast | ohash2.c:94-96 | every common prefix is at most the LCP |
| Text.LCPBetween | ohash2.c:91-102 | a suffix sorted between two others shares at least as much with the upper one as the lower one does |
| Text.CountBelowSaturates | ohash2.c:262-265 | counting occurrences past the last possible start changes nothing |
| Text.CountBelowGap | ohash2.c:250-253 | a stretch without occurrences does not change the count |
| Text.PatternLongerThanText | ohash2.c:254 | a pattern longer than the text occurs nowhere |
| Text.MatchAtPrefix | ohash2.c:254-259 | an occurrence in y[..n] is one in the whole buffer that ends within n |
| SuffixArrays.PermutationOnto | ohash2.c:86-88 | a permutation of 0..n-1 takes every value, so every ISA entry is written |
| SuffixArrays.SwapKeepsPermutation | ohash2.c:69 | exchanging two entries keeps a permutation |
| SuffixArrays.IdentityIsPermutation | ohash2.c:62-65 | 0, 1, .., n-1 is a permutation |
| SuffixArrays.SortedGlobally | ohash2.c:69 | in a sorted suffix array every rank sorts no later than every higher rank |
| SuffixArrays.CmpDecides | ohash2.c:48-50 | after the common prefix, the differing byte (or which suffix ended) decides the order |
| SuffixArrays.Cmp | ohash2.c:48-50 | returns 0 exactly when the suffix at a sorts strictly before the one at b, otherwise 1 |
| SuffixArrays.Swap | ohash2.c:69 | exchanges two entries and changes nothing else |
| SuffixArrays.InsertingStep | ohash2.c:69 | swapping an out-of-order adjacent pair keeps a permutation and moves the insertion down |
| SuffixArrays.InsertingDone | ohash2.c:69 | once the moving entry is in order, the prefix is sorted |
| SuffixArrays.SwapInPrefix | ohash2.c:69 | an adjacent exchange below k rearranges a[..k] and leaves a[k..] alone |
| SuffixArrays.InsertSuffix | ohash2.c:69 | inserting entry i keeps a permutation and extends the sorted prefix by one; a[..i+1] is a rearrangement of its old contents and a[i+1..] is unchanged |
| SuffixArrays.SortSuffixes | ohash2.c:69 | leaves a permutation of 0..n-1 whose suffixes are in lexicographic order |
| SuffixArrays.Identity | ohash2.c:62-65 | a new array with a[k] == k for every k, hence a permutation |
| SuffixArrays.Copy | ohash2.c:72-74 | a new array with the same contents |
| SuffixArrays.BuildSuffixArray | ohash2.c:54-78 | the result is the suffix array of txt[..n]: a sorted permutation of 0..n-1 |
| Repetition.MaxAdjLCPIsMax | ohash2.c:101 | the running maximum bounds every rank-adjacent LCP and equals one of them |
| Repetition.RankLCPBound | ohash2.c:91-102 | among sorted suffixes, any lower rank shares with rank hi at most its neighbour's LCP |
| Repetition.RankOrder | ohash2.c:86-88 | distinct suffixes in order have ISA ranks in the same order |
| Repetition.PairBelowMax | ohash2.c:81-104 | the LCP of any two different positions is at most the rank-adjacent maximum |
| Repetition.RepeatAttained | ohash2.c:81-104 | two different positions share exactly the rank-adjacent maximum |
| Repetition.LongestRepeat | ohash2.c:81-104 | the rank-adjacent maximum is the length of the longest repeated factor |
| Repetition.ShiftedPair | ohash2.c:92 | dropping a shared first byte keeps the order and lowers the LCP by one |
| Repetition.BelowInRank | ohash2.c:93-96 | a suffix below the one at v shares with it no more than v's rank predecessor does |
| Repetition.KasaiShift | ohash2.c:92 | the LCP at j is at least the LCP at j-1 minus one (the case of an LCP of two or more) |
| Repetition.Kasai | ohash2.c:92 | Kasai's inequality: PosLCP(j) >= PosLCP(j-1) - 1 |
| Repetition.PosMaxIsMax | ohash2.c:101 | the maximum over positions bounds every position's LCP and is attained (or 0) |
| Repetition.MaxOverPositions | ohash2.c:101 | a maximum over positions is the maximum over ranks |
| Repetition.ScanStart | ohash2.c:92-94 | starting the scan at max(0, ell-1) matched bytes is sound |
| Repetition.ScanStop | ohash2.c:94-96 | where the inner `while` stops, the matched length is the LCP |
| Repetition.SameBytes | ohash2.c:94-96 | byte-wise agreement is slice equality |
| Repetition.StepIsPosLCP | ohash2.c:92-100 | one step of the loop yields the LCP of position j with its rank predecessor |
| Repetition.InverseOf | ohash2.c:86-88 | ISA is the inverse permutation of SA |
| Repetition.Extend | ohash2.c:94-96 | the inner `while` extends the common prefix to its end, staying within the text |
| Repetition.StepLCP | ohash2.c:92-100 | given the previous ell, the new ell is position j's LCP with its rank predecessor, and 0 for rank 0 |
| Repetition.MaxPosLCP | ohash2.c:89-103 | the result lies in [0, max(0, n-1)] and, for ordered suffixes, is the rank-adjacent maximum |
| Repetition.ComputeMaxLCP | ohash2.c:81-104 | the bound for any permutation; for the suffix array, the rank-adjacent maximum and the length of the longest repeated factor |
| Hashing.ShiftHashBound | ohash2.c:342-345 | a k-byte shift-by-one hash is at most 255 * (2^k - 1) |
| Hashing.ShiftHashFitsTable | ohash2.c:342-350 | windows of at most 8 bytes hash below DSIGMA |
| Hashing.Key | ohash2.c:235-238 | every matcher's key lies inside its table |
| Hashing.Reduce | ohash2.c:166 | `h % WSIZE` lies in [0, WSIZE) |
| Hashing.ReduceIsMod | ohash2.c:166 | the reduction is the remainder modulo WSIZE |
| Hashing.RawIndexFits | ohash2.c:342-350 | `ohash3` .. `ohash8` index with the unreduced hash, and that is the key |
| Hashing.ExactKeysInjective | ohash2.c:286-291 | `ohash1` and `ohash2` keys are equal only for equal windows |
| Hashing.IndexAsWritten | ohash2.c:772-795 | the index the code computes equals the key for every matcher but `ohash9` |
| Hashing.Order9IndexOverflows | ohash2.c:772 | nine 0xFF bytes give `ohash9` the index 130305, outside its 65536 buckets |
| Hashing.AllFFHash | ohash2.c:342-345 | k bytes 0xFF hash to 255 * (2^k - 1) |
| Hashing.WindowKey | ohash2.c:198-206 | computing a window's hash byte by byte gives its key |
| Hashing.WeightedHashLateBytes | ohash2.c:36-38 | bytes from position 16 on never change HS |
| Hashing.HS | ohash2.c:32-39 | HS is the sum of x[i+j] * 2^j modulo DSIGMA, in [0, 65536) |
| ShiftTables.Window | ohash2.c:346-350 | a window has q bytes |
| ShiftTables.LastEnd | ohash2.c:346-350 | the last window end with key b, or none |
| ShiftTables.LastEndIsLast | ohash2.c:346-350 | no later window up to hi has key b |
| ShiftTables.LastEndAtLeast | ohash2.c:346-350 | every window with key b ends no later than LastEnd |
| ShiftTables.Defaults | ohash2.c:337-340 | the default table has one entry per bucket |
| ShiftTables.TableUpTo | ohash2.c:342-350 | the table after entering windows has one entry per bucket |
| ShiftTables.ShiftTable | ohash2.c:352-356 | the final table has one entry per bucket |
| ShiftTables.TableUpToValue | ohash2.c:346-350 | a bucket holds m-1-k for its last window end k, or the default |
| ShiftTables.TableEntry | ohash2.c:352-357 | the final bucket is 0; the others hold their last window's shift; sh1 is max(1, the final bucket's old value) |
| ShiftTables.DefaultShiftBounds | ohash2.c:232-233 | the default shift (m, max(m-q,1), m-7) lies in [1, m-q+1] |
| ShiftTables.TableBounds | ohash2.c:337-357 | every bucket lies in [0, m-q+1], and sh1 lies in [1, m-q+1] |
| ShiftTables.ZeroOnlyAtFinalKey | ohash2.c:355-356 | a bucket is 0 exactly when it is the final window's |
| ShiftTables.LastEndNone | ohash2.c:346-350 | a key no window has is never found |
| ShiftTables.UnusedBucketIsDefault | ohash2.c:281-284 | a bucket no earlier window uses keeps the default shift |
| ShiftTables.UnusedKey | ohash2.c:281-284 | an unused bucket's value is the default |
| ShiftTables.UsedBucketIsLastWindow | ohash2.c:289-293 | a bucket whose last window ends at k holds m-1-k |
| ShiftTables.ValueAtWindow | ohash2.c:346-350 | a window ending at k has a bucket value of at most m-1-k |
| ShiftTables.WindowShiftBound | ohash2.c:346-356 | the table never shifts a pattern window ending at k past the pattern's end |
| ShiftTables.Sh1Bound | ohash2.c:352-357 | sh1 is at most m-1-k for an earlier window ending at k with the final key |
| ShiftTables.WindowOfPrefix | ohash2.c:346-350 | a window of x[..m] is the same bytes in x |
| ShiftTables.EnterStep | ohash2.c:346-350 | entering the next window extends the table function by one window |
| ShiftTables.Enter | ohash2.c:345 | one window's bucket is set, nothing else changes |
| ShiftTables.EnterNext | ohash2.c:347-350 | one loop iteration enters the next window |
| ShiftTables.EnterWindows | ohash2.c:346-351 | the loop enters every window up to m-2, in order |
| ShiftTables.NewTable | ohash2.c:337-340 | every bucket holds the default: m (`ohash1`, 232-233), max(m-q,1) (`ohash2`..`ohash10`), m-7 (`hash8`, 154-156) |
| ShiftTables.ClearFinal | ohash2.c:352-357 | reads sh1 raised from 0 to 1 and clears the final bucket |
| ShiftTables.Preprocess | ohash2.c:337-357 | the result is the table and sh1 of the pattern, for every matcher |
| Scanning.WindowInOccurrence | ohash2.c:364-368 | a text window inside an occurrence is the pattern's window |
| Scanning.SkipSafe | ohash2.c:364-370 | a shift never jumps past the end of an occurrence |
| Scanning.Sh1Safe | ohash2.c:377 | sh1 never jumps past the end of a later occurrence |
| Scanning.CandidateDecides | ohash2.c:256-257 | for a candidate, comparing all but the last ExactTail bytes decides a match; `ohash1`, `ohash2` compare m-1 and m-2 bytes |
| Scanning.SkipGap | ohash2.c:364-370 | no occurrence ends within one shift |
| Scanning.SkipStep | ohash2.c:364-370 | one shift stays within the sentinel, skips no occurrence, and is 0 exactly at the final key |
| Scanning.Sh1Step | ohash2.c:371-377 | after a candidate, the count grows by one exactly when it matched and no occurrence is skipped |
| Scanning.Verify | ohash2.c:373 | the comparison loop succeeds exactly when the pattern bytes equal the text bytes |
| Scanning.Probe | ohash2.c:365-369 | one shift read: bounds, no occurrence skipped, zero exactly at the final key |
| Scanning.Skip | ohash2.c:363-370 | the inner loop stops at a candidate within the sentinel, skipping no occurrence |
| Scanning.Check | ohash2.c:372-376 | the candidate check reports exactly an occurrence at i - m + 1 |
| Scanning.Candidate | ohash2.c:371-377 | a checked candidate adds one exactly when it matched, and moves on |
| Scanning.Round | ohash2.c:363-382 | one outer iteration counts what it passes and stops only past the text |
| Scanning.Scan | ohash2.c:360-383 | the searching phase returns the number of occurrences of x[..m] in y[..n] |
| OHash.OHashOrder | ohash2.c:225-267 | `ohash<q>` returns -1 exactly for a too-short pattern, otherwise the occurrence count |
| OHash.Hash8 | ohash2.c:147-222 | `hash8` returns -1 exactly for m < 8, otherwise the count; y[n..n+m] gets the pattern and nothing else changes |
| OHash.Hash8FinalEndAsWritten | ohash2.c:167 | the exit value of the loop variable is at least 8 and at least m - 1, and is one of the two |
| OHash.Hash8FinalWindowPastPattern | ohash2.c:167-185 | as written, the final window of `hash8` ends at the pattern's last byte exactly when m > 8; for m = 8 it ends at x[8] |
| OHash.Dispatch | ohash2.c:119-142 | q in 1..10 selects `ohash<q>` and anything else `hash8` with its WSIZE; the choice is always a valid matcher |
| OHash.DispatchAccepts | ohash2.c:118-142 | with maxLCP <= m-1, the matcher chosen accepts the pattern exactly when m >= 2 |
| OHash.Search | ohash2.c:107-143 | y[..n] is unchanged, y[n..n+m+1] holds x[0..m], the rest is unchanged; -1 exactly when m <= 1, otherwise the occurrence count |
| OHash.SearchTwice | ohash2.c:107-143 | a second search of the same buffer returns the same result |
| OHash.Run | ohash2.c:118-142 | the `switch` leaves the buffer as it found it and returns -1 exactly when m <= 1, otherwise the count |
| OHash.PlaceSentinel | ohash2.c:115-117 | y[n+i] = x[i] for i = 0..m, nothing else changes |
| OHash.RunMaxRepeat | ohash2.c:113 | the longest repeat of k equal bytes is k - 1 |
| OHash.DistinctDispatch | ohash2.c:113-121 | "AB" has maxLCP 0, so `search` runs `ohash1` |
| OHash.RunDispatch | ohash2.c:113-127 | "AAAA" has maxLCP 3, so `search` runs `ohash4` |
| OHash.Order9Reached | ohash2.c:136-137 | nine 0xFF bytes dispatch to `ohash9` and index past its table |
| OHash.ExampleDistinct | ohash2.c:120-121 | "AB" occurs 3 times in "ABABAB" |
| OHash.ExampleRun | ohash2.c:126-127 | "AAAA" occurs 3 times in "AAAAAA" |
| OHash.CountAB | ohash2.c:254-259 | the count for "AB" in "ABABAB" is 3 |
| OHash.CountAAAA | ohash2.c:371-376 | the count for "AAAA" in "AAAAAA" is 3 |

## Left out

- The timing macros (`BEGIN_PREPROCESSING`, `END_SEARCHING` and the others) are left out. `OUTPUT` in `hash8` is modelled as incrementing the count. `include/define.h` is not part of this model.
- `WSIZE` is a compile-time constant defined outside this file. It is the parameter `wsize >= 1`.
- `qsort` is replaced by an insertion sort driven by `Cmp`. `cmp` never returns a negative value and `qsort` does not promise any order for such a comparator. The model proves the order the comparator is meant to give.
- SuffixArrays.Cmp: `strcmp` stops at a NUL byte. The model compares the suffixes of txt[..n] up to n, as if the pattern were NUL-terminated with no NUL inside.
- Memory management is left out: `malloc`/`free` of the suffix array and the variable-length arrays `suffixes[n]` and `ISA[n]`.
- C integer widths are left out. Integers are unbounded, and no overflow is reachable for the table sizes involved.
- Hashing.HS: requires q <= 24. For j >= 24 the expression `x[i+j] << j` overflows a signed int, which C leaves undefined.
- `ohash3` .. `ohash10` differ only in their window width and table: one parameterised matcher models them all. The same goes for `ohash1`, `ohash2` and `hash8`.
- OHash.Search: requires `x != y`, and that `x` has a byte at index m, which the sentinel loop reads.
- Hashing.Reduce stands for `h % WSIZE`. It is proved equal to it by `Hashing.ReduceIsMod`.
- OHash.OHashOrder: for q = 9 the model uses the reduced key (the corrected `ohash9`). As written, `ohash9` indexes past its table (Findings).
- OHash.Hash8: the model takes the final window at m - 1 (the corrected `hash8`). As written, for m = 8 it ends at x[8] (Findings).

## Findings

| source | as written | input that shows it | evidently intended | confidence | as-written member | corrected member |
|---|---|---|---|---|---|---|
| ohash2.c:772-795 | `ohash9` indexes `shift[h]` with the unreduced 9-byte shift-by-one hash, which can reach 255 * 511 = 130305 | a pattern of nine 0xFF bytes (maxLCP 8, so `search` runs `ohash9`) writes `shift[130305]` in a table of 65536 | reduce the hash modulo DSIGMA, as `ohash10` does | not executed | Hashing.IndexAsWritten, Hashing.Order9IndexOverflows, OHash.Order9Reached | Hashing.Key, ShiftTables.Preprocess |
| ohash2.c:167-185 | `hash8` takes its final window at the loop variable's exit value, which is 8 when m = 8 | m = 8: the loop does not run and the final window ends at x[8], one byte past the pattern. The count stays right: line 166 already stored 0 in the first window's bucket, every other bucket holds the default m - 7 = 1, so no shift passes an occurrence; the extra zero only adds candidates that the full m-byte comparison decides, and `sh1` is 1 either way | the final window ends at m - 1, as in the other matchers | not executed (not reachable from `search`, which only runs `hash8` for maxLCP >= 10) | OHash.Hash8FinalEndAsWritten, OHash.Hash8FinalWindowPastPattern | ShiftTables.Preprocess, OHash.Hash8 |
