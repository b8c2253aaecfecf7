# Shop catalog processing in Dafny

This project models the processing core of a small in-memory shop catalog
(`src/ShopCatalog.java`). Each catalog entry is a product record: name, unit
of measure, quantity, unit price, arrival date and a description made of
lines of text. The source does three things with a catalog:

- **Divide-and-conquer processing.** A `CatalogProcessor` task covers the
  index range `[start, end)`. A range of at most `THRESHOLD = 5` entries is
  copied into a new list. A longer range is split at `(start + end) / 2`, both
  halves are processed as fork-join subtasks, and their results are
  concatenated. `processCatalogInParallel` runs the task over the whole
  catalog.
- **Sequential processing.** A reference traversal rebuilds every entry field
  by field, with a copy of its description, and reports each description's
  size.
- **Sort passes.** Three `Collections.sort` passes re-order the catalog: by
  product name (`String.compareTo`), by unit price (`Double.compare`) and by
  arrival date (`String.compareTo`).

Modules, one per component:

- `CatalogEntry` (`entry.dfy`): the entry datatype. It also defines Java's
  `int` as `Int32`, with 32-bit wrap-around (`WrapInt32`) and
  truncating division (`JavaDiv`). A `double` is held as its IEEE-754 bit
  pattern (`DoubleBits`).
- `JavaCompare` (`compare.dfy`): `String.compareTo` and `Double.compare`.
  Both are proved to be total preorders. `compareTo` is also proved to be
  lexicographic order.
- `CatalogProcessor` (`processor.dfy`): the split, the leaf copy, the merge,
  the recursive task, the leaves of the task tree, and the entry point.
- `SequentialProcessor` (`sequential.dfy`): the reference traversal. It is
  proved to agree with the divide-and-conquer processor.
- `CatalogSort` (`sort.dfy`): the three sort passes. The sort is proved to
  return a sorted permutation. It is also proved stable and idempotent, and
  equal to every other stable sort.

The fork-join tasks are modelled as plain recursion. The result of a task is
fixed by its index range, whatever the scheduling. `Compute` splits at the
exact midpoint. For catalogs of at most 2^30 entries the source's 32-bit
midpoint is the same (`MidpointAsWrittenExact`), so there `Compute` returns
exactly what the parallel run returns. Beyond that size the source's midpoint
can overflow; see "## Findings".

## Model

| member | source | states |
|---|---|---|
| `CatalogProcessor.CopyRange` | src/ShopCatalog.java:84-90 | The leaf step returns exactly `catalog[start..end]`, in catalog order, with `end - start` entries. |
| `CatalogProcessor.Merge` | src/ShopCatalog.java:92-97 | The merged list is as long as `left` and `right` together. It starts with all of `left` and continues with all of `right`, each in its own order. |
| `CatalogProcessor.Midpoint` | src/ShopCatalog.java:72 | The split point equals `(start + end) / 2`. It lies in `[start, end]`, and strictly inside when the range has at least two entries. With a threshold of at least 1, every range that gets split has at least two entries, so both halves are strictly shorter. |
| `CatalogProcessor.MidpointAsWritten` | src/ShopCatalog.java:72 | The split point as the source computes it, in 32-bit `int` arithmetic. It equals the exact midpoint while `start + end` fits in an `int`. Once the sum overflows, it is negative. |
| `CatalogProcessor.MidpointAsWrittenExact` | src/ShopCatalog.java:72 | For catalogs of at most 2^30 entries, the 32-bit midpoint of every range that is split equals the exact one. |
| `CatalogProcessor.MidpointOverflowCounterexample` | src/ShopCatalog.java:69-80 | For a catalog of 0x6000_0000 entries, with every split in 32-bit arithmetic, the right half of the root task is above the threshold. Its 32-bit midpoint is negative. The task that then starts at that midpoint finds its wrapped length within the threshold, so it starts copying at a negative index. |
| `CatalogProcessor.ZeroThresholdMakesNoProgress` | src/ShopCatalog.java:69-74 | With a threshold of 0, a one-entry range is still split, and its right half is the range itself. This is why the model requires a threshold of at least 1. |
| `CatalogProcessor.Compute` | src/ShopCatalog.java:68-82 | For every threshold of at least 1 and every range with `0 <= start <= end` and `end` at most the catalog size, the task returns `catalog[start..end]`. |
| `CatalogProcessor.ThresholdIndependence` | src/ShopCatalog.java:56 | Any two thresholds of at least 1 give the same result for the same range. The threshold only changes how deep the split goes. |
| `CatalogProcessor.ProcessCatalogInParallel` | src/ShopCatalog.java:49-53 | Processing the whole catalog with leaf size 5 returns the catalog itself. An empty catalog gives an empty result. |
| `CatalogProcessor.LeafRanges` | src/ShopCatalog.java:69-74 | The ranges copied directly follow each other without gaps or overlaps. Together they cover `[start, end)`, and all lie inside it. When the range is non-empty, each leaf holds between 1 and `threshold` entries. |
| `CatalogProcessor.ComputeIsLeafCopies` | src/ShopCatalog.java:68-97 | The task's result is the concatenation of the leaf copies, in leaf order. |
| `CatalogProcessor.TwelveEntriesMakeFourLeaves` | src/ShopCatalog.java:69-74 | Twelve entries with leaf size 5 are copied as the four leaves `[0,3)`, `[3,6)`, `[6,9)` and `[9,12)`. |
| `SequentialProcessor.Rebuild` | src/ShopCatalog.java:144-151 | An entry rebuilt from its six fields, with a copied description, equals the original entry. |
| `SequentialProcessor.ProcessSequentially` | src/ShopCatalog.java:137-158 | The traversal returns one entry per input entry, in the same order. Each output entry has the input's name, unit, quantity, price, date and description. The i-th size report names the i-th product and gives its description length. |
| `SequentialProcessor.SequentialIsCopy` | src/ShopCatalog.java:137-158 | The entries the traversal returns are exactly the catalog. |
| `SequentialProcessor.ParallelMatchesSequential` | src/ShopCatalog.java:49-53 | The divide-and-conquer result equals the traversal's entries, entry by entry. This matches the source for catalogs of at most 2^30 entries (`MidpointAsWrittenExact`); beyond that see "## Findings". |
| `SequentialProcessor.AnyThresholdMatchesSequential` | src/ShopCatalog.java:68-82 | The task over the whole catalog agrees with the traversal for every threshold of at least 1, not only for 5. |
| `JavaCompare.CompareStrings` | src/ShopCatalog.java:110 | `compareTo` returns 0 exactly when the two strings are equal. |
| `JavaCompare.CompareStringsIsLexicographic` | src/ShopCatalog.java:110 | `compareTo(a, b) <= 0` holds exactly when `a` is a prefix of `b`, or when the strings first differ at a position where `a` has the smaller character. |
| `JavaCompare.CompareStringsAtFirstDifference` | src/ShopCatalog.java:120 | When two strings agree up to position `k` and differ at `k`, `compareTo` returns the difference of their characters at `k`. |
| `JavaCompare.CompareStringsOfPrefix` | src/ShopCatalog.java:110 | When `a` is a prefix of `b`, `compareTo` returns the difference of their lengths. |
| `JavaCompare.CompareStringsAntisymmetric` | src/ShopCatalog.java:110 | Swapping the operands of `compareTo` negates the result. |
| `JavaCompare.CompareStringsTransitive` | src/ShopCatalog.java:120 | "`compareTo` is at most 0" is transitive. |
| `JavaCompare.CompareDoubles` | src/ShopCatalog.java:115 | `Double.compare` returns 0 exactly for identical bit patterns or two NaNs. A NaN is above every non-NaN. Non-negative values are ordered by their bit patterns, and negative values in reverse. Negatives come before non-negatives, and -0.0 comes before +0.0. |
| `CatalogSort.Compare` | src/ShopCatalog.java:110-120 | The comparator of each pass. The name pass (line 110) and the date pass (line 120) use `String.compareTo`: 0 exactly for equal keys, and at most 0 exactly when the first key lexicographically precedes the second. The price pass (line 115) uses `Double.compare`: -1, 0 or 1, 0 exactly for identical prices or two NaNs, and 1 when only the first price is NaN. |
| `CatalogSort.Sort` | src/ShopCatalog.java:110-120 | A sort pass returns a permutation (as a multiset) of its input, in which every entry may precede every later one under the pass's comparator. |
| `CatalogSort.SortedByTextIsLexicographic` | src/ShopCatalog.java:110-120 | Being sorted by name or by date means that each key is lexicographically no greater than every later key. |
| `CatalogSort.SortOfSortedIsIdentity` | src/ShopCatalog.java:110-120 | Sorting a sequence that is already sorted by the same key leaves it unchanged. |
| `CatalogSort.SortIsIdempotent` | src/ShopCatalog.java:110-120 | Sorting twice by the same key gives the same result as sorting once. |
| `CatalogSort.SortIsStable` | src/ShopCatalog.java:110-120 | Entries that compare equal under the pass's comparator keep their relative order. |
| `CatalogSort.StableSortIsUnique` | src/ShopCatalog.java:110-120 | Every sorted, stable permutation of the input equals `Sort`, so any stable sort gives the same result as the model. |
| `CatalogSort.SortPasses` | src/ShopCatalog.java:109-122 | Running the name, price and date passes one after another yields a permutation of the catalog that is sorted by arrival date. |
| `CatalogSort.SampleCatalogPasses` | src/ShopCatalog.java:101-122 | On the three-item sample catalog: the name pass keeps `[ItemA, ItemB, ItemC]`, the price pass gives `[ItemB, ItemA, ItemC]`, and the date pass gives `[ItemA, ItemB, ItemC]` again. |

## Left out

- The `ForkJoinPool` is left out: its size from `availableProcessors`, and the `invokeAll`/`join` scheduling. A task's result depends only on its range, so plain recursion models it.
- `CatalogProcessor.Compute`, `CatalogProcessor.LeafRanges` and `CatalogProcessor.ThresholdIndependence` take the leaf size as a parameter and require it to be at least 1. The source fixes it at 5, which `ProcessCatalogInParallel` uses. `ZeroThresholdMakesNoProgress` shows why the requirement is needed.
- `CatalogProcessor.Compute` splits at the corrected midpoint `start + (end - start) / 2`, not at the source's 32-bit `(start + end) / 2`. The two agree on catalogs of at most 2^30 entries. On larger catalogs the source can compute a negative midpoint and fail with an index error, which the model does not reproduce (see "## Findings").
- Whether an output description shares storage with the input or is a fresh copy cannot be observed. Sequences are values in the model, so only value equality is stated.
- Timing with `System.currentTimeMillis` is left out, as is all console output (`printCatalog`, the per-item size line). The demo setup in `main` is modelled only as the sample-catalog lemma. The size line becomes the `SizeReport` list that `ProcessSequentially` returns.
- Getters are modelled only as the datatype's field accessors.
- Null references are not modelled: a null catalog, entry, string or description would throw `NullPointerException`. Memory limits on list sizes are not modelled either.
- `JavaCompare.CompareStrings` compares Dafny characters (Unicode scalar values). Java compares UTF-16 code units. The two orders agree on text in the Basic Multilingual Plane, and can differ between a supplementary character and a character in U+E000–U+FFFF.
- `JavaCompare.CompareDoubles` works on the bit pattern. It covers Java's total order on doubles (negatives, -0.0, +0.0, positives, then every NaN), but no floating-point arithmetic.
- `CatalogSort.Sort` is a stable insertion sort, not the merge-based algorithm of `Collections.sort`. Java guarantees that sort to be stable, and `StableSortIsUnique` shows every stable sort gives the same result. The comparator-contract exception of `Collections.sort` cannot arise here, because every comparator in the model is a total preorder.

## Findings

| source | as written | input that shows it | evidently intended | confidence | as-written member | corrected member |
|---|---|---|---|---|---|---|
| src/ShopCatalog.java:72 | `int middle = (start + end) / 2;` adds two `int` indices, and the sum can overflow | A catalog of 0x6000_0000 (1,610,612,736) entries. The right half `[0x3000_0000, 0x6000_0000)` gets the midpoint -0x3800_0000, and a subtask then reads a negative index. | A midpoint strictly inside the range, e.g. `start + (end - start) / 2` | medium: needs a list of more than 2^30 (about 1.07 billion) entries; not executed | `CatalogProcessor.MidpointAsWritten`, shown by `CatalogProcessor.MidpointOverflowCounterexample` | `CatalogProcessor.Midpoint`, used by `Compute` and `LeafRanges` |
