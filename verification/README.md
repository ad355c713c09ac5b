# stim_randomizer: label sequences, balanced subsets and category inference

stim_randomizer prepares stimulus lists for psychology experiments. Three
pieces of list logic sit inside its file-handling code, and this project
models them in Dafny:

- `pseudo_label_mapper(labels, elements)` (module `Prerandomizations`). It
  builds a sequence of category indices out of `elements` blocks. Each block
  is a shuffled copy of `0 .. labels-1`. Before a block is appended, its
  first entry is compared with the last entry appended so far. If they are
  equal, the block's first and last entries are exchanged.
- The partition logic of `ExpSets.create_subsets(set_num, categories)`
  (module `CoreSets`). It runs two divisibility checks, keeps the files whose
  name contains each category, cuts each shuffled category list into pieces
  of `files_per_cat_per_set`, and gives piece `i` to subset `i`. The subsets
  are keyed `subset_1 .. subset_<set_num>`.
- The `ExpStim` constructors and category scanners of `core.py` (module
  `CoreStim`) and of the older `ExpStim.py` (module `LegacyStim`). A scanner
  takes the part of each file name before its first `_`. The `core.py`
  version returns `None` when every file has its own head, or when there are
  more than `len(files) // 2` heads. The `core.py` constructor also sorts a
  supplied category list.

Randomness is an input. `PseudoLabelMapper` receives the shuffled blocks,
one ordering of `0 .. labels-1` each. `CreateSubsets` receives, for every
category, some ordering of that category's files. Directory listings are
input sequences of names. Python's run-time errors are results:
`Result.Failure` carrying a `MapperError` or a `SubsetError`. Each
constructor names the exception and the cause that raises it. Three
`SubsetError` constructors are ValueErrors (`SetsNotDivisible`,
`CategoriesNotDivisible`, `ZeroChunkStep`). `DivisionByZero` covers both
ZeroDivisionErrors: `set_num == 0` and an empty category list. Python's
`None` is `Option.None`. A count argument may be an
`int` or a `str` (`Count`), because the source rejects string counts with a
`TypeError`.

In `Prerandomizations`, `Range` is `np.arange`, `Fix` is the boundary check
with its swap, `Build` runs the loop from its second iteration on, and
`LabelList` runs the whole loop. On the first iteration `label_list[-1]`
raises NameError, so the first block is appended unchanged. `Fix`, `Build`
and `LabelList` only compute. The `FixOutcome`, `FixFacts`, `Build*` and
`LabelList*` lemmas state what they do.

Supporting modules: `Results` (`Option`, `Result`), `Arith` (facts
about multiplication by a count), `Seqs` (joining lists,
distinctness, first-occurrence duplicate removal) and `Strings`
(`split("_")[0]`, Python's substring test, `str(n)` for naturals, Python's
string order and `sorted`).

The docstring of `pseudo_label_mapper` promises that two consecutive
elements are never of the same category. The code keeps that promise
whenever `labels >= 2`: entries within a block are distinct, and each
boundary is checked against the entry that is already final.
`Prerandomizations.LabelListNoAdjacentRepeat` proves it, and
`Prerandomizations.SingleLabelRepeats` shows that it fails for one label.

## Model

| member | source | states |
|---|---|---|
| Prerandomizations.PseudoLabelMapper | stim_randomizer/prerandomizations.py:16-55 | succeeds exactly when both counts are integers of at least 1. A string `elements` raises TypeError. `elements <= 0` raises UnboundLocalError. A string `labels` raises TypeError. `labels <= 0` raises IndexError. On success the output has `labels * elements` entries, each of `0 .. labels-1` occurs exactly `elements` times and nothing else occurs, and for `labels >= 2` no two neighbours are equal |
| Prerandomizations.Range | stim_randomizer/prerandomizations.py:42 | `np.arange(n)` has `n` entries, and a value occurs in it exactly when it is one of `0 .. n-1` |
| Prerandomizations.RangeCount | stim_randomizer/prerandomizations.py:42 | `np.arange(n)` holds each of `0 .. n-1` exactly once and nothing else |
| Prerandomizations.ShuffleFacts | stim_randomizer/prerandomizations.py:42-43 | a shuffled `np.arange(labels)` has `labels` entries, all in `0 .. labels-1`, pairwise distinct |
| Prerandomizations.SwapEnds | stim_randomizer/prerandomizations.py:47 | exchanging the first and last entries keeps the length and the contents, puts the old last entry first and the old first entry last, and leaves every interior position alone |
| Prerandomizations.FixOutcome | stim_randomizer/prerandomizations.py:46-47 | a block that does not start with the previous entry is left alone. A checked block starts with the previous entry only when both its ends did. The contents and the interior positions never change |
| Prerandomizations.FixFacts | stim_randomizer/prerandomizations.py:46-47 | the boundary check keeps a block a permutation of `0 .. labels-1`, and for `labels >= 2` the checked block never starts with the previous last entry |
| Prerandomizations.BuildPrefix | stim_randomizer/prerandomizations.py:51 | appending with `extend` never modifies what was appended before: the list after any number of blocks is a prefix of the list after more blocks |
| Prerandomizations.BuildStep | stim_randomizer/prerandomizations.py:45-51 | running the loop over `b + 1` blocks is running it over `b` blocks and then checking block `b` against the current last entry and appending it |
| Prerandomizations.BuildLength | stim_randomizer/prerandomizations.py:40-51 | every iteration adds exactly `labels` entries |
| Prerandomizations.BuildCounts | stim_randomizer/prerandomizations.py:40-51 | every iteration adds one occurrence of each of `0 .. labels-1` and nothing else |
| Prerandomizations.BuildNoAdjacentRepeat | stim_randomizer/prerandomizations.py:45-51 | for `labels >= 2`, appending checked blocks to a list without equal neighbours keeps it without equal neighbours |
| Prerandomizations.LabelListLength | stim_randomizer/prerandomizations.py:40-53 | the finished list has `elements * labels` entries |
| Prerandomizations.LabelListPrefix | stim_randomizer/prerandomizations.py:51 | the list built from the first `k` blocks is a prefix of the finished list |
| Prerandomizations.LabelListStep | stim_randomizer/prerandomizations.py:45-51 | the list after `b + 1` blocks is the list after `b` blocks followed by block `b` checked against its last entry |
| Prerandomizations.LabelListLaterBlock | stim_randomizer/prerandomizations.py:45-51 | output block `b > 0` is shuffle `b` after the boundary check against the output entry just before the block |
| Prerandomizations.LabelListBlock | stim_randomizer/prerandomizations.py:45-51 | block 0 of the output is the first shuffle unchanged. A later block equals its shuffle when the shuffle's first entry differs from the preceding output entry, and equals the shuffle with its ends exchanged otherwise. Either way its interior positions are as shuffled |
| Prerandomizations.LabelListBlocksAreShuffles | stim_randomizer/prerandomizations.py:42-51 | every block `[b*labels, (b+1)*labels)` of the output is a permutation of `0 .. labels-1` |
| Prerandomizations.LabelListCounts | stim_randomizer/prerandomizations.py:40-51 | each category occurs exactly `elements` times in the output, and no other value occurs |
| Prerandomizations.LabelListNoAdjacentRepeat | stim_randomizer/prerandomizations.py:45-51 | for `labels >= 2` no two adjacent output entries are equal |
| Prerandomizations.SingleLabelRepeats | stim_randomizer/prerandomizations.py:42-51 | for `labels == 1` and at least two blocks the first two entries are equal, so the no-repeat promise needs `labels >= 2` |
| CoreSets.CreateSubsets | stim_randomizer/core.py:224-268 | `set_num == 0` raises ZeroDivisionError. A file count not divisible by `set_num` raises ValueError carrying Python's remainder. `None` categories raise TypeError. An empty category list raises ZeroDivisionError. On success there are `max(set_num, 0)` subsets named `subset_1, subset_2, ...` in order |
| CoreSets.CategoriesNotDivisibleError | stim_randomizer/core.py:233-242 | once the first check passes and the category list is non-empty, a `files_per_set` that the number of categories does not divide raises ValueError carrying Python's remainder `files_per_set % len(categories)`, and success implies that remainder is 0 |
| CoreSets.PyMod | stim_randomizer/core.py:226-227 | Python's `a % b` lies in `[0, b)` for positive `b` and in `(b, 0]` for negative `b` |
| CoreSets.PyModCongruent | stim_randomizer/core.py:226-227 | Python's `a % b` differs from `a` by a whole multiple of `b` |
| CoreSets.PyModMultiple | stim_randomizer/core.py:226-227 | a file count that is a whole multiple of `set_num` leaves remainder 0, so the first check passes |
| CoreSets.StimFiles | stim_randomizer/core.py:224 | the stimulus files are the listing minus every name containing `subsets`, each kept name as often as it is listed |
| CoreSets.CategoryFiles | stim_randomizer/core.py:256 | a category's files are exactly the stimulus files whose name contains the category, with their multiplicities |
| CoreSets.Chunks | stim_randomizer/core.py:262-263 | the chunks join back to the category list. Every chunk but the last has exactly `k` files, the last has between 1 and `k`, and there are no chunks only for an empty list |
| CoreSets.ChunksCountBounds | stim_randomizer/core.py:262-263 | a non-empty list gives `ceil(len / k)` chunks: one chunk fewer could not hold it |
| CoreSets.ChunksExact | stim_randomizer/core.py:262-263 | a list of exactly `m * k` files gives `m` chunks of `k` files each |
| CoreSets.SubsetName | stim_randomizer/core.py:250 | the key of subset `i` (from 0) is `subset_` followed by decimal digits that read back as `i + 1` |
| CoreSets.Named | stim_randomizer/core.py:250 | subset `i` keeps its file list under the key of subset `i`, and no two subsets share a key, so the dict keeps every subset |
| CoreSets.AssignChunks | stim_randomizer/core.py:262-268 | one category pass keeps the number of subsets, and every subset's earlier files stay as its prefix |
| CoreSets.EmptyListingZeroStep | stim_randomizer/core.py:226-263 | with no stimulus files, a non-zero `set_num` and at least one category, both checks pass and `range(0, 0, 0)` raises ValueError |
| CoreSets.AssignChunksTooFew | stim_randomizer/core.py:267-268 | a category with at most `(set_num - 1) * k` files yields fewer chunks than subsets, so `cat_chunks[i]` raises IndexError |
| CoreSets.AssignChunksExact | stim_randomizer/core.py:262-268 | with `m` subsets and exactly `m * k` category files, subset `i` is extended by chunk `i` |
| CoreSets.Distribute | stim_randomizer/core.py:253-268 | the category loop keeps the number of subsets |
| CoreSets.DistributeExact | stim_randomizer/core.py:253-268 | under exact counts the category loop succeeds, and subset `i` ends as its old files followed by chunk `i` of every category, in category order |
| CoreSets.CreateSubsetsReachesLoop | stim_randomizer/core.py:226-248 | under exact counts both divisibility checks pass and the result is the category loop's outcome with the keys attached |
| CoreSets.ShuffledExact | stim_randomizer/core.py:256-259 | under exact counts each shuffled category list has `set_num * files_per_cat_per_set` files, each containing its category name |
| CoreSets.BalancedSubsets | stim_randomizer/core.py:248-268 | under exact counts the call succeeds with `set_num` subsets. Each subset holds `files_per_set` files. Cut into pieces of `files_per_cat_per_set`, subset `i` has one piece per category, and piece `c` is chunk `i` of category `c`'s shuffled list |
| CoreSets.SubsetPiecesMatchCategory | stim_randomizer/core.py:256-268 | under exact counts every file in piece `c` of any subset contains category `c`'s name |
| CoreSets.EveryCategoryFileOnce | stim_randomizer/core.py:253-268 | under exact counts, piece `c` of every subset, taken in subset order, holds every file of category `c` exactly as often as the listing does, so each category file lands in exactly one subset |
| CoreStim.ScanCategories | stim_randomizer/core.py:60-80 | the result is `None` exactly when the listing is empty or has more than `len(files) // 2` distinct heads, and in particular when every head is distinct. Otherwise it lists each distinct head exactly once and nothing else |
| CoreStim.New | stim_randomizer/core.py:49-58 | `path` is stored, `subsets` and `prerands` start as `None`. A non-empty category list is stored sorted, as a permutation of itself. `None` or `[]` stores the scan result |
| LegacyStim.ScanCategories | stim_randomizer/ExpStim.py:54-71 | the result lists each distinct head of the listing exactly once and nothing else |
| LegacyStim.New | stim_randomizer/ExpStim.py:43-52 | `path` is stored, `subsets` and `prerands` start as `None`. A non-empty category list is stored unchanged. `None` or `[]` stores the scan result |
| Strings.SplitHead | stim_randomizer/ExpStim.py:69 | `name.split("_")[0]` is a prefix of the name without `_`, and it is followed by `_` unless it is the whole name |
| Strings.Prefixes | stim_randomizer/core.py:75 | one head per file, in file order, and a string occurs in the list exactly when it is the head of some file name |
| Seqs.Dedupe | stim_randomizer/core.py:75 | `list(set(xs))` holds every value of `xs` once and nothing else. Its length is the number of distinct values, and it equals `len(xs)` exactly when `xs` has no repeats |
| Strings.Contains | stim_randomizer/core.py:256 | `t in s` is true exactly when `t` occurs at some position of `s` |
| Strings.NatToString | stim_randomizer/core.py:250 | `str(n)` is a non-empty run of decimal digits without a leading zero |
| Strings.ParseNatToString | stim_randomizer/core.py:250 | reading `str(n)` back as a decimal number gives `n` |
| Strings.NatToStringInjective | stim_randomizer/core.py:250 | different numbers give different strings |
| Strings.StrLeTotal | stim_randomizer/core.py:56 | any two strings are ordered one way or the other |
| Strings.StrLeAntisymmetric | stim_randomizer/core.py:56 | two strings ordered both ways are equal |
| Strings.Sort | stim_randomizer/core.py:56 | `sorted(categories)` is in ascending order and is a permutation of its input |

## Left out

- Directory listing, directory creation and CSV output (`os.listdir`, `os.mkdir`, `csv.writer`). Listings are input sequences, and subsets are returned instead of written.
- The subset files are written inside the category loop, once per category. A later category that raises IndexError therefore leaves files on disk. The model returns only the error.
- `sorted()` on the listing at the start of `create_subsets`. Each category list is shuffled before use and the model takes that shuffle as an input, so the order of the listing does not reach the result.
- `_get_dir` of both classes: path joining, `mkdir`, and a ValueError for an unknown `dir_type`.
- `request_subsets` and `request_prerands`. They only construct an `ExpSets` or `ExPrerands` object and delegate.
- `create_prerandomizations`. It is I/O orchestration, it is unfinished, and its `pure` branch is empty.
- `ExPrerands.create_prerands`, which has an empty body.
- `pure_label_mapper`, `within_category_random_map`, `file_indexer` and `subset_parser`. The tests call them, but no implementation of them is part of this model.
- `create_sets` in `subsets.py`, which has only a docstring.
- Random number generation and every statistical claim about it. Shuffles are caller-supplied permutations.
- Float counts. `np.arange` accepts floats, but the model's counts are integers or strings.
- Error message texts. Only the remainders reported by the two ValueErrors are kept.
- CoreStim.ScanCategories: `list(set(...))` has no defined order. The model keeps first occurrences, and its contract states only contents, distinctness and the `None` rule.
- LegacyStim.ScanCategories: the same unspecified order as above, so the contract states only contents and distinctness.
