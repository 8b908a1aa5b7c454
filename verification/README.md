# GO-term overlap summary with allele-frequency confidence metrics

This project is a Dafny model of the record pipeline in
`99_orthologous_calcs.py`. The script annotates SNP/gene intersection hits
with allele-frequency gaps (AF_Gap) and summarises them per GO/BUSCO term:

1. It loads two AF-gap tables, high-Fst and all-private. It gives every row
   the key `CHROM:POS` and concatenates the two tables, high-Fst first. It
   keeps the first row for each key.
2. It loads up to three intersection tables, labelled `HighFST`, `PrivateSA`
   and `PrivateAUS`, and gives each row the key formed by the first two
   `:`-separated pieces of its `snp_id`. A missing file contributes nothing.
   When no table has rows, the script stops.
3. It left-joins the intersection rows to the combined AF-gap table on the
   key. An AF_Gap with no match becomes 0.
4. It groups by (key, go_busco). Each group gets the sorted distinct labels
   joined by `", "` (`combined_source`) and the AF_Gap of its first row.
5. It groups by (go_busco, combined_source). Each group gets `n_snps`
   (count), plus the sum, mean and max of AF_Gap.
6. It sorts by sum, then by count, both descending.

Modules, one per stage:

- `Wrappers`: `Option` and `Result`.
- `Seqs`: the table primitives written out. These are first-occurrence
  lookup, `drop_duplicates`, `unique()`, group membership and the group-size
  bookkeeping of a partition.
- `Text`: Python's `str.split` and `str.join`, `str(n)` for a non-negative
  integer, the `<` order on `str`, and `sorted`.
- `Records`: one datatype per table shape, plus the fatal conditions.
- `Keys`: the two ways of deriving `unique_snp_key`.
- `AfGapTable`: step 1.
- `Intersections`: step 2.
- `LeftJoin`: step 3.
- `Aggregate`: steps 4 and 5.
- `Ranking`: step 6.
- `Pipeline`: the whole run, its error paths, and three worked scenarios.

Every stage has a property proved about it that relates it to an independent
definition:

- The key derivations match each other and have a position-based reference
  definition.
- The combined AF-gap table is proved to agree with lookup in the plain
  concatenation.
- The join is exact row preservation, given the unique keys that step 1
  guarantees.
- Both groupings are partitions: group sizes add up to the number of input
  rows (`Aggregate.GroupBySnpAndTermPartition` and
  `Aggregate.TotalSnpsCountsRows`).
- The sort yields a permutation ordered as requested.

## Model

| member | source | states |
|---|---|---|
| Keys.AfKey | 99_orthologous_calcs.py:21 | No contract of its own. See `Keys.AfKeySplit` and `Keys.AfKeyInjective`. |
| Keys.IntersectKey | 99_orthologous_calcs.py:61 | No contract of its own. See `Keys.IntersectKeyIsPrefix`, `Keys.IntersectKeyIdempotent` and `Keys.IntersectKeyMatchesAfKey`. |
| Keys.IntersectKeyIsPrefix | 99_orthologous_calcs.py:61 | The intersection key is the prefix of `snp_id` up to, but not including, its second `:`, or the whole id when it has fewer than two. When the key stops short of the end, the next character is `:`. |
| Keys.IntersectKeyIdempotent | 99_orthologous_calcs.py:61 | Deriving the key from a key gives the key back. |
| Keys.IntersectKeyMatchesAfKey | 99_orthologous_calcs.py:61 | For a CHROM without `:`, an id `CHROM:POS:rest` or `CHROM:POS` yields exactly the AF-gap key `CHROM:POS`, so the two tables meet on the join. |
| Keys.AfKeySplit | 99_orthologous_calcs.py:21 | For a CHROM without `:`, the key `CHROM:POS` splits on `:` into exactly CHROM and `str(POS)`. |
| Keys.AfKeyInjective | 99_orthologous_calcs.py:21 | Two (CHROM, POS) pairs with the same `CHROM:POS` key are equal. `str(POS)` holds no `:`, so CHROM may hold `:`. |
| Text.JoinSplit | 99_orthologous_calcs.py:61 | `':'.join(s.split(':')) == s`. |
| Text.SplitJoin | 99_orthologous_calcs.py:61 | Splitting a join of `:`-free pieces gives the pieces back. |
| Text.DecimalString | 99_orthologous_calcs.py:21 | `str(POS)` has at least one character, and every character is a decimal digit. `Text.ParseDecimalString` shows the digits denote POS. |
| Text.ParseDecimalString | 99_orthologous_calcs.py:21 | `str(POS)` is all digits, and reading those digits gives POS back. |
| Text.SortStrings | 99_orthologous_calcs.py:95 | `sorted` returns a permutation of its input that is non-decreasing in Python's string order. |
| Text.LexLess | 99_orthologous_calcs.py:95 | No contract of its own. Python's `<` on `str` by code point, with a proper prefix first. See `Text.LexLessTransitive` and `Text.LexLessTotal`. |
| Text.LexLessTransitive | 99_orthologous_calcs.py:95 | Python's string order is transitive. |
| Text.LexLessTotal | 99_orthologous_calcs.py:95 | Any two different strings are ordered one way or the other. |
| Text.StrictlyIncreasingUnique | 99_orthologous_calcs.py:95 | A set of strings has only one strictly increasing arrangement. |
| Seqs.DedupFrom | 99_orthologous_calcs.py:46 | `drop_duplicates` on a key: the result has no repeated key, holds only input rows, and for every key finds the same row as the input's first occurrence. |
| Seqs.Unique | 99_orthologous_calcs.py:95 | `unique()` has no repeats and the same elements as its input. |
| Seqs.First | 99_orthologous_calcs.py:96 | No contract of its own. The first row with a key, behind `first`, `drop_duplicates` and the merge's lookup. See `Seqs.FirstSpec`. |
| Seqs.FirstSpec | 99_orthologous_calcs.py:96 | The `first` aggregate finds a row exactly when some row has the key. The row it finds has no earlier row with that key. |
| Seqs.Where | 99_orthologous_calcs.py:91-97 | A group holds only input rows with its key, and every input row with that key is in it. The group is non-empty exactly when the key occurs, and then it starts with the key's first row. Size and order are stated by the three lemmas below. |
| Seqs.WhereCount | 99_orthologous_calcs.py:91-108 | A group has as many members as there are input rows with its key. |
| Seqs.WhereMultiset | 99_orthologous_calcs.py:91-108 | A group holds each input row with its key as many times as the input does, and no other row. |
| Seqs.WhereAppend | 99_orthologous_calcs.py:91-108 | Grouping a concatenation gives the group of the first part followed by the group of the second, so a group lists its members in input order. |
| Text.Split | 99_orthologous_calcs.py:61 | `str.split` gives at least one piece, and no piece holds the separator. `Text.JoinSplit` is its inverse. |
| Text.Join | 99_orthologous_calcs.py:61 | No contract of its own. See `Text.SplitJoin` and `Text.JoinSplit`. |
| Text.SplitAtLast | 99_orthologous_calcs.py:21 | When two strings of the form `a + sep + b` are equal and neither `b` holds the separator, the `a`s are equal and so are the `b`s: the tail is everything after the last separator. |
| Text.SplitPair | 99_orthologous_calcs.py:21 | Two pieces joined by a separator that neither holds split back into those two pieces. |
| Seqs.GroupSizesPartition | 99_orthologous_calcs.py:100-108 | Distinct group keys that cover every row make group sizes that add up to the number of rows. |
| Seqs.PermutationKeys | 99_orthologous_calcs.py:109 | A rearrangement keeps the set of key values and keeps them duplicate-free. |
| AfGapTable.CombineAfGap | 99_orthologous_calcs.py:46 | The combined AF-gap table has unique keys and holds only input rows. For every key, lookup returns the row that lookup in the high-Fst-then-private concatenation returns. |
| AfGapTable.CombineAfGapKeys | 99_orthologous_calcs.py:46 | A key is in the combined table exactly when it is in either input. Its row is the high-Fst one when high-Fst has the key, otherwise the first private one. |
| Intersections.LoadAndLabel | 99_orthologous_calcs.py:53-66 | A missing file gives no rows. Otherwise each row keeps its place and columns and gains its label and its intersection key. |
| Intersections.NonEmptyFramesConcat | 99_orthologous_calcs.py:73-79 | Dropping empty tables before concatenating changes nothing. It leaves no table exactly when every table was empty. |
| Intersections.Concat | 99_orthologous_calcs.py:79 | No contract of its own. See `Intersections.ConcatMembers` and `Intersections.NonEmptyFramesConcat`. |
| Intersections.NonEmptyFrames | 99_orthologous_calcs.py:73 | Every table kept is non-empty and is one of the inputs. |
| Intersections.ConcatMembers | 99_orthologous_calcs.py:79 | A row is in the concatenation exactly when it is in one of the tables. |
| Intersections.CombineSources | 99_orthologous_calcs.py:73-79 | Fails with "no inputs" exactly when every source contributes no rows. Otherwise it returns all labelled rows of all sources, in source order. |
| LeftJoin.MergeOne | 99_orthologous_calcs.py:82-87 | A left row whose key is in no table row yields exactly one row with a missing AF_Gap, and only then. Otherwise it yields one row per table row with that key, in table order: the i-th output row carries the AF_Gap of the i-th matching table row. Every merged row carries the left row unchanged. |
| LeftJoin.MergeLeft | 99_orthologous_calcs.py:82-87 | The merge has at least as many rows as its left input. |
| LeftJoin.MergeLeftAppend | 99_orthologous_calcs.py:82-87 | Merging a concatenation merges each part in order. With `MergeOne`, this fixes the merge as each left row's matches, in left order. |
| LeftJoin.MergeLeftRows | 99_orthologous_calcs.py:82-87 | Every merged row carries one of the left rows. |
| LeftJoin.FillGap | 99_orthologous_calcs.py:88 | No contract of its own. `fillna(0)` on one merged row. See `LeftJoin.MergeLeftUnique` and `Pipeline.UnmatchedKeyGetsZero`. |
| LeftJoin.JoinAfGap | 99_orthologous_calcs.py:82-88 | The join has at least as many rows as its left input, and every row carries one of the left rows. |
| LeftJoin.MergeLeftUnique | 99_orthologous_calcs.py:82-88 | Against a table with unique keys, the merge keeps the row count. The i-th output is the i-th input row with its key's AF_Gap, or 0 when the key is absent. |
| LeftJoin.JoinKeepsRows | 99_orthologous_calcs.py:46-88 | Joining against the combined AF-gap table keeps every intersection row once, in order, with its AF_Gap or 0. |
| LeftJoin.JoinRepeatsOnDuplicateKeys | 99_orthologous_calcs.py:82-87 | Without unique table keys, a left row whose key two table rows share comes out twice. This is why the deduplication is needed. |
| Aggregate.SourceList | 99_orthologous_calcs.py:95 | `sorted(x.unique())` is strictly increasing and holds exactly the labels that occur. |
| Aggregate.CombinedSource | 99_orthologous_calcs.py:95 | No contract of its own. See the `Aggregate.CombinedSource…` lemmas below and `Aggregate.SourceList`. |
| Aggregate.CombinedSourceOnlyDependsOnLabelSet | 99_orthologous_calcs.py:95 | `combined_source` depends only on which labels occur, not on their order or multiplicity. |
| Aggregate.CombinedSourceSingle | 99_orthologous_calcs.py:95 | A group seen under one label is labelled with it alone. |
| Aggregate.CombinedSourceTwo | 99_orthologous_calcs.py:95 | A group seen under exactly two labels is labelled with both, lower one first, separated by `", "`. |
| Aggregate.CombinedSourceHighFstPrivateSa | 99_orthologous_calcs.py:95 | HighFST and PrivateSA together give `"HighFST, PrivateSA"`. |
| Aggregate.GroupBySnpAndTerm | 99_orthologous_calcs.py:91-97 | The first grouping gives one row per distinct (key, go_busco) pair of the input, each pair once. AF_Gap comes from the pair's first input row. `combined_source` is built from the labels of all the pair's rows. |
| Aggregate.GroupBySnpAndTermCount | 99_orthologous_calcs.py:91-97 | The first grouping has as many rows as there are distinct (key, go_busco) pairs. |
| Aggregate.GroupBySnpAndTermPartition | 99_orthologous_calcs.py:91-97 | The first grouping partitions its input: the sizes of its (key, go_busco) groups add up to the number of joined rows. |
| Aggregate.Sum | 99_orthologous_calcs.py:104 | No contract of its own. See `Aggregate.SummaryOf` and `Aggregate.SumAtMostCountTimesMax`. |
| Aggregate.Max | 99_orthologous_calcs.py:106 | `max` of a non-empty group is at least every member's value. |
| Aggregate.MaxAttained | 99_orthologous_calcs.py:106 | The maximum is one of the values. |
| Aggregate.SumAtMostCountTimesMax | 99_orthologous_calcs.py:104-106 | The sum is at most count times the maximum. |
| Aggregate.SummaryOf | 99_orthologous_calcs.py:100-108 | A group's summary carries its (go_busco, combined_source) and `n_snps` = group size ≥ 1. `sum_AF_Gap` is the sum of the members' AF_Gap, `mean_AF_Gap` times `n_snps` is the sum, and `mean_AF_Gap` ≤ `max_AF_Gap`. `max_AF_Gap` bounds every member's AF_Gap and equals some member's. |
| Aggregate.Summarize | 99_orthologous_calcs.py:100-108 | The second grouping gives one row per distinct (go_busco, combined_source) pair of its input, each pair once, and each row summarises its group as above. |
| Aggregate.TotalSnpsCountsRows | 99_orthologous_calcs.py:100-108 | The `n_snps` values add up to the number of first-grouping rows: every row is counted in exactly one group. |
| Aggregate.SnpCountIsDistinctKeys | 99_orthologous_calcs.py:103 | When the (key, go_busco) pairs are distinct, `n_snps` is the number of distinct SNP keys in the group, as the column's comment says. |
| Ranking.Insert | 99_orthologous_calcs.py:109 | Inserting into a ranked table keeps it ranked and adds exactly the new row. |
| Ranking.Rank | 99_orthologous_calcs.py:109 | The sort returns a permutation of its input in which every row has a larger `sum_AF_Gap` than every later row, or an equal one and at least as large an `n_snps`. |
| Ranking.RankedNeighbours | 99_orthologous_calcs.py:109 | In a ranked table each row has a larger sum than the next, or an equal sum and at least as many SNPs. |
| Ranking.RankKeepsGroups | 99_orthologous_calcs.py:109 | Sorting keeps the (go_busco, combined_source) pairs and keeps them distinct. |
| Ranking.RankKeepsTotal | 99_orthologous_calcs.py:109 | Sorting keeps the total of `n_snps`. |
| Pipeline.Run | 99_orthologous_calcs.py:19-79 | A missing high-Fst AF-gap table stops the run first, then a missing private one. With both present, the run fails exactly when no intersection source has rows, and then with "no inputs". Any result it returns is ranked. |
| Pipeline.Summary | 99_orthologous_calcs.py:82-109 | The summary is ranked by sum, then count, both descending. Its contents are stated by `Pipeline.SummaryCoversGroups`, `Pipeline.SummaryCountsPairs` and `Pipeline.RankedSummaryRows`. |
| Pipeline.Script | 99_orthologous_calcs.py:68-79 | With the script's three labelled sources, the run fails for lack of input exactly when each input is missing (`None`) or an empty row list. An existing but empty file is a different case; see "## Left out". |
| Pipeline.JoinedPairs | 99_orthologous_calcs.py:82-91 | The join hands the first grouping exactly the intersection rows' own (key, go_busco) pairs. |
| Pipeline.RankedSummaryRows | 99_orthologous_calcs.py:100-109 | Every row of the sorted summary still summarises its group. |
| Pipeline.SummaryCoversGroups | 99_orthologous_calcs.py:91-110 | The output has one row per (go_busco, combined_source) group of the first grouping, each group once, and every row summarises its group. |
| Pipeline.SummaryCountsPairs | 99_orthologous_calcs.py:82-109 | The output's `n_snps` add up to the number of distinct (key, go_busco) pairs among the intersection rows. |
| Pipeline.RunAccountsForPairs | 99_orthologous_calcs.py:73-109 | With readable AF-gap tables and a source with rows, the run succeeds. Its `n_snps` add up to the distinct (key, go_busco) pairs of all labelled rows. |
| Pipeline.OnePairGroup | 99_orthologous_calcs.py:82-97 | Rows sharing one (key, go_busco) pair become one first-grouping row. It carries all their labels and the AF_Gap of the key. |
| Pipeline.OneRowSummary | 99_orthologous_calcs.py:100-108 | A single first-grouping row becomes a summary row with `n_snps` 1, and sum, mean and max all equal to its AF_Gap. |
| Pipeline.OnePairSummary | 99_orthologous_calcs.py:82-109 | Rows sharing one (key, go_busco) pair become a single output row with one SNP. Sum, mean and max are the key's AF_Gap. |
| Pipeline.UnmatchedKeyGetsZero | 99_orthologous_calcs.py:46-88 | A key found in neither AF-gap table gets AF_Gap 0. |
| Pipeline.HighFstKeyGetsItsGap | 99_orthologous_calcs.py:46-88 | A key the high-Fst table holds gets the AF_Gap of its first high-Fst row. |
| Pipeline.RunOnRows | 99_orthologous_calcs.py:73-109 | With readable AF-gap tables, a non-empty set of labelled rows is summarised exactly. |
| Pipeline.SingleHit | 99_orthologous_calcs.py:68-109 | A single HighFST hit gives one row labelled `HighFST` with one SNP. Sum, mean and max are the key's AF_Gap. |
| Pipeline.SharedHit | 99_orthologous_calcs.py:68-109 | The same hit under HighFST and PrivateSA gives one row labelled `HighFST, PrivateSA` that counts the SNP once. |
| Pipeline.ScenarioMatchedSnp | 99_orthologous_calcs.py:21-109 | Worked example: high-Fst AF-gap rows (chr1, 100, 0.5) and (chr1, 200, 0.3), an empty private table, and a HighFST hit `chr1:100:rsX` on GO:0001, give the single output row GO:0001, HighFST, 1, 0.5, 0.5, 0.5. |
| Pipeline.ScenarioSharedSnp | 99_orthologous_calcs.py:21-109 | Worked example: the same hit under HighFST and PrivateSA gives GO:0001, `HighFST, PrivateSA`, 1, 0.5, 0.5, 0.5. |
| Pipeline.ScenarioUnmatchedSnp | 99_orthologous_calcs.py:21-109 | Worked example: a hit `chr2:300:rsZ` with no AF-gap row gives GO:0002, HighFST, 1, 0, 0, 0. |

## Left out

- Reading the TSV files, column naming and `read_csv` typing. These are I/O. An AF-gap table that is missing or cannot be read is a `None` input: the script catches both cases and exits.
- Printing progress messages, the top-20 preview, and writing the summary file. These are console and file I/O. The model returns the table that would be written.
- The process exit status. `exit()` is called without an argument, so the process ends with status 0 even on the fatal paths. The model reports those paths as `Err` values and says nothing about the status.
- The generic `except Exception` handlers for the AF-gap files. The model merges them with the not-found case: both give a `None` input and the same error.
- An intersection file that exists but cannot be read or parsed, is empty, or has a column count other than eight makes `read_csv` or the column assignment raise. The script does not catch this and stops with an uncaught exception. The model does not represent that failure. An intersection source's `None` means a missing file, which is skipped, and an existing file is a list of rows.
- NaN. AF_Gap values are exact reals. NaN values in the AF-gap files are not modelled, and neither is pandas dropping rows whose group keys are NaN. The only NaN modelled is the one a failed join match produces, and `fillna(0)` turns it into 0.
- Floating-point rounding in sum and mean. Arithmetic is on exact reals.
- CHROM is text and POS is a non-negative integer. A CHROM column that pandas would parse as numbers, and a POS column that pandas would read as floats (which changes `astype(str)`), are not modelled.
- A `snp_id` that is not text. The script's lambda would raise on it.
- Columns the script carries but never uses, and the row index (`ignore_index`, `reset_index`).
- The order of groups inside each grouping. pandas sorts group keys; the model lists groups in order of first appearance. pandas' sort on two columns is stable, so in the script, rows tied on both `sum_AF_Gap` and `n_snps` come out in sorted group-key order. In the model, they come out in first-appearance order. This is the only way the model's output order differs from the script's.
- Ranking.Rank: the contract says the output is ranked and a permutation, but not that the sort is stable. The insertion sort does keep tied rows in input order, as pandas' sort does, but no lemma states it.
