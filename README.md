# Fraud-detection data preparation, modelled in Dafny

This project models the data-preparation core of a credit-card fraud-detection
repository and proves properties of the model. It covers four parts:

- **MDAV micro-aggregation** of the `lat`/`long` columns (`Preparation/MDAV.py`, module
  `Mdav`, file `mdav.dfy`). The script standardises both columns. While more than 2k rows
  remain, it peels off the k rows nearest the row r farthest from the centroid, then the k
  rows nearest the row s farthest from r. It then overwrites every clustered row with its
  cluster's mean. A remainder of more than k rows becomes one more cluster. The imperative
  method `Microaggregate` is proved equal to the specification function `Aggregated`. The
  lemmas state the script's guarantees about `Aggregated`: cluster sizes, disjointness,
  the mean written back, and the two failure paths.
- **Categorical k-anonymisation** (module `Anonymise`, file `anonymise.dfy`):
  `anonymise_to_cats`, `k_anon_jobs`, `k_anon_clustering`, `dob_to_age` and the column
  assembly of `anonymise_data`. The two files share this code, so it is modelled once.
  The functions at `Preparation/anonymise.py:9-39` sit two lines later in
  `Scripts/creation.py:11-41`. `anonymise_data` is at lines 43-91 in both. The copy in
  `Preparation` also has an unreachable `return series` after `k_anon_clustering`'s return.
  The table cites the `Preparation` copy, and every property holds for both.
  `k_anon_clustering`'s slice-assignment loop is the array method `FillBins`.
- **Per-entity features** of `Scripts/creation.py` (module `Features`, file `features.dfy`):
  `standardise_time`, `transactions_per_entity`, `time_since_last_transaction` (an
  imperative method over arrays that also clears the caller's column),
  `entity_amount_statistic`, `entity_amount_statistic_by_day` and `transaction_on_date`.
- **CSMOUTE resampling** (`Scripts/CSMOUTE.py`, module `Csmoute`, file `csmoute.dfy`).
  `SMOTE` and `SMUTE` are loop methods proved against the specification functions
  `Oversampled` and `Undersampled`. `CSMOUTE` splits the class gap with Python's
  round-half-even and proves the classes balanced when both loops finish.

The shared files are `wrappers.dfy` (`Option`, `Result`) and `order.dfy` (strict total
orders, sorted distinct values, positions in a sorted sequence).

Modelling conventions:

- A pandas table is a sequence of rows, or one sequence per column. Row labels are
  positions.
- Integers are unbounded. The int64 columns of the data never come near overflow.
- Coordinates and amounts are `real`.
- A pandas or Python exception is a `Failure` value. Each one is named after the
  exception it models: `KeyError`, a `range()` step of zero, `pd.concat` of no frames,
  `sample()` of an empty frame, and `datetime.utcfromtimestamp` of the NaN minimum of an
  empty series (`EmptySeries`).

## Model

| member | source | states |
|---|---|---|
| `Ordering.SortedDistinct` | Preparation/anonymise.py:10 | the categories of a category dtype: strictly increasing, holding exactly the values of the column |
| `Ordering.SortedPositions` | Preparation/anonymise.py:10 | in a strictly sorted sequence, position order is value order and equal values share one position |
| `Ordering.RankIsCountBelow` | Preparation/anonymise.py:10 | a value's position among the sorted categories is the number of distinct values below it |
| `Ordering.StrLess` | Preparation/anonymise.py:10 | Python's string order: no string sorts before itself |
| `Ordering.StrLessPrefix` | Preparation/anonymise.py:10 | a proper prefix sorts first, and no string sorts before one of its own prefixes |
| `Mdav.SqDistNonNegative` | Preparation/MDAV.py:22 | squared distances are non-negative and zero from a point to itself |
| `Mdav.Farthest` | Preparation/MDAV.py:21-29 | `idxmax` of the distances: a row of the working table at maximal distance, and no earlier row reaches that distance |
| `Mdav.Closest` | Preparation/MDAV.py:32 | a row of the table that is strictly closer than every earlier row and no farther than any later one |
| `Mdav.Nearest` | Preparation/MDAV.py:32 | `nsmallest(k)`: min(k, rows) distinct rows of the table, each closer (ties to the smaller label) than every row left out |
| `Mdav.NearestHoldsCentre` | Preparation/MDAV.py:32 | the k rows nearest a row contain that row, unless they all coincide with it |
| `Mdav.Drop` | Preparation/MDAV.py:33-34 | `drop` keeps exactly the rows not dropped, in order |
| `Mdav.DropSize` | Preparation/MDAV.py:33-34 | dropping k distinct rows of the table removes exactly k rows |
| `Mdav.PeelStep` | Preparation/MDAV.py:21-40 | one loop iteration leaves a valid working table with exactly 2k fewer rows |
| `Mdav.PeelStepShape` | Preparation/MDAV.py:32-40 | one iteration forms two disjoint clusters of exactly k distinct rows from the table, and the table afterwards holds exactly the other rows |
| `Mdav.Peel` | Preparation/MDAV.py:19-40 | the loop fails only with a KeyError, and only when more than 2k rows remain |
| `Mdav.PeelShape` | Preparation/MDAV.py:19-40 | the loop ends with at most 2k rows left, an even number of k-row clusters that partition the table together with the rest, and no cluster at all when it starts with at most 2k rows |
| `Mdav.PartitionsExtend` | Preparation/MDAV.py:33-40 | two clusters dropped from the table plus a partition of what remains partition the table |
| `Mdav.ShapedExtend` | Preparation/MDAV.py:32-40 | one iteration preserves the loop's invariant: sizes, k-row clusters, and the partition |
| `Mdav.LoopExit` | Preparation/MDAV.py:19 | when at most 2k rows remain, the clusters collected so far are the loop's result |
| `Mdav.PeelLoop` | Preparation/MDAV.py:16-40 | the `while` loop with `k_list` and `drop` computes exactly `Peel` over all rows |
| `Mdav.CoincidentRowsKeyError` | Preparation/MDAV.py:37 | when every remaining row coincides, s is the first row, which left with r's cluster, and the lookup of s raises a KeyError |
| `Mdav.Standardise` | Preparation/MDAV.py:12 | one standardised point per row |
| `Mdav.SumScaledLat` | Preparation/MDAV.py:12 | summing standardised latitudes and scaling back gives the sum of the raw latitudes less n times the mean |
| `Mdav.SumScaledLong` | Preparation/MDAV.py:12 | summing standardised longitudes and scaling back gives the sum of the raw longitudes less n times the mean |
| `Mdav.Mean` | Preparation/MDAV.py:21 | (also lines 45 and 52) `mean()` of a set of rows: the mean times the number of rows is their sum, column by column |
| `Mdav.Denormalise` | Preparation/MDAV.py:45 | `mean() * stdev + mean` undoes the standardisation of line 12: standardising the mapped-back point gives the standardised centroid back |
| `Mdav.CentroidIsPlainMean` | Preparation/MDAV.py:43-47 | a cluster's standardised mean mapped back through `stdev` and `mean` is the plain mean of its raw coordinates |
| `Mdav.ClusterMap` | Preparation/MDAV.py:43-47 | each cluster's write-back assigns its centroid to exactly its rows |
| `Mdav.ReplacementAt` | Preparation/MDAV.py:43-47 | after the write-back a row has a value iff it is in some cluster, and that value is its cluster's mapped-back mean |
| `Mdav.FinalClusters` | Preparation/MDAV.py:50-55 | the clusters, and the remainder when it has more than k rows, are non-empty, within the table and pairwise disjoint |
| `Mdav.ClusterRowsMean` | Preparation/MDAV.py:43-47 | every row of a loop cluster is written with the plain mean of its cluster |
| `Mdav.RemainderRowsMean` | Preparation/MDAV.py:50-62 | a remainder of more than k rows is written with its own mean; a smaller remainder is left out of the replacement |
| `Mdav.Replacement` | Preparation/MDAV.py:62 | `pd.concat(k_list)` holds exactly the rows that lie in some cluster |
| `Mdav.Centroids` | Preparation/MDAV.py:43-47 | the `for` loop over `k_list` builds exactly `Replacement`: each cluster's rows mapped to its mapped-back mean |
| `Mdav.WrittenBack` | Preparation/MDAV.py:49-62 | fails with `pd.concat` of no frames iff there is no cluster and at most k rows remain; otherwise keeps the clusters and the remainder and has one coordinate per row |
| `Mdav.WrittenBackMeans` | Preparation/MDAV.py:43-62 | the write-back fails iff there is no cluster and at most k rows remain; otherwise every clustered row carries its cluster's mean and every other row a missing value |
| `Mdav.WriteBack` | Preparation/MDAV.py:43-62 | `Centroids`, then the remainder branch and `pd.concat`, compute exactly `WrittenBack` |
| `Mdav.Aggregated` | Preparation/MDAV.py:10-62 | one coordinate per input row on success; a failure is `pd.concat` of no frames, or a KeyError, which needs more than 2k rows |
| `Mdav.AggregatedShape` | Preparation/MDAV.py:10-62 | a successful run has the loop's shape, one coordinate per input row, and cluster means written to every clustered row |
| `Mdav.NoClusterIffAtMostK` | Preparation/MDAV.py:50-62 | the script fails with `pd.concat([])` iff the table has at most k rows |
| `Mdav.OneClusterWhenSmall` | Preparation/MDAV.py:50-55 | with k < N <= 2k, all rows form one cluster and all get the mean of the whole table |
| `Mdav.Microaggregate` | Preparation/MDAV.py:10-62 | the whole script (standardise, loop, write-back) computes exactly `Aggregated` |
| `Anonymise.Codes` | Preparation/anonymise.py:9-10 | `cat.codes`: one code per row, below the number of categories; equal values iff equal codes; values ordered iff codes ordered |
| `Anonymise.CodeIsRank` | Preparation/anonymise.py:9-10 | a row's code is the number of distinct values smaller than its value |
| `Anonymise.CodesCover` | Preparation/anonymise.py:9-10 | every code below the number of categories is used by some row |
| `Anonymise.BeforeComma` | Preparation/anonymise.py:19 | `split(",")[0]`: the longest prefix holding no comma, ending at the first comma or the end |
| `Anonymise.Lead` | Preparation/anonymise.py:19 | the length of the leading run of Python whitespace |
| `Anonymise.Trail` | Preparation/anonymise.py:19 | the length of the trailing run of Python whitespace |
| `Anonymise.Strip` | Preparation/anonymise.py:19 | `str.strip()`: no surrounding whitespace, empty iff all whitespace; otherwise the slice that starts after the leading whitespace and ends where the trailing whitespace begins |
| `Anonymise.JobKey` | Preparation/anonymise.py:19 | a job's key holds no comma and no surrounding whitespace |
| `Anonymise.JobKeyEmpty` | Preparation/anonymise.py:19 | a job's key is empty iff the text before its first comma is all whitespace |
| `Anonymise.JobKeyIsStrippedPrefix` | Preparation/anonymise.py:19 | a non-empty key is the slice of the job itself that starts after the leading whitespace of the text before the first comma and ends where that text's trailing whitespace begins |
| `Anonymise.BeforeCommaOfPrefix` | Preparation/anonymise.py:19 | the text before `job + "," + qualifier` is the comma-free `job` |
| `Anonymise.JobKeyIgnoresQualifier` | Preparation/anonymise.py:19 | a qualifier after a comma does not change a job's key |
| `Anonymise.GroupIndexIsCodes` | Preparation/anonymise.py:20-21 | the group-by index over codes 0..C-1 holds code p at position p, so `np.where` positions are codes |
| `Anonymise.CodesRange` | Preparation/anonymise.py:20-21 | the job codes are exactly 0..C-1 |
| `Anonymise.KAnonJobs` | Preparation/anonymise.py:15-23 | one job category per row |
| `Anonymise.KAnonJobsRare` | Preparation/anonymise.py:15-23 | (also Scripts/creation.py:17-25) a row's job becomes -1 iff fewer than k distinct persons hold its key; otherwise it keeps its key's code |
| `Anonymise.Descending` | Preparation/anonymise.py:28-30 | `unique()` then `sort_values(ascending=False)`: strictly decreasing, holding exactly the column's values |
| `Anonymise.BinOfBounds` | Preparation/anonymise.py:34-37 | every slot's bin id lies in 0..floor(u/k)-1 |
| `Anonymise.SlotOfBlock` | Preparation/anonymise.py:35 | the slots of the b-th block of k get bin b |
| `Anonymise.SlotOfTail` | Preparation/anonymise.py:36 | the tail after the last full block gets the last block's bin |
| `Anonymise.BinRange` | Preparation/anonymise.py:34-37 | a slot with bin b lies in block b, or after it when b is the last bin |
| `Anonymise.Clustered` | Preparation/anonymise.py:26-39 | fails with a `range()` step of zero iff k = 0; otherwise one value per row |
| `Anonymise.BinTable` | Preparation/anonymise.py:32-37 | one entry per distinct value |
| `Anonymise.FillBins` | Preparation/anonymise.py:32-37 | the `for` loop of slice assignments computes exactly `BinTable` |
| `Anonymise.KAnonClustering` | Preparation/anonymise.py:26-39 | (also Scripts/creation.py:28-41) the method computes exactly `Clustered`, a `range()` error for k = 0 included |
| `Anonymise.ClusteredIsPerValue` | Preparation/anonymise.py:39 | one output per input row, and equal inputs get equal outputs |
| `Anonymise.ClusteredIdentity` | Preparation/anonymise.py:29-39 | with k < 0, or with fewer than k distinct values, the loop never runs and every value maps to itself |
| `Anonymise.ClusteredAt` | Preparation/anonymise.py:34-39 | a row's bin is min(p/k, u/k - 1) for the position p of its value in descending order |
| `Anonymise.ClusteredBinIds` | Preparation/anonymise.py:32-37 | with u >= k distinct values, the bin ids used are exactly 0..floor(u/k)-1 |
| `Anonymise.ClusteredDescending` | Preparation/anonymise.py:30-37 | a larger value never gets a larger bin id than a smaller one |
| `Anonymise.ClusteredBinSizes` | Preparation/anonymise.py:34-36 | every bin except the last holds exactly k distinct values; the last holds from k to 2k-1 |
| `Anonymise.BinIsSlice` | Preparation/anonymise.py:35-36 | the values of a bin are exactly one slice of the descending distinct values |
| `Anonymise.DobToAge` | Preparation/anonymise.py:12-13 | (also Scripts/creation.py:14-15) the age is the floor of the time since birth divided by numpy's year of 31556952 seconds |
| `Anonymise.PersonKey` | Preparation/anonymise.py:67 | the key is first name, last name, job and dob joined by three underscores: its length is theirs plus 3, it starts with the first name and an underscore, and ends with an underscore and the dob |
| `Anonymise.PersonKeys` | Preparation/anonymise.py:67 | one key per row |
| `Anonymise.PersonKeysSamePerson` | Preparation/anonymise.py:67 | rows that agree on first name, last name, job and dob get the same key |
| `Anonymise.AnonymiseData` | Preparation/anonymise.py:43-91 | every column of the cleaned table has one entry per transaction |
| `Anonymise.AnonymiseDataCopies` | Preparation/anonymise.py:52-79 | fraud flag, time and amount are copied and age is derived row by row |
| `Anonymise.AnonymiseDataIds` | Preparation/anonymise.py:63-88 | two rows share a card, person or merchant id iff they share the card number, the person key or the merchant |
| `Anonymise.AnonymiseDataJobs` | Preparation/anonymise.py:75 | a row's job category is -1 iff fewer than 5 distinct person ids hold its job key |
| `Anonymise.PersonKeyCollides` | Preparation/anonymise.py:67 | two different persons whose names differ only in where an underscore falls get the same person id |
| `Features.Day` | Scripts/creation.py:176 | `pd.to_datetime(unit="s").dt.date`: the UTC day containing the time |
| `Features.SeqMin` | Scripts/creation.py:94 | `series.min()`: an element no larger than any other |
| `Features.StandardiseTime` | Scripts/creation.py:93-96 | fails with the empty-series error iff the column is empty; otherwise one value per row |
| `Features.StandardiseTimeShape` | Scripts/creation.py:93-96 | fails iff the column is empty; otherwise keeps all differences and every time of day (each value agrees with its time modulo one day), gives no negative value, and has a value within the first day |
| `Features.Occurrences` | Scripts/creation.py:144 | `value_counts()[x]`: the multiplicity of x, at least 1 iff x occurs |
| `Features.TransactionsPerEntity` | Scripts/creation.py:142-145 | each row gets the number of rows with its id, at least 1 |
| `Features.PersonDays` | Scripts/creation.py:188 | one (person, day) key per row |
| `Features.PairCountBound` | Scripts/creation.py:186-195 | a person has no more rows on one day than rows in all |
| `Features.TransactionOnDate` | Scripts/creation.py:186-195 | fails with `KeyError("person_id")` iff the id column is not `person_id`; otherwise one count per row, each at least 1 |
| `Features.TransactionOnDateBounds` | Scripts/creation.py:186-195 | with `person_id`, each row gets the number of rows with the same person and day, between 1 and the person's total |
| `Features.Last` | Scripts/creation.py:157-159 | the nearest earlier row with a given id, or none |
| `Features.SinceLast` | Scripts/creation.py:157-161 | one value per row |
| `Features.Unique` | Scripts/creation.py:157 | `unique()`: distinct, holding exactly the column's values |
| `Features.FillGaps` | Scripts/creation.py:158-159 | for one id, its rows get the time since that id's previous row (or -1) and every other row keeps its value |
| `Features.TimeSinceLastTransaction` | Scripts/creation.py:148-161 | the loop over ids computes, per row, the time since the previous row of the same id, or -1; the caller's column is set to -1 throughout |
| `Features.SinceLastFirstRow` | Scripts/creation.py:154-161 | with times in row order, a row gets -1 iff it is its id's first row, and a non-negative gap otherwise |
| `Features.MaxOf` | Scripts/creation.py:168 | `agg("max")`: an element no smaller than any other |
| `Features.MinOf` | Scripts/creation.py:168 | `agg("min")`: an element no larger than any other |
| `Features.Statistic` | Scripts/creation.py:168 | the group's statistic lies between its minimum and maximum, and `max` and `min` are amounts of the group |
| `Features.MeanBetween` | Scripts/creation.py:168 | `agg("mean")` lies between the group's minimum and maximum |
| `Features.SumBounds` | Scripts/creation.py:168 | a group's sum lies between its size times a lower and an upper bound |
| `Features.GroupAmounts` | Scripts/creation.py:167 | a group's amounts: an amount is in the group iff some row with its key carries it (multiplicities in `GroupAmountsCount` and `GroupAmountsMultiset`) |
| `Features.GroupAmountsCount` | Scripts/creation.py:167 | a group has one amount per row with its key |
| `Features.GroupAmountsMultiset` | Scripts/creation.py:167 | a group holds each amount exactly as often as rows with its key carry it |
| `Features.PerRowStatistic` | Scripts/creation.py:169 | one value per row |
| `Features.EntityAmountStatistic` | Scripts/creation.py:165-169 | one value per row, in row order |
| `Features.EntityAmountStatisticByDay` | Scripts/creation.py:173-183 | one value per row, in the original row order |
| `Features.PerRowStatisticSpec` | Scripts/creation.py:165-183 | rows of one group get equal values; max is at least the row's amount and is some amount of the group, min symmetrically; mean lies between min and max |
| `Features.DayMaxAtMostEntityMax` | Scripts/creation.py:173-183 | an entity's maximum on a day never exceeds its maximum over all days |
| `Csmoute.ILoc` | Scripts/CSMOUTE.py:41 | `iloc`, with -1 as the last row, always yields a row of the frame |
| `Csmoute.Interp` | Scripts/CSMOUTE.py:43 | the interpolated row has the frame's width |
| `Csmoute.Between` | Scripts/CSMOUTE.py:43 | `x1 + r * (x2 - x1)` with r in [0, 1] stays within any bounds holding x1 and x2 |
| `Csmoute.InterpInBox` | Scripts/CSMOUTE.py:43 | interpolating two rows inside a box stays inside the box, column by column |
| `Csmoute.Synthetic` | Scripts/CSMOUTE.py:76-83 | one SMOTE row has the minority rows' width |
| `Csmoute.Smote` | Scripts/CSMOUTE.py:58-92 | the `while` loop appending one interpolated row per draw computes exactly `Oversampled` |
| `Csmoute.Oversampled` | Scripts/CSMOUTE.py:58-92 | fails only with `sample()` of an empty frame; otherwise one label per row and one width |
| `Csmoute.OversampledSpec` | Scripts/CSMOUTE.py:58-92 | fails iff the minority is empty; otherwise keeps the minority rows as a prefix, appends exactly max(n_smote, 0) rows, and gives them all one minority label |
| `Csmoute.OversampledOnSegments` | Scripts/CSMOUTE.py:68-83 | each SMOTE row lies on the segment from a minority row to the minority row in one of neighbour slots 1 to 5 of the search fitted on the minority |
| `Csmoute.OversampledInBox` | Scripts/CSMOUTE.py:75-85 | SMOTE rows stay within any box holding the minority rows |
| `Csmoute.DropTwo` | Scripts/CSMOUTE.py:45-46 | `drop([a, b])` removes one row when a = b and two otherwise, keeping only rows of the frame (which rows: `DropTwoRows`) |
| `Csmoute.DropTwoRows` | Scripts/CSMOUTE.py:45-46 | the rows that remain, together with the one or two dropped rows, are exactly the frame's rows |
| `Csmoute.SmuteStep` | Scripts/CSMOUTE.py:33-49 | one iteration shrinks the frame by 1 when x1 != x2 and by 0 otherwise; it fails only with KeyError(-1) and only on fewer than 6 rows |
| `Csmoute.SmuteStepRows` | Scripts/CSMOUTE.py:33-49 | a successful iteration keeps every row but x1 and x2 (one row when they coincide), appends x1 + r(x2 - x1), and labels it with the label drawn before the loop |
| `Csmoute.SmuteStepLabels` | Scripts/CSMOUTE.py:45-49 | an iteration never adds a row with a label other than the drawn one |
| `Csmoute.SmuteStepShape` | Scripts/CSMOUTE.py:33-49 | one iteration keeps the frame's width, keeps rows inside any box, and keeps labels among the majority labels |
| `Csmoute.Smute` | Scripts/CSMOUTE.py:21-56 | the `while` loop that refits the search and replaces two rows by one computes exactly `Undersampled` |
| `Csmoute.SmuteLoop` | Scripts/CSMOUTE.py:32-49 | fails only by running out of draws or with KeyError(-1); a finished loop has shrunk the frame by at least n_smute rows, with one label per row and one width |
| `Csmoute.SmuteLoopLabels` | Scripts/CSMOUTE.py:32-49 | over the whole loop, no label other than the drawn one gains rows |
| `Csmoute.SmuteLoopShrinks` | Scripts/CSMOUTE.py:32-49 | a finished loop has shrunk the frame by exactly max(n_smute, 0) rows |
| `Csmoute.SmuteLoopInBox` | Scripts/CSMOUTE.py:32-49 | the loop keeps all rows inside any box holding the starting rows, and keeps the labels |
| `Csmoute.SmuteLoopNoKeyError` | Scripts/CSMOUTE.py:38-46 | with at least n_smute + 5 rows, no iteration meets fewer than six rows, so the KeyError cannot arise |
| `Csmoute.SmuteLoopNoEmpty` | Scripts/CSMOUTE.py:32-33 | the frame never becomes empty, so `sample()` inside the loop never fails |
| `Csmoute.Undersampled` | Scripts/CSMOUTE.py:21-56 | fails only with `sample()` of an empty frame, by running out of draws, or with KeyError(-1); otherwise one label per row and one width |
| `Csmoute.UndersampledLabels` | Scripts/CSMOUTE.py:21-56 | SMUTE's result holds no more rows of any other label than the majority did |
| `Csmoute.UndersampledSpec` | Scripts/CSMOUTE.py:21-56 | fails on `sample()` iff the majority is empty; a finished run has exactly |maj| - max(n_smute, 0) rows with majority labels; no KeyError on a large enough frame |
| `Csmoute.UndersampledInBox` | Scripts/CSMOUTE.py:32-49 | SMUTE rows, including those interpolated from earlier synthetic rows, stay within any box holding the majority rows |
| `Csmoute.RoundHalfEven` | Scripts/CSMOUTE.py:102 | Python `round`: within 1/2 of the argument, and even on a tie |
| `Csmoute.Split` | Scripts/CSMOUTE.py:101-103 | n_smote + n_smute = n, and both lie in 0..n when n >= 0 and the ratio is in [0, 1] |
| `Csmoute.RoundWithin` | Scripts/CSMOUTE.py:102 | rounding n * ratio for a ratio in [0, 1] gives a value in 0..n |
| `Csmoute.Csmoute` | Scripts/CSMOUTE.py:94-110 | SMOTE on the minority and then SMUTE on the majority compute exactly `Resampled` |
| `Csmoute.Resampled` | Scripts/CSMOUTE.py:94-110 | fails only with SMOTE's or SMUTE's errors; otherwise each class has one label per row and one width |
| `Csmoute.ResampledBalanced` | Scripts/CSMOUTE.py:101-110 | with |maj| >= |min| and a ratio in [0, 1], a finished run leaves both classes with |min| + n_smote rows |

## Left out

- File input and output, the top-level script code, the hard-coded paths and progress printing: `Preparation/MDAV.py:5` and `63-66`, `Preparation/anonymise.py:93-100`, `Scripts/creation.py:224-237`, `Scripts/CSMOUTE.py:112-126`, and the `printing` flags.
- Date parsing and formatting, `pd.to_datetime(format=...)` and `strftime` (`Preparation/anonymise.py:46-47`, `67`). Transactions carry both the dob text and its parsed time in seconds.
- `convert_currency` and `prepare_amount`. They make a network call and round floats.
- `extend_meta` and `hour_of_day`. They only call the modelled features.
- Scripts/SMOTE.py, Scripts/ADASYN.py and Scripts/SMOTEENN.py. Each is a single library call; they are not part of this model.
- Floating point. Coordinates, amounts and draws are exact reals. The square root is left out because distances are compared squared, which gives the same order.
- `Mdav.Aggregated`: the column standard deviations are a parameter. They need a square root, and they are non-zero in the model. The means are computed exactly.
- `Mdav.Aggregated`: a column whose values are all equal has standard deviation 0. The source then divides 0 by 0 (`Preparation/MDAV.py:12`), and `idxmax` fails on the all-NaN distances (`Preparation/MDAV.py:25`). The model does not capture that failure. `Mdav.CoincidentRowsKeyError` covers coincident rows in a table whose deviations are non-zero.
- `Mdav.Aggregated`: the model requires k >= 1. With k = 0 the source loop never removes a row and does not terminate.
- NaN and missing values in the input columns. `pd.concat`'s index-aligned write-back is modelled; the missing coordinates it produces are `None`.
- `Features.StandardiseTime`: midnight is taken in UTC. The source's `datetime.timestamp()` of a naive datetime reads it in the process's local time zone.
- `Features.StandardiseTime`: the times are integers, as `unix_time` is, so the microseconds `replace` leaves in place are 0.
- `Features.EntityAmountStatisticByDay`: the inner merge is taken to keep the left rows' order. pandas does this from version 2.2.0 on. Earlier versions return the rows grouped by key, and `.values` then misaligns the column unless the rows already come grouped by (id, day).
- `Features.TransactionOnDate`: the inner merge is taken to keep the left rows' order. pandas does this from version 2.2.0 on. Earlier versions return the rows grouped by key, and `.values` then misaligns the column unless the rows already come grouped by (id, day).
- `Features.TimeSinceLastTransaction`: the returned column holds a difference where pandas holds a float that `astype(int)` truncates. Differences of integer times are integers, so the two agree.
- `Features.EntityAmountStatistic`: the aggregations are `mean`, `max` and `min`, the ones the script uses. Other `agg` names are not modelled.
- `Csmoute.Smute`: the random draws are a finite list. When they run out before the loop ends, the result is `Unfinished`. The source loop can run forever when x1 and x2 keep coinciding.
- `Csmoute.DropTwo`: the contracts state which rows remain (as a multiset, in `Csmoute.DropTwoRows`), not that `reset_index` keeps them in their old order.
- `Csmoute.Smote`: the list of draws must have at least n_smote entries, one per iteration.
- The faiss index is a parameter `search`; the predicate `Csmoute.FaissSearch` states what is assumed of it. It returns six labels per query: row positions for the first min(6, rows) slots and -1 for the rest. Nothing else about faiss is modelled, and neither is "self first".
- The random sources are parameters. `sample()` is a natural number taken modulo the current row count; `randrange(5)` and `uniform(0, 1)` are values within their ranges.
- `DataFrame.append` is taken as the append it was before pandas 2.0 removed it.
- The `is_fraud` column that CSMOUTE splits off: the model starts from the feature rows and label sequences.
