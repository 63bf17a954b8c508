# Ratings preparation: sampling, encoding, sparse build and test masking

This project models the batch transform in `modes/prepare_data.py`. The transform
turns a MovieLens rating log into three artefacts for a recommender:

- a binary **test matrix**;
- a **train matrix** from which a random share of the interactions has been hidden;
- the **masked users**: the rows that lost at least one interaction.

The model follows the code step by step:

1. Every rating is doubled (line 43).
2. A share `(|users| * pct) // 100` of the distinct users is drawn, and only their records are kept (lines 45-47).
3. Users and movies are numbered by their rank among the sorted distinct ids (lines 49-52, `cat.codes`).
4. The (row, column, rating) triples are built into a compressed sparse row (CSR) matrix, summing the ratings of repeated pairs (line 53).
5. The test matrix is a copy in which every nonzero value becomes 1 (lines 56-57).
6. The train matrix is another copy:
   - its nonzero positions are listed row by row (lines 62-63);
   - `ceil(test_pct / 100 * n)` of those positions are drawn (lines 68-69);
   - the drawn positions are set to zero, and the stored zeros are dropped (lines 74-75).
7. The masked users are the rows of the drawn positions (lines 72 and 84).

The pure steps are functions over sequences, and the properties the code promises are proved about them as lemmas:

| Module | What it holds |
|---|---|
| `Sampling` | `random.sample` and the two size formulas |
| `Records` | the rating log, doubling, the user population and the user filter |
| `Encoding` | sorted id lists and categorical codes |
| `Entries` | canonical sparse storage and the matrix it denotes |
| `Builder` | the summing sparse constructor |
| `Masking` | the test/train split as a function |

The matrices that the code changes in place are modelled by the class `Csr.CsrMatrix`. It holds the arrays `indptr`, `indices` and `data`. Its methods update these arrays with loops, and each method is proved against the functions of `Entries`. `Prepare` composes everything:

- `Prepare.RatingsMatrix` is the function for lines 43-53.
- `Prepare.PrepareData` is the method for the whole transform. Its results are proved equal to `Prepare.RatingsMatrix` followed by `Masking.MaskSplit`.
- Besides the two matrices and the masked rows, `Prepare.PrepareData` returns the sorted user and movie id lists of lines 49 and 51. The source uses them only for the shape at line 53 and writes none of them out; they are returned so that the lemmas can say which user and movie each row and column stands for.

Both random draws are inputs. A draw of `k` among `n` is a sequence of `k` distinct positions below `n` (`Sampling.IsDraw`), which is the choice `random.sample` makes. The code reaches an invalid sample size in two ways:

- a negative `k`;
- a `k` larger than the population.

In both cases `random.sample` raises `ValueError`, and the model returns `Failure(SampleSizeInvalid)`.

The code never checks that either percentage lies in [0, 100]. The transform fails only when a sample size falls out of range:

- **User sample.** It fails iff there are users and either the percentage is negative or `n * pct >= 100 * (n + 1)` (`Sampling.FloorSizeInRange`). So 150 percent of one user is accepted and keeps that user.
- **Interaction sample.** It fails iff `pct * n <= -100`, or `pct > 100` with `n > 0` (`Sampling.CeilSize`). So `test_percentage = -1` with fewer than 100 interactions draws nothing and does not fail.

In the code, `random.seed` is called at line 65, after the user draw at line 45. The seed therefore fixes only the interaction draw, and the model takes the two draws as independent inputs.

## Model

| member | source | states |
|---|---|---|
| Records.Doubled | modes/prepare_data.py:43 | every record keeps its user and movie, and its rating is multiplied by 2 |
| Records.RatingSumDoubled | modes/prepare_data.py:43 | after doubling, the total rating of every (user, movie) pair is twice the original total |
| Records.DoubledUsers | modes/prepare_data.py:43-45 | doubling leaves the user ids, the movie ids and the user population unchanged |
| Common.Unique | modes/prepare_data.py:45 | `unique()`: no duplicates, the same values as the input, never longer |
| Records.Population | modes/prepare_data.py:45 | the population has no duplicates and is exactly the set of users in the log |
| Sampling.FloorSize | modes/prepare_data.py:46 | `(n * pct) // 100` is the floor of `n * pct / 100`; it is within [0, n] for 0..100 percent, n at 100 and 0 at 0 |
| Sampling.FloorSizeInRange | modes/prepare_data.py:45-46 | the user sample size is valid iff there are no users, or `pct >= 0` and `n * pct < 100 * (n + 1)` |
| Sampling.DrawExists | modes/prepare_data.py:45 | whenever `k <= n` the generator can choose `k` of `n` positions |
| Sampling.DrawPositions | modes/prepare_data.py:45 | a draw chooses exactly `k` distinct positions below `n` |
| Sampling.DrawForExists | modes/prepare_data.py:45 | for every population size and sample size the generator has a choice: a draw when the size is in range, anything otherwise |
| Sampling.Sample | modes/prepare_data.py:45 | fails iff `k < 0` or `k > n`, with a sample-size error; otherwise returns `k` elements of the population |
| Sampling.SampleDistinct | modes/prepare_data.py:45 | drawing from a population without duplicates yields exactly `k` distinct elements of the population |
| Sampling.SampleAll | modes/prepare_data.py:69 | a draw of the whole population yields every element of it |
| Records.KeepUsers | modes/prepare_data.py:47 | `isin` filter: each record of a kept user keeps its multiplicity, and no other record remains |
| Records.SampleUsers | modes/prepare_data.py:45-47 | fails exactly when the floor size is out of range, with a sample-size error; on success every kept record comes from the log |
| Records.SampleUsersKeepsDrawn | modes/prepare_data.py:45-47 | the drawn users are distinct, they are exactly the users remaining after the filter, there are `(n * pct) // 100` of them, and all their records are kept |
| Records.RatingSumKeep | modes/prepare_data.py:47 | after the filter, a kept user's total for a movie is unchanged and a dropped user's total is 0 |
| Encoding.InsertSorted | modes/prepare_data.py:49 | inserting into a strictly increasing list keeps it strictly increasing and adds exactly the new value |
| Encoding.SortedDistinct | modes/prepare_data.py:49 | `np.sort(unique())`: strictly increasing, with exactly the values of the input |
| Encoding.IndexOf | modes/prepare_data.py:50 | the code of an id is the first position holding it |
| Encoding.IndexBijection | modes/prepare_data.py:50 | on a sorted id list the code is an order-preserving bijection onto `[0, n)` |
| Encoding.IndexOfRank | modes/prepare_data.py:50 | the code of an id is the number of distinct ids smaller than it |
| Encoding.Codes | modes/prepare_data.py:50 | every code is a valid index into the categories and points back at its own id |
| Encoding.Encode | modes/prepare_data.py:49-52 | the user and movie lists are sorted, distinct and exactly the ids present; each record becomes a triple whose row and column point back at its user and movie |
| Encoding.EncodeDense | modes/prepare_data.py:49-52 | every row index and every column index is used by some triple |
| Encoding.EncodeRowIsRank | modes/prepare_data.py:49-50 | a record's row is the number of distinct users with a smaller id |
| Builder.Insert | modes/prepare_data.py:53 | adding a triple to canonical storage keeps it canonical, adds its position, and adds its value at that position only |
| Builder.Accumulate | modes/prepare_data.py:53 | duplicate summing: the result is canonical, stored at exactly the positions of the triples, and the value at each position is the sum of the triples there |
| Builder.Build | modes/prepare_data.py:53 | fails iff the lengths differ or an index lies outside the shape, naming the error; on success the storage is canonical and within the shape |
| Builder.BuildSums | modes/prepare_data.py:53 | each cell of the built matrix is the sum of the values of the triples at that cell |
| Builder.BuildStorage | modes/prepare_data.py:53 | storage holds exactly the positions some triple names, one slot per position, and no more slots than triples |
| Prepare.CodedSum | modes/prepare_data.py:50-53 | summing the encoded triples at a cell gives the total rating of the user and movie that the cell's indices stand for |
| Prepare.Assemble | modes/prepare_data.py:49-53 | the matrix built from the kept records is canonical and in shape, with sorted distinct user and movie lists that are exactly the ids present |
| Prepare.AssembleValues | modes/prepare_data.py:49-53 | cell (r, c) holds the total rating that user `users[r]` gave movie `movies[c]` |
| Prepare.AssembleDense | modes/prepare_data.py:49-53 | every row and every column of the built matrix holds a stored entry |
| Prepare.UserDrawExists | modes/prepare_data.py:45 | every rating log and percentage admit a choice for the user sample; when its size is in range that choice is a draw (`Sampling.DrawFor`) |
| Prepare.DrawnUsers | modes/prepare_data.py:45 | the drawn users are users of the log, `(n * pct) // 100` of them |
| Prepare.Kept | modes/prepare_data.py:47 | the kept records are exactly the doubled records of the drawn users |
| Prepare.RatingsMatrix | modes/prepare_data.py:43-53 | fails iff the user sample size is out of range, with a sample-size error; otherwise a canonical matrix whose shape is the number of users by the number of movies |
| Prepare.RatingsMatrixSucceeds | modes/prepare_data.py:45-46 | for a dataset percentage between 0 and 100 the matrix is always built |
| Prepare.RatingsMatrixKept | modes/prepare_data.py:43-47 | the matrix is built from the doubled records of exactly the drawn users, and there are `(n * pct) // 100` of them |
| Prepare.KeptMovies | modes/prepare_data.py:47-51 | the movies left after the filter are exactly the movies the drawn users rated |
| Prepare.RatingsMatrixIds | modes/prepare_data.py:45-51 | rows are the drawn users in ascending order, `(n * pct) // 100` of them; columns are the movies those users rated, in ascending order |
| Prepare.RatingsMatrixValues | modes/prepare_data.py:43-53 | each cell is twice the sum of the ratings its user gave its movie |
| Prepare.RatingsMatrixDense | modes/prepare_data.py:49-53 | every row and every column of the ratings matrix holds a stored entry |
| Entries.ValueAtStored | modes/prepare_data.py:53 | in canonical storage the matrix value at a stored slot's position is that slot's value |
| Csr.CountRows | modes/prepare_data.py:53 | the row pointers computed from canonical entries start at 0, end at the entry count, do not decrease, and enclose each row's entries |
| Csr.CsrMatrix.FromEntries | modes/prepare_data.py:53 | CSR storage of canonical entries in the given shape, with valid layout and exactly those entries |
| Csr.CsrMatrix.Layout | modes/prepare_data.py:53 | a valid matrix has `indptr[0] == 0`, `indptr[nrows] == nnz`, non-decreasing row pointers that enclose each row, and canonical in-shape entries |
| Csr.CsrMatrix.RowSlots | modes/prepare_data.py:53 | a slot lies between the pointers of row `r` iff it belongs to row `r` |
| Csr.CsrMatrix.Copy | modes/prepare_data.py:56 | `copy()` produces fresh arrays holding the same shape and the same entries |
| Entries.Binarised | modes/prepare_data.py:57 | binarising keeps the storage length and every position |
| Entries.BinarisedMatrix | modes/prepare_data.py:57 | binarising keeps storage canonical, with the same positions and support; every value becomes 0 or 1, and the value is 1 exactly where the matrix was nonzero |
| Csr.CsrMatrix.Binarise | modes/prepare_data.py:57 | the in-place loop leaves a valid matrix whose entries are the binarised entries |
| Prepare.TestMatrix | modes/prepare_data.py:56-57 | the test matrix is a fresh valid matrix with freshly allocated arrays, of the same shape, whose entries are the binarised ratings |
| Entries.NonzeroPositions | modes/prepare_data.py:62-63 | `nonzero()` lists exactly the positions holding nonzero values |
| Entries.NonzeroPositionsDistinct | modes/prepare_data.py:62-63 | the listed positions are pairwise distinct, as many as the support |
| Entries.NonzeroPositionsPrefix | modes/prepare_data.py:62-63 | scanning one more slot appends its position iff its value is nonzero |
| Csr.CsrMatrix.NonzeroRow | modes/prepare_data.py:62-63 | scanning row `r` extends the list of the slots before the row to the list up to the row's end |
| Csr.CsrMatrix.Nonzero | modes/prepare_data.py:62-63 | the row-by-row scan returns the nonzero positions of the stored entries, in storage order |
| Csr.CsrMatrix.RowEntries | modes/prepare_data.py:62-63 | the slots between the pointers of row `r` are the entries of row `r`, inside the used prefix |
| Sampling.CeilSize | modes/prepare_data.py:68 | the mask size is the ceiling of `pct * n / 100`; negative iff `pct * n <= -100`, above n iff `n > 0` and `pct > 100`; 0 at 0 and n at 100 |
| Prepare.DrawSamples | modes/prepare_data.py:62-69 | the draw fails exactly when the split fails; otherwise it returns the split's samples, all inside the shape |
| Entries.Zeroed | modes/prepare_data.py:74 | zeroing keeps the storage length and every position |
| Entries.ZeroedStep | modes/prepare_data.py:74 | zeroing one more position changes only the slot storing it, or nothing if it is not stored |
| Entries.ZeroedMatrix | modes/prepare_data.py:74 | zeroing keeps storage canonical with the same positions; the zeroed set leaves the support, and the values elsewhere are unchanged |
| Csr.CsrMatrix.Find | modes/prepare_data.py:74 | returns the slot storing `(r, c)`, or -1 iff no slot stores it |
| Csr.CsrMatrix.SetZero | modes/prepare_data.py:74 | the slot's value becomes 0, and nothing else changes |
| Csr.CsrMatrix.ZeroOne | modes/prepare_data.py:74 | after one more zeroed position, the entries are the originals zeroed at the enlarged set |
| Csr.CsrMatrix.ZeroAt | modes/prepare_data.py:74 | `m[rows, cols] = 0`: the entries become the old entries zeroed at the given positions |
| Entries.NonzeroEntries | modes/prepare_data.py:75 | dropping zeros never lengthens the storage |
| Entries.NonzeroEntriesMembers | modes/prepare_data.py:75 | an entry survives iff it was stored with a nonzero value |
| Entries.NonzeroEntriesPrefix | modes/prepare_data.py:75 | scanning one more slot keeps it iff its value is nonzero |
| Entries.NonzeroEntriesCanonical | modes/prepare_data.py:75 | dropping zeros keeps storage canonical and within the shape |
| Entries.NonzeroEntriesMatrix | modes/prepare_data.py:75 | after `eliminate_zeros` the stored positions are exactly the support, no value is zero, the matrix is unchanged, and there is one slot per nonzero |
| Csr.CsrMatrix.ScanSlot | modes/prepare_data.py:75 | moving one slot of row `i` keeps the compaction invariant |
| Csr.CsrMatrix.CompactRow | modes/prepare_data.py:75 | compacting a row moves its nonzero slots to the front, after the rows before it |
| Csr.CsrMatrix.CompactStep | modes/prepare_data.py:75 | compacting row `i` and updating `indptr[i + 1]` extends the compaction invariant to row `i + 1` |
| Csr.CsrMatrix.Compact | modes/prepare_data.py:75 | the compaction loop establishes the invariant for all rows |
| Csr.CsrMatrix.Commit | modes/prepare_data.py:75 | setting the new entry count gives a valid matrix holding exactly the compacted entries |
| Csr.CsrMatrix.EliminateZeros | modes/prepare_data.py:75 | the in-place compaction leaves a valid matrix whose entries are the old entries without their zeros |
| Prepare.Mask | modes/prepare_data.py:74-75 | the train matrix becomes the old entries zeroed at the samples, with the zeros then dropped |
| Masking.MaskedRows | modes/prepare_data.py:72 | a row is masked iff some sampled position lies in it |
| Masking.MaskSize | modes/prepare_data.py:68 | the mask size lies in [0, n] for 0..100 percent, is 0 at 0 and n at 100 |
| Masking.MaskSizeCeiling | modes/prepare_data.py:68 | on canonical storage the mask size is the ceiling of `pct` percent of the nonzero cells |
| Masking.MaskDrawExists | modes/prepare_data.py:69 | every ratings matrix and percentage admit a choice for the interaction sample; when its size is in range that choice is a draw (`Sampling.DrawFor`) |
| Masking.TrainEntries | modes/prepare_data.py:74-75 | the train entries are exactly the original entries that are nonzero and not sampled, and never more than the original storage |
| Masking.MaskSplit | modes/prepare_data.py:56-75 | fails exactly when the mask size is out of range, with a sample-size error; otherwise the number of samples is the mask size |
| Masking.MaskSplitSucceeds | modes/prepare_data.py:68-69 | for a test percentage between 0 and 100 the split always succeeds |
| Masking.MaskSplitTest | modes/prepare_data.py:56-57 | the test matrix is canonical with the same positions; values are 0 or 1, and 1 exactly where a rating is nonzero |
| Masking.MaskSplitSamples | modes/prepare_data.py:62-69 | the samples are distinct nonzero positions, exactly the mask size in number |
| Masking.MaskSplitTrain | modes/prepare_data.py:60-75 | the train matrix is canonical and stored exactly at the unsampled nonzero positions, with no zero stored; it holds the ratings there and 0 at the samples; it has `support - k` entries |
| Masking.MaskSplitPartition | modes/prepare_data.py:56-75 | train positions and samples are disjoint, and the test matrix is 1 exactly on their union |
| Masking.SupportValue | modes/prepare_data.py:57 | in canonical storage a position is in the support iff the matrix is nonzero there |
| Masking.MaskSplitRows | modes/prepare_data.py:72 | a row is masked iff some sampled position lies in that row |
| Masking.MaskSplitInShape | modes/prepare_data.py:69-74 | every sampled position, and so every masked row, lies inside the shape |
| Masking.SupportInShape | modes/prepare_data.py:62 | the support of in-shape storage lies inside the shape |
| Masking.MaskNone | modes/prepare_data.py:68-75 | at 0 percent nothing is sampled, no row is masked, and the train matrix equals the ratings matrix |
| Masking.MaskAll | modes/prepare_data.py:68-75 | at 100 percent the train matrix is empty, and the masked rows are exactly the rows holding a nonzero rating |
| Prepare.TrainMatrix | modes/prepare_data.py:60-75 | the train step fails exactly when the split fails; otherwise it returns a fresh valid matrix with freshly allocated arrays, equal to the split's train entries, and the split's masked rows |
| Prepare.SplitRatings | modes/prepare_data.py:53-75 | stores the ratings, then builds the test and train matrices; fails exactly when the split fails, and otherwise both matrices and the masked rows equal the split's; the two matrices are fresh and own separate, freshly allocated arrays |
| Prepare.PrepareData | modes/prepare_data.py:43-84 | the transform fails exactly when one of the two sample sizes is out of range; otherwise its outputs are the ratings matrix's id lists and the split's test matrix, train matrix and masked rows; the two matrices own separate, freshly allocated arrays |

## Left out

- Command-line options, the dataset download and the unzip step (lines 1-39) are not modelled. The transform starts from the parsed records.
- `read_csv` and the dropped timestamp column (lines 41-42) are not modelled. A record is `(user, movie, rating)`.
- Creating the output directory, `save_npz` and `to_csv` (lines 77-85) are not modelled. The outputs are returned as values.
- The random generator itself is not modelled. Each `random.sample` takes its choice of positions as an input. `random.seed` (line 65) only makes the second choice reproducible, so the inputs are independent.
- Sampling.CeilSize: the ceiling is computed exactly. `np.ceil(pct / 100 * n)` works in binary floating point, where `pct / 100 * n` can round just above an integer (7 / 100 * 100, for example), so the source may draw one interaction more than the exact value.
- Masking.MaskSize: it is defined by `Sampling.CeilSize` and has the same gap, so the model may draw one interaction fewer than line 68 does.
- Ratings are exact real numbers rather than 64-bit floats, so sums of repeated ratings are exact.
- Missing ids, which `cat.codes` would encode as -1, are not modelled. Every id is an integer.
- Csr.CsrMatrix.ZeroAt: a position that is not stored is skipped. scipy would insert an explicit zero there, but line 74 only ever zeroes positions taken from `nonzero()`, and those are stored.
- Csr.CsrMatrix.EliminateZeros: the arrays are not shrunk after compaction (scipy's `prune`). The matrix is the prefix of `nnz` slots.
- The dtypes of the codes and indices (8-, 16- or 32-bit) are not modelled. Indices are unbounded naturals.
