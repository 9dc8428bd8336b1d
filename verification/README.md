# A verified model of the 3XOR pipeline

The repository looks for triples of hashes, one of each of three kinds, whose XOR starts with as many zero
bits as possible. This project models the programs that do so, in Dafny, and proves what they promise. The
vendored miner in `custom_cgminer/` is not part of it.

The pipeline, and where it is modelled:

1. **Hashing.** `hasher.dfy` models the 80-byte blocks, the double hash, the test that a hash is worth keeping and
   its cutting into a partition key and a 64-bit partial hash. `fips180.dfy` states SHA-256 as FIPS 180-4 defines
   it, and `fips_constants.dfy` where its constants come from; `sha256.dfy` and `sha256_context.dfy` model the
   implementation, with its ring of 16 words, its registers that change names, and its buffer for messages in
   pieces.
2. **The splitter**, a reader, a writer and any number of mappers that exchange MPI messages: `splitter.dfy` is
   the step system, `splitter_proofs.dfy` its invariants, `splitter_runs.dfy` whole runs; `partitioned.dfy`
   says what hashes end up in which file.
3. **The merger**, a loser tree over sorted files: `loser_tree.dfy` and `merger.dfy`.
4. **The slicer** (algorithm S), which cuts a list of 64-bit vectors into slices, each with an invertible matrix
   that brings many zeros to the top of its vectors: `words.dfy`, `linear.dfy`, `basis.dfy`, `transpose.dfy`,
   `echelon.dfy`, `equations.dfy`, `completion.dfy`, `search.dfy`, `lists.dfy`, `slicer.dfy`, `matrix.dfy`, `slices.dfy`,
   `algorithm_s.dfy`. `slice_checker.dfy` models the program that checks its output.
5. **The join** (algorithms G and J) of two lists with a slice file: `tables.dfy`, `partition.dfy`,
   `probing.dfy`, `hash_tables.dfy`, `zero_lookup.dfy`, `subjoin.dfy`, `join_theory.dfy`, `joux.dfy`.
6. **Task groups and jobs**, which decide who joins what: `xor_arithmetic.dfy`, `task_groups.dfy`, `jobs.dfy`.
7. **All of it together**: `pipeline.dfy` for the slicer and the join, and `whole.dfy` from files of preimages to the
   near-collisions that the tasks report.

`dafny verify dfyconfig.toml` checks the whole project.

## How the code is modelled

A machine word is the set of the positions of its one-bits (`words.dfy`): `^`, `&`, `|` and popcount are
symmetric difference, intersection, union and cardinality, and shifts drop what leaves the 64 positions. Where a
word is used as a number, `numbers.dfy` gives its value. The 32-bit arithmetic of SHA-256 is on numbers below 2^32
with the wrap-around written out. A matrix is the sequence of its 64 rows; T, the transposed list of the slicer,
is an array of 64 rows and w columns of words.

What the code does in place stays in place: T, E, M and Minv are arrays changed by nested loops, the lists of the
slicer are linked nodes, the hash tables, buckets, ring, registers and buffers are arrays and fields. Each such
method is proved against a function or relation on values, and the theorems are about those. Random numbers, the
clock, the order of the threads and the order in which messages arrive are arbitrary: parameters about which
nothing is assumed, or choices that a proof may not depend on. The threads of the join are interleaved at the
granularity of one item in `partition`, and assigned arbitrarily in the other loops.

The splitter is a protocol between processes, and is modelled as a step system: a state, the steps that are
enabled in it, and the next state. A channel between two processes keeps its order (section 3.5 of MPI 3.1), and
holds up to `capacity` messages; with capacity zero, a message is only sent to a process that waits for it.

## What the code demands, and where it falls short

* The word zero marks an empty slot in every hash table. A zero in the first list is silently skipped (`Subjoin.Join`),
  so that a sum with it is missed (`Pipeline.ZeroSkippedInError`).
* Whether a sum of zero is reported depends on the tables of the slices, not on zero being in the third list
  (`Pipeline.FoundIff`). The program errs both ways. With a slice that holds just the vector 1, a value that the two lists
  share is reported with the sum zero (`Pipeline.ZeroReportedInError`); with a slice that holds 0 and 512, it is not
  (`Pipeline.ZeroMissedInError`). `Pipeline.ExactIff` says for all lists exactly when the result is right, and
  `ZeroLookup.ZeroFoundOrNot` what the vectors of a slice tell beforehand. Lists that the merger has written hold no zero.
* The comment in `ijoux/datastructures.h:3` speaks of tables of 256 elements; the code has 512 slots
  (`ijoux/datastructures.h:5`), and the model follows the code. A slice must have fewer than 512 vectors and a
  partition of the first list fewer than 512 non-zero words, or the insertion loops would not end.
* A run of the slicer is aborted after 1000 singular paddings in a row. The equations themselves are never to blame: they
  are always independent (`Slicer.Workspace.SliceIt`). After the first call of `check_rank_defect` in `slice_it` there
  is never a defect (`Slicer.Workspace.Round`). `AlgorithmS.SliceAll` says which draws abort a run, in terms of the
  vectors alone. The test comes after the trial (`preprocessing/slicer.c:701-708`), so that a success in trial 1001 is
  thrown away.
* The comment above `echelonize` says that the rows from j + 1 on are zero (`preprocessing/slicer.c:260`); the code
  makes the rows from j on zero, which is what is proved.
* Reading list r ^ s of a task group needs groups whose size is a power of two, and doing every task needs sizes that
  divide each other; `TaskGroups.XorStaysInGroup` and `JobCoverage.JobsCover` show that these are exactly the conditions.
* The merger keeps the hashes 0 and 2^64 - 1 for its dummies and its sentinel; files that hold them are excluded.
* The digits of a counter are written one position to the right of the sixteen zeros of the template
  (`preprocessing/hasher.h:5-21`), so that a counter of zero leaves a blank there. The model does the same; blocks
  still determine their preimages (`Hasher.PlaintextInjective`).

## Model

| member | source | states |
|---|---|---|
| `Transpose.Transpose64` | preprocessing/slicer.c:170-217 | the six butterfly stages, in place, give the plain transpose: bit j of T[i] is bit i of M[j], for all i and j |
| `Transpose.Exchange` | preprocessing/slicer.c:178-216 | one exchange of two rows at distance k swaps their halves and leaves the other rows alone |
| `Transpose.StageTransposes` | preprocessing/slicer.c:170-217 | each stage moves bit (i, j) as exchanging one binary digit of i and j does |
| `Transpose.OriginSwapsHighParts` | preprocessing/slicer.c:170-217 | the exchanges of the stages so far add up to swapping the high parts of row and column number |
| `Echelon.TransposeWide` | preprocessing/slicer.c:232-240 | the transpose in w blocks: bit r of vector c is the element at row r, column c |
| `Echelon.SwapBits` | preprocessing/slicer.c:249-254 | the XOR trick exchanges bit j of the first word of a row with bit lbit of word lw, also when they are the same bit |
| `Echelon.SwapColumns` | preprocessing/slicer.c:243-255 | exchanges two columns of T; the columns that T tracks are exchanged in the same way |
| `Echelon.SearchPivot` | preprocessing/slicer.c:279-305 | whatever columns the random draws choose, the search ends with a pivot, or else every remaining column is zero below row j |
| `Echelon.ClearColumn` | preprocessing/slicer.c:319-330 | the pivot row is added, in T and in E, to exactly the other rows that have a one in the column |
| `Echelon.Eliminate` | preprocessing/slicer.c:309-331 | one elimination step keeps T = E * C and E invertible, and makes column j the j-th unit vector without spoiling the ones before |
| `Echelon.NoPivotLeft` | preprocessing/slicer.c:306-307 | if no pivot was found, all the columns are combinations of the first j rows: the rows from j on are zero |
| `Echelon.Echelonize` | preprocessing/slicer.c:261-334 | T = E * C for a permutation C of the first m columns, E is invertible, the first j columns are unit vectors, and if j < d then the rows from j on are zero |
| `Linear.TooManyVectors` | preprocessing/slicer.c:336-339 | more than r vectors of r bits satisfy a non-trivial relation: the bound behind the rank-defect test |
| `Basis.PivotsIndependent` | preprocessing/slicer.c:340-364 | columns that are unit vectors in an invertible change of basis are independent |
| `Basis.ZeroRowsBoundRank` | preprocessing/slicer.c:340-364 | vectors whose coordinates beyond j vanish have rank at most j |
| `Basis.FilterDropsRank` | preprocessing/slicer.c:507-508 | keeping only the vectors that satisfy an equation that some vector violates lowers the rank |
| `Search.DefectIsRank` | preprocessing/slicer.c:348-363 | when echelonize stops at j < d, the rank of the vectors is exactly j |
| `Search.ZeroRowIsEquation` | preprocessing/slicer.c:353-361 | for a row r from j on, the row of T is zero (the assertion never fails) and E[r] is an equation that all vectors satisfy |
| `Search.FreeEquations` | preprocessing/slicer.c:353-361 | appends rows j to d - 1 of E: 64 - j equations in all, all satisfied by all vectors, the earlier ones untouched |
| `Search.CheckRankDefect` | preprocessing/slicer.c:340-364 | on return 64 - k is exactly the rank of the vectors, all k equations hold of all of them, and m >= 64 - k; no equation is added if the rank was 64 - k, and the equations added to none are independent |
| `Search.RowWeight` | preprocessing/slicer.c:491-494 | the popcount of row i of T is the number of columns that violate the equation E[i] |
| `Search.WeightOfRow` | preprocessing/slicer.c:491-500 | column swaps and zero padding do not change the number of violations |
| `Search.PivotRowWeight` | preprocessing/slicer.c:462-500 | a row of an echelonized basis of d equations has weight between 1 and m - d + 1 |
| `Search.PivotRowKeepsRank` | preprocessing/slicer.c:491-508 | the other d - 1 pivot columns satisfy the equation of a pivot row: the vectors that do still have rank d - 1 |
| `Search.PermuteRows` | preprocessing/slicer.c:478-482 | the random swaps permute the vectors and leave the padding alone, whatever is drawn |
| `Search.LeeBrickell` | preprocessing/slicer.c:475-501 | one iteration never loses a pivot (the assertion j == d holds) and yields an equation with its exact weight: at most the best one so far, and at most that of any of the d rows of an invertible basis |
| `Search.PickEquation` | preprocessing/slicer.c:473-506 | wherever the clock or the weight bound stops the search, the best equation is violated by exactly best_weight vectors, between 1 and m - d + 1 of them |
| `Search.FilterProgress` | preprocessing/slicer.c:507-508 | filtering with the equation found removes exactly bestWeight vectors, keeps at least d - 1 of them and lowers the rank by exactly one |
| `Equations.FilterConserves` | preprocessing/slicer.c:103-115 | filtering splits a list: what is kept and what is rejected make up the whole, with multiplicities |
| `Equations.ViolationsOfPermutation` | preprocessing/slicer.c:478-501 | how many vectors violate an equation does not depend on their order |
| `Lists.ListInsert` | preprocessing/slicer.c:77-83 | links a node in behind the header of a circular list: the ring of nodes gains it at position 1 |
| `Lists.ListRemove` | preprocessing/slicer.c:85-89 | unlinks a node: the ring loses exactly that node and keeps its order |
| `Lists.ListClear` | preprocessing/slicer.c:91-96 | makes a header node a ring of its own |
| `Slicer.Workspace.AddAll` | preprocessing/slicer.c:642-648 | the vectors of the input become the active list; since each is inserted at the head, in reverse order |
| `Slicer.Workspace.FilterActive` | preprocessing/slicer.c:103-115 | afterwards active lists, in order, the vectors that satisfy the equation, the violating ones are at the head of reject in reverse order, and m is the length of active |
| `Slicer.Workspace.Round` | preprocessing/slicer.c:433-514 | one round keeps: the k equations are independent, all active vectors satisfy them, and the rank of these is exactly 64 - k; no vector is lost; the assertion m >= d holds; after the first round there is no rank defect, so that each round adds one equation |
| `Slicer.OneMoreIndependent` | preprocessing/slicer.c:507-508 | an equation that some active vector violates is independent of those that all of them satisfy |
| `Slicer.Workspace.SliceIt` | preprocessing/slicer.c:417-521 | finds l <= k <= 64 independent equations that all active vectors satisfy, where the rank of these is exactly 64 - k; either no vector is rejected, or k is l and at least 64 - l vectors stay active; active and reject together keep the multiset |
| `Slicer.Workspace.NextPass` | preprocessing/slicer.c:714-722 | the rejected vectors become active, and the discarded header becomes an empty reject list |
| `Slicer.PadToInvertible` | preprocessing/slicer.c:690-708 | succeeds if and only if one of the first 1000 trials draws rows that are independent together with the equations; then M and Minv are mutually inverse and the last k columns of M are the equations |
| `Matrix.NaiveGemv` | ijoux/joux_v3.c:129-138 | the product of a word by 64 rows: the XOR of the rows selected by its bits |
| `Numbers.NumberBit` | ijoux/joux_v3.c:133 | (x >> i) & 1 is the i-th binary digit of the number that a word stands for |
| `Matrix.GemvXor` | ijoux/joux_v3.c:129-138 | the product is XOR-linear |
| `Matrix.GemvInverse` | preprocessing/slicer.c:374-383 | multiplying by a matrix and then by its inverse gives the word back |
| `Matrix.NoPivotIsSingular` | preprocessing/slicer.c:393-402 | a column without a pivot yields a non-zero word orthogonal to every row |
| `Matrix.LeftInverseIsInverse` | preprocessing/slice_checker.c:137-140 | a one-sided inverse of 64 rows is two-sided |
| `Matrix.Invert` | preprocessing/slicer.c:385-414 | returns true if and only if no non-zero word is orthogonal to every row, and then a two-sided inverse |
| `AlgorithmS.TopBitsAreZero` | preprocessing/slicer.c:699-712 | bit 64 - k + i of x * M tells whether x violates equation i: the k top bits of every vector of a slice are zero |
| `Completion.PaddableIffIndependent` | preprocessing/slicer.c:692-708 | equations can be padded to an invertible matrix if and only if they are independent |
| `Completion.TransposeSingular` | preprocessing/slicer.c:692-701 | the matrix with the drawn words and the equations as columns is invertible if and only if they are independent |
| `Completion.PaddingFailsIff` | preprocessing/slicer.c:692-701 | a trial fails if and only if some of the words drawn add up to an equation that all vectors of the slice satisfy: it depends on the vectors, not on the equations found |
| `AlgorithmS.FailureIsBadLuck` | preprocessing/slicer.c:689-708 | after slice_it, all 1000 trials fail if and only if the words drawn in each of them clash in this way with the vectors of the slice |
| `AlgorithmS.LuckExists` | preprocessing/slicer.c:692-701 | for the equations of any slice there are words that make a trial succeed |
| `AlgorithmS.OneVectorIsLucky` | preprocessing/slicer.c:689-708 | with one vector and a suitable first word, an abort is ruled out: aborting is not always allowed |
| `AlgorithmS.SliceIsGood` | preprocessing/slicer.c:684-712 | the slice made of equations that all active vectors satisfy and an invertible matrix passes the checker, and stands for the active vectors |
| `Slicer.Workspace.EmitSlice` | preprocessing/slicer.c:685-712 | appends exactly the words of the slice to the output and leaves the rest of it alone |
| `AlgorithmS.Pass` | preprocessing/slicer.c:674-722 | one pass appends a good slice; its header tells the number of independent equations that its vectors satisfy, exactly; its vectors and those left are the vectors there were; either none is left or the slice has at least 64 - l vectors and exactly l equations; it fails only if all 1000 trials clash with the vectors chosen for the slice, which are all there were or at least 64 - l of them |
| `AlgorithmS.RoomForOneMore` | preprocessing/slicer.c:650 | c slices of at least 64 - l vectors leave room for one more slice in the space allocated |
| `AlgorithmS.ProgressStep` | preprocessing/slicer.c:662-723 | the loop invariant: slices made and vectors left make up the input, and there are at most 1 + n / (64 - l) slices |
| `AlgorithmS.SliceAll` | preprocessing/slicer.c:640-723 | for every input, every l from 1 to 63 and all random choices: the loop ends; the run is aborted only if all 1000 trials drawn for the next slice clash with the vectors chosen for it, of rank at most 64 - l, which together with the slices made are part of the input, and all of it or at least 64 - l; otherwise it has written, within the space allocated, a file of at most 1 + n / (64 - l) slices that the checker accepts; the l in the header of every slice is 64 minus the rank of its vectors, and it is the l asked for in all slices but the last |
| `SliceChecker.SearchDecides` | preprocessing/slice_checker.c:62-73 | in a sorted list, binary_search finds a word if and only if it is there |
| `SliceChecker.SortedUnique` | preprocessing/slice_checker.c:158-165 | two sorted arrangements of the same words are equal, word by word |
| `SliceChecker.CheckMatrices` | preprocessing/slice_checker.c:137-140 | the 128 assertions hold if and only if the matrices are inverse to each other |
| `SliceChecker.CheckVectors` | preprocessing/slice_checker.c:142-150 | accepts if and only if all vectors have zero top bits and are in the list once mapped back |
| `SliceChecker.Rejected` | preprocessing/slice_checker.c:131-150 | turning down a slice is justified: the file does not hold the list in good slices |
| `SliceChecker.Check` | preprocessing/slice_checker.c:91-165 | the checker accepts a file if and only if all its slices are good and the vectors they stand for are the list, with multiplicities |
| `Slices.LeftMaskIsComplement` | preprocessing/preprocessing.h:29-32 | as a number, the set of the l top bits is ~((1 << (64 - l)) - 1), for 1 <= l <= 64 |
| `Slices.FileOfAppend` | preprocessing/preprocessing.h:21-27 | appending a slice to a file appends its words |
| `Slices.SliceFields` | preprocessing/preprocessing.h:21-27 | the fields of a slice are read back from the file as they were written |
| `Slices.NextSlice` | ijoux/joux_v3.c:413-423 | the walk by sizeof(slice_t) / 8 + n words meets every slice of a file, one after another, and ends at the end |
| `Slices.OriginalsOfImages` | preprocessing/slicer.c:710-712 | the vectors of a slice mapped back by Minv are the vectors it was made of |
| `Tables.GrayStep` | ijoux/joux_v3.c:161-164 | consecutive Gray codes j ^ (j >> 1) differ exactly in the bit that ffs selects |
| `Tables.Ungray` | ijoux/joux_v3.c:161-164 | every byte is the Gray code of some j: no entry is left out |
| `Tables.FilledIsComplete` | ijoux/joux_v3.c:157-166 | each of the 8 x 256 entries is the XOR of the rows that its index selects |
| `Tables.MatmulInit` | ijoux/joux_v3.c:154-167 | fills the eight tables |
| `Tables.TableGemv` | ijoux/joux_v3.c:140-152 | eight lookups give the product that naive_gemv computes, for every word and every matrix |
| `Tables.Gemm` | ijoux/joux_v3.c:169-174 | multiplies every vector of a list |
| `Partition.BucketsDisjoint` | ijoux/joux_v3.c:181-193 | the buckets of different threads and keys do not overlap |
| `Partition.KeyIsQuotient` | ijoux/joux_v3.c:190-191 | the key of a word is its number divided by 2^(64 - p) |
| `Partition.Side.MoveNext` | ijoux/joux_v3.c:190-193 | moving one item extends one bucket of one thread and leaves all other buckets alone |
| `Partition.Side.PartitionAll` | ijoux/joux_v3.c:176-195 | for every interleaving of the threads and every assignment of the items: each bucket holds, in order, the items of its thread with its key |
| `Partition.Side.Windows` | ijoux/joux_v3.c:328-335 | region h, over all threads, holds exactly the items with key h |
| `Partition.GatheredTiles` | ijoux/joux_v3.c:188-194 | the shares of the threads put together are the whole list |
| `Probing.ProbeInsert` | ijoux/joux_v3.c:212-215 | the probe loop ends if a slot is empty, fills an empty slot, and keeps every word reachable from its home |
| `Subjoin.HomeOfNumber` | ijoux/joux_v3.c:212 | the home of a word is its number divided by 2^(64 - l), modulo 512 |
| `Probing.NothingPastEmpty` | ijoux/joux_v3.c:227-238 | an empty slot ends the search: a word that is not met before it is not in the table |
| `Probing.SeenCompletely` | ijoux/joux_v3.c:226-238 | walking from a home up to an empty slot meets every word with that home as often as the table holds it |
| `HashTables.LinearInsert` | ijoux/datastructures.h:20-26 | ends if a slot is empty, stores the word, and keeps the table searchable |
| `HashTables.SlotsOfNumber` | ijoux/datastructures.h:8-18 | the two slots of a word x are x mod 512 and x / 65536 mod 512 |
| `HashTables.LinearLookup` | ijoux/datastructures.h:29-40 | decides membership of every word in a table with an empty slot |
| `HashTables.CuckooLookupIsMembership` | ijoux/datastructures.h:43-51 | when every word is at one of its two places, two probes decide membership of every non-zero word |
| `HashTables.CuckooInsert` | ijoux/datastructures.h:54-66 | evictions conserve the multiset of table and word in hand and keep every word at H0 or H1; true is returned if and only if the hand is empty |
| `HashTables.CuckooBuild` | ijoux/datastructures.h:69-93 | whichever table is built, the lookup that the result selects decides membership of every non-zero word in L[lo..hi); table and result are a function of the list |
| `Subjoin.ProbeFindsMatches` | ijoux/joux_v3.c:225-238 | probing from the home of y sees every x that agrees with y on the l top bits, with its multiplicity |
| `Subjoin.Build` | ijoux/joux_v3.c:206-217 | the build phase ends and stores all non-zero words of all windows |
| `Subjoin.Probe` | ijoux/joux_v3.c:225-238 | emits exactly the matches of y |
| `Subjoin.Join` | ijoux/joux_v3.c:197-242 | emits exactly the pairs of A x B whose XOR has its l top bits zero, each with its multiplicity; zeros of A are skipped |
| `HashTables.AnswersAreMembership` | ijoux/joux_v3.c:247-266 | the lookup chosen by the flag answers membership of every non-zero word |
| `ZeroLookup.ZeroIsEmptySlot` | ijoux/datastructures.h:29-51 | looking up zero answers true in every table with linear probing, and in a cuckoo table if and only if slot 0 is empty |
| `ZeroLookup.ZeroFoundOrNot` | ijoux/datastructures.h:54-93 | for vectors other than zero: if none has H0 or H1 equal to 0, zero is found; if one has H0 equal to 0, zero is found if and only if the table is one with linear probing |
| `ZeroLookup.OneVectorFindsZero` | ijoux/datastructures.h:54-66 | in the table of a single vector zero is found if and only if H0 of the vector is not 0 |
| `ZeroLookup.ZeroCanBeMissed` | ijoux/datastructures.h:54-66 | in the table of zero and a vector with H0 equal to 0, zero is not found although it was inserted |
| `JoinTheory.MatchesShareKey` | ijoux/joux_v3.c:320-339 | words that agree on l >= p top bits are in the same partition |
| `JoinTheory.PairsOfPartition` | ijoux/joux_v3.c:320-339 | the join of the partitions with key i is the part of the whole join with that key |
| `JoinTheory.SumsInBasis` | ijoux/joux_v3.c:356-366 | being the sum of two vectors does not depend on the basis |
| `JoinTheory.SliceMatches` | ijoux/joux_v3.c:224-235 | a pair whose sum is in a slice agrees on its l top bits, in the basis of the slice |
| `JoinTheory.HitsInBasis` | ijoux/joux_v3.c:289-366 | counting hits in the basis of a slice is counting them among the original vectors |
| `Joux.TaskResult.Report` | ijoux/common.c:93-106 | appends a solution |
| `Joux.Checkup` | ijoux/joux_v3.c:245-268 | reports, in order, the preselected triples whose sum the table finds |
| `Joux.SubjoinAll` | ijoux/joux_v3.c:309-341 | for every assignment of the partitions to threads, the subjoins together are the join of the two lists |
| `Joux.LiftedCount` | ijoux/joux_v3.c:345-366 | how often a triple is reported for a slice, once it has been mapped back; for a sum of zero, as often as the lists share the value, if the table of the slice answers true for zero |
| `Joux.ProcessSlice` | ijoux/joux_v3.c:271-368 | reports for one slice exactly the triples with the first two values from the lists and their sum in the slice, with multiplicity; for a sum of zero, the answer of the table that the vectors of the slice determine decides |
| `Joux.ReportedStep` | ijoux/joux_v3.c:417-423 | the count of reports over the slices handled so far |
| `Joux.IteratedJouxTask` | ijoux/joux_v3.c:372-423 | over all slices and all assignments of work to threads, every triple with a non-zero sum is reported as often as the lists and slices contain it, and one with a zero sum as often as there are slices whose table answers true for zero |
| `Pipeline.HitsPerSlice` | ijoux/joux_v3.c:413-423 | a triple is reported once for each way of choosing its first two values, in each slice that holds the third |
| `Pipeline.FoundIffInLists` | ijoux/joux_v3.c:226-239 | for a non-zero sum, a triple is reported if and only if it comes from the three lists and its first value is not zero: the exact condition under which nothing is missed |
| `Pipeline.FoundIff` | ijoux/joux_v3.c:197-268 | for all lists: a triple is reported if and only if its first two values are in the lists, the first one is not zero, they add up to the third, and this one is in the third list or, if it is zero, some table answers true for zero |
| `Pipeline.ZeroSums` | ijoux/datastructures.h:29-51 | a sum of zero is reported if and only if the table of some slice answers true for zero, and then exactly for the non-zero values that the lists share |
| `Pipeline.ZeroReportedInError` | ijoux/datastructures.h:43-51 | lists that share a value and a slice with the vector 1: (a, a, 0) is reported although zero is not in the third list |
| `Pipeline.ZeroMissedInError` | ijoux/datastructures.h:54-66 | lists that share a value and a slice with the vectors 0 and 512: (a, a, 0) is not reported although zero is in the third list |
| `Pipeline.ExactIff` | ijoux/joux_v3.c:245-268 | for all lists: exactly the triples of the three lists that add up to zero are reported if and only if none of these has a zero from the first list and, in case the first two lists share another value, some table answers true for zero just when zero is in the third list |
| `Pipeline.ZeroSkippedInError` | ijoux/joux_v3.c:206-217 | a zero in the first list, 1 in the second and 1 in the third: the triple (0, 1, 1) is not reported |
| `Pipeline.NoFakeSolution` | ijoux/common.c:95-96 | no reported triple fails to add up to zero: the warning is never printed |
| `Pipeline.JoinIsComplete` | ijoux/joux_v3.c:372-423 | slicer and join together: if the first two lists share no value and the first has no zero, exactly the triples (a, b, a ^ b) of the three lists are reported; each once per choice of a and b if the third list has no repetition |
| `Pipeline.AllNearCollisions` | ijoux/do_task.c:21-51 | in terms of hashes: the partitions i, j and i ^ j yield exactly the triples of valid hashes whose sum starts with 97 + k zero bits |
| `LoserTree.WinnerIsLeast` | preprocessing/merger.c:129-140 | a subtree has a winner only when all its streams have started, and the winner has the least entry |
| `LoserTree.ChampionIsLeast` | preprocessing/merger.c:89-142 | once the dummies are out, the champion is a minimum of the heads of all streams |
| `LoserTree.PathOfChampion` | preprocessing/merger.c:129-140 | the champion holds every subtree on its path; a dummy that is champion holds none |
| `LoserTree.StartClimb` | preprocessing/merger.c:124-130 | giving the stream of the champion its next entry starts a climb that meets only the losers it may meet |
| `LoserTree.Displace` | preprocessing/merger.c:130-140 | an entry that meets a dummy settles there, and the dummy that comes out stands for a stream that has not started |
| `LoserTree.Play` | preprocessing/merger.c:130-140 | an entry that meets a loser: the smaller one goes on, and the tree below stays in order |
| `Merger.Climb` | preprocessing/merger.c:129-140 | the climb ends with a consistent tree and its champion, for every P >= 1 |
| `Merger.SeededIsConsistent` | preprocessing/merger.c:78-87 | the tree seeded with dummies, node j standing for stream j, is consistent although j is not below node j |
| `Merger.Stream.Next` | preprocessing/merger.c:117-127 | takes the entries of a file in order, through a buffer that is refilled when it is empty |
| `Merger.Emit` | preprocessing/merger.c:90-113 | writes a hash once, and counts an equal hash as duplicate or collision |
| `Merger.Turn` | preprocessing/merger.c:89-142 | one turn of the loop keeps: what has come out is sorted, is the multiset of what was consumed, and is not above what is to come |
| `Merger.DistinctCount` | preprocessing/merger.c:104-113 | every entry is written, or counted once |
| `Merger.DistinctMembers` | preprocessing/merger.c:104-105 | a hash is written if and only if some entry has it |
| `Merger.DistinctIncreasing` | preprocessing/merger.c:104-105 | a sorted run writes a strictly increasing file |
| `Merger.MergeLoop` | preprocessing/merger.c:89-142 | the loop ends; the entries come out as a sorted arrangement of all entries of all files, the P dummies as duplicates |
| `Merger.Merge` | preprocessing/merger.c:46-151 | the output is strictly increasing and is the union of the hashes of the files; the counters are those of a sorted arrangement of all entries: neighbours with the same hash and another preimage, and P dummies plus identical neighbours; outputs + collisions + duplicates - P is the number of entries; there are no collisions if and only if entries with the same hash have the same preimage, and no duplicates beyond P if no entry occurs twice |
| `SplitterProofs.SendKeeps` | preprocessing/splitter.c:227-247 | what a mapper sends keeps every key followed by its own block, and its buffers within bounds |
| `SplitterProofs.WriterFinds` | preprocessing/splitter.c:168-183 | the writer finds a key or the end when it waits for one, and a block when it waits for one |
| `SplitterProofs.BlockIsNext` | preprocessing/splitter.c:175-178 | the block received by tag is the message after the key, from the same mapper |
| `SplitterProofs.OkKept` | preprocessing/splitter.c:113-254 | every step of every process keeps the invariant: no message is taken for another one and no buffer overflows |
| `SplitterProofs.AccountKept` | preprocessing/splitter.c:113-254 | no step loses or makes an entry: files, messages, buffers and unread preimages together are constant, per slot and entry |
| `SplitterProofs.EndedCount` | preprocessing/splitter.c:141-148 | the reader counts the mappers that have been told to stop |
| `SplitterProofs.ClosedCount` | preprocessing/splitter.c:167-174 | the writer counts the mappers whose last message it has taken |
| `SplitterRuns.NeverStuck` | preprocessing/splitter.c:113-254 | in every reachable state that is not final some process can take a step, for every channel capacity, rendezvous included |
| `SplitterRuns.WorkGoesDown` | preprocessing/splitter.c:113-254 | every step brings the end nearer |
| `SplitterRuns.RunKeepsInv` | preprocessing/splitter.c:113-254 | the invariant holds in every state of every run |
| `SplitterRuns.SplitterIsCorrect` | preprocessing/splitter.c:113-254 | every run ends within a fixed number of steps; a run that can go no further has finished all processes, left no message, and put into each slot exactly the entries of the valid preimages with that key |
| `XorArithmetic.MixedRadix` | ijoux/do_task_group.c:65-79 | XOR distributes over a mixed radix: (a 2^q + r) ^ (b 2^q + s) = (a ^ b) 2^q + (r ^ s) |
| `XorArithmetic.XorComparesDigits` | ijoux/do_task_group.c:65-79 | the operator ^ on numbers: a binary digit of the result is one if and only if the two digits differ |
| `TaskGroups.TaskIdx` | ijoux/do_task_group.c:73-79 | the indices of a task, the third being the XOR of the other two |
| `TaskGroups.XorStaysInGroup` | ijoux/do_task_group.c:264-265 | reading list r ^ s stays within the group for all r and s if and only if the size of the group is a power of two |
| `TaskGroups.WriteGroup` | preprocessing/grouper.py:5-25 | the file of a group: the table of offsets, then the lists, one after another and nothing else |
| `TaskGroups.LoadWindows` | ijoux/do_task_group.c:203-236 | reads the offsets back: fails if and only if the group has another size, and otherwise finds every list |
| `TaskGroups.TaskIsRight` | ijoux/do_task_group.c:250-265 | task (r, s) of a group of 2^q lists joins lists i and j of the two families with list i ^ j of the third |
| `TaskGroups.DoTaskGroup` | ijoux/do_task_group.c:369-390 | lists one task for every pair (r, s), each with the right three lists |
| `TaskGroups.DoJob` | ijoux/do_task_group.c:393-415 | with n = task grid size / (process grid size * lists per process): a job exists if and only if (job + 1) * groups per job <= n * n, and its groups are the numbers from job * groups per job on, as row and column of an n by n grid |
| `JobCoverage.DoneOnce` | ijoux/do_task_group.c:65-79 | no task is done twice |
| `JobCoverage.DoneIsListed` | ijoux/do_task_group.c:250-265 | the place of a task is where do_job and tg_task_work put it: job, group, process and pair (r, s) |
| `JobCoverage.DoneInReach` | ijoux/do_task_group.c:393-415 | no task outside the grid is done |
| `JobCoverage.JobsCover` | ijoux/do_task_group.c:393-415 | the jobs do all tasks (i, j) if and only if process grid size * lists per process divides the task grid size, and the groups per job divide the square of the quotient |
| `Partitioned.HashConfigIsGood` | preprocessing/hasher.h:35-38 | a partition key of k bits is always the number of one of the 2^k slots |
| `Partitioned.HashOfBlock` | preprocessing/hasher.c:4-10 | the hash function of each kind is the double digest of the block of that kind |
| `Partitioned.SlotMembers` | preprocessing/splitter.c:218-254 | when a run has finished, an entry is in a slot if and only if some preimage of the input was to put it there |
| `Partitioned.SlotHoldsItsPartition` | preprocessing/splitter.c:218-235 | when a run has finished, slot k holds exactly the partial hashes, with their preimages, of the valid preimages of the input whose partition key is k |
| `Hasher.ValidMeansTopBits` | preprocessing/hasher.c:4-13 | a hash is accepted if and only if its 33 top bits are zero |
| `Hasher.ValidBytes` | preprocessing/hasher.c:12 | the bytes of a digest that is accepted: the last four are zero and the one before them is below 128 |
| `Hasher.WordsOfDigest` | preprocessing/hasher.c:10 | word w of the hash is the little-endian value of bytes 4w to 4w + 3 of the digest |
| `Hasher.PartialValue` | preprocessing/hasher.h:31-34 | the partial hash of a hash that is kept is word 5 times 2^32, plus word 6, plus the top bit of word 4 in its place |
| `Hasher.KeyValue` | preprocessing/hasher.h:35-38 | the partition key is word 4 modulo 2^31, divided by 2^(31 - k) |
| `Hasher.PackingIsCompatible` | preprocessing/hasher.h:31-38 | for valid hashes and 0 <= k <= 31: the partial hashes add up to zero and the third key is the XOR of the other two if and only if the sum of the hashes starts with 97 + k zero bits |
| `Hasher.BuildPlaintextBlock` | preprocessing/hasher.h:4-27 | fills the 80-byte block: text, hexadecimal counter, nonce |
| `Hasher.TextOfTemplate` | preprocessing/hasher.h:5-9 | the texts of the three kinds: FOO-0x, BAR-0x or FOOBAR-0x, sixteen zeros, and blanks |
| `Hasher.NibbleIsDigit` | preprocessing/hasher.h:10-11 | the digits are 0 to 9 and A to F |
| `Hasher.BlockLayout` | preprocessing/hasher.h:12-25 | a block holds the prefix of its kind, the counter in hexadecimal with its last digit at position 22 or 25, blanks, and the nonce in bytes 76 to 79, the most significant one first |
| `Hasher.HexRoundTrip` | preprocessing/hasher.h:15-22 | the digits written for a counter of up to 16 digits are read back as the counter |
| `Hasher.PlaintextInjective` | preprocessing/hasher.h:4-27 | different preimages of one kind have different blocks |
| `Hasher.KindOfBlock` | preprocessing/hasher.h:5-13 | blocks of different kinds are different |
| `Hasher.ComputeFullHash` | preprocessing/hasher.c:4-13 | SHA-256 of the SHA-256 of the block, read as eight little-endian words; valid if and only if its last four bytes are zero and the one before is below 128 |
| `FipsConstants.ConstantsAreRoots` | preprocessing/sha256.c:211-228 | the 64 constants are the first 32 bits of the fractional parts of the cube roots of the entries of a list of primes, as section 4.2.2 of FIPS 180-4 says |
| `FipsConstants.PrimesAreTheFirst` | preprocessing/sha256.c:211-228 | that list is in order and holds all the primes below 312: the first 64 |
| `FipsConstants.InitialHashIsRoots` | preprocessing/sha256.c:38-45 | the initial hash value comes in the same way from the square roots of the first eight primes, section 5.3.3 of FIPS 180-4 |
| `Fips180.ChChooses` | preprocessing/sha256.c:240 | Ch takes the bits of y where x has a one and those of z elsewhere |
| `Fips180.MajIsMajority` | preprocessing/sha256.c:241 | a bit of Maj is one if and only if at least two of the three bits are |
| `Fips180.ValueOfBytes` | preprocessing/sha256.c:111-114 | a word is written with its most significant byte first |
| `Fips180.BytesBack` | preprocessing/sha256.c:107-110 | four bytes read as a word are the bytes of that word |
| `Sha256.MacroIsRound` | preprocessing/sha256.c:243-246 | the macro, which only assigns d and h, is one round of section 6.2.2 of FIPS 180-4 up to the names of the registers |
| `Sha256.BigSigma0Agrees` | preprocessing/sha256.c:235 | rotation to the left by 30, 19 and 10 is the Sigma-0 of section 4.1.2 of FIPS 180-4 |
| `Sha256.BigSigma1Agrees` | preprocessing/sha256.c:236 | rotation to the left by 26, 21 and 7 is the Sigma-1 of section 4.1.2 of FIPS 180-4 |
| `Sha256.LowSigma0Agrees` | preprocessing/sha256.c:237 | the macro sigma0 is the sigma-0 of section 4.1.2 of FIPS 180-4 |
| `Sha256.LowSigma1Agrees` | preprocessing/sha256.c:238 | the macro sigma1 is the sigma-1 of section 4.1.2 of FIPS 180-4 |
| `Sha256.NextWordIsScheduled` | preprocessing/sha256.c:248-252 | the ring of 16 words knows enough to compute the next word of the 64-word schedule |
| `Sha256.EightScheduled` | preprocessing/sha256.c:369-378 | eight rounds with rotating register names are eight rounds of the standard |
| `Sha256.ProcessBlock` | preprocessing/sha256.c:254-389 | one block: the next intermediate hash value of section 6.2.2 of FIPS 180-4 |
| `Sha256Context.CountMore` | preprocessing/sha256.c:129-134 | Nl and Nh hold eight times the number of bytes modulo 2^64, carries included |
| `Sha256Context.BlockDataOrder` | preprocessing/sha256.c:254-389 | any number of blocks, one after another |
| `Sha256Context.LastBlocks` | preprocessing/sha256.c:182-204 | the one or two blocks made of the buffer are the end of the message padded as in section 5.1.1 of FIPS 180-4 |
| `Sha256Context.Context.Update` | preprocessing/sha256.c:119-175 | however a message is cut into pieces, the state is that of the whole message |
| `Sha256Context.Context.Final` | preprocessing/sha256.c:182-208 | the digest of section 6.2 of FIPS 180-4, for every message of less than 2^64 bits |
| `Sha256Context.Hash` | preprocessing/sha256.c:51-63 | the digest of a message in one piece |
| `Whole.FilesAreSlots` | preprocessing/preprocess.py:118-138 | a run of the splitter on a file of preimages leaves, for every partition, the entries of exactly its preimages there |
| `Whole.ListHoldsPartition` | preprocessing/preprocess.py:156-179 | the sorted files of a partition, merged: the partial hashes of exactly the preimages of all files that belong there, each once, none of them zero |
| `Whole.CollisionIffKnown` | ijoux/do_task.c:21-51 | partial hashes from the lists i, j and i ^ j that add up to zero are those of a near-collision on 97 + k bits, and the other way round |
| `Whole.TaskFindsCollisions` | ijoux/do_task_group.c:250-290 | from preimages to results: task (i, j) reports the partial hashes of every near-collision whose first two preimages are in the partitions i and j, each triple once, and nothing else with a third value other than zero |
| `Whole.EveryCollisionIsFound` | ijoux/do_task_group.c:393-415 | every near-collision of the preimages belongs to exactly one task, is reported by it once, and the task is done at exactly one place if the grid sizes divide each other |

## Left out

- Files, MPI set-up, command lines, byte-swapping, printing, timing statistics and error exits on failed I/O; an error exit that depends on the data (`errx` for a wrong group size, an invalid job, 1000 failed trials) is a result that says so.
- Floating point: the Gilbert-Varshamov bound and the clock only decide when the search stops, which is arbitrary here; the size of the buckets is a parameter.
- The quality of the low-weight search and the probability that buckets, tables or trials suffice: capacities are preconditions.
- `preselected` in `process_slice` has room for n[0] triples per thread; the model lets the sequence of each thread grow.
- The byte count in the `realloc` of `report_solution` is not scaled by the size of a solution; the model appends to a sequence. The task index that a solution carries along is left out too.
- Unsynchronised calls of `report_solution` by several threads in `checkup`: the model runs them one after another.
- Overflow of 32-bit counters (vectors of a list, duplicates, collisions, preimages read, indices of tasks): lists are shorter than 2^32 in `AlgorithmS.SliceAll`, and the other counters are natural numbers.
- The output buffer `M` of the slice checker has room for as many vectors as the list; the model lets it grow. The checker is modelled for slices with 1 <= l <= 64, where the shift in LEFT_MASK is defined, and for lists that are not empty unless the slices are.
- The loops of the splitter's processes, and the buffers that a mapper fills, sends and fills again: each iteration is a step on values, so that the reuse of a buffer in place is not captured.
- `qsort` in the slice checker and in `sorter.c`: any function that sorts, any arrangement in the order of the hashes.
- The whole computation is proved for arbitrary hash functions of the three kinds; those of the programs are `Partitioned.HashOf`. The groups of lists, and the windows in which a task finds its lists, are in `TaskGroups`.
- An array of 64 w words is a two-dimensional array of 64 rows in the model of T, and a list of items is a set of nodes: the addresses in memory are not modelled.
- The checkpoint test, gathering and saving in `do_task_group`, and how a process gets its place in the grid.
- `compute_middle_hash`, the dictionary checkers, `forger.c`, `post_processing.c` and the statistics scripts: thin drivers around code that is modelled here.
- SHA-224 and other digest lengths: only the 32-byte digest is computed by the pipeline.
