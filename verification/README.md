# Batcher: verified model of the harness and of two optimizer rules with their statistics

Batcher is a query engine whose repository carries, beside the engine, the tooling that
decides whether a number or a refactoring may be trusted: a load generator, equivalence
gates between engines, generators for routing tables and documentation, and ratchets. This
project models that tooling, and one optimizer rule family of the engine with the statistics
it relies on, in Dafny, and proves what each of them is for.

Each module states its own model; the main results are these.

* **Open-loop honesty** (`LoadLoop`, `LoadLaws`, `ClosedLoop`, `Stats`). Slowing any request
  of any client leaves every throughput figure of a sweep point unchanged and lowers no
  latency figure. The finish time of a request is an exact queueing recursion. In every closed
  loop with time to measure, slowing a call can improve the reported figure, with a steady
  sample in both runs.
* **Enrich join** (`EnrichJoin`). Aggregate, join back and score is the per-account map, as a
  multiset, under every sharding, merge order and row order, and the gate between the two
  accepts every such run exactly under a stated condition on the scores.
* **Sharded training** (`ShardedTraining`, `Strides`). The ranks partition the corpus, and
  the arithmetic gate accepts exactly a stated family of runs, among them every run that
  shuffles and batches honestly.
* **Reading Rust enums** (`EnumTags`, `EnumPrinting`). The line scanner is the inverse of
  printing an enum.
* **Lazy exports** (`LazyExports`). A generated routing table agrees with the eager façade in
  names, order and objects, and keeps doing so after any script of accesses and submodule
  imports.
* **Join tables** (`JoinTables`). Whatever was drawn, the tables that are built join as
  promised on each tier; a tier that is not a multiple of ten is treated exactly.
* **Documentation linker** (`Splicing`, `DocLinks`, `DocPages`, `DocEdges`, `DocNames`,
  `DocTargets`). Right-to-left splicing is simultaneous substitution, and on a tokenised page
  a second pass finds nothing. A spelling is written back unchanged exactly when no other
  markup covers it.
* **Comparison gates** (`Signature`, `ResultCheck`, `SurfaceDiff`). What an accepted
  fingerprint, result or snapshot implies, in both directions.
* **Round trips** (`TableText`). Union annotations and escaped table cells.
* **Ratchets and audits** (`Ratchets.dfy`, `Allowlist`). Safety over whole runs of the tools,
  and an audit that matches its gate.
* **Zone maps and empty relations** (`Doubles`, `ZoneMaps`, `Sources`, `Plans`, `Estimates`,
  `Precision`, `PlanRewrites`, `PlanEdges`). From the statistics a source declares, across the bridge that
  makes them a scan's, through every operator's propagation, to the pruning oracle and any
  number of pruning and folding passes: over truthful sources a plan keeps its rows, their
  order, its columns and their types. Where the code fails, the exact condition is stated at
  the node that fails. One pass of either rule leaves nothing it could decide, an open
  predicate has both answers, and the estimator keeps every count, bound and index it can.

`Common`, `Sorting` and `Text` hold what the others share: sequences, Python's stable
`sorted`, and the Python string operations.

Times, latencies, amounts and scores are reals. Sleeps, clocks, random draws, directory
listings, file contents and statistics are parameters.

## Where the code and its documentation differ

The model follows the code in each case.

* `_summarize` in the training benchmark checks rows against one corpus whatever the number
  of epochs, so a run that skips every epoch but its first is accepted
  (`ShardedTraining.SkippedEpochsPass`), although the text beside it says a skipped shard fails.
* The same gate compares a run with the corpus by counts and sums alone. A run that reads
  some rows twice and leaves as many others out is accepted exactly when the difference of
  the label sums is one the discarded tail could explain (`ShardedTraining.DoubledRowsExactly`).
* `_key_scores` is called order-independent. It is so exactly when no two rows share a
  rounded key and differ in score (`EnrichJoin.KeyScoresOrderFree`), and the gate accepts
  every ordering, sharding and merging exactly when such scores lie within its tolerance
  (`EnrichJoin.PipelineGateExactly`). Amounts written rounded to cents meet this
  (`EnrichJoin.GateAccepts`); others need not (`EnrichJoin.GateRefusesItself`).
* `_list_diff` says it compares a multiset and compares sets. Against duplicate-free lists,
  on a surface without order, an empty diff means equal multisets exactly when the list has
  no duplicates either (`SurfaceDiff.ExactIffDuplicateFree`). On the ordered surface it means
  equal lists exactly when the list is not its members followed by repetitions of them
  (`SurfaceDiff.OrderedExactIff`).
* A failed surface is meant never to compare equal. An engine that is not built is reported
  as a value and not as an error, so two trees whose engines fail to load for the same reason
  pass whatever their entry points (`SurfaceDiff.UnbuiltEnginePasses`). A pass proves the
  entry points equal exactly when neither value is that object
  (`SurfaceDiff.PassProvesEntriesExactly`).
* `fix` in the linker is idempotent on tokenised pages (`DocPages.SecondFixFindsNothing`) and
  not on every text (`DocEdges.SecondFixFindsMore`). Tokenised pages are a sufficient
  condition; a condition that is also necessary is open.
* The linker writes a spelling back from the masked text. It is the page's own text exactly
  when no fence, role or link covers a character of it that is not blank
  (`DocLinks.SpellingKeptExactly`); a link inside a linkable code span is lost
  (`DocEdges.LinkInsideCodeIsLost`).
* `check` pairs rows in the order of their text, so it accepts exactly the results with a
  close pairing in which both sides are in that order (`ResultCheck.AcceptedExactly`); rows
  that are close cell by cell may be refused (`ResultCheck.CloseRefused`).
* The order gate of `check` compares normalized keys, so it accepts exactly the ordered
  results if and only if normalization is injective (`ResultCheck.ExactIffInjective`).
* The allowlist audit prints all its entries under a heading that says to delete them. For a
  reason that states the wrong count, deleting the entry adds a failure
  (`Allowlist.WrongCountIsStillNeeded`).
* The text of `_join_over_empty_side` says an empty left side empties every join. The code
  restricts this to the left-driven joins, and that is exactly right
  (`PlanRewrites.EmptyLeftDecides`).
* Over an empty right side that rule returns the left side of a semi or anti join as it is,
  where sibling rules put the join's output over it
  (`python/batcher/kyber/rules/extra/join_extra.py:74-84`). This keeps rows and columns exactly
  when the output of an anti join lists the left columns in order under their own names, and
  the aliases of a semi join are those columns (`PlanRewrites.EmptyRightFoldExactly`); an anti
  join that renames a column is misfolded (`PlanRewrites.RenamingAntiJoinMisfolded`). The
  results on whole plans ask the former of both.
* The rule compares an integer with a double exactly, and the engine casts the integer first
  (`crates/bc-expr/src/eval/binary.rs:216-234`). A decision is wrong exactly where the cast
  merges a value with the literal and the decision is not the one for equal values
  (`ZoneMaps.DecideExactly`, `ZoneMaps.BoundsDecideExactly`, `PlanEdges.PruneExactly`); the
  least such integer is 2^53 + 1 (`ZoneMaps.RoundedColumnMisjudged`), and literals of the
  column's own type or short of 2^53 are safe (`PlanEdges.HarmlessUnmerged`).
* Footers leave NaN out of a double column's bounds while the engine orders NaN last. What is
  left of such a declaration describes the rows exactly when NaN is above no maximum that was
  kept (`Sources.DeclarationExactly`), and the bridge drops every double maximum
  (`Sources.BridgeDescribes`); without it a row is lost (`Sources.FooterLeavesNaNOut`). The
  bridge goes by the type of the bound, so a maximum written as an integer for a double column,
  as JSON statistics can have it, is kept (`Sources.IntegerBoundCrosses`).
* A source in memory keeps NaN as its maximum, and a union merges the maxima of its branches
  with Python's `max`, which is the engine's greatest exactly when NaN comes first or not at
  all (`Estimates.LargestExactly`). A filter above a union in which it comes later is pruned to
  nothing although a row passes (`PlanEdges.UnionLosesNaN`). The results on whole plans ask
  that the maxima of a column's branches are not some of them NaN and some values, which no
  folding of branches can undo.
* A limit's row count does not look at the offset, and is right exactly when enough rows lie
  beyond it (`Estimates.LimitCountExactly`); no null count survives to be compared with it.
* A union takes the promoted type of its branches, and dropping an empty branch can change it:
  it stays exactly when it is not double or a remaining branch is
  (`PlanEdges.UnionTypeExactly`, `PlanEdges.EmptyBranchNarrowsType`).
* The enum reader sees a `skip` only as the first option of an attribute, so one listed after a
  rename goes unseen (`EnumPrinting.RenameRead`).
* A suppression count is meant never to grow. It can exactly when an update omits its category
  and a later one measures it (`SuppressionRatchet.GrowthExactly`); and a public name is lost
  exactly when a regeneration left it out as recorded and the record is gone
  (`SurfaceBaseline.LostExactly`).
* The zone-map rule describes an engine that orders -0.0 below 0.0; the comparison kernels
  fold the two, and the model follows the kernels. Its decision on an `IN` list is wrong for
  some lists that hold NaN (`ZoneMaps.InTrueExactly`, `ZoneMaps.NaNListIsMisjudged`). The
  expression builder keeps NaN out of lists. The rule that reads a list off a disjunction
  (`python/batcher/kyber/rules/extra/disjunction_infer.py:49-98`) does not, but leaves its list
  beside that disjunction, where the decision is right (`ZoneMaps.InferredSound`).

## Model

| member | source | states |
|---|---|---|
| `Stats.SortDominated` | benchmarks/concurrency/stats.py:61-70 | Order statistics are monotone: every k-th smallest sample of a dominating sample dominates, whatever order the samples arrived in. |
| `Stats.PercentileMonotone` | benchmarks/concurrency/stats.py:43-70 | No interpolated percentile of a slower sample is smaller, at any q. |
| `Stats.PercentileOrderFree` | benchmarks/concurrency/stats.py:43-70 | A percentile does not depend on the order of recording, the error case included. |
| `Stats.PercentileGrows` | benchmarks/concurrency/stats.py:43-70 | Percentiles grow with q. |
| `Stats.PercentileRange` | benchmarks/concurrency/stats.py:43-70 | Percentiles 0 and 100 are the smallest and largest sample, and all others lie between. |
| `Stats.PercentileMeans` | benchmarks/concurrency/stats.py:43-70 | The q-th percentile lies at rank q (n - 1) / 100 of the samples by count: it blends two that follow each other, with at most so many samples below and at least so many at or below. |
| `Stats.SteadyState` | benchmarks/concurrency/stats.py:73-107 | The loop returns exactly the warm-up and steady selections by start time, and raises on samples of unequal length. |
| `Stats.WindowsConserve` | benchmarks/concurrency/stats.py:97-107 | Warm-up, steady window and cool-down tail partition the recorded requests. |
| `Stats.FairnessMeaning` | benchmarks/concurrency/stats.py:131-147 | Fairness lies in [0, 1] and is 1 exactly when clients made progress and all made the same. |
| `Stats.FairnessIsRatio` | benchmarks/concurrency/stats.py:131-147 | Fairness is the rate of a slowest client over that of a fastest one, or 0 when none made progress. |
| `Stats.BelowOneOverN` | benchmarks/concurrency/stats.py:150-168 | Efficiency below 1/n means exactly that n clients together were slower than one. |
| `Stats.SweepPointOrdered` | benchmarks/concurrency/stats.py:218-290 | The latency figures of a sweep point are always in order. |
| `Stats.SweepPointMeans` | benchmarks/concurrency/stats.py:218-297 | Every figure of a sweep point: p50, p90, p99, p999 and the cold figure are at those ranks of the pooled samples, the maximum is the greatest, throughput is the sum of steady requests per steady second, efficiency its quotient, and requests, memory and errors are those of all clients; without a steady sample the rates and latencies are zero. |
| `LoadLoop.Turn` | benchmarks/concurrency/client.py:115-146 | One pass of the request loop over its local variables is one step of the specification. |
| `LoadLoop.Drive` | benchmarks/concurrency/client.py:100-146 | The whole loop is the run of the specification over the same events. |
| `LoadLoop.RunClient` | benchmarks/concurrency/client.py:83-161 | The statistics handed off are those of the run, split into its windows, with no request in two of them. |
| `LoadLaws.EveryRunAccounts` | benchmarks/concurrency/client.py:100-161 | Every run adds up: samples are those of the answered requests, issued requests are recorded or raised, errors are raises plus wrong answers under case k mod n, and the failure counter is the trailing run of raises within its cap. |
| `LoadLaws.StopsExactly` | benchmarks/concurrency/client.py:100-146 | Over every trace the loop is stopped exactly when the next request would be issued at the deadline or later, or the last requests, as many as the cap and at least one, all raised, and at no earlier request; a run that is not stopped has issued every request. |
| `LoadLaws.ErrorsExplained` | benchmarks/concurrency/client.py:130-146 | The errors are exactly the exceptions and wrong answers of the issued requests, in order, each naming case k mod n and the exception or the first part in which the fingerprints differ. |
| `LoadLaws.ReportMeans` | benchmarks/concurrency/client.py:100-161 | The cold and the steady figures of a report are the times, in order, of exactly the answered requests issued in the warm-up, and of those issued after it and at least the cool-down before another that answered; every answered request is counted and every error listed. |
| `LoadLaws.ErrorFreeRunIsCorrect` | benchmarks/concurrency/client.py:131-141 | An error-free run proves every answer of at most ten rows equal to its oracle result as a multiset of canonical rows. |
| `LoadLaws.BacklogIsCounted` | benchmarks/concurrency/client.py:111-140 | All work since an earlier arrival delays a later request. |
| `LoadLaws.BacklogIsExact` | benchmarks/concurrency/client.py:111-140 | A finish time is some arrival, or the start of the run, plus exactly the work since. |
| `LoadLaws.ReportNoFaster` | benchmarks/concurrency/client.py:113-161 | Slowing an open-loop run keeps starts, counts and windows and raises every latency pointwise. |
| `LoadLaws.SweepNoFaster` | benchmarks/concurrency/stats.py:218-290 | Pooling slower clients changes no throughput figure and lowers no latency figure. |
| `LoadLaws.SlowerNeverLooksBetter` | benchmarks/concurrency/client.py:111-151 | Over any number of open-loop clients, schedules and failures, slowing any part of any request never improves a reported figure. |
| `LoadLaws.ClosedLoopBound` | benchmarks/concurrency/client.py:124-151 | In a closed loop of calls of at least m seconds the steady requests are fewer than steady seconds / m + 1, and a non-empty steady sample has a window of positive length. |
| `ClosedLoop.ClosedLoopOmits` | benchmarks/concurrency/client.py:124-151 | In every closed loop with time between warm-up and cool-down there are two runs, each with a steady sample, in which slowing a call lowers the reported 99th percentile, so the open loop is necessary. |
| `Signature.RowPermutationInvariant` | benchmarks/signature.py:58-77 | The fingerprint is invariant under every permutation of the rows. |
| `Signature.ColumnPermutationInvariant` | benchmarks/signature.py:58-77 | The fingerprint is invariant under every permutation of the columns. |
| `Signature.SignatureLossless` | benchmarks/signature.py:58-77 | Up to ten rows, equal fingerprints are exactly equal multisets of canonical rows. |
| `Signature.SignatureLossy` | benchmarks/signature.py:70-77 | From eleven rows on, two results of that size have different rows and one fingerprint. |
| `Signature.SignaturesMatch` | benchmarks/signature.py:80-100 | True exactly on equal fingerprints; the last return is never reached. |
| `EnrichJoin.AggregateScaleFree` | benchmarks/cluster/fraud_scoring.py:85-97 | However rows are ordered, sharded and merged, the aggregate is the one a single pass computes. |
| `EnrichJoin.GroupsPartition` | benchmarks/cluster/fraud_scoring.py:107-112 | Grouping loses no transaction and duplicates none. |
| `EnrichJoin.PipelinesAgree` | benchmarks/cluster/fraud_scoring.py:85-112 | Aggregate, join back and score is the per-account map as a multiset of rows, one row a transaction. |
| `EnrichJoin.ScoreIsLogistic` | benchmarks/cluster/fraud_scoring.py:78-82 | A score s lies between 0 and 1 and satisfies s (1 + exp(1.2 - 0.8 amt/avg - 0.05 n)) = 1. |
| `EnrichJoin.ScoreGrows` | benchmarks/cluster/fraud_scoring.py:78-82 | A score grows strictly with the amount and with the number of transactions of the account. |
| `EnrichJoin.KeyScoresOrderFree` | benchmarks/cluster/fraud_scoring.py:119-122 | The comparison map is independent of row order exactly when no two rows share a key and differ in score. |
| `EnrichJoin.GateAccepts` | benchmarks/cluster/fraud_scoring.py:141-153 | On amounts rounded to cents the gate compares every key and accepts, for every non-empty input. |
| `EnrichJoin.GateExactly` | benchmarks/cluster/fraud_scoring.py:119-153 | The gate accepts a non-empty table against itself under every two row orders if and only if scores that share a rounded key lie within 1e-6. |
| `EnrichJoin.PipelineGateExactly` | benchmarks/cluster/fraud_scoring.py:85-153 | The gate accepts both pipelines under every ordering, sharding and merging if and only if the scores of transactions that share account and rounded amount lie within 1e-6. |
| `EnrichJoin.GateRefusesItself` | benchmarks/cluster/fraud_scoring.py:85-153 | Two transactions of one account whose amounts round alike, with scores further apart than the tolerance: the pipelines compute the same rows and under some order the gate refuses them. |
| `EnrichJoin.WriteShards` | benchmarks/cluster/fraud_scoring.py:58-75 | At most the given number of files holding the rows in order, every one but the last of exactly the ceiling size and the last not larger or empty. |
| `Strides.DealtPartition` | benchmarks/cluster/gpu_ray_train.py:163-166 | The strided slices of a list hand each element to exactly one of them. |
| `Strides.Shard` | tools/backend_suites.py:177-193 | The files at the congruent positions, or an error for an index out of range. |
| `Strides.ShardsPartition` | tools/backend_suites.py:177-193 | Shards 1 to count partition the selection. |
| `Strides.ShardsBalanced` | tools/backend_suites.py:177-193 | No two shards differ in size by more than one. |
| `Strides.ShardKeepsOrder` | tools/backend_suites.py:177-193 | A shard keeps the selection order: its k-th file stands count places after the one before. |
| `ShardedTraining.WriteShards` | benchmarks/cluster/gpu_ray_train.py:104-123 | Contiguous files that together are the corpus, every one but the last of exactly the ceiling size, with its row count and label sum. |
| `ShardedTraining.RunEpochs` | benchmarks/cluster/gpu_ray_train.py:169-192 | The tally is the rows and label sum over every batch of every epoch. |
| `ShardedTraining.RanksPartitionCorpus` | benchmarks/cluster/gpu_ray_train.py:104-166 | For every file split, listing order and world size each row belongs to exactly one rank. |
| `ShardedTraining.GateExact` | benchmarks/cluster/gpu_ray_train.py:356-402 | For runs over real rows the checksum half never refuses, and the row half accepts exactly those within the stated number of dropped rows. |
| `ShardedTraining.DoubledRowsExactly` | benchmarks/cluster/gpu_ray_train.py:356-402 | For a run that reads some rows twice and skips as many others, the row half depends on the discarded tail alone, and the checksum half accepts exactly when the difference in label sums lies between zero and what the tail could hold. |
| `ShardedTraining.HonestRunPasses` | benchmarks/cluster/gpu_ray_train.py:356-402 | Every run that drops fewer than a batch a rank an epoch passes both halves. |
| `ShardedTraining.OverreadRefused` | benchmarks/cluster/gpu_ray_train.py:367-402 | Reading more rows than the epochs hold is refused whatever the checksum. |
| `ShardedTraining.NothingDroppedIsExact` | benchmarks/cluster/gpu_ray_train.py:398-402 | A consistent run that dropped nothing has exactly the corpus checksum. |
| `ShardedTraining.DropLastIsHonest` | benchmarks/cluster/gpu_ray_train.py:207-230 | Whatever order the rows are shuffled into, drop-last batching reads only real rows and drops fewer than one batch. |
| `ShardedTraining.ShuffledRunPasses` | benchmarks/cluster/gpu_ray_train.py:104-402 | For every corpus, file split, listing, world size, batch, number of epochs and shuffle of each rank in each epoch, batching with drop-last passes both halves of the gate. |
| `ShardedTraining.SkippedEpochsPass` | benchmarks/cluster/gpu_ray_train.py:365-368 | A run of two epochs or more that skips all but the first is accepted. |
| `EnumTags.SnakeInvertible` | tools/lint_ir_contract.py:82-84 | Snake-casing has a left inverse on variant names, so no two share a derived tag. |
| `EnumTags.SnakeMeans` | tools/lint_ir_contract.py:82-84 | The derived tag is the one string with every character of the name in lower case at its place, an underscore before each capital after the first character, and nothing else. |
| `EnumTags.EnumBody` | tools/lint_ir_contract.py:87-102 | The brace-depth loop returns the body of the enum, or the error for a missing marker, brace or partner. |
| `EnumTags.BodyRecovered` | tools/lint_ir_contract.py:87-102 | Brace matching returns exactly the body written between the braces. |
| `EnumTags.TopLevelLines` | tools/lint_ir_contract.py:105-120 | The lines at depth 0, classified before their own brackets are counted. |
| `EnumTags.RustTags` | tools/lint_ir_contract.py:123-151 | The pending-attribute state machine over the kept lines, with its error cases. |
| `EnumPrinting.TagsRecovered` | tools/lint_ir_contract.py:87-151 | For every enum printed from variants that balance one by one, with renames and skips and further options after them, the reader returns exactly the tags serde accepts: none for a skipped variant, the last rename, or the name, described character by character where it is derived. |
| `EnumPrinting.RenameRead` | tools/lint_ir_contract.py:134-140 | A rename is read whatever options follow it, and a skip among those is not seen. |
| `EnumPrinting.BodyNests` | tools/lint_ir_contract.py:87-102 | A printed body nests when each lead and each variant in it balances. |
| `EnumPrinting.CommentMustBalance` | tools/lint_ir_contract.py:105-120 | A comment is harmless if and only if its brackets balance. |
| `EnumPrinting.ContainerRead` | tools/lint_ir_contract.py:123-151 | Names are derived in snake case exactly when the attribute above the enum says so. |
| `LazyExports.StarIsInline` | tools/gen_lazy_exports.py:79-103 | Star-importing a computed façade is inlining its binds, in values and in key order. |
| `LazyExports.DeclaredSurface` | tools/gen_lazy_exports.py:62-103 | The loop over the import block builds the surface, or stops at the first error. |
| `LazyExports.StatementMeans` | tools/gen_lazy_exports.py:84-103 | A statement of the block is resolved exactly to what it binds: each alias to the attribute it names, a façade's surface for a star import of it, and every exported name of any other module. |
| `LazyExports.GeneratedIsEager` | tools/gen_lazy_exports.py:62-155 | Each computed surface has the eager façade's names in order of first binding and its last-bound objects. |
| `LazyExports.RouteResolves` | tools/gen_lazy_exports.py:106-131 | Following a generated route returns the very object that was bound. |
| `LazyExports.RoutableExactly` | tools/gen_lazy_exports.py:106-131 | An object is routable exactly when its defining batcher module still holds it under a public or the given name. |
| `LazyExports.TableServes` | tools/gen_lazy_exports.py:141-155 | A table lists the surface's names in order and each row resolves to the surface's object. |
| `LazyExports.LazyFacade.GetAttr` | python/batcher/_lazy.py:48-128 | An access is answered from cache, namespace, table or subpackage, or by the missing-name hook, and binds what the specification says. |
| `LazyExports.LazyFacade.ImportSubmodule` | python/batcher/_lazy.py:29-59 | The import machinery binds a submodule in the namespace and leaves the cache alone. |
| `LazyExports.EveryScriptServed` | python/batcher/_lazy.py:48-128 | After any script of accesses and submodule imports every exported name is served as the eager object. |
| `LazyExports.OthersAnswered` | python/batcher/_lazy.py:103-128 | After any script a name that is not exported, or private, is answered with the submodule last imported under it, or else as missing when private, as the subpackage of that name, or by the hook. |
| `LazyExports.ShadowNeedsRoute` | python/batcher/_lazy.py:48-59 | A name in the shadow set without a route is an error after any script. |
| `LazyExports.GeneratedServes` | tools/gen_lazy_exports.py:141-155 | Installing the table generated for a declared surface serves that surface. |
| `LazyExports.MissingShadowFails` | python/batcher/_lazy.py:103-108 | Leaving one colliding name out of the shadow set makes a script answer with the submodule. |
| `JoinTables.SplitDisjoint` | benchmarks/datagen/h2o_tables.py:77-81 | The shared, left-only and right-only keys are disjoint and free of repeats. |
| `JoinTables.RightPoolSize` | benchmarks/datagen/h2o_tables.py:77-81 | The right pool fills its tier exactly when the tier is a multiple of ten. |
| `JoinTables.SampleCovers` | benchmarks/datagen/h2o_tables.py:84-93 | A sample covers its pool and nothing else, and too small a size is an error. |
| `JoinTables.TierKeys` | benchmarks/datagen/h2o_tables.py:115-162 | On a tier's own key the inner-join keys are exactly the shared ones, and the other two parts occur on their side alone. |
| `JoinTables.RoundTierJoins` | benchmarks/datagen/h2o_tables.py:115-162 | A tier that is a multiple of ten has a unique right key, so a left join returns exactly the left rows. |
| `JoinTables.RaggedTierJoins` | benchmarks/datagen/h2o_tables.py:115-162 | Otherwise one right key is drawn twice, and the left join keeps its row count if and only if that key is right-only. |
| `JoinTables.FillColumns` | benchmarks/datagen/h2o_tables.py:145-152 | The column loop fills every key column, or fails at the first pool too large. |
| `JoinTables.BuildJoin` | benchmarks/datagen/h2o_tables.py:101-162 | The tables, or the error of a sample below its pool; for every possible draw each of the three tiers joins as promised: shared and one-sided keys, and a left join of exactly the left rows where the tier is a multiple of ten. |
| `JoinTables.DrawnIsFair` | benchmarks/datagen/h2o_tables.py:84-93 | For every draw and shuffle the sample holds its whole pool, nothing else, and the requested number of rows. |
| `JoinTables.BuiltTiers` | benchmarks/datagen/h2o_tables.py:101-162 | Every tier of any built tables joins as promised. |
| `JoinTables.PoolsFit` | benchmarks/datagen/h2o_tables.py:84-162 | No sample is asked for fewer rows than its pool exactly when the left table has at least ten rows. |
| `ResultCheck.OrderComplete` | benchmarks/cluster/tpch_vs_raydata.py:239-244 | A result in order is always accepted by the order gate. |
| `ResultCheck.OneKeyInOrder` | benchmarks/cluster/tpch_vs_raydata.py:239-244 | Rows are in order on one key exactly when NULLs come last in either direction and the rest ascend or descend. |
| `ResultCheck.OrderExact` | benchmarks/cluster/tpch_vs_raydata.py:239-244 | Where normalization separates the key cells, acceptance is exactly lexicographic order under the mixed directions. |
| `ResultCheck.ExactIffInjective` | benchmarks/cluster/tpch_vs_raydata.py:212-244 | The order gate is exact for all keys and directions if and only if normalization is injective. |
| `ResultCheck.OrderUnsound` | benchmarks/cluster/tpch_vs_raydata.py:239-244 | Two keys that normalize alike pass in the wrong order. |
| `ResultCheck.AcceptancePairs` | benchmarks/cluster/tpch_vs_raydata.py:245-251 | Acceptance yields a bijection between the compared rows in which every pair is close. |
| `ResultCheck.EqualAccepted` | benchmarks/cluster/tpch_vs_raydata.py:245-251 | Equal multisets of rows are always accepted. |
| `ResultCheck.CellCloseMeans` | benchmarks/cluster/tpch_vs_raydata.py:223-228 | Cells are close exactly when both are NULL, both read alike, or both are floats that differ by at most a millionth, or a millionth of one of them. |
| `ResultCheck.AcceptedExactly` | benchmarks/cluster/tpch_vs_raydata.py:245-251 | Acceptance holds if and only if the rows pair one to one and closely with both sides in the order of their text. |
| `ResultCheck.CloseRefused` | benchmarks/cluster/tpch_vs_raydata.py:223-251 | Rows of float cells that are within the relative tolerance cell by cell are sorted apart and refused. |
| `ResultCheck.Check` | benchmarks/cluster/tpch_vs_raydata.py:231-251 | Each verdict of the gate exactly when its condition holds and no earlier one does. Agreement pairs the rows of the two tables one to one, with close cells under every reference column, or under every key of a limited query. |
| `ResultCheck.PairedAlikeSame` | benchmarks/cluster/tpch_vs_raydata.py:245-251 | Rows that can be paired with every compared cell normalizing alike are accepted, in whatever order they come. |
| `ResultCheck.LimitedSeesKeys` | benchmarks/cluster/tpch_vs_raydata.py:239-251 | Changing any cell outside the keys, in the result or in the reference, changes no verdict on a limited query. |
| `ResultCheck.OrderedCells` | benchmarks/cluster/tpch_vs_raydata.py:239-244 | A result the order gate accepts shows, cell by cell under its keys, what sorting it again does. |
| `ResultCheck.CheckStandard` | benchmarks/cluster/tpch_vs_raydata.py:254-271 | Agreement exactly on equal column counts and position-wise close rows, with the other verdicts. |
| `DocTargets.ResolveTarget` | tools/doc_api_links.py:335-346 | The push and pop loop computes the specified walk over the components. |
| `DocTargets.TargetClean` | tools/doc_api_links.py:335-346 | Every result is free of empty, "." and ".." components. |
| `DocTargets.ClimbResolves` | tools/doc_api_links.py:335-346 | Any number of "../" before a clean path leads to that path below the page's directory with as many levels removed, stopping at the root. |
| `DocTargets.EveryTargetReachable` | tools/doc_api_links.py:335-346 | From a page d deep, d or more "../" before a target resolve to the target. |
| `DocTargets.AbsoluteResolves` | tools/doc_api_links.py:335-346 | A slash before a target resolves to the target from every page. |
| `DocNames.FindSingleCall` | tools/doc_api_links.py:176-197 | The depth counter decides the single-call test. |
| `DocNames.SingleCallExactly` | tools/doc_api_links.py:176-197 | A spelling is one call exactly when its parentheses balance to zero once, at the very end. |
| `DocNames.SingleCallShape` | tools/doc_api_links.py:173-197 | Whatever passes is a name followed by one argument list. |
| `DocNames.BuildIndex` | tools/doc_api_links.py:138-152 | A spelling is indexed exactly when one published target answers to it, and maps to that target. |
| `DocNames.SpellingsMean` | tools/doc_api_links.py:115-135 | A target answers to itself, to its class and name when its owner is a class, to the outer class before these, to its bt. form when it hangs off the root package, and to its bare name when it is a class there; and to nothing else. |
| `DocNames.BareNameIsAClass` | tools/doc_api_links.py:115-135 | A spelling without a dot, other than the target, is a class of the root package. |
| `DocNames.SourceSpelling` | tools/doc_api_links.py:155-168 | A linked repository path is spelled with path characters, slashes and blanks alone. |
| `Splicing.Mask` | tools/doc_api_links.py:308-312 | Overwriting the matches of a pattern keeps the length and blanks exactly the matches. |
| `Splicing.FindSpans` | tools/doc_api_links.py:313-319 | The wanted matches in source order, apart from each other. |
| `Splicing.SpliceAll` | tools/doc_api_links.py:374-379 | Splicing from right to left is the simultaneous substitution. |
| `Splicing.RewriteReplacesSpans` | tools/doc_api_links.py:370-379 | Text and result are the same gaps in the same order, woven with spans and with replacements. |
| `DocLinks.LinkableSpans` | tools/doc_api_links.py:302-319 | The linkable spans of a page, ascending, between two of its backticks. |
| `DocLinks.Fix` | tools/doc_api_links.py:370-379 | The page becomes the simultaneous substitution of its linkable spans, whose number is returned. |
| `DocLinks.FixReplacesSpans` | tools/doc_api_links.py:370-379 | Every character outside the linkable spans is kept, in order. |
| `DocLinks.BlankedExactly` | tools/doc_api_links.py:308-312 | The masked page is the page with exactly the positions of fences, roles and links blanked. |
| `DocLinks.SpellingKeptExactly` | tools/doc_api_links.py:302-319 | On every page, the spelling of a found span is the text there if and only if no fence, role or link covers a character of it that is not blank. |
| `DocPages.FixOnPage` | tools/doc_api_links.py:302-379 | On a tokenised page the rewrite replaces the linkable code spans and nothing else. |
| `DocPages.SecondFixFindsNothing` | tools/doc_api_links.py:302-379 | The number returned is that of the linkable code spans, and a second pass finds nothing. |
| `DocEdges.SecondFixFindsMore` | tools/doc_api_links.py:302-379 | For any two linkable spellings, a text on which a second pass finds another span. |
| `DocEdges.LinkInsideCodeIsLost` | tools/doc_api_links.py:308-319 | A link inside a linkable code span is replaced by blanks. |
| `SurfaceDiff.FindDifferences` | tools/surface_snapshot.py:205-222 | The recursion with its key loop returns the specified lines. |
| `SurfaceDiff.DiffEmptyIff` | tools/surface_snapshot.py:179-222 | The diff is empty exactly when keys, leaves, list members and ordered positions agree. |
| `SurfaceDiff.DiffSays` | tools/surface_snapshot.py:179-222 | Every line of a diff, both ways: a removed or added key is one of the first or second snapshot alone at a place both have, a removed or added item is a member of one list alone, a changed value differs, and position lines are the first five differing positions of lists with the same members on the ordered surface. |
| `SurfaceDiff.PlacesAreDotted` | tools/surface_snapshot.py:209-211 | A place is written as its keys with dots between them. |
| `SurfaceDiff.OrderMattersExactly` | tools/surface_snapshot.py:176-194 | Order is compared in the rule list and below it, and nowhere else. |
| `SurfaceDiff.DiffExact` | tools/surface_snapshot.py:179-222 | On duplicate-free lists the diff is empty exactly when the snapshots are the same. |
| `SurfaceDiff.ExactIffDuplicateFree` | tools/surface_snapshot.py:179-202 | On a surface without order, against duplicate-free lists an empty diff proves equal multisets if and only if the list has no duplicates. |
| `SurfaceDiff.OrderedDiffExactly` | tools/surface_snapshot.py:179-202 | On the ordered surface a diff is empty exactly when the members agree and one list starts the other. |
| `SurfaceDiff.OrderedExactIff` | tools/surface_snapshot.py:179-202 | On the ordered surface, against duplicate-free lists an empty diff proves equal lists if and only if the list is not its members followed by repetitions. |
| `SurfaceDiff.DiffFlips` | tools/surface_snapshot.py:179-222 | Swapping the snapshots exchanges added and removed lines and nothing else. |
| `SurfaceDiff.CompareSnapshots` | tools/surface_snapshot.py:274-288 | Exit code 0 exactly when neither snapshot holds a recorded error and both agree. |
| `SurfaceDiff.PassingProvesSurfaces` | tools/surface_snapshot.py:153-288 | Passing proves every surface of both trees captured and in agreement. |
| `SurfaceDiff.UnbuiltEnginePasses` | tools/surface_snapshot.py:119-150 | Two trees whose engines do not load, with any entry points, pass if and only if the reasons are the same, all else passing. |
| `SurfaceDiff.WithEnginePasses` | tools/surface_snapshot.py:119-150 | Adding the engine to two passing trees, they pass exactly when neither has an entry point named error, which reads as a failed capture, and the two values agree. |
| `SurfaceDiff.PassProvesEntriesExactly` | tools/surface_snapshot.py:119-150 | Agreement proves the entry points of the two engines equal if and only if neither value is that of an unbuilt engine. |
| `TableText.ScanUnion` | tools/gen_return_types_doc.py:131-142 | The one-pass loop returns the specified alternatives. |
| `TableText.CutLossless` | tools/gen_return_types_doc.py:131-142 | Before trimming, the pieces joined by bars are the text. |
| `TableText.CutComplete` | tools/gen_return_types_doc.py:131-142 | No piece has a bar left at depth 0. |
| `TableText.SplitUndoesJoin` | tools/gen_return_types_doc.py:131-142 | Splitting recovers any non-empty list of trimmed, balanced alternatives from their union. |
| `TableText.ProseInvertible` | tools/gen_migration_docs.py:291-303 | Every cell can be read back to its text up to whitespace. |
| `TableText.ProseQuotesBars` | tools/gen_migration_docs.py:291-303 | Every bar in a cell directly follows a backslash. |
| `TableText.ProseOneLine` | tools/gen_migration_docs.py:294-296 | A cell stays on one line. |
| `SuppressionRatchet.Ratchet.Invoke` | tools/lint_suppressions.py:89-148 | The record and exit code after one invocation in each mode. |
| `SuppressionRatchet.Ratchet.Replay` | tools/lint_suppressions.py:103-148 | Any number of invocations over a changing tree follow the specification. |
| `SuppressionRatchet.PassIsEquality` | tools/lint_suppressions.py:119-148 | With the category set unchanged the gate passes exactly when tree and record are equal. |
| `SuppressionRatchet.NeverGrows` | tools/lint_suppressions.py:103-117 | Over any run that keeps measuring a category its recorded count never grows. |
| `SuppressionRatchet.RecordIsLastWritten` | tools/lint_suppressions.py:89-148 | After any run the record is what the last rewriting invocation counted: the first that does not only report, or an update that counts no recorded category higher. |
| `SuppressionRatchet.FixedCategoriesNeverGrow` | tools/lint_suppressions.py:103-117 | With one fixed category set nothing recorded ever grows. |
| `SuppressionRatchet.PassingTreeIsNoLarger` | tools/lint_suppressions.py:103-148 | A tree that passes at the end holds no more than any record along the way allowed. |
| `SuppressionRatchet.ForgottenCategoryGrows` | tools/lint_suppressions.py:103-117 | A category one update does not measure may come back at any count. |
| `SuppressionRatchet.GrowthExactly` | tools/lint_suppressions.py:103-117 | For any sequence of modes and category sets, some counts make a recorded count exceed its first record if and only if an update omits the category and a later one measures it. |
| `LayerDebt.Debt.Invoke` | tools/lint_layer_debt.py:44-86 | A check passes exactly on the recorded list, and an update succeeds exactly when nothing was added. |
| `LayerDebt.NeverGrows` | tools/lint_layer_debt.py:49-70 | Over any run the recorded exemptions only shrink. |
| `LayerDebt.RecordIsLastWritten` | tools/lint_layer_debt.py:44-86 | After any run the record is what the last rewriting invocation listed: the first one, or an update that adds nothing. |
| `LayerDebt.PaidOffStaysOut` | tools/lint_layer_debt.py:49-86 | An exemption once paid off stays out, and a list that brings it back fails. |
| `SurfaceBaseline.WritingHidesNothing` | tools/public_surface_baseline.py:106-117 | Regenerating never changes the set of unrecorded vanished names, and is idempotent. |
| `SurfaceBaseline.NoSilentRemoval` | tools/public_surface_baseline.py:106-117 | Over every run with append-only removals a baseline name stays or is a recorded removal, and otherwise is reported. |
| `SurfaceBaseline.PublishedNamesAccountedFor` | tools/public_surface_baseline.py:106-117 | Every name public when the baseline was written is in the end present, recorded or reported. |
| `SurfaceBaseline.UnrecordedRemovalIsSilent` | tools/public_surface_baseline.py:106-117 | Taking a removal off the record after regenerating loses the name. |
| `SurfaceBaseline.LostExactly` | tools/public_surface_baseline.py:106-117 | Over every run, a baseline name ends in neither baseline, package nor record if and only if it ends out of the latter two and a regeneration left it out, as gone and on record, with none later taking it in. |
| `SurfaceBaseline.StateFollowsEvents` | tools/public_surface_baseline.py:106-117 | After any run a name is in the baseline exactly when the last regeneration that took it in or left it out took it in, and the package and the record are those of the last edit and the last entry. |
| `Allowlist.Linter.CheckPythonFile` | tools/lint_structure.py:457-508 | The hard failures of a Python file, its raw length standing in when it does not parse. |
| `Allowlist.Linter.CheckRustFile` | tools/lint_structure.py:526-534 | The hard failures of a Rust file. |
| `Allowlist.Linter.CheckDir` | tools/lint_structure.py:543-558 | The hard failures of a directory. |
| `Allowlist.Linter.Run` | tools/lint_structure.py:686-731 | The failures of all visits in order, and the exit code. |
| `Allowlist.GateExactly` | tools/lint_structure.py:457-558 | The gate reports exactly the failures of its visits: banned names, 800, 120 or 500 lines without an exemption, files that do not parse, more than 12 files without an exemption, more than 5 levels. |
| `Allowlist.StaleEntries` | tools/lint_structure.py:613-669 | The two audit loops report exactly the entries that are stale: gone, within the limit (a Python file only if it parses), or over the cap with another count than stated. |
| `Allowlist.FileAuditMatchesGate` | tools/lint_structure.py:457-645 | A visited, parsable file's exemption is reported within the limit exactly when deleting it leaves the failures as they were. |
| `Allowlist.DirAuditMatchesGate` | tools/lint_structure.py:543-655 | The same for a visited directory and the cap on its files. |
| `Allowlist.DeletingStaleIsSafe` | tools/lint_structure.py:613-669 | Any number of entries reported as gone or within limit can be deleted together. |
| `Allowlist.WrongCountIsStillNeeded` | tools/lint_structure.py:663-668 | Deleting an entry reported for its stated count adds a failure. |
| `ZoneMaps.AffirmedExactly` | python/batcher/kyber/rules/zonemap_pruning.py:437-460 | Behind the guards on the bounds, what Python affirms of a bound and a literal is so, and the engine affirms it exactly when it is not strict or the cast keeps the two apart. |
| `ZoneMaps.DecideExactly` | python/batcher/kyber/rules/zonemap_pruning.py:463-494 | A decision is the engine's answer on a value within the bounds if and only if the cast does not merge value and literal or the decision is the one for equal values. |
| `ZoneMaps.BoundsDecideExactly` | python/batcher/kyber/rules/zonemap_pruning.py:463-494 | A decision is the engine's answer on every value of the column's type within the bounds if and only if it is the one for equal values or the nearer bound and the literal stay apart under the cast. |
| `ZoneMaps.RoundedColumnMisjudged` | python/batcher/kyber/rules/zonemap_pruning.py:463-494 | An integer column of 2^53 + 1 throughout, compared by <= with the double 2^53: no row is said to pass and every row does. |
| `ZoneMaps.EngineIsExact` | crates/bc-expr/src/eval/binary.rs:212-234 | The engine compares exactly, except that two numbers the cast merges are equal to it. |
| `ZoneMaps.TextByCharacters` | python/batcher/kyber/rules/zonemap_pruning.py:463-494 | Text bounds are compared by the first differing character, a prefix first. |
| `ZoneMaps.MergesOnlyBeyond` | python/batcher/kyber/rules/exprs/cast_unwrap.py:56-58 | Only an integer beyond 2^53 and a double at or beyond it merge. |
| `Doubles.RoundedGrows` | crates/bc-expr/src/eval/coerce.rs:135-136 | The cast of an integer to a double is monotone. |
| `Doubles.RoundedBeside` | crates/bc-expr/src/eval/coerce.rs:135-136 | An integer on one side of a double is not cast to the other side of it. |
| `Doubles.RoundedIsNearest` | crates/bc-expr/src/eval/coerce.rs:135-136 | The cast is a number of at most 53 significant bits, none is nearer to the integer, and one as near is passed over only for an even multiple of the gap. |
| `Doubles.RoundedFixesDoubles` | crates/bc-expr/src/eval/coerce.rs:135-136 | The cast leaves alone exactly the integers of at most 53 significant bits. |
| `ZoneMaps.DecideComplete` | python/batcher/kyber/rules/zonemap_pruning.py:463-494 | For a literal that is not NaN, where the cast merges no deciding bound, an undecided comparison holds at one point within the bounds and fails at another. |
| `ZoneMaps.MissedIsConstant` | python/batcher/kyber/rules/zonemap_pruning.py:463-494 | Where it does merge, the undecided comparison has one answer throughout the bounds. |
| `ZoneMaps.NaNLiteralUndecided` | python/batcher/kyber/rules/zonemap_pruning.py:463-494 | A comparison with a NaN literal is never decided, although its answer is the same for every number within the bounds. |
| `ZoneMaps.ComparisonComplete` | python/batcher/kyber/rules/zonemap_pruning.py:388-434 | A comparison left open, membership index included, has both answers among the cells the statistics allow: a value that passes, and a value or a NULL that does not. |
| `ZoneMaps.ListDecidedExactly` | python/batcher/kyber/rules/zonemap_pruning.py:230-281 | A list is called always false exactly when no member lies within the bounds, and always true exactly when one does, the exact bounds are one value and there are no nulls. |
| `ZoneMaps.NullTestOpen` | python/batcher/kyber/rules/zonemap_pruning.py:315-352 | A null test on counted columns is left open exactly when NULLs and values both occur. |
| `ZoneMaps.ConnectivesDecide` | python/batcher/kyber/rules/zonemap_pruning.py:299-312 | A conjunction or disjunction has the strongest status that is right whatever outcomes the statuses of its parts allow. |
| `ZoneMaps.NegationDecides` | python/batcher/kyber/rules/zonemap_pruning.py:284-296 | So has a negation, under three-valued logic. |
| `ZoneMaps.NullIsUnknown` | python/batcher/kyber/rules/zonemap_pruning.py:284-312 | The three-valued logic the statuses are held against: AND and OR have a value exactly when they have it whatever an unknown operand is. |
| `ZoneMaps.NaNRowExactly` | python/batcher/kyber/rules/zonemap_pruning.py:463-494 | On a NaN row outside numeric bounds a decision is right if and only if it says that NaN is the greatest value. |
| `ZoneMaps.NaNRowInListExactly` | python/batcher/kyber/rules/zonemap_pruning.py:269-281 | On such a row the status of a list is right if and only if it is false or the list holds NaN. |
| `ZoneMaps.ComparisonExactly` | python/batcher/kyber/rules/zonemap_pruning.py:388-434 | The comparison status, membership index included, is right on a value the statistics allow if and only if the cast does not merge it with the literal or the status is the answer for equal values. |
| `ZoneMaps.InSound` | python/batcher/kyber/rules/zonemap_pruning.py:230-281 | The status of a list without NaN is right for every value the statistics allow and the cast merges with no member. |
| `ZoneMaps.InFalseExactly` | python/batcher/kyber/rules/zonemap_pruning.py:269-281 | A list called always false matches a value the statistics allow if and only if the cast merges it with a member. |
| `ZoneMaps.NullSound` | python/batcher/kyber/rules/zonemap_pruning.py:315-352 | The null-test status is right at both ends of the null count. |
| `ZoneMaps.StatusSound` | python/batcher/kyber/rules/zonemap_pruning.py:200-352 | On every relation the statistics describe, always-true predicates hold on each row and always-false ones on none, under three-valued logic, where the cast merges no literal with a cell it is compared to; lists with NaN are allowed beside a conjunct that implies them. |
| `ZoneMaps.InTrueExactly` | python/batcher/kyber/rules/zonemap_pruning.py:269-281 | An always-true list matches the constant if and only if a member Python can order lies within the bounds or the cast merges one with it. |
| `ZoneMaps.NaNListIsMisjudged` | python/batcher/kyber/rules/zonemap_pruning.py:269-281 | A list with NaN, as read off a disjunction, is called always true of a constant column and no row passes; beside the disjunction the decision is right. |
| `ZoneMaps.InferredSound` | python/batcher/kyber/rules/extra/disjunction_infer.py:49-98 | A disjunction with the list read off it is decided rightly, NaN members or not. |
| `PlanRewrites.PruneKeepsRows` | python/batcher/kyber/rules/zonemap_pruning.py:73-82 | Pruning a filter keeps the rows of the node, under any trustworthy estimator. |
| `PlanRewrites.JoinKeepsRows` | python/batcher/kyber/rules/zonemap_pruning.py:145-184 | Folding a join over an empty side keeps its rows under its output, where its left side can stand in for it. |
| `PlanRewrites.UnionKeepsRows` | python/batcher/kyber/rules/zonemap_pruning.py:187-197 | Dropping empty union branches keeps its rows, deduplicated or not. |
| `PlanRewrites.NodeKeepsColumns` | python/batcher/kyber/rules/zonemap_pruning.py:73-197 | Both rules keep the column names, a join showing its aliases whatever its kind, and the validity of the plan. |
| `PlanRewrites.NodeKeepsTypes` | python/batcher/kyber/rules/zonemap_pruning.py:73-197 | Both rules keep the types of the columns, and the conditions on the data under which further passes are right. |
| `PlanRewrites.PassKeepsMeaning` | python/batcher/kyber/rules/zonemap_pruning.py:73-197 | One bottom-up pass of either rule keeps rows, order, columns and types of every plan that meets the conditions on plan and data, and the conditions. |
| `PlanRewrites.OptimizingKeepsMeaning` | python/batcher/kyber/rules/zonemap_pruning.py:73-197 | So does any number of passes in any order, under any trustworthy estimator. |
| `PlanRewrites.EstimatorTrustworthy` | python/batcher/kyber/stats/estimator.py:517-712 | Over truthful sources the estimator's statistics describe the rows of every plan that meets the conditions. |
| `PlanRewrites.SourcesToPlans` | python/batcher/kyber/rules/zonemap_pruning.py:73-197 | From truthful sources through the estimator, any number of passes keeps rows, order, columns and types. |
| `PlanEdges.PruneExactly` | python/batcher/kyber/rules/zonemap_pruning.py:73-82 | Pruning a decided comparison of a column with a literal keeps the rows if and only if the cast merges the literal with no row or the decision is the one for equal values. |
| `PlanEdges.HarmlessUnmerged` | python/batcher/kyber/rules/exprs/cast_unwrap.py:56-58 | Literals of the column's own type, or short of 2^53, are merged with no cell of any row, so the condition can be checked on predicate and types alone. |
| `PlanEdges.UnionLosesNaN` | python/batcher/kyber/stats/columns.py:483-564 | Two tables in memory whose union's statistics lose the second one's NaN: the filter that only NaN passes is pruned to nothing. |
| `PlanEdges.UnionTypeExactly` | python/batcher/plan/logical/relational.py:474-489 | Dropping empty branches keeps a column's promoted type if and only if it is not double or a remaining branch has it. |
| `PlanEdges.EmptyBranchNarrowsType` | python/batcher/kyber/rules/zonemap_pruning.py:187-197 | An empty double branch beside an integer one leaves an integer column. |
| `PlanRewrites.FoldingSettles` | python/batcher/kyber/rules/zonemap_pruning.py:104-142 | Folding empty relations is idempotent: one pass reaches the fixpoint. |
| `PlanRewrites.FoldingCollapses` | python/batcher/kyber/rules/zonemap_pruning.py:104-197 | In the result of one pass over any plan no operator over one input, no union branch and no join that an empty side decides is left over an empty relation. |
| `PlanRewrites.TowerCollapses` | python/batcher/kyber/rules/zonemap_pruning.py:104-142 | Any tower of operators over an empty relation becomes that relation in one pass. |
| `PlanRewrites.PruningFinishes` | python/batcher/kyber/rules/zonemap_pruning.py:73-101 | In the result of one pass over any plan every filter is one that the statistics of its input leave open. |
| `PlanRewrites.EmptyLeftDecides` | python/batcher/kyber/rules/zonemap_pruning.py:145-184 | An empty left side empties exactly the left-driven joins; a right or full join keeps every right row. |
| `PlanRewrites.EmptyRightDecides` | python/batcher/kyber/rules/zonemap_pruning.py:145-184 | An empty right side empties exactly inner, semi and right joins, and leaves exactly anti, left and full joins with their left rows under their output. |
| `PlanRewrites.EmptyRightFoldExactly` | python/batcher/kyber/rules/zonemap_pruning.py:145-184 | Folding a semi or anti join over an empty right side keeps rows and columns for all table contents if and only if the output lists the left columns under their own names (semi: the aliases are those columns). |
| `PlanRewrites.RenamingAntiJoinMisfolded` | python/batcher/kyber/rules/zonemap_pruning.py:145-184 | An anti join over an empty right side that shows x as x_right is folded to a plan with column x. |
| `Plans.RowsTyped` | python/batcher/plan/logical/join.py:255-313 | The rows of a valid plan have exactly its columns, which for a join of any kind are its aliases. |
| `Plans.RowsKinded` | python/batcher/plan/logical/join.py:309-313 | The cells of a plan's rows are of the types of its columns. |
| `Plans.JoinedExactly` | crates/bc-runtime/src/join/mod.rs:89-107 | The rows of a join of any kind are exactly the matched pairs, the lone rows of its preserved sides, or the left rows with or without a match, under its output. |
| `Sources.DeclarationExactly` | python/batcher/plan/source_stats.py:391-435 | Whichever maxima are dropped from a truthful declaration, the rest describes the rows if and only if NaN is above no maximum that was kept. |
| `Sources.BridgeDescribes` | python/batcher/plan/source_stats.py:415-442 | With bounds of the columns' types, the statistics that cross the bridge describe every row, NaN included. |
| `Sources.FooterLeavesNaNOut` | python/batcher/io/stats/columnar_footer.py:309-312 | A footer over [0.1, 0.5, NaN] and f > 0.9: pruned without the bridge, open across it. |
| `Sources.IntegerBoundCrosses` | python/batcher/plan/source_stats.py:438-442 | A maximum of a double column written as an integer crosses the bridge, and a NaN row is pruned. |
| `Estimates.LargestExactly` | python/batcher/kyber/stats/columns.py:553-564 | Python's maximum of some numbers is the greatest of them in the engine's order if and only if NaN comes first or not at all. |
| `Estimates.FilterDescribes` | python/batcher/kyber/stats/estimator.py:714-877 | The statistics of a filter, narrowed by its conjuncts or counted by its null test, describe the rows it keeps. |
| `Estimates.NarrowedFits` | python/batcher/kyber/stats/predicate_bounds.py:30-93 | Bounds narrowed to a predicate hold of every cell of a row that satisfies it. |
| `Estimates.PermutedDescribed` | python/batcher/kyber/stats/estimator.py:879-896 | A sort keeps every statistic right. |
| `Estimates.LimitCountExactly` | python/batcher/kyber/stats/estimator.py:898-907 | The count a limit claims of a counted input is right if and only if there is no offset, nothing to count, or enough rows beyond the offset. |
| `Estimates.DistinctDescribes` | python/batcher/kyber/stats/columns.py:398-433 | The statistics of a deduplication describe its rows. |
| `Estimates.UnionDescribes` | python/batcher/kyber/stats/columns.py:436-535 | The merged statistics of a union describe its rows, deduplicated or not, where no column mixes NaN maxima with others. |
| `Estimates.JoinRight` | python/batcher/kyber/stats/join_columns.py:23-174 | The statistics of a join of any kind, keys intersected where only matches survive, describe its rows. |
| `Estimates.EstimateRight` | python/batcher/kyber/stats/estimator.py:517-1230 | Over truthful sources the estimator is right about every plan: its statistics describe the rows and are of the columns' types. |
| `Precision.CountsExactly` | python/batcher/kyber/stats/estimator.py:693-930 | Through sorts, constant filters, limits without an offset and unions of everything the count of a plan over counted sources is its number of rows. |
| `Precision.SharpnessSurvives` | python/batcher/kyber/stats/columns.py:436-535 | Through sorts and unions of everything statistics stay sharp: nulls are counted and both bounds occur. |
| `Precision.ExactBoundsOccur` | python/batcher/kyber/stats/columns.py:252-535 | Over sources that call bounds exact only when they occur, every bound of any plan that is called exact occurs among its rows. |
| `Precision.BoundsReachTheTop` | python/batcher/kyber/stats/columns.py:252-433 | Unless rows are known to be absent, every column of a source reaches the top of any tower of operators with bounds no looser and its index. |
| `Precision.ComparisonNarrows` | python/batcher/kyber/stats/predicate_bounds.py:30-93 | Where some row satisfies a filter, a conjunct that compares the column with a literal of its type, on either side, puts the bound no further than the literal. |
| `Precision.ListNarrows` | python/batcher/kyber/stats/predicate_bounds.py:65-84 | And a list puts both bounds no further than some member. |
| `Precision.JoinEmptyExactly` | python/batcher/kyber/stats/estimator.py:2366-2388 | A join is known to be empty if and only if no rows that its sides may have, given which of them are known to be empty, leave it one. |
| `Precision.JoinKeepsBounds` | python/batcher/kyber/stats/join_columns.py:23-61 | A join not known to be empty keeps the bounds of every column it shows. |
| `Precision.KeysBoundEachOther` | python/batcher/kyber/stats/join_columns.py:103-174 | In an inner or semi join whose key ranges meet, a shown key column is bounded by both sides. |

## Left out

- The rest of the engine: execution, spill, shuffle, transport, the cost model, and every other optimizer rule.
- Ray, torch, DuckDB, Daft, GPU and S3 calls, subprocess and thread start-up, and file and network access.
- Process-mode clients, whose fingerprints pass through JSON; thread mode is modelled.
- Floating-point rounding in percentiles, means, scores and checksums, and in `int(n * 1.1)` and `int(n * 0.9)`, which are exact floors here.
- Python's equality of values of different types, such as `1 == 1.0`, in fingerprints and snapshots.
- The logistic function, `round`, `repr` and `_norm`: uninterpreted functions with the stated properties. `_close` is uninterpreted in the general results and written out for float and text cells.
- Semi and anti joins whose output is not the left side's columns under their own names, in the results on whole plans: the rule misfolds them, as stated above.
- `Distinct` over a subset of the columns.
- Word characters in regular expressions are the ASCII ones.
- The labelled mirrors of the join keys and the value columns of the generated tables.
- Peak memory of a client, an input of the model.
- Soft warnings of the structure gate, the repository-root and test-name checks, and the counting of code lines.
- The survey that counts suppressions, the parsing of `pyproject.toml`, and the collection of public names: inputs of the ratchets.
- `backend_suites.check` and `discover`, `category`, `dead_doc_refs` and the reading of Sphinx directives, which are look-ups in fixed lists and patterns.
- The texts of reported lines and of printed tables; lines are records.
- Decimals, infinite floats, dates and booleans as values, and `implied_by_bounds`.
- The estimator beyond bounds, null counts, indexes and provable row counts: distinct counts, selectivities, learned sizes, and row counts of deduplications and joins other than zero, which meet no null count.
- Unions whose branches have different types and inner or semi joins whose keys have, in the results on whole plans: the engine casts their rows, and the casts are not modelled.
- Plan nodes other than scans and those the two rules match, a sort fused with a limit, and the choice of rows by sort and sample, which are functions of the rows.
- DocPages.FixOnPage: prose between items is non-empty and free of backticks, unclosed brackets and trailing role names; other texts are covered by the general results of DocLinks and the examples of DocEdges.
- ResultCheck.Check: the engine's own sort is given by what it leaves in the key columns, so its treatment of ties in other columns is not modelled.
