/** The sharded training benchmark: how the corpus is split over files and ranks, what a
    rank tallies, and the arithmetic gate that decides whether a run consumed the corpus.
    A row is represented by its label.
 */
module ShardedTraining {
  import opened Common
  import opened Strides

  const MAX_LABEL := 999

  ghost predicate Labels(s: seq<int>) {
    forall i | 0 <= i < |s| :: 0 <= s[i] <= MAX_LABEL
  }

  function Sum(s: seq<int>): int {
    if s == [] then 0 else s[0] + Sum(s[1..])
  }

  lemma {:induction false} SumConcat(a: seq<int>, b: seq<int>)
    ensures Sum(a + b) == Sum(a) + Sum(b)
  {
    if a == [] {
      assert a + b == b;
    } else {
      assert (a + b)[1..] == a[1..] + b;
      SumConcat(a[1..], b);
    }
  }

  // --- Writing the corpus ----------------------------------------------------------

  datatype Corpus = Corpus(rows: nat, checksum: int)

  /** `write_shards`: contiguous files of `ceil(n / shards)` rows, stopping at the first
      that would be empty, with the signature a complete pass must reproduce. */
  method WriteShards(labels: seq<int>, shards: nat) returns (files: seq<seq<int>>, corpus: Corpus)
    requires shards > 0
    ensures Flatten(files) == labels && |files| <= shards
    ensures EvenFiles(files, Ceiling(|labels|, shards))
    ensures corpus == Corpus(|labels|, Sum(labels))
  {
    var n := |labels|;
    var per := Ceiling(n, shards);
    CeilingCovers(n, shards, per);
    files := [];
    var rows, checksum := 0, 0;
    for s := 0 to shards
      invariant |files| <= s && EvenFiles(files, per)
      invariant rows == if s * per < n then s * per else n
      invariant rows < n ==> forall i | 0 <= i < |files| :: |files[i]| == per
      invariant Flatten(files) == labels[..rows] && checksum == Sum(labels[..rows])
    {
      var lo := s * per;
      assert (s + 1) * per == lo + per;
      var hi := if lo + per < n then lo + per else n;
      if lo >= hi {
        break;
      }
      AppendFile(files, labels, lo, hi);
      AppendEven(files, labels[lo..hi], per);
      SumConcat(labels[..lo], labels[lo..hi]);
      assert labels[..lo] + labels[lo..hi] == labels[..hi];
      files := files + [labels[lo..hi]];
      rows := rows + (hi - lo);
      checksum := checksum + Sum(labels[lo..hi]);
    }
    assert rows == n;
    assert labels[..n] == labels;
    corpus := Corpus(rows, checksum);
  }

  // --- Dealing the files to ranks --------------------------------------------------

  /** The rows of rank `rank`: its slice of the files, read in order. */
  function RankRows(files: seq<seq<int>>, rank: nat, world: nat): seq<int>
    requires world > 0
  {
    Flatten(Stride(files, rank, world))
  }

  /** The rows of ranks 0 to `k - 1`, rank by rank. */
  function Parts(files: seq<seq<int>>, world: nat, k: nat): (r: seq<seq<int>>)
    requires world > 0
    ensures |r| == k
    ensures forall rank | 0 <= rank < k :: r[rank] == RankRows(files, rank, world)
  {
    if k == 0 then [] else Parts(files, world, k - 1) + [RankRows(files, k - 1, world)]
  }

  lemma {:induction false} PartsFlatten(files: seq<seq<int>>, world: nat, k: nat)
    requires world > 0
    ensures Flatten(Parts(files, world, k)) == Flatten(Dealt(files, world, k))
  {
    if k > 0 {
      PartsFlatten(files, world, k - 1);
      FlattenSnoc(Parts(files, world, k - 1), RankRows(files, k - 1, world));
      FlattenConcat(Dealt(files, world, k - 1), Stride(files, k - 1, world));
    }
  }

  lemma {:induction false} FlattenRemove<T>(parts: seq<seq<T>>, j: nat)
    requires j < |parts|
    ensures multiset(Flatten(parts)) == multiset(parts[j]) + multiset(Flatten(RemoveAt(parts, j)))
  {
    var a, b := parts[..j], parts[j + 1..];
    assert parts == a + ([parts[j]] + b);
    FlattenConcat(a, [parts[j]] + b);
    assert ([parts[j]] + b)[1..] == b;
    FlattenConcat(a, b);
  }

  lemma {:induction false} FlattenPermuted<T>(a: seq<seq<T>>, b: seq<seq<T>>)
    requires multiset(a) == multiset(b)
    ensures multiset(Flatten(a)) == multiset(Flatten(b))
  {
    if a == [] {
      assert |multiset(b)| == 0;
      assert b == [];
    } else {
      HeadMultiset(a);
      assert a[0] in multiset(b);
      var j := Locate(b, a[0]);
      FlattenPermuted(a[1..], RemoveAt(b, j));
      FlattenRemove(b, j);
    }
  }

  /** Every row of the corpus belongs to exactly one rank, for any split into files, in
      whatever order the directory lists them, and any world size. */
  lemma RanksPartitionCorpus(labels: seq<int>, files: seq<seq<int>>, listed: seq<seq<int>>, world: nat)
    requires world > 0 && Flatten(files) == labels && multiset(listed) == multiset(files)
    ensures multiset(Flatten(Parts(listed, world, world))) == multiset(labels)
  {
    PartsFlatten(listed, world, world);
    DealtPartition(listed, world);
    FlattenPermuted(Dealt(listed, world, world), listed);
    FlattenPermuted(listed, files);
  }

  // --- What a rank tallies ---------------------------------------------------------

  datatype Tally = Tally(rows: nat, checksum: int)

  function EpochsRows(epochs: seq<seq<seq<int>>>): nat {
    if epochs == [] then 0 else EpochsRows(epochs[..|epochs| - 1]) + |Flatten(epochs[|epochs| - 1])|
  }

  function EpochsSum(epochs: seq<seq<seq<int>>>): int {
    if epochs == [] then 0 else EpochsSum(epochs[..|epochs| - 1]) + Sum(Flatten(epochs[|epochs| - 1]))
  }

  /** `_run_epochs`: rows and label sum over every batch of every epoch. */
  method RunEpochs(epochs: seq<seq<seq<int>>>) returns (tally: Tally)
    ensures tally == Tally(EpochsRows(epochs), EpochsSum(epochs))
  {
    var rows, checksum := 0, 0;
    for e := 0 to |epochs|
      invariant rows == EpochsRows(epochs[..e]) && checksum == EpochsSum(epochs[..e])
    {
      var batches := epochs[e];
      ghost var rows0, checksum0 := rows, checksum;
      for b := 0 to |batches|
        invariant rows == rows0 + |Flatten(batches[..b])|
        invariant checksum == checksum0 + Sum(Flatten(batches[..b]))
      {
        assert batches[..b + 1] == batches[..b] + [batches[b]];
        FlattenSnoc(batches[..b], batches[b]);
        SumConcat(Flatten(batches[..b]), batches[b]);
        rows := rows + |batches[b]|;
        checksum := checksum + Sum(batches[b]);
      }
      assert batches[..|batches|] == batches;
      assert epochs[..e + 1][..e] == epochs[..e];
    }
    assert epochs[..|epochs|] == epochs;
    tally := Tally(rows, checksum);
  }

  // --- The gate --------------------------------------------------------------------

  datatype Score = Score(rows: int, checksum: int, complete: bool, consistent: bool)

  function TallyRows(tallies: seq<Tally>): nat {
    if tallies == [] then 0 else tallies[0].rows + TallyRows(tallies[1..])
  }

  function TallySum(tallies: seq<Tally>): int {
    if tallies == [] then 0 else tallies[0].checksum + TallySum(tallies[1..])
  }

  /** `_consumed_a_real_subset`. */
  predicate Consistent(rows: int, checksum: int, corpus: Corpus, epochs: nat) {
    var dropped := corpus.rows * epochs - rows;
    if dropped < 0 then false
    else
      var shortfall := corpus.checksum * epochs - checksum;
      0 <= shortfall <= dropped * MAX_LABEL
  }

  /** The row-count half of `_summarize`. Its floor is one corpus, not one an epoch. */
  predicate Complete(rows: int, corpus: Corpus, batch: nat, ranks: nat, epochs: nat) {
    corpus.rows - batch * ranks * epochs <= rows <= corpus.rows * epochs
  }

  /** `_summarize`: an arm that returned no tally is an error. */
  function Summarize(tallies: seq<Tally>, corpus: Corpus, batch: nat, epochs: nat): Result<Score> {
    if tallies == [] then Err("no rank metrics returned")
    else
      var rows, checksum := TallyRows(tallies), TallySum(tallies);
      Ok(Score(rows, checksum, Complete(rows, corpus, batch, |tallies|, epochs),
               Consistent(rows, checksum, corpus, epochs)))
  }

  // --- What a run that reads only real rows can tally ------------------------------

  lemma {:induction false} SubsetSum(part: seq<int>, all: seq<int>)
    requires Labels(all) && multiset(part) <= multiset(all)
    ensures |part| <= |all|
    ensures 0 <= Sum(all) - Sum(part) <= (|all| - |part|) * MAX_LABEL
    decreases |all|
  {
    if part == [] {
      SumBounds(all);
    } else {
      HeadMultiset(part);
      assert part[0] in multiset(all);
      var j := Locate(all, part[0]);
      var rest := RemoveAt(all, j);
      assert multiset(part[1..]) <= multiset(rest);
      SubsetSum(part[1..], rest);
      RemoveAtMultiset(all, j);
      SumPermuted(all, [all[j]] + rest);
    }
  }

  lemma {:induction false} SumBounds(s: seq<int>)
    requires Labels(s)
    ensures 0 <= Sum(s) <= |s| * MAX_LABEL
  {
    if s != [] {
      SumBounds(s[1..]);
    }
  }

  lemma {:induction false} SumIsTotal(s: seq<int>)
    ensures Sum(s) as real == Total((x: int) => x as real, s)
  {
    if s != [] {
      SumIsTotal(s[1..]);
    }
  }

  lemma SumPermuted(a: seq<int>, b: seq<int>)
    requires multiset(a) == multiset(b)
    ensures Sum(a) == Sum(b) && |a| == |b|
  {
    SumIsTotal(a);
    SumIsTotal(b);
    TotalPermuted((x: int) => x as real, a, b);
  }

  /** `x` counted once an epoch. */
  ghost function Times(k: nat, x: int): int {
    if k == 0 then 0 else Times(k - 1, x) + x
  }

  lemma {:induction false} TimesMeaning(k: nat, x: int)
    ensures Times(k, x) == k * x
  {
    if k > 0 {
      TimesMeaning(k - 1, x);
      assert k * x == (k - 1) * x + x;
    }
  }

  lemma {:induction false} TimesAdd(k: nat, x: int, y: int)
    ensures Times(k, x + y) == Times(k, x) + Times(k, y)
  {
    if k > 0 {
      TimesAdd(k - 1, x, y);
    }
  }

  /** Every epoch reads some of the rank's rows, none of them twice. */
  ghost predicate ReadsReal(epochs: seq<seq<seq<int>>>, rows: seq<int>) {
    forall e | 0 <= e < |epochs| :: multiset(Flatten(epochs[e])) <= multiset(rows)
  }

  /** Every epoch drops fewer rows than one batch. */
  ghost predicate DropsTail(epochs: seq<seq<seq<int>>>, rows: seq<int>, batch: nat) {
    forall e | 0 <= e < |epochs| :: |rows| - |Flatten(epochs[e])| < batch
  }

  /** The tally of real rows: no more of them than the epochs hold, and a label sum short
      by at most the largest label for each row left out. */
  ghost predicate Within(rows: int, sum: int, allRows: int, allSum: int) {
    rows <= allRows && 0 <= allSum - sum <= (allRows - rows) * MAX_LABEL
  }

  lemma {:induction false} RankTally(epochs: seq<seq<seq<int>>>, rows: seq<int>)
    requires Labels(rows) && ReadsReal(epochs, rows)
    ensures Within(EpochsRows(epochs), EpochsSum(epochs), Times(|epochs|, |rows|), Times(|epochs|, Sum(rows)))
  {
    if epochs != [] {
      var n := |epochs| - 1;
      RankTally(epochs[..n], rows);
      SubsetSum(Flatten(epochs[n]), rows);
    }
  }

  lemma {:induction false} RankKeeps(epochs: seq<seq<seq<int>>>, rows: seq<int>, batch: nat)
    requires DropsTail(epochs, rows, batch)
    ensures Times(|epochs|, |rows|) - EpochsRows(epochs) <= Times(|epochs|, batch)
  {
    if epochs != [] {
      RankKeeps(epochs[..|epochs| - 1], rows, batch);
    }
  }

  /** A whole run: one list of epochs a rank, tallied. */
  function TalliesOf(run: seq<seq<seq<seq<int>>>>): (r: seq<Tally>)
    ensures |r| == |run|
  {
    if run == [] then [] else [Tally(EpochsRows(run[0]), EpochsSum(run[0]))] + TalliesOf(run[1..])
  }

  /** Each rank ran `epochs` passes over its own part, reading only rows it holds. */
  ghost predicate RealRun(run: seq<seq<seq<seq<int>>>>, parts: seq<seq<int>>, epochs: nat) {
    && |run| == |parts|
    && forall r | 0 <= r < |run| :: |run[r]| == epochs && ReadsReal(run[r], parts[r])
  }

  /** A real run in which `drop_last` alone decides what is left out. */
  ghost predicate HonestRun(run: seq<seq<seq<seq<int>>>>, parts: seq<seq<int>>, epochs: nat, batch: nat) {
    && RealRun(run, parts, epochs)
    && forall r | 0 <= r < |run| :: DropsTail(run[r], parts[r], batch)
  }

  lemma LabelsSplit(first: seq<int>, rest: seq<int>)
    requires Labels(first + rest)
    ensures Labels(first) && Labels(rest)
  {
    forall i | 0 <= i < |first| ensures 0 <= first[i] <= MAX_LABEL {
      assert (first + rest)[i] == first[i];
    }
    forall i | 0 <= i < |rest| ensures 0 <= rest[i] <= MAX_LABEL {
      assert (first + rest)[|first| + i] == rest[i];
    }
  }

  lemma WithinAdds(r: int, s: int, ar: int, b1: int, r': int, s': int, ar': int, b2: int)
    requires Within(r, s, ar, b1) && Within(r', s', ar', b2)
    ensures Within(r + r', s + s', ar + ar', b1 + b2)
  {
  }

  lemma {:induction false} RunTally(run: seq<seq<seq<seq<int>>>>, parts: seq<seq<int>>, epochs: nat)
    requires RealRun(run, parts, epochs) && Labels(Flatten(parts))
    ensures Within(TallyRows(TalliesOf(run)), TallySum(TalliesOf(run)),
                   Times(epochs, |Flatten(parts)|), Times(epochs, Sum(Flatten(parts))))
  {
    if run == [] {
      TimesMeaning(epochs, 0);
    } else {
      var first, rest := parts[0], Flatten(parts[1..]);
      LabelsSplit(first, rest);
      RunTally(run[1..], parts[1..], epochs);
      assert |run[0]| == epochs && ReadsReal(run[0], first);
      RankTally(run[0], first);
      TallyHead(run);
      TimesSplit(epochs, first, rest);
      WithinAdds(
        EpochsRows(run[0]), EpochsSum(run[0]), Times(epochs, |first|), Times(epochs, Sum(first)),
        TallyRows(TalliesOf(run[1..])), TallySum(TalliesOf(run[1..])), Times(epochs, |rest|), Times(epochs, Sum(rest)));
    }
  }

  lemma TimesSplit(epochs: nat, first: seq<int>, rest: seq<int>)
    ensures Times(epochs, |first + rest|) == Times(epochs, |first|) + Times(epochs, |rest|)
    ensures Times(epochs, Sum(first + rest)) == Times(epochs, Sum(first)) + Times(epochs, Sum(rest))
  {
    SumConcat(first, rest);
    TimesAdd(epochs, |first|, |rest|);
    TimesAdd(epochs, Sum(first), Sum(rest));
  }

  lemma TallyHead(run: seq<seq<seq<seq<int>>>>)
    requires run != []
    ensures TallyRows(TalliesOf(run)) == EpochsRows(run[0]) + TallyRows(TalliesOf(run[1..]))
    ensures TallySum(TalliesOf(run)) == EpochsSum(run[0]) + TallySum(TalliesOf(run[1..]))
  {
    assert TalliesOf(run)[1..] == TalliesOf(run[1..]);
  }

  lemma {:induction false} RunKeeps(run: seq<seq<seq<seq<int>>>>, parts: seq<seq<int>>, epochs: nat, batch: nat)
    requires HonestRun(run, parts, epochs, batch)
    ensures Times(epochs, |Flatten(parts)|) - TallyRows(TalliesOf(run)) <= Times(|run|, Times(epochs, batch))
  {
    if run == [] {
      TimesMeaning(epochs, 0);
    } else {
      RunKeeps(run[1..], parts[1..], epochs, batch);
      RankKeeps(run[0], parts[0], batch);
      TimesAdd(epochs, |parts[0]|, |Flatten(parts[1..])|);
    }
  }

  /** The parts hold the corpus, and the corpus signature is theirs. */
  ghost predicate Holds(parts: seq<seq<int>>, labels: seq<int>, corpus: Corpus) {
    && Labels(labels) && multiset(Flatten(parts)) == multiset(labels)
    && corpus == Corpus(|labels|, Sum(labels))
  }

  lemma HoldsTotals(parts: seq<seq<int>>, labels: seq<int>, corpus: Corpus)
    requires Holds(parts, labels, corpus)
    ensures Labels(Flatten(parts)) && |Flatten(parts)| == corpus.rows && Sum(Flatten(parts)) == corpus.checksum
  {
    var all := Flatten(parts);
    SumPermuted(all, labels);
    forall i | 0 <= i < |all| ensures 0 <= all[i] <= MAX_LABEL {
      assert all[i] in multiset(labels);
      var j :| 0 <= j < |labels| && labels[j] == all[i];
    }
  }

  /** The gate in full, for every run that reads only real rows: the checksum half never
      refuses one, and the row half accepts exactly those that drop no more than the
      surplus epochs plus one batch a rank an epoch. */
  lemma GateExact(
    run: seq<seq<seq<seq<int>>>>, parts: seq<seq<int>>, labels: seq<int>, corpus: Corpus,
    batch: nat, epochs: nat, score: Score)
    requires Holds(parts, labels, corpus) && RealRun(run, parts, epochs) && run != [] && epochs >= 1
    requires Summarize(TalliesOf(run), corpus, batch, epochs) == Ok(score)
    ensures score.consistent
    ensures score.complete <==>
      corpus.rows * epochs - score.rows <= corpus.rows * (epochs - 1) + batch * |run| * epochs
  {
    HoldsTotals(parts, labels, corpus);
    RunTally(run, parts, epochs);
    TimesMeaning(epochs, corpus.rows);
    TimesMeaning(epochs, corpus.checksum);
    GateArithmetic(score.rows, score.checksum, corpus, batch, |run|, epochs);
  }

  lemma GateArithmetic(rows: int, checksum: int, corpus: Corpus, batch: nat, ranks: nat, epochs: nat)
    requires epochs >= 1 && rows <= epochs * corpus.rows
    requires 0 <= epochs * corpus.checksum - checksum <= (epochs * corpus.rows - rows) * MAX_LABEL
    ensures Consistent(rows, checksum, corpus, epochs)
    ensures Complete(rows, corpus, batch, ranks, epochs) <==>
      corpus.rows * epochs - rows <= corpus.rows * (epochs - 1) + batch * ranks * epochs
  {
    assert corpus.rows * (epochs - 1) == corpus.rows * epochs - corpus.rows;
  }

  /** The corpus once an epoch. */
  ghost function AllEpochs(labels: seq<int>, epochs: nat): seq<int> {
    if epochs == 0 then [] else labels + AllEpochs(labels, epochs - 1)
  }

  lemma {:induction false} AllEpochsTotals(labels: seq<int>, epochs: nat)
    ensures |AllEpochs(labels, epochs)| == Times(epochs, |labels|)
    ensures Sum(AllEpochs(labels, epochs)) == Times(epochs, Sum(labels))
  {
    if epochs > 0 {
      AllEpochsTotals(labels, epochs - 1);
      SumConcat(labels, AllEpochs(labels, epochs - 1));
    }
  }

  /** A run that reads some rows twice and leaves as many others out, besides the tail that
      `drop_last` discards. The row half sees only the tail. The checksum half accepts the run
      exactly when the labels it gained do not outweigh those it lost, nor the loss exceed
      what the tail could account for; with nothing discarded, exactly when the two sums
      are equal. */
  lemma DoubledRowsExactly(
    read: seq<int>, tail: seq<int>, twice: seq<int>, skipped: seq<int>, labels: seq<int>, corpus: Corpus,
    batch: nat, ranks: nat, epochs: nat)
    requires corpus == Corpus(|labels|, Sum(labels)) && |twice| == |skipped| && epochs >= 1
    requires multiset(read + tail + skipped) == multiset(AllEpochs(labels, epochs) + twice)
    ensures |read| == corpus.rows * epochs - |tail|
    ensures Complete(|read|, corpus, batch, ranks, epochs) <==>
            |tail| <= corpus.rows * (epochs - 1) + batch * ranks * epochs
    ensures Consistent(|read|, Sum(read), corpus, epochs) <==>
            0 <= Sum(tail) + Sum(skipped) - Sum(twice) <= |tail| * MAX_LABEL
  {
    DoubledTotals(read, tail, twice, skipped, labels, epochs);
    TimesMeaning(epochs, corpus.rows);
    TimesMeaning(epochs, corpus.checksum);
    ConsistentMeans(|read|, Sum(read), corpus, epochs, Times(epochs, corpus.rows), Times(epochs, corpus.checksum));
    CompleteMeans(|read|, |tail|, corpus, batch, ranks, epochs);
  }

  lemma CompleteMeans(rows: int, tail: nat, corpus: Corpus, batch: nat, ranks: nat, epochs: nat)
    requires epochs >= 1 && rows == corpus.rows * epochs - tail
    ensures Complete(rows, corpus, batch, ranks, epochs) <==>
            tail <= corpus.rows * (epochs - 1) + batch * ranks * epochs
  {
    assert corpus.rows * (epochs - 1) == corpus.rows * epochs - corpus.rows;
  }

  lemma DoubledTotals(
    read: seq<int>, tail: seq<int>, twice: seq<int>, skipped: seq<int>, labels: seq<int>, epochs: nat)
    requires |twice| == |skipped|
    requires multiset(read + tail + skipped) == multiset(AllEpochs(labels, epochs) + twice)
    ensures |read| == Times(epochs, |labels|) - |tail|
    ensures Sum(read) == Times(epochs, Sum(labels)) + Sum(twice) - Sum(tail) - Sum(skipped)
  {
    var all := AllEpochs(labels, epochs);
    SumPermuted(read + tail + skipped, all + twice);
    ThreeSums(read, tail, skipped);
    SumConcat(all, twice);
    AllEpochsTotals(labels, epochs);
  }

  lemma ThreeSums(a: seq<int>, b: seq<int>, c: seq<int>)
    ensures Sum(a + b + c) == Sum(a) + Sum(b) + Sum(c) && |a + b + c| == |a| + |b| + |c|
  {
    SumConcat(a + b, c);
    SumConcat(a, b);
  }

  lemma ConsistentMeans(rows: int, checksum: int, corpus: Corpus, epochs: nat, allRows: int, allSum: int)
    requires allRows == epochs * corpus.rows && allSum == epochs * corpus.checksum
    ensures allRows == corpus.rows * epochs
    ensures Consistent(rows, checksum, corpus, epochs) <==>
            rows <= allRows && 0 <= allSum - checksum <= (allRows - rows) * MAX_LABEL
  {
    assert corpus.rows * epochs == allRows && corpus.checksum * epochs == allSum;
  }

  /** Every honest run passes both halves of the gate, for any corpus, file count, world
      size, batch and number of epochs. */
  lemma HonestRunPasses(
    labels: seq<int>, files: seq<seq<int>>, listed: seq<seq<int>>, corpus: Corpus,
    world: nat, batch: nat, epochs: nat, run: seq<seq<seq<seq<int>>>>, score: Score)
    requires Labels(labels) && corpus == Corpus(|labels|, Sum(labels))
    requires Flatten(files) == labels && multiset(listed) == multiset(files)
    requires world > 0 && epochs >= 1
    requires HonestRun(run, Parts(listed, world, world), epochs, batch)
    requires Summarize(TalliesOf(run), corpus, batch, epochs) == Ok(score)
    ensures score.complete && score.consistent
  {
    var parts := Parts(listed, world, world);
    RanksPartitionCorpus(labels, files, listed, world);
    HoldsTotals(parts, labels, corpus);
    RunKeeps(run, parts, epochs, batch);
    GateExact(run, parts, labels, corpus, batch, epochs, score);
    TimesMeaning(epochs, corpus.rows);
    TimesMeaning(epochs, batch);
    TimesMeaning(|run|, epochs * batch);
    KeptEnough(score.rows, corpus.rows, batch, |run|, epochs);
  }

  lemma KeptEnough(rows: int, total: nat, batch: nat, ranks: nat, epochs: nat)
    requires epochs >= 1 && epochs * total - rows <= ranks * (epochs * batch)
    ensures total * epochs - rows <= total * (epochs - 1) + batch * ranks * epochs
  {
    assert ranks * (epochs * batch) == batch * ranks * epochs;
    assert total * (epochs - 1) >= 0;
  }

  /** Reading more rows than the epochs hold is refused by both halves, whatever the
      checksum says. */
  lemma OverreadRefused(tallies: seq<Tally>, corpus: Corpus, batch: nat, epochs: nat)
    requires tallies != [] && TallyRows(tallies) > corpus.rows * epochs
    ensures
      var score := Summarize(tallies, corpus, batch, epochs).value;
      !score.complete && !score.consistent
  {
  }

  /** A consistent run that dropped nothing reproduces the checksum exactly. */
  lemma NothingDroppedIsExact(rows: int, checksum: int, corpus: Corpus, epochs: nat)
    requires rows == corpus.rows * epochs
    ensures Consistent(rows, checksum, corpus, epochs) <==> checksum == corpus.checksum * epochs
  {
    assert corpus.rows * epochs - rows == 0;
  }

  // --- `drop_last` is honest -------------------------------------------------------

  /** Full batches of `rows` in order, the ragged tail discarded. */
  function Batches(rows: seq<int>, batch: nat): seq<seq<int>>
    requires batch > 0
    decreases |rows|
  {
    if |rows| < batch then [] else [rows[..batch]] + Batches(rows[batch..], batch)
  }

  lemma {:induction false} BatchesAreRows(rows: seq<int>, batch: nat)
    requires batch > 0
    ensures Flatten(Batches(rows, batch)) <= rows
    ensures |rows| - |Flatten(Batches(rows, batch))| == |rows| % batch
    decreases |rows|
  {
    if |rows| >= batch {
      BatchesAreRows(rows[batch..], batch);
      assert rows == rows[..batch] + rows[batch..];
      ModStep(|rows|, batch);
    }
  }

  /** Whatever order a shuffle leaves the rank's rows in, `drop_last` batching reads
      only the rank's rows and drops fewer than one batch. */
  lemma DropLastIsHonest(rows: seq<int>, shuffled: seq<int>, batch: nat)
    requires batch > 0 && multiset(shuffled) == multiset(rows)
    ensures multiset(Flatten(Batches(shuffled, batch))) <= multiset(rows)
    ensures |rows| - |Flatten(Batches(shuffled, batch))| < batch
  {
    var read := Flatten(Batches(shuffled, batch));
    BatchesAreRows(shuffled, batch);
    PrefixPart(read, shuffled);
    assert |shuffled| == |multiset(shuffled)| == |multiset(rows)| == |rows|;
  }

  lemma PrefixPart(a: seq<int>, b: seq<int>)
    requires a <= b
    ensures multiset(a) <= multiset(b)
  {
    assert b == a + b[|a|..];
  }

  /** The batches every rank reads in every epoch, given how its rows were shuffled. */
  function BatchedRun(shuffles: seq<seq<seq<int>>>, batch: nat): (run: seq<seq<seq<seq<int>>>>)
    requires batch > 0
    ensures |run| == |shuffles|
    ensures forall r | 0 <= r < |run| :: run[r] == BatchedRank(shuffles[r], batch)
  {
    if shuffles == [] then [] else [BatchedRank(shuffles[0], batch)] + BatchedRun(shuffles[1..], batch)
  }

  function BatchedRank(shuffles: seq<seq<int>>, batch: nat): (epochs: seq<seq<seq<int>>>)
    requires batch > 0
    ensures |epochs| == |shuffles|
    ensures forall e | 0 <= e < |epochs| :: epochs[e] == Batches(shuffles[e], batch)
  {
    if shuffles == [] then [] else [Batches(shuffles[0], batch)] + BatchedRank(shuffles[1..], batch)
  }

  /** Every rank's rows in some order for every epoch. */
  ghost predicate Shuffled(shuffles: seq<seq<seq<int>>>, parts: seq<seq<int>>, epochs: nat) {
    && |shuffles| == |parts|
    && forall r | 0 <= r < |parts| :: RankShuffled(shuffles[r], parts[r], epochs)
  }

  ghost predicate RankShuffled(shuffles: seq<seq<int>>, rows: seq<int>, epochs: nat) {
    |shuffles| == epochs && forall e | 0 <= e < epochs :: multiset(shuffles[e]) == multiset(rows)
  }

  lemma BatchedRankIsHonest(shuffles: seq<seq<int>>, rows: seq<int>, batch: nat)
    requires batch > 0 && RankShuffled(shuffles, rows, |shuffles|)
    ensures ReadsReal(BatchedRank(shuffles, batch), rows) && DropsTail(BatchedRank(shuffles, batch), rows, batch)
  {
    var epochs := BatchedRank(shuffles, batch);
    forall e | 0 <= e < |epochs|
      ensures multiset(Flatten(epochs[e])) <= multiset(rows) && |rows| - |Flatten(epochs[e])| < batch
    {
      DropLastIsHonest(rows, shuffles[e], batch);
    }
  }

  /** From the shuffle to the score: for any corpus, file split, listing order, world size,
      batch and number of epochs, and whatever order each rank's rows are shuffled into in
      each epoch, batching with `drop_last` passes both halves of the gate. */
  lemma ShuffledRunPasses(
    labels: seq<int>, files: seq<seq<int>>, listed: seq<seq<int>>, corpus: Corpus,
    world: nat, batch: nat, epochs: nat, shuffles: seq<seq<seq<int>>>, score: Score)
    requires Labels(labels) && corpus == Corpus(|labels|, Sum(labels))
    requires Flatten(files) == labels && multiset(listed) == multiset(files)
    requires world > 0 && batch > 0 && epochs >= 1
    requires Shuffled(shuffles, Parts(listed, world, world), epochs)
    requires Summarize(TalliesOf(BatchedRun(shuffles, batch)), corpus, batch, epochs) == Ok(score)
    ensures score.complete && score.consistent
  {
    var parts, run := Parts(listed, world, world), BatchedRun(shuffles, batch);
    forall r | 0 <= r < |run|
      ensures |run[r]| == epochs && ReadsReal(run[r], parts[r]) && DropsTail(run[r], parts[r], batch)
    {
      assert RankShuffled(shuffles[r], parts[r], epochs);
      BatchedRankIsHonest(shuffles[r], parts[r], batch);
    }
    HonestRunPasses(labels, files, listed, corpus, world, batch, epochs, run, score);
  }

  // --- What the gate does not see --------------------------------------------------

  /** With two epochs or more, a run that silently skips every epoch but its first is
      accepted: the row floor is one corpus whatever the number of epochs, and skipping
      never breaks the checksum bound. */
  lemma SkippedEpochsPass(
    run: seq<seq<seq<seq<int>>>>, parts: seq<seq<int>>, labels: seq<int>, corpus: Corpus,
    batch: nat, epochs: nat, score: Score)
    requires Holds(parts, labels, corpus) && RealRun(run, parts, epochs) && run != [] && epochs >= 2
    requires forall r | 0 <= r < |run| :: Flatten(run[r][0]) == parts[r]
    requires forall r, e | 0 <= r < |run| && 1 <= e < epochs :: run[r][e] == []
    requires Summarize(TalliesOf(run), corpus, batch, epochs) == Ok(score)
    ensures score.complete && score.consistent && score.rows == corpus.rows
  {
    HoldsTotals(parts, labels, corpus);
    OneEpochRows(run, parts, epochs);
    GateExact(run, parts, labels, corpus, batch, epochs, score);
    OneCorpusIsEnough(corpus.rows, batch, |run|, epochs);
  }

  lemma OneCorpusIsEnough(total: nat, batch: nat, ranks: nat, epochs: nat)
    requires epochs >= 1
    ensures total * epochs - total <= total * (epochs - 1) + batch * ranks * epochs
  {
    assert total * epochs - total == total * (epochs - 1);
    assert batch * ranks >= 0;
    assert (batch * ranks) * epochs >= 0;
  }

  lemma {:induction false} OneEpochRows(run: seq<seq<seq<seq<int>>>>, parts: seq<seq<int>>, epochs: nat)
    requires |run| == |parts| && epochs >= 1
    requires forall r | 0 <= r < |run| :: |run[r]| == epochs && Flatten(run[r][0]) == parts[r]
    requires forall r, e | 0 <= r < |run| && 1 <= e < epochs :: run[r][e] == []
    ensures TallyRows(TalliesOf(run)) == |Flatten(parts)|
  {
    if run != [] {
      OneEpochRows(run[1..], parts[1..], epochs);
      FirstEpochOnly(run[0]);
    }
  }

  lemma {:induction false} FirstEpochOnly(epochs: seq<seq<seq<int>>>)
    requires |epochs| >= 1 && forall e | 1 <= e < |epochs| :: epochs[e] == []
    ensures EpochsRows(epochs) == |Flatten(epochs[0])|
  {
    if |epochs| > 1 {
      FirstEpochOnly(epochs[..|epochs| - 1]);
    } else {
      assert epochs[..0] == [];
    }
  }
}
