/** The fraud-scoring pipeline: per-account features aggregated, joined back onto every
    transaction and scored, against the per-account map it must agree with.

    Division and the exponential are parameters, so a score is whatever the shared formula
    yields over them; only the two laws about the score itself depend on their values.
 */
module EnrichJoin {
  import opened Common

  datatype Txn = Txn(acct: int, amt: real, hour: int)

  datatype StatRow = StatRow(acct: int, avg: real, n: nat)

  datatype Scored = Scored(acct: int, amt: real, score: real)

  datatype Arith = Arith(div: (real, real) -> real, exp: real -> real)

  const W_RATIO := 0.8
  const W_VELOCITY := 0.05
  const BIAS := -1.2

  /** The largest difference in score the gate lets pass. */
  const TOLERANCE := 0.000001

  /** The shared logistic risk score. */
  function RiskScore(ops: Arith, amt: real, avg: real, n: nat): real {
    var z := W_RATIO * ops.div(amt, avg) + W_VELOCITY * n as real + BIAS;
    ops.div(1.0, 1.0 + ops.exp(-z))
  }

  /** Division of reals, and an exponential that is positive and grows. */
  ghost predicate Real(ops: Arith) {
    && (forall a, b | b != 0.0 :: ops.div(a, b) == a / b)
    && (forall x :: ops.exp(x) > 0.0) && ops.exp(0.0) == 1.0
    && (forall x, y | x < y :: ops.exp(x) < ops.exp(y))
  }

  lemma Reciprocal(x: real)
    requires x > 1.0
    ensures 0.0 < 1.0 / x < 1.0 && (1.0 / x) * x == 1.0
  {
  }

  lemma ReciprocalFalls(x: real, y: real)
    requires 1.0 < x <= y
    ensures 1.0 / y <= 1.0 / x && (x < y ==> 1.0 / y < 1.0 / x)
  {
    var p, q := 1.0 / x, 1.0 / y;
    Reciprocal(x);
    Reciprocal(y);
    assert p * y == p * x + p * (y - x);
    assert (p - q) * y == p * (y - x) >= 0.0;
    assert x < y ==> p * (y - x) > 0.0;
  }

  /** A score is the logistic of the weighted amount, as a share of the account's average, and
      of the number of transactions: the part of one that outweighs the exponential. */
  lemma ScoreIsLogistic(ops: Arith, amt: real, avg: real, n: nat, s: real)
    requires Real(ops) && avg != 0.0 && s == RiskScore(ops, amt, avg, n)
    ensures 0.0 < s < 1.0
    ensures s * (1.0 + ops.exp(1.2 - 0.8 * (amt / avg) - 0.05 * n as real)) == 1.0
  {
    var z := W_RATIO * (amt / avg) + W_VELOCITY * n as real + BIAS;
    assert -z == 1.2 - 0.8 * (amt / avg) - 0.05 * n as real;
    Reciprocal(1.0 + ops.exp(-z));
  }

  /** So it grows with the amount and with the number of transactions. */
  lemma ScoreGrows(ops: Arith, amt: real, amt': real, avg: real, n: nat, n': nat)
    requires Real(ops) && avg > 0.0 && amt <= amt' && n <= n'
    ensures RiskScore(ops, amt, avg, n) <= RiskScore(ops, amt', avg, n')
    ensures amt < amt' || n < n' ==> RiskScore(ops, amt, avg, n) < RiskScore(ops, amt', avg, n')
  {
    var z := W_RATIO * (amt / avg) + W_VELOCITY * n as real + BIAS;
    var z' := W_RATIO * (amt' / avg) + W_VELOCITY * n' as real + BIAS;
    SharesGrow(amt, amt', avg);
    assert z <= z' && (amt < amt' || n < n' ==> z < z');
    ReciprocalFalls(1.0 + ops.exp(-z'), 1.0 + ops.exp(-z));
  }

  lemma SharesGrow(a: real, b: real, avg: real)
    requires avg > 0.0 && a <= b
    ensures a / avg <= b / avg && (a < b ==> a / avg < b / avg)
  {
    assert (a / avg) * avg == a && (b / avg) * avg == b;
  }

  // --- The mergeable aggregate -----------------------------------------------------

  datatype Partial = Partial(sum: real, count: nat)

  type State = map<int, Partial>

  /** Folds one transaction into a partial state. */
  function Accumulate(st: State, t: Txn): State {
    var prior := if t.acct in st then st[t.acct] else Partial(0.0, 0);
    st[t.acct := Partial(prior.sum + t.amt, prior.count + 1)]
  }

  /** The partial aggregate of one shard. */
  function PartialOf(rows: seq<Txn>): State {
    if rows == [] then map[] else Accumulate(PartialOf(rows[..|rows| - 1]), rows[|rows| - 1])
  }

  /** Merges two partial aggregates. */
  function Combine(a: State, b: State): State {
    map acct | acct in a.Keys + b.Keys :: CombineAt(a, b, acct)
  }

  function CombineAt(a: State, b: State, acct: int): Partial
    requires acct in a || acct in b
  {
    if acct !in b then a[acct]
    else if acct !in a then b[acct]
    else Partial(a[acct].sum + b[acct].sum, a[acct].count + b[acct].count)
  }

  /** Any way of sharding the input and any order of merging the partials. */
  datatype MergeTree = Shard(rows: seq<Txn>) | Merge(left: MergeTree, right: MergeTree)

  function RowsOf(tree: MergeTree): seq<Txn> {
    match tree
    case Shard(rows) => rows
    case Merge(l, r) => RowsOf(l) + RowsOf(r)
  }

  function Aggregate(tree: MergeTree): State {
    match tree
    case Shard(rows) => PartialOf(rows)
    case Merge(l, r) => Combine(Aggregate(l), Aggregate(r))
  }

  /** The transactions of one account, in row order. */
  function Group(rows: seq<Txn>, acct: int): seq<Txn> {
    if rows == [] then []
    else
      var n := |rows| - 1;
      Group(rows[..n], acct) + if rows[n].acct == acct then [rows[n]] else []
  }

  function SumAmt(rows: seq<Txn>): real {
    if rows == [] then 0.0 else SumAmt(rows[..|rows| - 1]) + rows[|rows| - 1].amt
  }

  ghost function Accounts(rows: seq<Txn>): set<int> {
    set i | 0 <= i < |rows| :: rows[i].acct
  }

  /** One account's sum and count, read off its transactions. */
  ghost function Tally(rows: seq<Txn>, acct: int): Partial {
    Partial(SumAmt(Group(rows, acct)), |Group(rows, acct)|)
  }

  /** A partial state that holds exactly the sums and counts of `rows`. */
  ghost predicate Summarizes(st: State, rows: seq<Txn>) {
    && st.Keys == Accounts(rows)
    && forall acct | acct in st :: st[acct] == Tally(rows, acct)
  }

  lemma AccountsSnoc(rows: seq<Txn>)
    requires rows != []
    ensures Accounts(rows) == Accounts(rows[..|rows| - 1]) + {rows[|rows| - 1].acct}
  {
    var n := |rows| - 1;
    forall a | a in Accounts(rows) ensures a in Accounts(rows[..n]) + {rows[n].acct} {
      var i :| 0 <= i < |rows| && rows[i].acct == a;
      assert i < n ==> rows[..n][i].acct == a;
    }
    forall a | a in Accounts(rows[..n]) + {rows[n].acct} ensures a in Accounts(rows) {
      if a in Accounts(rows[..n]) {
        var i :| 0 <= i < n && rows[..n][i].acct == a;
        assert rows[i].acct == a;
      }
    }
  }

  lemma {:induction false} GroupEmpty(rows: seq<Txn>, acct: int)
    ensures Group(rows, acct) == [] <==> acct !in Accounts(rows)
  {
    if rows != [] {
      AccountsSnoc(rows);
      GroupEmpty(rows[..|rows| - 1], acct);
    }
  }

  lemma {:induction false} PartialSummarizes(rows: seq<Txn>)
    ensures Summarizes(PartialOf(rows), rows)
  {
    if rows != [] {
      var n := |rows| - 1;
      PartialSummarizes(rows[..n]);
      AccountsSnoc(rows);
      var before, st := PartialOf(rows[..n]), PartialOf(rows);
      forall acct | acct in st
        ensures st[acct] == Tally(rows, acct)
      {
        GroupEmpty(rows[..n], acct);
        GroupSnoc(rows, acct);
      }
    }
  }

  lemma GroupSnoc(rows: seq<Txn>, acct: int)
    requires rows != []
    ensures
      var n := |rows| - 1;
      var before := Group(rows[..n], acct);
      && |Group(rows, acct)| == |before| + (if rows[n].acct == acct then 1 else 0)
      && SumAmt(Group(rows, acct)) == SumAmt(before) + (if rows[n].acct == acct then rows[n].amt else 0.0)
  {
    var n := |rows| - 1;
    var before, after := Group(rows[..n], acct), Group(rows, acct);
    if rows[n].acct == acct {
      assert after[..|after| - 1] == before;
    } else {
      assert after == before;
    }
  }

  lemma {:induction false} SumConcat(a: seq<Txn>, b: seq<Txn>)
    ensures SumAmt(a + b) == SumAmt(a) + SumAmt(b)
  {
    if b == [] {
      assert a + b == a;
    } else {
      var n := |b| - 1;
      assert (a + b)[..|a + b| - 1] == a + b[..n];
      SumConcat(a, b[..n]);
    }
  }

  lemma {:induction false} GroupConcat(a: seq<Txn>, b: seq<Txn>, acct: int)
    ensures Group(a + b, acct) == Group(a, acct) + Group(b, acct)
  {
    if b == [] {
      assert a + b == a;
    } else {
      var n := |b| - 1;
      assert (a + b)[..|a + b| - 1] == a + b[..n];
      GroupConcat(a, b[..n], acct);
    }
  }

  lemma AccountsConcat(a: seq<Txn>, b: seq<Txn>)
    ensures Accounts(a + b) == Accounts(a) + Accounts(b)
  {
    forall x | x in Accounts(a) + Accounts(b) ensures x in Accounts(a + b) {
      if x in Accounts(a) {
        var i :| 0 <= i < |a| && a[i].acct == x;
        assert (a + b)[i].acct == x;
      } else {
        var i :| 0 <= i < |b| && b[i].acct == x;
        assert (a + b)[|a| + i].acct == x;
      }
    }
  }

  lemma CombineSummarizes(x: State, a: seq<Txn>, y: State, b: seq<Txn>)
    requires Summarizes(x, a) && Summarizes(y, b)
    ensures Summarizes(Combine(x, y), a + b)
  {
    AccountsConcat(a, b);
    var st := Combine(x, y);
    forall acct | acct in st ensures st[acct] == Tally(a + b, acct) {
      assert st[acct] == CombineAt(x, y, acct);
      CombineAtTally(x, a, y, b, acct);
    }
  }

  lemma CombineAtTally(x: State, a: seq<Txn>, y: State, b: seq<Txn>, acct: int)
    requires Summarizes(x, a) && Summarizes(y, b) && (acct in x || acct in y)
    ensures CombineAt(x, y, acct) == Tally(a + b, acct)
  {
    TallyConcat(a, b, acct);
    TallyAbsent(a, acct);
    TallyAbsent(b, acct);
  }

  lemma TallyConcat(a: seq<Txn>, b: seq<Txn>, acct: int)
    ensures Tally(a + b, acct) ==
      Partial(Tally(a, acct).sum + Tally(b, acct).sum, Tally(a, acct).count + Tally(b, acct).count)
  {
    GroupConcat(a, b, acct);
    SumConcat(Group(a, acct), Group(b, acct));
  }

  lemma TallyAbsent(rows: seq<Txn>, acct: int)
    ensures acct !in Accounts(rows) ==> Tally(rows, acct) == Partial(0.0, 0)
  {
    GroupEmpty(rows, acct);
  }

  lemma {:induction false} AggregateSummarizes(tree: MergeTree)
    ensures Summarizes(Aggregate(tree), RowsOf(tree))
  {
    match tree
    case Shard(rows) => PartialSummarizes(rows);
    case Merge(l, r) =>
      AggregateSummarizes(l);
      AggregateSummarizes(r);
      CombineSummarizes(Aggregate(l), RowsOf(l), Aggregate(r), RowsOf(r));
  }

  // --- Row order does not matter ---------------------------------------------------

  lemma {:induction false} GroupCount(rows: seq<Txn>, acct: int, t: Txn)
    ensures multiset(Group(rows, acct))[t] == if t.acct == acct then multiset(rows)[t] else 0
  {
    if rows != [] {
      var n := |rows| - 1;
      GroupCount(rows[..n], acct, t);
      assert rows == rows[..n] + [rows[n]];
    }
  }

  lemma GroupPermuted(a: seq<Txn>, b: seq<Txn>, acct: int)
    requires multiset(a) == multiset(b)
    ensures multiset(Group(a, acct)) == multiset(Group(b, acct))
  {
    var x, y := multiset(Group(a, acct)), multiset(Group(b, acct));
    forall t ensures x[t] == y[t] {
      GroupCount(a, acct, t);
      GroupCount(b, acct, t);
    }
  }

  lemma {:induction false} SumIsTotal(s: seq<Txn>)
    ensures SumAmt(s) == Total((t: Txn) => t.amt, s)
  {
    if s != [] {
      SumIsTotal(s[1..]);
      SumConcat(s[..1], s[1..]);
      assert s[..1] + s[1..] == s;
      assert s[..1][..0] == [];
    }
  }

  lemma SumPermuted(a: seq<Txn>, b: seq<Txn>)
    requires multiset(a) == multiset(b)
    ensures SumAmt(a) == SumAmt(b) && |a| == |b|
  {
    SumIsTotal(a);
    SumIsTotal(b);
    TotalPermuted((t: Txn) => t.amt, a, b);
  }

  lemma AccountsPermuted(a: seq<Txn>, b: seq<Txn>)
    requires multiset(a) == multiset(b)
    ensures Accounts(a) <= Accounts(b)
  {
    forall x | x in Accounts(a) ensures x in Accounts(b) {
      var i :| 0 <= i < |a| && a[i].acct == x;
      assert a[i] in multiset(b);
      var j :| 0 <= j < |b| && b[j] == a[i];
    }
  }

  /** Two partial states that summarize the same rows in different orders are equal. */
  lemma SummaryUnique(x: State, a: seq<Txn>, y: State, b: seq<Txn>)
    requires Summarizes(x, a) && Summarizes(y, b) && multiset(a) == multiset(b)
    ensures x == y
  {
    AccountsPermuted(a, b);
    AccountsPermuted(b, a);
    forall acct | acct in x ensures x[acct] == y[acct] {
      GroupPermuted(a, b, acct);
      SumPermuted(Group(a, acct), Group(b, acct));
    }
  }

  /** One operator at every scale: however the rows are ordered, sharded and merged, the
      aggregate is the one a single pass computes. */
  lemma AggregateScaleFree(tree: MergeTree, rows: seq<Txn>)
    requires multiset(RowsOf(tree)) == multiset(rows)
    ensures Aggregate(tree) == PartialOf(rows)
  {
    AggregateSummarizes(tree);
    PartialSummarizes(rows);
    SummaryUnique(Aggregate(tree), RowsOf(tree), PartialOf(rows), rows);
  }

  // --- The two pipelines -----------------------------------------------------------

  /** A listing of a set of accounts, each once, in any order. */
  ghost predicate Lists(order: seq<int>, accts: set<int>) {
    && (forall i, j | 0 <= i < j < |order| :: order[i] != order[j])
    && (forall i | 0 <= i < |order| :: order[i] in accts)
    && (forall a | a in accts :: a in order)
  }

  /** The finalized feature table: one row an account, in the order given. */
  function Features(ops: Arith, st: State, order: seq<int>): (r: seq<StatRow>)
    requires forall i | 0 <= i < |order| :: order[i] in st
    ensures |r| == |order|
    ensures forall i | 0 <= i < |r| ::
      r[i] == StatRow(order[i], ops.div(st[order[i]].sum, st[order[i]].count as real), st[order[i]].count)
  {
    if order == [] then []
    else
      var p := st[order[0]];
      [StatRow(order[0], ops.div(p.sum, p.count as real), p.count)] + Features(ops, st, order[1..])
  }

  /** The stat rows that match `t` on the join key, each scored. */
  function Matches(ops: Arith, t: Txn, stats: seq<StatRow>): seq<Scored> {
    if stats == [] then []
    else
      (if stats[0].acct == t.acct then [Scored(t.acct, t.amt, RiskScore(ops, t.amt, stats[0].avg, stats[0].n))] else [])
      + Matches(ops, t, stats[1..])
  }

  /** Inner join on the account, then the derived score column and the projection. */
  function JoinAndScore(ops: Arith, rows: seq<Txn>, stats: seq<StatRow>): seq<Scored> {
    if rows == [] then [] else Matches(ops, rows[0], stats) + JoinAndScore(ops, rows[1..], stats)
  }

  /** `batcher_pipeline` over a sharded input. */
  function BatcherPipeline(ops: Arith, tree: MergeTree, order: seq<int>): seq<Scored>
    requires forall i | 0 <= i < |order| :: order[i] in Aggregate(tree)
  {
    JoinAndScore(ops, RowsOf(tree), Features(ops, Aggregate(tree), order))
  }

  /** `_score_group` on one account's rows. */
  function ScoreGroup(ops: Arith, group: seq<Txn>, avg: real, n: nat): seq<Scored> {
    if group == [] then []
    else
      [Scored(group[0].acct, group[0].amt, RiskScore(ops, group[0].amt, avg, n))]
      + ScoreGroup(ops, group[1..], avg, n)
  }

  /** `ray_dataset`: group by account, then map each group on its own. */
  function RayPipeline(ops: Arith, rows: seq<Txn>, order: seq<int>): seq<Scored> {
    if order == [] then []
    else
      var g := Group(rows, order[0]);
      ScoreGroup(ops, g, ops.div(SumAmt(g), |g| as real), |g|) + RayPipeline(ops, rows, order[1..])
  }

  /** The score a transaction has in the context of all rows. */
  ghost function ScoreIn(ops: Arith, rows: seq<Txn>): Txn -> Scored {
    (t: Txn) =>
      var g := Group(rows, t.acct);
      Scored(t.acct, t.amt, RiskScore(ops, t.amt, ops.div(SumAmt(g), |g| as real), |g|))
  }

  lemma {:induction false} NoMatch(ops: Arith, t: Txn, stats: seq<StatRow>)
    requires forall i | 0 <= i < |stats| :: stats[i].acct != t.acct
    ensures Matches(ops, t, stats) == []
  {
    if stats != [] {
      NoMatch(ops, t, stats[1..]);
    }
  }

  lemma {:induction false} OneMatch(ops: Arith, t: Txn, stats: seq<StatRow>, k: nat)
    requires k < |stats| && stats[k].acct == t.acct
    requires forall i | 0 <= i < |stats| && i != k :: stats[i].acct != t.acct
    ensures Matches(ops, t, stats) == [Scored(t.acct, t.amt, RiskScore(ops, t.amt, stats[k].avg, stats[k].n))]
  {
    if k == 0 {
      NoMatch(ops, t, stats[1..]);
    } else {
      OneMatch(ops, t, stats[1..], k - 1);
    }
  }

  /** The join finds each transaction its own account's features and nothing else, so
      the pipeline is a map over the rows. */
  lemma {:induction false} JoinIsMap(ops: Arith, all: seq<Txn>, rows: seq<Txn>, st: State, order: seq<int>)
    requires Summarizes(st, all) && Lists(order, st.Keys)
    requires forall i | 0 <= i < |rows| :: rows[i].acct in st
    requires forall i | 0 <= i < |order| :: order[i] in st
    ensures JoinAndScore(ops, rows, Features(ops, st, order)) == MapSeq(ScoreIn(ops, all), rows)
  {
    if rows != [] {
      JoinIsMap(ops, all, rows[1..], st, order);
      assert rows[0].acct in order;
      var k :| 0 <= k < |order| && order[k] == rows[0].acct;
      OneMatch(ops, rows[0], Features(ops, st, order), k);
    }
  }

  lemma ScoreInPermuted(ops: Arith, a: seq<Txn>, b: seq<Txn>, s: seq<Txn>)
    requires multiset(a) == multiset(b)
    ensures MapSeq(ScoreIn(ops, a), s) == MapSeq(ScoreIn(ops, b), s)
  {
    forall i | 0 <= i < |s| ensures ScoreIn(ops, a)(s[i]) == ScoreIn(ops, b)(s[i]) {
      GroupPermuted(a, b, s[i].acct);
      SumPermuted(Group(a, s[i].acct), Group(b, s[i].acct));
    }
  }

  lemma {:induction false} ScoreGroupIsMap(ops: Arith, rows: seq<Txn>, acct: int, part: seq<Txn>)
    requires forall i | 0 <= i < |part| :: part[i].acct == acct
    ensures
      var g := Group(rows, acct);
      ScoreGroup(ops, part, ops.div(SumAmt(g), |g| as real), |g|) == MapSeq(ScoreIn(ops, rows), part)
  {
    if part != [] {
      ScoreGroupIsMap(ops, rows, acct, part[1..]);
    }
  }

  lemma {:induction false} GroupOwn(rows: seq<Txn>, acct: int)
    ensures forall i | 0 <= i < |Group(rows, acct)| :: Group(rows, acct)[i].acct == acct
  {
    if rows != [] {
      GroupOwn(rows[..|rows| - 1], acct);
    }
  }

  /** All the groups, one after another. */
  ghost function Groups(rows: seq<Txn>, order: seq<int>): seq<Txn> {
    if order == [] then [] else Group(rows, order[0]) + Groups(rows, order[1..])
  }

  lemma MapConcat<A, B>(f: A -> B, a: seq<A>, b: seq<A>)
    ensures MapSeq(f, a + b) == MapSeq(f, a) + MapSeq(f, b)
  {
  }

  lemma {:induction false} RayIsMap(ops: Arith, rows: seq<Txn>, order: seq<int>)
    ensures RayPipeline(ops, rows, order) == MapSeq(ScoreIn(ops, rows), Groups(rows, order))
  {
    if order != [] {
      GroupOwn(rows, order[0]);
      ScoreGroupIsMap(ops, rows, order[0], Group(rows, order[0]));
      RayIsMap(ops, rows, order[1..]);
      MapConcat(ScoreIn(ops, rows), Group(rows, order[0]), Groups(rows, order[1..]));
    }
  }

  lemma {:induction false} GroupsCount(rows: seq<Txn>, order: seq<int>, t: Txn)
    requires forall i, j | 0 <= i < j < |order| :: order[i] != order[j]
    ensures multiset(Groups(rows, order))[t] == if t.acct in order then multiset(rows)[t] else 0
  {
    if order != [] {
      GroupCount(rows, order[0], t);
      GroupsCount(rows, order[1..], t);
      assert order == [order[0]] + order[1..];
      assert t.acct in order <==> t.acct == order[0] || t.acct in order[1..];
    }
  }

  /** Grouping loses no transaction and duplicates none. */
  lemma GroupsPartition(rows: seq<Txn>, order: seq<int>)
    requires Lists(order, Accounts(rows))
    ensures multiset(Groups(rows, order)) == multiset(rows)
  {
    forall t ensures multiset(Groups(rows, order))[t] == multiset(rows)[t] {
      GroupsCount(rows, order, t);
      if t in multiset(rows) {
        var i :| 0 <= i < |rows| && rows[i] == t;
        assert t.acct in Accounts(rows);
      }
    }
  }

  lemma BatcherIsMap(ops: Arith, tree: MergeTree, order: seq<int>)
    requires Lists(order, Aggregate(tree).Keys)
    ensures BatcherPipeline(ops, tree, order) == MapSeq(ScoreIn(ops, RowsOf(tree)), RowsOf(tree))
  {
    AggregateSummarizes(tree);
    JoinIsMap(ops, RowsOf(tree), RowsOf(tree), Aggregate(tree), order);
  }

  /** The enrich pipeline means what the per-account map means. For every set of
      transactions, however it is ordered and sharded on either side, however partials
      are merged and groups enumerated, the two results are one multiset of rows, with
      one row a transaction. */
  lemma PipelinesAgree(ops: Arith, tree: MergeTree, order: seq<int>, rows: seq<Txn>, order': seq<int>)
    requires multiset(RowsOf(tree)) == multiset(rows)
    requires Lists(order, Aggregate(tree).Keys) && Lists(order', Accounts(rows))
    ensures multiset(BatcherPipeline(ops, tree, order)) == multiset(RayPipeline(ops, rows, order'))
    ensures |BatcherPipeline(ops, tree, order)| == |rows|
  {
    var mine := RowsOf(tree);
    BatcherIsMap(ops, tree, order);
    RayIsMap(ops, rows, order');
    ScoreInPermuted(ops, mine, rows, mine);
    GroupsPartition(rows, order');
    MapPermuted(ScoreIn(ops, rows), mine, Groups(rows, order'));
    assert |mine| == |multiset(mine)| == |rows|;
  }

  // --- The agreement gate ----------------------------------------------------------

  /** `_key_scores`: keyed by account and rounded amount; a later row replaces an
      earlier one with its key. */
  function KeyScores(round2: real -> real, t: seq<Scored>): map<(int, real), real> {
    if t == [] then map[]
    else
      var last := t[|t| - 1];
      KeyScores(round2, t[..|t| - 1])[(last.acct, round2(last.amt)) := last.score]
  }

  /** Rows that share a key share a score. */
  ghost predicate Functional(round2: real -> real, t: seq<Scored>) {
    forall i, j | 0 <= i < |t| && 0 <= j < |t| && t[i].acct == t[j].acct && round2(t[i].amt) == round2(t[j].amt) ::
      t[i].score == t[j].score
  }

  function KeyOf(round2: real -> real, s: Scored): (int, real) {
    (s.acct, round2(s.amt))
  }

  lemma {:induction false} KeyScoresKeys(round2: real -> real, t: seq<Scored>, key: (int, real))
    ensures key in KeyScores(round2, t) <==> exists i | 0 <= i < |t| :: KeyOf(round2, t[i]) == key
  {
    if t != [] {
      var n := |t| - 1;
      KeyScoresKeys(round2, t[..n], key);
      if exists i | 0 <= i < |t| :: KeyOf(round2, t[i]) == key {
        var i :| 0 <= i < |t| && KeyOf(round2, t[i]) == key;
        assert i < n ==> KeyOf(round2, t[..n][i]) == key;
      }
      if exists i | 0 <= i < n :: KeyOf(round2, t[..n][i]) == key {
        var i :| 0 <= i < n && KeyOf(round2, t[..n][i]) == key;
        assert KeyOf(round2, t[i]) == key;
      }
    }
  }

  lemma {:induction false} KeyScoresValue(round2: real -> real, t: seq<Scored>, i: nat)
    requires Functional(round2, t) && i < |t|
    ensures KeyOf(round2, t[i]) in KeyScores(round2, t)
    ensures KeyScores(round2, t)[KeyOf(round2, t[i])] == t[i].score
  {
    var n := |t| - 1;
    if i < n {
      KeyScoresValue(round2, t[..n], i);
    }
  }

  lemma FunctionalPermuted(round2: real -> real, t: seq<Scored>, t': seq<Scored>)
    requires Functional(round2, t) && multiset(t) == multiset(t')
    ensures Functional(round2, t') && KeyScores(round2, t) == KeyScores(round2, t')
  {
    forall i | 0 <= i < |t'| ensures t'[i] in t {
      assert t'[i] in multiset(t);
    }
    forall i | 0 <= i < |t| ensures t[i] in t' {
      assert t[i] in multiset(t');
    }
    var m, m' := KeyScores(round2, t), KeyScores(round2, t');
    forall key ensures key in m <==> key in m' {
      KeyScoresKeys(round2, t, key);
      KeyScoresKeys(round2, t', key);
    }
    forall key | key in m ensures m[key] == m'[key] {
      KeyScoresKeys(round2, t, key);
      var i :| 0 <= i < |t| && KeyOf(round2, t[i]) == key;
      var j :| 0 <= j < |t'| && t'[j] == t[i];
      KeyScoresValue(round2, t, i);
      KeyScoresValue(round2, t', j);
    }
  }

  function MoveLast<T>(s: seq<T>, j: nat): (r: seq<T>)
    requires j < |s|
    ensures |r| == |s|
  {
    RemoveAt(s, j) + [s[j]]
  }

  lemma LastWins(round2: real -> real, t: seq<Scored>, j: nat)
    requires j < |t|
    ensures multiset(MoveLast(t, j)) == multiset(t)
    ensures KeyOf(round2, t[j]) in KeyScores(round2, MoveLast(t, j))
    ensures KeyScores(round2, MoveLast(t, j))[KeyOf(round2, t[j])] == t[j].score
  {
    RemoveAtMultiset(t, j);
    var moved := MoveLast(t, j);
    assert moved[|moved| - 1] == t[j];
  }

  /** The comparison map is a property of the rows, and not of their order, exactly when
      no two rows share a key and differ in score. */
  lemma KeyScoresOrderFree(round2: real -> real, t: seq<Scored>)
    ensures Functional(round2, t) <==>
      forall t': seq<Scored> | multiset(t') == multiset(t) :: KeyScores(round2, t') == KeyScores(round2, t)
  {
    if Functional(round2, t) {
      forall t': seq<Scored> | multiset(t') == multiset(t)
        ensures KeyScores(round2, t') == KeyScores(round2, t)
      {
        FunctionalPermuted(round2, t, t');
      }
    } else {
      var i, j :| 0 <= i < |t| && 0 <= j < |t| && t[i].acct == t[j].acct
        && round2(t[i].amt) == round2(t[j].amt) && t[i].score != t[j].score;
      LastWins(round2, t, i);
      LastWins(round2, t, j);
      assert KeyScores(round2, MoveLast(t, i)) != KeyScores(round2, MoveLast(t, j));
    }
  }

  datatype Verdict = NoComparableRows | ScoresDiverge | ScoresAgree(rows: nat)

  function Abs(x: real): (r: real)
    ensures r >= 0.0 && (r == x || r == -x)
  {
    if x < 0.0 then -x else x
  }

  /** The correctness gate of `main`. */
  function Gate(bs: map<(int, real), real>, rs: map<(int, real), real>): Verdict {
    var common := set k | k in bs && k in rs;
    if common == {} then NoComparableRows
    else if exists k | k in common :: Abs(bs[k] - rs[k]) > TOLERANCE then ScoresDiverge
    else ScoresAgree(|common|)
  }

  lemma {:induction false} MappedFunctional(round2: real -> real, ops: Arith, all: seq<Txn>, rows: seq<Txn>)
    requires forall i | 0 <= i < |rows| :: round2(rows[i].amt) == rows[i].amt
    ensures Functional(round2, MapSeq(ScoreIn(ops, all), rows))
  {
    var t := MapSeq(ScoreIn(ops, all), rows);
    forall i, j | 0 <= i < |t| && 0 <= j < |t| && t[i].acct == t[j].acct && round2(t[i].amt) == round2(t[j].amt)
      ensures t[i].score == t[j].score
    {
      assert t[i] == ScoreIn(ops, all)(rows[i]) && t[j] == ScoreIn(ops, all)(rows[j]);
      assert rows[i].amt == rows[j].amt;
    }
  }

  /** On amounts already rounded to cents, the gate compares every key and accepts: the
      two engines' maps are equal for every input that has a row. */
  lemma {:induction false} GateAccepts(
    round2: real -> real, ops: Arith, tree: MergeTree, order: seq<int>, rows: seq<Txn>, order': seq<int>)
    requires multiset(RowsOf(tree)) == multiset(rows) && rows != []
    requires Lists(order, Aggregate(tree).Keys) && Lists(order', Accounts(rows))
    requires forall i | 0 <= i < |RowsOf(tree)| :: round2(RowsOf(tree)[i].amt) == RowsOf(tree)[i].amt
    ensures
      var bs := KeyScores(round2, BatcherPipeline(ops, tree, order));
      var rs := KeyScores(round2, RayPipeline(ops, rows, order'));
      bs == rs && Gate(bs, rs) == ScoresAgree(|bs.Keys|)
  {
    var mine, theirs := BatcherPipeline(ops, tree, order), RayPipeline(ops, rows, order');
    PipelinesAgree(ops, tree, order, rows, order');
    BatcherIsMap(ops, tree, order);
    MappedFunctional(round2, ops, RowsOf(tree), RowsOf(tree));
    FunctionalPermuted(round2, mine, theirs);
    KeyScoresValue(round2, mine, 0);
    GateSelf(KeyScores(round2, mine));
  }

  lemma GateSelf(bs: map<(int, real), real>)
    requires bs != map[]
    ensures Gate(bs, bs) == ScoresAgree(|bs.Keys|)
  {
    assert (set k | k in bs && k in bs) == bs.Keys;
  }

  // --- What the gate accepts -------------------------------------------------------

  /** Scores that share a key lie within the gate's tolerance. */
  ghost predicate NearlyFunctional(round2: real -> real, t: seq<Scored>) {
    forall i, j | 0 <= i < |t| && 0 <= j < |t| && KeyOf(round2, t[i]) == KeyOf(round2, t[j]) ::
      Abs(t[i].score - t[j].score) <= TOLERANCE
  }

  /** The value at a key is the score of the last row that has it. */
  lemma {:induction false} KeyScoresFrom(round2: real -> real, t: seq<Scored>, key: (int, real)) returns (i: nat)
    requires key in KeyScores(round2, t)
    ensures i < |t| && KeyOf(round2, t[i]) == key && KeyScores(round2, t)[key] == t[i].score
  {
    var n := |t| - 1;
    if KeyOf(round2, t[n]) == key {
      i := n;
    } else {
      i := KeyScoresFrom(round2, t[..n], key);
    }
  }

  lemma SameRows(t: seq<Scored>, a: seq<Scored>, i: nat) returns (k: nat)
    requires multiset(a) == multiset(t) && i < |a|
    ensures k < |t| && t[k] == a[i]
  {
    assert a[i] in multiset(t);
    k :| 0 <= k < |t| && t[k] == a[i];
  }

  /** Two readings of one nearly functional table pass. */
  lemma NearlyAccepted(round2: real -> real, t: seq<Scored>, a: seq<Scored>, b: seq<Scored>)
    requires NearlyFunctional(round2, t) && multiset(a) == multiset(t) && multiset(b) == multiset(t) && t != []
    ensures Gate(KeyScores(round2, a), KeyScores(round2, b)).ScoresAgree?
  {
    var bs, rs := KeyScores(round2, a), KeyScores(round2, b);
    assert |a| == |multiset(a)| == |multiset(t)| == |multiset(b)| == |b|;
    KeyScoresKeys(round2, a, KeyOf(round2, a[0]));
    var k := SameRows(b, a, 0);
    KeyScoresKeys(round2, b, KeyOf(round2, b[k]));
    var common := set key | key in bs && key in rs;
    assert KeyOf(round2, a[0]) in common;
    forall key | key in common ensures Abs(bs[key] - rs[key]) <= TOLERANCE {
      var i := KeyScoresFrom(round2, a, key);
      var j := KeyScoresFrom(round2, b, key);
      var i' := SameRows(t, a, i);
      var j' := SameRows(t, b, j);
    }
  }

  lemma Diverges(bs: map<(int, real), real>, rs: map<(int, real), real>, key: (int, real))
    requires key in bs && key in rs && Abs(bs[key] - rs[key]) > TOLERANCE
    ensures Gate(bs, rs) == ScoresDiverge
  {
    var common := set k | k in bs && k in rs;
    assert key in common;
  }

  /** The gate accepts a table against itself under every two row orders if and only if
      scores that share a rounded key lie within the tolerance. */
  lemma GateExactly(round2: real -> real, t: seq<Scored>)
    requires t != []
    ensures NearlyFunctional(round2, t) <==>
      forall a, b: seq<Scored> | multiset(a) == multiset(t) && multiset(b) == multiset(t) ::
        Gate(KeyScores(round2, a), KeyScores(round2, b)).ScoresAgree?
  {
    if NearlyFunctional(round2, t) {
      forall a, b: seq<Scored> | multiset(a) == multiset(t) && multiset(b) == multiset(t)
        ensures Gate(KeyScores(round2, a), KeyScores(round2, b)).ScoresAgree?
      {
        NearlyAccepted(round2, t, a, b);
      }
    } else {
      var i, j := NotNearly(round2, t);
      LastWins(round2, t, i);
      LastWins(round2, t, j);
      Diverges(KeyScores(round2, MoveLast(t, i)), KeyScores(round2, MoveLast(t, j)), KeyOf(round2, t[i]));
    }
  }

  // --- The gate on the two pipelines -----------------------------------------------

  lemma {:induction false} KeyScoresConcat(round2: real -> real, a: seq<Scored>, b: seq<Scored>, key: (int, real))
    requires key in KeyScores(round2, a) || key in KeyScores(round2, b)
    ensures key in KeyScores(round2, a + b)
    ensures KeyScores(round2, a + b)[key]
         == if key in KeyScores(round2, b) then KeyScores(round2, b)[key] else KeyScores(round2, a)[key]
    decreases |b|
  {
    if b == [] {
      assert a + b == a;
    } else {
      var n := |b| - 1;
      assert (a + b)[..|a| + n] == a + b[..n] && (a + b)[|a| + n] == b[n];
      if KeyOf(round2, b[n]) != key {
        KeyScoresConcat(round2, a, b[..n], key);
      }
    }
  }

  lemma {:induction false} GroupEndsWith(rows: seq<Txn>, t: Txn)
    ensures Group(rows + [t], t.acct) == Group(rows, t.acct) + [t]
  {
    GroupConcat(rows, [t], t.acct);
    assert [t][1..] == [] && Group([t], t.acct) == [t] + Group([t][1..], t.acct);
  }

  /** Whatever order the groups come in, the last transaction of an account decides its
      key. */
  lemma {:induction false} GroupsLast(round2: real -> real, f: Txn -> Scored, rows: seq<Txn>, t: Txn, order: seq<int>)
    requires forall u: Txn :: f(u).acct == u.acct
    requires t.acct in order && forall i, j | 0 <= i < j < |order| :: order[i] != order[j]
    ensures
      var m := KeyScores(round2, MapSeq(f, Groups(rows + [t], order)));
      KeyOf(round2, f(t)) in m && m[KeyOf(round2, f(t))] == f(t).score
  {
    var all, key := rows + [t], KeyOf(round2, f(t));
    var g, rest := Group(all, order[0]), Groups(all, order[1..]);
    MapConcat(f, g, rest);
    GroupOwn(all, order[0]);
    if order[0] == t.acct {
      GroupEndsWith(rows, t);
      EndsWith(round2, f, Group(rows, t.acct), t);
      NotInGroups(round2, f, all, order[1..], key);
    } else {
      GroupsLast(round2, f, rows, t, order[1..]);
    }
    KeyScoresConcat(round2, MapSeq(f, g), MapSeq(f, rest), key);
  }

  lemma EndsWith(round2: real -> real, f: Txn -> Scored, g: seq<Txn>, t: Txn)
    ensures
      var m := KeyScores(round2, MapSeq(f, g + [t]));
      KeyOf(round2, f(t)) in m && m[KeyOf(round2, f(t))] == f(t).score
  {
    var scored := MapSeq(f, g + [t]);
    assert scored[|scored| - 1] == f(t);
  }

  lemma {:induction false} NotInGroups(
    round2: real -> real, f: Txn -> Scored, rows: seq<Txn>, order: seq<int>, key: (int, real))
    requires (forall u: Txn :: f(u).acct == u.acct) && key.0 !in order
    ensures key !in KeyScores(round2, MapSeq(f, Groups(rows, order)))
  {
    var s := Groups(rows, order);
    KeyScoresKeys(round2, MapSeq(f, s), key);
    GroupsOwn(rows, order);
  }

  lemma {:induction false} GroupsOwn(rows: seq<Txn>, order: seq<int>)
    ensures forall i | 0 <= i < |Groups(rows, order)| :: Groups(rows, order)[i].acct in order
  {
    if order != [] {
      GroupOwn(rows, order[0]);
      GroupsOwn(rows, order[1..]);
    }
  }

  /** The two sides of one comparison: a sharding of the transactions for one pipeline, and
      an order of them for the other, with the accounts enumerated somehow on each side. */
  datatype Comparison = Comparison(tree: MergeTree, order: seq<int>, rows: seq<Txn>, order': seq<int>)

  ghost predicate Compares(c: Comparison, rows: seq<Txn>) {
    && multiset(RowsOf(c.tree)) == multiset(rows) && multiset(c.rows) == multiset(rows)
    && Lists(c.order, Aggregate(c.tree).Keys) && Lists(c.order', Accounts(c.rows))
  }

  function Compared(round2: real -> real, ops: Arith, c: Comparison): Verdict
    requires forall i | 0 <= i < |c.order| :: c.order[i] in Aggregate(c.tree)
  {
    Gate(KeyScores(round2, BatcherPipeline(ops, c.tree, c.order)),
         KeyScores(round2, RayPipeline(ops, c.rows, c.order')))
  }

  ghost function ScoredRows(ops: Arith, rows: seq<Txn>): seq<Scored> {
    MapSeq(ScoreIn(ops, rows), rows)
  }

  /** Both pipelines yield the scored transactions, in some order. */
  lemma ComparedRows(ops: Arith, c: Comparison, rows: seq<Txn>)
    requires Compares(c, rows)
    ensures multiset(BatcherPipeline(ops, c.tree, c.order)) == multiset(ScoredRows(ops, rows))
    ensures multiset(RayPipeline(ops, c.rows, c.order')) == multiset(ScoredRows(ops, rows))
  {
    PipelinesAgree(ops, c.tree, c.order, c.rows, c.order');
    BatcherIsMap(ops, c.tree, c.order);
    ScoreInPermuted(ops, RowsOf(c.tree), rows, RowsOf(c.tree));
    MapPermuted(ScoreIn(ops, rows), RowsOf(c.tree), rows);
  }

  /** Reading transaction `i` last makes its score the one the map keeps. */
  lemma BatcherLast(round2: real -> real, ops: Arith, rows: seq<Txn>, i: nat, tree: MergeTree, order: seq<int>)
    requires i < |rows| && tree == Shard(MoveLast(rows, i)) && Lists(order, Aggregate(tree).Keys)
    ensures
      var bs, f := KeyScores(round2, BatcherPipeline(ops, tree, order)), ScoreIn(ops, rows);
      KeyOf(round2, f(rows[i])) in bs && bs[KeyOf(round2, f(rows[i]))] == f(rows[i]).score
  {
    RemoveAtMultiset(rows, i);
    BatcherIsMap(ops, tree, order);
    ScoreInPermuted(ops, RowsOf(tree), rows, RowsOf(tree));
    var mine := MapSeq(ScoreIn(ops, rows), RowsOf(tree));
    assert RowsOf(tree)[|rows| - 1] == rows[i];
    assert mine[|mine| - 1] == ScoreIn(ops, rows)(rows[i]);
  }

  lemma RayLast(round2: real -> real, ops: Arith, rows: seq<Txn>, j: nat, theirs: seq<Txn>, order: seq<int>)
    requires j < |rows| && theirs == MoveLast(rows, j) && Lists(order, Accounts(theirs))
    ensures
      var rs, f := KeyScores(round2, RayPipeline(ops, theirs, order)), ScoreIn(ops, rows);
      KeyOf(round2, f(rows[j])) in rs && rs[KeyOf(round2, f(rows[j]))] == f(rows[j]).score
  {
    RemoveAtMultiset(rows, j);
    RayIsMap(ops, theirs, order);
    ScoreInPermuted(ops, theirs, rows, Groups(theirs, order));
    assert theirs[|theirs| - 1] == rows[j];
    assert rows[j].acct in Accounts(theirs);
    GroupsLast(round2, ScoreIn(ops, rows), RemoveAt(rows, j), rows[j], order);
  }

  /** Some comparison reads transaction `i` last on one side and `j` last on the other. */
  lemma Arrange(rows: seq<Txn>, i: nat, j: nat) returns (c: Comparison)
    requires i < |rows| && j < |rows|
    ensures Compares(c, rows) && c.tree == Shard(MoveLast(rows, i)) && c.rows == MoveLast(rows, j)
  {
    var tree, theirs := Shard(MoveLast(rows, i)), MoveLast(rows, j);
    RemoveAtMultiset(rows, i);
    RemoveAtMultiset(rows, j);
    var order := Listing(Aggregate(tree).Keys);
    var order' := Listing(Accounts(theirs));
    c := Comparison(tree, order, theirs, order');
  }

  /** It compares their two scores. */
  lemma Adversary(round2: real -> real, ops: Arith, rows: seq<Txn>, i: nat, j: nat, c: Comparison)
    requires i < |rows| && j < |rows| && Compares(c, rows)
    requires c.tree == Shard(MoveLast(rows, i)) && c.rows == MoveLast(rows, j)
    requires FarApart(round2, ScoreIn(ops, rows)(rows[i]), ScoreIn(ops, rows)(rows[j]))
    ensures Compared(round2, ops, c) == ScoresDiverge
  {
    BatcherLast(round2, ops, rows, i, c.tree, c.order);
    RayLast(round2, ops, rows, j, c.rows, c.order');
    PairDiverges(round2, ScoreIn(ops, rows)(rows[i]), ScoreIn(ops, rows)(rows[j]),
                 KeyScores(round2, BatcherPipeline(ops, c.tree, c.order)),
                 KeyScores(round2, RayPipeline(ops, c.rows, c.order')));
  }

  lemma PairDiverges(
    round2: real -> real, a: Scored, b: Scored, bs: map<(int, real), real>, rs: map<(int, real), real>)
    requires FarApart(round2, a, b)
    requires KeyOf(round2, a) in bs && bs[KeyOf(round2, a)] == a.score
    requires KeyOf(round2, b) in rs && rs[KeyOf(round2, b)] == b.score
    ensures Gate(bs, rs) == ScoresDiverge
  {
    Diverges(bs, rs, KeyOf(round2, a));
  }

  /** One key, and scores further apart than the gate lets pass. */
  ghost predicate FarApart(round2: real -> real, a: Scored, b: Scored) {
    KeyOf(round2, a) == KeyOf(round2, b) && Abs(a.score - b.score) > TOLERANCE
  }

  lemma NotNearly(round2: real -> real, t: seq<Scored>) returns (i: nat, j: nat)
    requires !NearlyFunctional(round2, t)
    ensures i < |t| && j < |t| && FarApart(round2, t[i], t[j])
  {
    i, j :| 0 <= i < |t| && 0 <= j < |t| && KeyOf(round2, t[i]) == KeyOf(round2, t[j])
      && !(Abs(t[i].score - t[j].score) <= TOLERANCE);
  }

  ghost predicate AlwaysAccepted(round2: real -> real, ops: Arith, rows: seq<Txn>) {
    forall c: Comparison | Compares(c, rows) :: Compared(round2, ops, c).ScoresAgree?
  }

  /** The gate on the pipelines in full: it accepts however the transactions are ordered,
      sharded and merged on either side if and only if the scores of transactions that share
      an account and a rounded amount lie within the tolerance. */
  lemma PipelineGateExactly(round2: real -> real, ops: Arith, rows: seq<Txn>)
    requires rows != []
    ensures NearlyFunctional(round2, ScoredRows(ops, rows)) <==> AlwaysAccepted(round2, ops, rows)
  {
    if NearlyFunctional(round2, ScoredRows(ops, rows)) {
      forall c: Comparison | Compares(c, rows) ensures Compared(round2, ops, c).ScoresAgree? {
        ComparedRows(ops, c, rows);
        NearlyAccepted(round2, ScoredRows(ops, rows), BatcherPipeline(ops, c.tree, c.order),
                       RayPipeline(ops, c.rows, c.order'));
      }
    } else {
      var i, j := NotNearly(round2, ScoredRows(ops, rows));
      var c := Arrange(rows, i, j);
      Adversary(round2, ops, rows, i, j, c);
      assert !Compared(round2, ops, c).ScoresAgree?;
    }
  }

  /** Amounts that are not rounded to cents break it: two transactions of one account whose
      amounts round alike, and whose scores are further apart than the tolerance, make the
      pipelines' gate refuse under some order, although both compute the same rows. */
  lemma GateRefusesItself(round2: real -> real, ops: Arith, x: real, y: real) returns (c: Comparison)
    requires round2(x) == round2(y)
    requires Abs(RiskScore(ops, x, ops.div(x + y, 2.0), 2) - RiskScore(ops, y, ops.div(x + y, 2.0), 2)) > TOLERANCE
    ensures Compares(c, [Txn(1, x, 0), Txn(1, y, 0)])
    ensures multiset(BatcherPipeline(ops, c.tree, c.order)) == multiset(RayPipeline(ops, c.rows, c.order'))
    ensures Compared(round2, ops, c) == ScoresDiverge
  {
    var rows := [Txn(1, x, 0), Txn(1, y, 0)];
    PairFar(round2, ops, x, y);
    c := Arrange(rows, 0, 1);
    Adversary(round2, ops, rows, 0, 1, c);
    ComparedRows(ops, c, rows);
  }

  lemma PairFar(round2: real -> real, ops: Arith, x: real, y: real)
    requires round2(x) == round2(y)
    requires Abs(RiskScore(ops, x, ops.div(x + y, 2.0), 2) - RiskScore(ops, y, ops.div(x + y, 2.0), 2)) > TOLERANCE
    ensures
      var rows := [Txn(1, x, 0), Txn(1, y, 0)];
      FarApart(round2, ScoreIn(ops, rows)(rows[0]), ScoreIn(ops, rows)(rows[1]))
  {
    PairScores(ops, Txn(1, x, 0), Txn(1, y, 0));
  }

  lemma PairScores(ops: Arith, a: Txn, b: Txn)
    requires a.acct == b.acct
    ensures
      var f, avg := ScoreIn(ops, [a, b]), ops.div(a.amt + b.amt, 2.0);
      && f(a) == Scored(a.acct, a.amt, RiskScore(ops, a.amt, avg, 2))
      && f(b) == Scored(b.acct, b.amt, RiskScore(ops, b.amt, avg, 2))
  {
    PairGroup(a, b);
    PairSum(a, b);
  }

  lemma PairGroup(a: Txn, b: Txn)
    requires a.acct == b.acct
    ensures Group([a, b], a.acct) == [a, b]
  {
    GroupEndsWith([a], b);
    GroupEndsWith([], a);
    assert [a] + [b] == [a, b] && [] + [a] == [a] && Group([], a.acct) == [];
  }

  lemma PairSum(a: Txn, b: Txn)
    ensures SumAmt([a, b]) == a.amt + b.amt
  {
    assert [a, b][1..] == [b] && [b][1..] == [];
    assert SumAmt([b]) == b.amt + SumAmt([]);
  }

  // --- Writing the shards ----------------------------------------------------------

  /** `write_shards`: at most `shards` files of `ceil(n / shards)` rows, in row order. */
  method WriteShards(rows: seq<Txn>, shards: nat) returns (files: seq<seq<Txn>>)
    requires shards > 0
    ensures Flatten(files) == rows && |files| <= shards
    ensures EvenFiles(files, Ceiling(|rows|, shards))
  {
    var n := |rows|;
    var per := Ceiling(n, shards);
    CeilingCovers(n, shards, per);
    files := [];
    var idx := 0;
    for s := 0 to shards
      invariant |files| <= s && idx <= n
      invariant Flatten(files) == rows[..idx] && EvenFiles(files, per)
      invariant idx == n || (idx == s * per && forall i | 0 <= i < |files| :: |files[i]| == per)
    {
      var take := if per < n - idx then per else n - idx;
      if take <= 0 {
        break;
      }
      AppendFile(files, rows, idx, idx + take);
      AppendEven(files, rows[idx..idx + take], per);
      assert (s + 1) * per == s * per + per;
      files := files + [rows[idx..idx + take]];
      idx := idx + take;
    }
    assert rows[..n] == rows;
  }
}
