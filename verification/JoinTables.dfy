/** The H2O join-task generator: the key split, covering samples, and the cardinalities
    they fix for the joins. Random choices are inputs.
 */
module JoinTables {
  import opened Common

  // --- The key split ---------------------------------------------------------------

  /** A permutation of 1..u. */
  ghost predicate IsPermutation(keys: seq<int>, u: nat) {
    && |keys| == u
    && (forall i | 0 <= i < u :: 1 <= keys[i] <= u)
    && forall i, j | 0 <= i < j < u :: keys[i] != keys[j]
  }

  datatype Keys = Keys(shared: seq<int>, leftOnly: seq<int>, rightOnly: seq<int>)

  function Universe(n: nat): nat { n * 11 / 10 }

  function SharedCount(n: nat): nat { n * 9 / 10 }

  /** `_split_xlr` over a shuffled key universe. */
  function SplitXlr(keys: seq<int>, n: nat): (k: Keys)
    requires |keys| == Universe(n)
    ensures k.shared + k.leftOnly + k.rightOnly == keys
    ensures |k.shared| == SharedCount(n) && |k.shared + k.leftOnly| == n
  {
    var shared := SharedCount(n);
    assert shared <= n <= |keys|;
    Keys(keys[..shared], keys[shared..n], keys[n..])
  }

  /** The three parts share no key, and no part repeats one. */
  lemma SplitDisjoint(keys: seq<int>, n: nat, a: int)
    requires IsPermutation(keys, Universe(n))
    ensures
      var k := SplitXlr(keys, n);
      && multiset(k.shared + k.leftOnly)[a] <= 1 && multiset(k.shared + k.rightOnly)[a] <= 1
      && !(a in k.shared && a in k.leftOnly) && !(a in k.shared && a in k.rightOnly)
      && !(a in k.leftOnly && a in k.rightOnly)
  {
    var k := SplitXlr(keys, n);
    DistinctCount(keys, a);
    assert multiset(keys)[a] == multiset(k.shared)[a] + multiset(k.leftOnly)[a] + multiset(k.rightOnly)[a] by {
      assert multiset(keys) == multiset(k.shared) + multiset(k.leftOnly) + multiset(k.rightOnly);
    }
    assert a in k.shared ==> multiset(k.shared)[a] >= 1;
    assert a in k.leftOnly ==> multiset(k.leftOnly)[a] >= 1;
    assert a in k.rightOnly ==> multiset(k.rightOnly)[a] >= 1;
  }

  lemma {:induction false} DistinctCount(s: seq<int>, a: int)
    requires forall i, j | 0 <= i < j < |s| :: s[i] != s[j]
    ensures multiset(s)[a] <= 1
  {
    if s != [] {
      var n := |s| - 1;
      DistinctCount(s[..n], a);
      assert s == s[..n] + [s[n]];
      if a == s[n] {
        assert forall i | 0 <= i < n :: s[..n][i] != a;
        assert a !in s[..n];
      }
    }
  }

  /** The right-hand pool fills its tier exactly when the tier is a multiple of ten, and
      is one key short otherwise. */
  lemma {:induction false} RightPoolSize(n: nat, keys: seq<int>)
    requires |keys| == Universe(n)
    ensures
      var k := SplitXlr(keys, n);
      |k.shared + k.rightOnly| == if n % 10 == 0 then n else n - 1
  {
    var q, r := n / 10, n % 10;
    assert n == 10 * q + r;
    assert SharedCount(n) == 9 * q + 9 * r / 10;
    assert Universe(n) == 11 * q + 11 * r / 10;
  }

  // --- Covering samples ------------------------------------------------------------

  /** One sample: the repeats drawn from the pool, and the pool and the repeats shuffled. */
  datatype Sample = Sample(extra: seq<int>, shuffled: seq<int>)

  /** A sample of the pool: repeats come from the pool, and the result is the pool and the
      repeats in some order. */
  ghost predicate Fair(pool: seq<int>, size: nat, d: Sample) {
    && |d.extra| == size - |pool|
    && (forall i | 0 <= i < |d.extra| :: d.extra[i] in pool)
    && multiset(d.shuffled) == multiset(pool) + multiset(d.extra)
  }

  /** The random numbers behind one sample: which members of the pool are drawn again, and
      the order the result is shuffled into. */
  datatype Draw = Draw(picks: seq<nat>, order: seq<nat>)

  /** Numbers the generator can produce for a pool of `count` and `size` draws. */
  ghost predicate Possible(count: nat, size: nat, d: Draw) {
    && |d.picks| == size - count && (forall i | 0 <= i < |d.picks| :: d.picks[i] < count)
    && IsOrder(d.order, size)
  }

  function Drawn(pool: seq<int>, d: Draw): Sample {
    var extra := Arranged(pool, d.picks, 0);
    Sample(extra, Arranged(pool + extra, d.order, 0))
  }

  /** Drawing and shuffling samples the pool. */
  lemma DrawnIsFair(pool: seq<int>, size: nat, d: Draw)
    requires |pool| <= size && Possible(|pool|, size, d)
    ensures Fair(pool, size, Drawn(pool, d))
  {
    var extra := Arranged(pool, d.picks, 0);
    PicksFromPool(pool, d.picks);
    ArrangedPermutes(pool + extra, d.order, 0);
  }

  lemma PicksFromPool(pool: seq<int>, picks: seq<nat>)
    requires forall i | 0 <= i < |picks| :: picks[i] < |pool|
    ensures forall i | 0 <= i < |picks| :: Arranged(pool, picks, 0)[i] in pool
  {
    forall i | 0 <= i < |picks| ensures Arranged(pool, picks, 0)[i] in pool {
      assert Arranged(pool, picks, 0)[i] == pool[picks[i]];
    }
  }

  predicate CanSample(pool: seq<int>, size: nat) {
    |pool| <= size && (pool == [] ==> size == 0)
  }

  /** `_sample_all`: a size below the pool is an error, never a subset. */
  function SampleAll(pool: seq<int>, size: nat, d: Draw): (r: Result<seq<int>>)
    ensures r.Ok? <==> CanSample(pool, size)
  {
    if size < |pool| then Err("negative dimensions are not allowed")
    else if pool == [] && size > 0 then Err("a cannot be empty unless no samples are taken")
    else Ok(Drawn(pool, d).shuffled)
  }

  /** A sample covers its pool and nothing else. */
  lemma SampleCovers(pool: seq<int>, size: nat, d: Sample, a: int)
    requires Fair(pool, size, d)
    ensures |d.shuffled| == size && (a in d.shuffled <==> a in pool)
  {
    assert |multiset(d.shuffled)| == |multiset(pool)| + |multiset(d.extra)|;
    assert a in d.shuffled <==> a in multiset(d.shuffled);
    assert a in pool <==> a in multiset(pool);
    assert a in d.extra <==> a in multiset(d.extra);
  }

  // --- Join cardinalities ----------------------------------------------------------

  /** Rows of `lhs left join rhs` on the key column. */
  function LeftJoinRows(lhs: seq<int>, rhs: seq<int>): nat {
    if lhs == [] then 0
    else
      var matches := multiset(rhs)[lhs[0]];
      (if matches == 0 then 1 else matches) + LeftJoinRows(lhs[1..], rhs)
  }

  function InnerJoinRows(lhs: seq<int>, rhs: seq<int>): nat {
    if lhs == [] then 0 else multiset(rhs)[lhs[0]] + InnerJoinRows(lhs[1..], rhs)
  }

  /** How many entries of `s` lie in `part`. */
  function CountIn(s: seq<int>, part: seq<int>): nat {
    if s == [] then 0 else (if s[0] in part then 1 else 0) + CountIn(s[1..], part)
  }

  function Count(s: seq<int>, a: int): nat {
    if s == [] then 0 else (if s[0] == a then 1 else 0) + Count(s[1..], a)
  }

  lemma {:induction false} CountPositive(s: seq<int>, a: int)
    ensures Count(s, a) > 0 <==> a in s
  {
    if s != [] {
      CountPositive(s[1..], a);
      assert s == [s[0]] + s[1..];
    }
  }

  lemma {:induction false} LeftJoinUnique(lhs: seq<int>, rhs: seq<int>)
    requires forall a :: multiset(rhs)[a] <= 1
    ensures LeftJoinRows(lhs, rhs) == |lhs|
  {
    if lhs != [] {
      LeftJoinUnique(lhs[1..], rhs);
    }
  }

  /** A right side whose only repeated key is `d` widens the join once for every left row
      that has it. */
  lemma {:induction false} LeftJoinOneRepeat(lhs: seq<int>, rhs: seq<int>, d: int)
    requires multiset(rhs)[d] == 2 && forall a | a != d :: multiset(rhs)[a] <= 1
    ensures LeftJoinRows(lhs, rhs) == |lhs| + Count(lhs, d)
  {
    if lhs != [] {
      LeftJoinOneRepeat(lhs[1..], rhs, d);
    }
  }

  lemma {:induction false} InnerJoinUnique(lhs: seq<int>, rhs: seq<int>, part: seq<int>)
    requires forall i | 0 <= i < |lhs| :: multiset(rhs)[lhs[i]] == if lhs[i] in part then 1 else 0
    ensures InnerJoinRows(lhs, rhs) == CountIn(lhs, part)
  {
    if lhs != [] {
      InnerJoinUnique(lhs[1..], rhs, part);
    }
  }

  // --- One tier --------------------------------------------------------------------

  /** The join columns of one tier: the left table's, of `n` rows over the shared and
      left-only keys, and the right table's, of `size` rows over the shared and
      right-only keys. */
  ghost predicate IsTier(size: nat, keys: seq<int>, n: nat, left: Sample, right: Sample) {
    && IsPermutation(keys, Universe(size))
    && var k := SplitXlr(keys, size);
       Fair(k.shared + k.leftOnly, n, left) && Fair(k.shared + k.rightOnly, size, right)
  }

  /** On a tier's own key, a key joins exactly when it is shared; left-only keys occur
      only on the left and right-only keys only on the right, and each does occur. */
  lemma TierKeys(size: nat, keys: seq<int>, n: nat, left: Sample, right: Sample, a: int)
    requires IsTier(size, keys, n, left, right)
    ensures
      var k := SplitXlr(keys, size);
      && (a in k.shared <==> a in left.shuffled && a in right.shuffled)
      && (a in k.leftOnly <==> a in left.shuffled && a !in right.shuffled)
      && (a in k.rightOnly <==> a !in left.shuffled && a in right.shuffled)
  {
    var k := SplitXlr(keys, size);
    SampleCovers(k.shared + k.leftOnly, n, left, a);
    SampleCovers(k.shared + k.rightOnly, size, right, a);
    SplitDisjoint(keys, size, a);
  }

  lemma PoolDistinct(size: nat, keys: seq<int>)
    requires IsPermutation(keys, Universe(size))
    ensures forall a :: multiset(SplitXlr(keys, size).shared + SplitXlr(keys, size).rightOnly)[a] <= 1
  {
    var k := SplitXlr(keys, size);
    forall a ensures multiset(k.shared + k.rightOnly)[a] <= 1 {
      SplitDisjoint(keys, size, a);
    }
  }

  /** When the tier is a multiple of ten its right key is unique, so a left join returns
      exactly the left table's rows and an inner join exactly those whose key is shared. */
  lemma {:induction false} RoundTierJoins(size: nat, keys: seq<int>, n: nat, left: Sample, right: Sample)
    requires IsTier(size, keys, n, left, right) && size % 10 == 0
    ensures forall a :: multiset(right.shuffled)[a] <= 1
    ensures LeftJoinRows(left.shuffled, right.shuffled) == n
    ensures InnerJoinRows(left.shuffled, right.shuffled) == CountIn(left.shuffled, SplitXlr(keys, size).shared)
  {
    var k := SplitXlr(keys, size);
    RightPoolSize(size, keys);
    PoolDistinct(size, keys);
    assert right.extra == [];
    assert multiset(right.shuffled) == multiset(k.shared + k.rightOnly);
    SampleCovers(k.shared + k.leftOnly, n, left, 0);
    LeftJoinUnique(left.shuffled, right.shuffled);
    forall i | 0 <= i < |left.shuffled|
      ensures multiset(right.shuffled)[left.shuffled[i]] == if left.shuffled[i] in k.shared then 1 else 0
    {
      var a := left.shuffled[i];
      TierKeys(size, keys, n, left, right, a);
      assert a in right.shuffled <==> a in multiset(right.shuffled);
    }
    InnerJoinUnique(left.shuffled, right.shuffled, k.shared);
  }

  /** When it is not, exactly one right key is drawn twice, and the left join keeps its
      row count if and only if that key is right-only; otherwise it grows by the number
      of left rows with that key. */
  lemma {:induction false} RaggedTierJoins(size: nat, keys: seq<int>, n: nat, left: Sample, right: Sample)
    requires IsTier(size, keys, n, left, right) && size % 10 != 0
    ensures |right.extra| == 1
    ensures LeftJoinRows(left.shuffled, right.shuffled) == n + Count(left.shuffled, right.extra[0])
    ensures LeftJoinRows(left.shuffled, right.shuffled) == n <==> right.extra[0] in SplitXlr(keys, size).rightOnly
  {
    var k := SplitXlr(keys, size);
    var pool := k.shared + k.rightOnly;
    RightPoolSize(size, keys);
    PoolDistinct(size, keys);
    var d := right.extra[0];
    assert right.extra == [d];
    assert d in pool && multiset(pool)[d] == 1 by {
      assert d in multiset(pool);
    }
    SampleCovers(k.shared + k.leftOnly, n, left, d);
    LeftJoinOneRepeat(left.shuffled, right.shuffled, d);
    CountPositive(left.shuffled, d);
    TierKeys(size, keys, n, left, right, d);
    SampleCovers(pool, size, right, d);
  }

  /** What a tier's join columns are for: as many rows as asked, keys split into shared,
      left-only and right-only ones, and joins of the promised size. */
  ghost predicate JoinsAsPromised(size: nat, keys: seq<int>, n: nat, lhs: seq<int>, rhs: seq<int>)
    requires |keys| == Universe(size)
  {
    var k := SplitXlr(keys, size);
    && |lhs| == n && |rhs| == size
    && (forall a :: a in k.shared <==> a in lhs && a in rhs)
    && (forall a :: a in k.leftOnly <==> a in lhs && a !in rhs)
    && (forall a :: a in k.rightOnly <==> a !in lhs && a in rhs)
    && (size % 10 == 0 ==> LeftJoinRows(lhs, rhs) == n && InnerJoinRows(lhs, rhs) == CountIn(lhs, k.shared))
    && (size % 10 != 0 ==> OneKeyTwice(k, n, lhs, rhs))
  }

  /** One key of the right side is there twice, and widens the left join unless it is
      right-only. */
  ghost predicate OneKeyTwice(k: Keys, n: nat, lhs: seq<int>, rhs: seq<int>) {
    exists d | d in RightPool(k) ::
      LeftJoinRows(lhs, rhs) == n + Count(lhs, d) && (LeftJoinRows(lhs, rhs) == n <==> d in k.rightOnly)
  }

  lemma TierJoins(size: nat, keys: seq<int>, n: nat, left: Sample, right: Sample)
    requires IsTier(size, keys, n, left, right)
    ensures JoinsAsPromised(size, keys, n, left.shuffled, right.shuffled)
  {
    var k := SplitXlr(keys, size);
    forall a
      ensures a in k.shared <==> a in left.shuffled && a in right.shuffled
      ensures a in k.leftOnly <==> a in left.shuffled && a !in right.shuffled
      ensures a in k.rightOnly <==> a !in left.shuffled && a in right.shuffled
    {
      TierKeys(size, keys, n, left, right, a);
    }
    SampleCovers(k.shared + k.leftOnly, n, left, 0);
    SampleCovers(k.shared + k.rightOnly, size, right, 0);
    if size % 10 == 0 {
      RoundTierJoins(size, keys, n, left, right);
    } else {
      RaggedTierJoins(size, keys, n, left, right);
      assert right.extra[0] in RightPool(k);
    }
  }

  // --- `build_join` ----------------------------------------------------------------

  /** One row in a million, and at least ten. */
  function SmallRows(n: nat): (r: nat)
    ensures r >= 10 && r >= n / 1_000_000 && (r == 10 || r == n / 1_000_000)
  {
    if n / 1_000_000 < 10 then 10 else n / 1_000_000
  }

  /** One row in a thousand, and at least ten. */
  function MediumRows(n: nat): (r: nat)
    ensures r >= 10 && r >= n / 1_000 && (r == 10 || r == n / 1_000)
  {
    if n / 1_000 < 10 then 10 else n / 1_000
  }

  /** The shuffled key universes, in the order they are drawn. */
  datatype Shuffles = Shuffles(small: seq<int>, medium: seq<int>, big: seq<int>)

  datatype Draws = Draws(
    lhs1: Draw, lhs2: Draw, lhs3: Draw,
    small1: Draw, medium1: Draw, medium2: Draw, big1: Draw, big2: Draw, big3: Draw)

  datatype Tables = Tables(
    x: map<string, seq<int>>, small: map<string, seq<int>>, medium: map<string, seq<int>>, big: map<string, seq<int>>)

  datatype Column = Column(name: string, pool: seq<int>, draw: Draw)

  ghost predicate Holds(table: map<string, seq<int>>, name: string, pool: seq<int>, d: Draw) {
    name in table && table[name] == Drawn(pool, d).shuffled
  }

  /** Every column was drawn from its own pool. */
  ghost predicate Filled(table: map<string, seq<int>>, columns: seq<Column>) {
    forall i | 0 <= i < |columns| :: Holds(table, columns[i].name, columns[i].pool, columns[i].draw)
  }

  lemma ColumnHolds(table: map<string, seq<int>>, columns: seq<Column>, i: nat)
    requires i < |columns| && Filled(table, columns)
    ensures Holds(table, columns[i].name, columns[i].pool, columns[i].draw)
  {
  }

  /** `rhs`: fills the key columns of one table, failing at the first pool too large. */
  method FillColumns(rows: nat, columns: seq<Column>) returns (r: Result<map<string, seq<int>>>)
    requires forall i, j | 0 <= i < j < |columns| :: columns[i].name != columns[j].name
    ensures r.Ok? <==> forall i | 0 <= i < |columns| :: CanSample(columns[i].pool, rows)
    ensures r.Ok? ==> Filled(r.value, columns)
  {
    var cols: map<string, seq<int>> := map[];
    for k := 0 to |columns|
      invariant forall i | 0 <= i < k :: CanSample(columns[i].pool, rows)
      invariant forall i | 0 <= i < k :: Holds(cols, columns[i].name, columns[i].pool, columns[i].draw)
    {
      var drawn := SampleAll(columns[k].pool, rows, columns[k].draw);
      if drawn.Err? {
        return Err(drawn.reason);
      }
      cols := cols[columns[k].name := drawn.value];
    }
    r := Ok(cols);
  }

  function LeftPool(k: Keys): seq<int> { k.shared + k.leftOnly }

  function RightPool(k: Keys): seq<int> { k.shared + k.rightOnly }

  function SmallKeys(n: nat, s: Shuffles): Keys
    requires |s.small| == Universe(SmallRows(n))
  {
    SplitXlr(s.small, SmallRows(n))
  }

  function MediumKeys(n: nat, s: Shuffles): Keys
    requires |s.medium| == Universe(MediumRows(n))
  {
    SplitXlr(s.medium, MediumRows(n))
  }

  function BigKeys(n: nat, s: Shuffles): Keys
    requires |s.big| == Universe(n)
  {
    SplitXlr(s.big, n)
  }

  ghost predicate Sized(n: nat, s: Shuffles) {
    |s.small| == Universe(SmallRows(n)) && |s.medium| == Universe(MediumRows(n)) && |s.big| == Universe(n)
  }

  /** The numbers the generator can produce for the nine samples. */
  ghost predicate PossibleDraws(n: nat, s: Shuffles, d: Draws)
    requires Sized(n, s)
  {
    var k1, k2, k3 := SmallKeys(n, s), MediumKeys(n, s), BigKeys(n, s);
    && IsPermutation(s.small, Universe(SmallRows(n))) && IsPermutation(s.medium, Universe(MediumRows(n)))
    && IsPermutation(s.big, Universe(n))
    && Possible(|LeftPool(k1)|, n, d.lhs1) && Possible(|LeftPool(k2)|, n, d.lhs2) && Possible(|LeftPool(k3)|, n, d.lhs3)
    && Possible(|RightPool(k1)|, SmallRows(n), d.small1)
    && Possible(|RightPool(k1)|, MediumRows(n), d.medium1) && Possible(|RightPool(k2)|, MediumRows(n), d.medium2)
    && Possible(|RightPool(k1)|, n, d.big1) && Possible(|RightPool(k2)|, n, d.big2)
    && Possible(|RightPool(k3)|, n, d.big3)
  }

  /** The key columns of the four tables, each drawn from its own pool. */
  ghost predicate Built(n: nat, s: Shuffles, d: Draws, t: Tables)
    requires Sized(n, s)
  {
    var k1, k2, k3 := SmallKeys(n, s), MediumKeys(n, s), BigKeys(n, s);
    && Holds(t.x, "id1", LeftPool(k1), d.lhs1) && Holds(t.x, "id2", LeftPool(k2), d.lhs2)
    && Holds(t.x, "id3", LeftPool(k3), d.lhs3)
    && Holds(t.small, "id1", RightPool(k1), d.small1)
    && Holds(t.medium, "id1", RightPool(k1), d.medium1) && Holds(t.medium, "id2", RightPool(k2), d.medium2)
    && Holds(t.big, "id1", RightPool(k1), d.big1) && Holds(t.big, "id2", RightPool(k2), d.big2)
    && Holds(t.big, "id3", RightPool(k3), d.big3)
  }

  /** `build_join`: the left table and its three right tables. */
  method BuildJoin(n: nat, s: Shuffles, d: Draws) returns (r: Result<Tables>)
    requires Sized(n, s)
    ensures r.Ok? <==> n >= 10
    ensures r.Ok? ==> Built(n, s, d, r.value)
    ensures r.Ok? && PossibleDraws(n, s, d) ==>
      && JoinsAsPromised(SmallRows(n), s.small, n, r.value.x["id1"], r.value.small["id1"])
      && JoinsAsPromised(MediumRows(n), s.medium, n, r.value.x["id2"], r.value.medium["id2"])
      && JoinsAsPromised(n, s.big, n, r.value.x["id3"], r.value.big["id3"])
  {
    var smallN, mediumN := SmallRows(n), MediumRows(n);
    var k1, k2, k3 := SmallKeys(n, s), MediumKeys(n, s), BigKeys(n, s);
    PoolsFit(n, s);
    var xColumns :=
      [Column("id1", LeftPool(k1), d.lhs1), Column("id2", LeftPool(k2), d.lhs2), Column("id3", LeftPool(k3), d.lhs3)];
    var x := FillColumns(n, xColumns);
    if x.Err? {
      assert n < 10;
      return Err(x.reason);
    }
    assert CanSample(xColumns[0].pool, n);
    var smallColumns := [Column("id1", RightPool(k1), d.small1)];
    var small := FillColumns(smallN, smallColumns);
    var mediumColumns := [Column("id1", RightPool(k1), d.medium1), Column("id2", RightPool(k2), d.medium2)];
    var medium := FillColumns(mediumN, mediumColumns);
    var bigColumns :=
      [Column("id1", RightPool(k1), d.big1), Column("id2", RightPool(k2), d.big2),
       Column("id3", RightPool(k3), d.big3)];
    var big := FillColumns(n, bigColumns);
    assert small.Ok? && medium.Ok? && big.Ok?;
    r := Ok(Tables(x.value, small.value, medium.value, big.value));
    BuiltFrom(n, s, d, r.value, k1, k2, k3, xColumns, smallColumns, mediumColumns, bigColumns);
    BuiltTiers(n, s, d, r.value);
  }

  lemma BuiltFrom(
    n: nat, s: Shuffles, d: Draws, t: Tables, k1: Keys, k2: Keys, k3: Keys,
    x: seq<Column>, small: seq<Column>, medium: seq<Column>, big: seq<Column>)
    requires Sized(n, s) && k1 == SmallKeys(n, s) && k2 == MediumKeys(n, s) && k3 == BigKeys(n, s)
    requires Filled(t.x, x) && Filled(t.small, small) && Filled(t.medium, medium) && Filled(t.big, big)
    requires x ==
      [Column("id1", LeftPool(k1), d.lhs1), Column("id2", LeftPool(k2), d.lhs2), Column("id3", LeftPool(k3), d.lhs3)]
    requires small == [Column("id1", RightPool(k1), d.small1)]
    requires medium == [Column("id1", RightPool(k1), d.medium1), Column("id2", RightPool(k2), d.medium2)]
    requires big ==
      [Column("id1", RightPool(k1), d.big1), Column("id2", RightPool(k2), d.big2), Column("id3", RightPool(k3), d.big3)]
    ensures Built(n, s, d, t)
  {
    ColumnHolds(t.x, x, 0);
    ColumnHolds(t.x, x, 1);
    ColumnHolds(t.x, x, 2);
    ColumnHolds(t.small, small, 0);
    ColumnHolds(t.medium, medium, 0);
    ColumnHolds(t.medium, medium, 1);
    ColumnHolds(t.big, big, 0);
    ColumnHolds(t.big, big, 1);
    ColumnHolds(t.big, big, 2);
  }

  /** The joins of the three tiers on the tables that were built. */
  lemma BuiltTiers(n: nat, s: Shuffles, d: Draws, t: Tables)
    requires Sized(n, s) && n >= 10 && Built(n, s, d, t)
    ensures PossibleDraws(n, s, d) ==>
      && JoinsAsPromised(SmallRows(n), s.small, n, t.x["id1"], t.small["id1"])
      && JoinsAsPromised(MediumRows(n), s.medium, n, t.x["id2"], t.medium["id2"])
      && JoinsAsPromised(n, s.big, n, t.x["id3"], t.big["id3"])
  {
    if PossibleDraws(n, s, d) {
      PoolsFit(n, s);
      DrawnTier(SmallRows(n), s.small, n, d.lhs1, d.small1);
      DrawnTier(MediumRows(n), s.medium, n, d.lhs2, d.medium2);
      DrawnTier(n, s.big, n, d.lhs3, d.big3);
    }
  }

  lemma DrawnTier(size: nat, keys: seq<int>, n: nat, left: Draw, right: Draw)
    requires IsPermutation(keys, Universe(size))
    requires
      var k := SplitXlr(keys, size);
      && |LeftPool(k)| <= n && |RightPool(k)| <= size
      && Possible(|LeftPool(k)|, n, left) && Possible(|RightPool(k)|, size, right)
    ensures
      var k := SplitXlr(keys, size);
      JoinsAsPromised(size, keys, n, Drawn(LeftPool(k), left).shuffled, Drawn(RightPool(k), right).shuffled)
  {
    var k := SplitXlr(keys, size);
    DrawnIsFair(LeftPool(k), n, left);
    DrawnIsFair(RightPool(k), size, right);
    TierJoins(size, keys, n, Drawn(LeftPool(k), left), Drawn(RightPool(k), right));
  }

  /** No sample of `build_join` is asked for fewer rows than its pool holds, exactly when
      the left table has at least ten rows. */
  lemma {:induction false} PoolsFit(n: nat, s: Shuffles)
    requires Sized(n, s)
    ensures
      var k1, k2, k3 := SmallKeys(n, s), MediumKeys(n, s), BigKeys(n, s);
      && (n >= 10 ==> CanSample(LeftPool(k2), n) && CanSample(LeftPool(k3), n))
      && (n >= 10 <==> CanSample(LeftPool(k1), n))
      && CanSample(RightPool(k1), SmallRows(n))
      && CanSample(RightPool(k1), MediumRows(n)) && CanSample(RightPool(k2), MediumRows(n))
      && (n >= 10 ==> CanSample(RightPool(k1), n) && CanSample(RightPool(k2), n) && CanSample(RightPool(k3), n))
  {
    RightPoolSize(SmallRows(n), s.small);
    RightPoolSize(MediumRows(n), s.medium);
    RightPoolSize(n, s.big);
    assert 10 <= SmallRows(n) <= MediumRows(n);
    assert n >= 10 ==> MediumRows(n) <= n;
  }
}
