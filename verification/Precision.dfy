/** What the estimator keeps: counts, bounds and null counts that survive the operators of a
    plan, so that its answers are not only right but as sharp as its sources.
 */
module Precision {
  import opened Common
  import opened ZoneMaps
  import opened Sources
  import opened Plans
  import opened Estimates

  // --- Counted plans ---------------------------------------------------------------

  /** A plan whose number of rows follows from the counts of its sources. */
  ghost predicate Counting(sources: Catalog, p: Plan) {
    match p
    case Scan(t, columns) => sources(t, columns).rows.Some? && sources(t, columns).exactRows
    case Filter(q, w) => w == Const(false) || (w == Const(true) && Counting(sources, q))
    case Sort(q, _) => Counting(sources, q)
    case Limit(q, n, offset) => n == 0 || (offset == 0 && Counting(sources, q))
    case Union(qs, distinct) =>
      qs != [] && !distinct && forall i | 0 <= i < |qs| :: Counting(sources, qs[i])
    case Distinct(_) => false
    case Sample(_, _) => false
    case Join(_, _, _, _, _) => false
  }

  ghost predicate CountIs(e: RelStats, n: nat) {
    e.rowsExact && e.rows == n
  }

  /** The estimator counts every such plan: its count is the number of rows. */
  lemma {:induction false} CountsExactly(db: Db, sources: Catalog, p: Plan)
    requires ValidDb(db) && Truthful(db, sources) && Counting(sources, p)
    ensures CountIs(Estimate(sources, p), |Rows(db, p)|)
    decreases p
  {
    match p
    case Scan(t, columns) =>
      assert TruthfulTable(db, sources(t, columns), t, columns);
    case Filter(q, w) =>
      if w == Const(true) {
        CountsExactly(db, sources, q);
        KeptAll(db.env, w, Rows(db, q));
      } else {
        KeptNone(db.env, w, Rows(db, q));
      }
    case Sort(q, k) =>
      CountsExactly(db, sources, q);
      SortedCount(db, k, Rows(db, q));
    case Limit(q, n, offset) =>
      if n > 0 {
        CountsExactly(db, sources, q);
      }
    case Union(qs, _) =>
      var es := EstimateAll(sources, p, 0);
      forall i | 0 <= i < |qs| ensures CountIs(es[i], |Rows(db, qs[i])|) {
        CountsExactly(db, sources, qs[i]);
      }
      UnionMeans(db, qs, false);
      CountsAdd(db, qs, es);
  }

  lemma SortedCount(db: Db, k: nat, rows: seq<Row>)
    requires ValidDb(db)
    ensures |db.sort(k, rows)| == |rows|
  {
    assert |multiset(db.sort(k, rows))| == |multiset(rows)|;
  }

  lemma {:induction false} CountsAdd(db: Db, qs: seq<Plan>, es: seq<RelStats>)
    requires |qs| == |es| && forall i | 0 <= i < |qs| :: CountIs(es[i], |Rows(db, qs[i])|)
    ensures RowSum(es) == |Concat(db, qs)| && AllCounted(es)
    ensures (forall i | 0 <= i < |es| :: ProvablyEmpty(es[i])) ==> |Concat(db, qs)| == 0
  {
    if qs != [] {
      CountsAdd(db, qs[1..], es[1..]);
    }
  }

  // --- Bounds that are attained ----------------------------------------------------

  /** Some row holds the value under the column. */
  ghost predicate Holds(rows: seq<Row>, name: string, v: Value) {
    exists i | 0 <= i < |rows| :: Cell(rows[i], name) == Some(v)
  }

  /** As sharp as statistics can be: the nulls are counted, and both bounds occur. */
  ghost predicate Sharp(c: ColumnStat, rows: seq<Row>, name: string) {
    && c.exact && c.nulls == Some(NullCount(rows, name))
    && c.min.Some? && Holds(rows, name, c.min.value)
    && c.max.Some? && Holds(rows, name, c.max.value)
  }

  /** A source that declares a column sharply, in a maximum that NaN cannot exceed. */
  ghost predicate SharpSource(s: Source, rows: seq<Row>, name: string) {
    && s.rows == Some(|rows|) && s.exactRows && name in s.columns && Sharp(s.columns[name], rows, name)
    && (s.nanAware || KindOf(s.columns[name].max.value) != DoubleKind)
  }

  /** A plan that keeps every row of its sources, all of them sharp about the column. */
  ghost predicate KeepsRows(db: Db, sources: Catalog, p: Plan, name: string, kind: Kind) {
    match p
    case Scan(t, columns) =>
      && SharpSource(sources(t, columns), db.table(t, columns), name) && name in columns
      && StatOfKind(sources(t, columns).columns[name], kind)
    case Sort(q, _) => KeepsRows(db, sources, q, name, kind)
    case Union(qs, distinct) =>
      qs != [] && !distinct && forall i | 0 <= i < |qs| :: KeepsRows(db, sources, qs[i], name, kind)
    case _ => false
  }

  ghost predicate SharpAbout(e: RelStats, rows: seq<Row>, name: string, kind: Kind) {
    && CountIs(e, |rows|) && name in e.columns && Sharp(e.columns[name], rows, name)
    && StatOfKind(e.columns[name], kind)
  }

  lemma {:induction false} SmallestExists(cur: Value, rest: seq<Value>)
    requires forall v | v in rest :: KindOf(v) == KindOf(cur)
    ensures Smallest(cur, rest).Some? && (Smallest(cur, rest).value == cur || Smallest(cur, rest).value in rest)
    decreases rest
  {
    if rest != [] {
      assert rest[0] in rest;
      SmallestExists(if Python(Lt, rest[0], cur) then rest[0] else cur, rest[1..]);
    }
  }

  lemma {:induction false} LargestExists(cur: Value, rest: seq<Value>)
    requires forall v | v in rest :: KindOf(v) == KindOf(cur)
    ensures Largest(cur, rest).Some? && (Largest(cur, rest).value == cur || Largest(cur, rest).value in rest)
    decreases rest
  {
    if rest != [] {
      assert rest[0] in rest;
      LargestExists(if Python(Gt, rest[0], cur) then rest[0] else cur, rest[1..]);
    }
  }

  /** With a bound of one type in every branch, the lists of bounds are complete. */
  lemma {:induction false} BoundsListed(cs: seq<ColumnStat>, kind: Kind)
    requires forall i | 0 <= i < |cs| :: cs[i].min.Some? && cs[i].max.Some? && StatOfKind(cs[i], kind)
    ensures |Lows(cs)| == |Highs(cs)| == |cs|
    ensures forall i | 0 <= i < |cs| :: Lows(cs)[i] == cs[i].min.value && Highs(cs)[i] == cs[i].max.value
  {
    if cs != [] {
      BoundsListed(cs[1..], kind);
    }
  }

  /** The merged bounds are bounds of some branch. */
  lemma MergedAttained(cs: seq<ColumnStat>, kind: Kind) returns (i: nat, j: nat)
    requires cs != []
    requires forall i | 0 <= i < |cs| :: cs[i].min.Some? && cs[i].max.Some? && StatOfKind(cs[i], kind)
    ensures i < |cs| && Merged(cs).min == cs[i].min
    ensures j < |cs| && Merged(cs).max == cs[j].max
  {
    BoundsListed(cs, kind);
    var lows, highs := Lows(cs), Highs(cs);
    assert lows == [lows[0]] + lows[1..] && highs == [highs[0]] + highs[1..];
    forall v | v in lows ensures KindOf(v) == kind {
      var k :| 0 <= k < |lows| && lows[k] == v;
    }
    forall v | v in highs ensures KindOf(v) == kind {
      var k :| 0 <= k < |highs| && highs[k] == v;
    }
    SmallestExists(lows[0], lows[1..]);
    LargestExists(highs[0], highs[1..]);
    i :| 0 <= i < |cs| && lows[i] == Smallest(lows[0], lows[1..]).value;
    j :| 0 <= j < |cs| && highs[j] == Largest(highs[0], highs[1..]).value;
  }

  lemma {:induction false} NullsAdd(db: Db, qs: seq<Plan>, cs: seq<ColumnStat>, name: string)
    requires |qs| == |cs| && forall i | 0 <= i < |qs| :: cs[i].nulls == Some(NullCount(Rows(db, qs[i]), name))
    ensures NullSum(cs) == Some(NullCount(Concat(db, qs), name))
  {
    if qs != [] {
      NullsAdd(db, qs[1..], cs[1..], name);
      NullCountOfConcat(Rows(db, qs[0]), Concat(db, qs[1..]), name);
    }
  }

  lemma {:induction false} HeldByBranch(db: Db, qs: seq<Plan>, i: nat, name: string, v: Value)
    requires i < |qs| && Holds(Rows(db, qs[i]), name, v)
    ensures Holds(Concat(db, qs), name, v)
  {
    var first, rest := Rows(db, qs[0]), Concat(db, qs[1..]);
    if i > 0 {
      HeldByBranch(db, qs[1..], i - 1, name, v);
      var k :| 0 <= k < |rest| && Cell(rest[k], name) == Some(v);
      assert (first + rest)[|first| + k] == rest[k];
    } else {
      var k :| 0 <= k < |first| && Cell(first[k], name) == Some(v);
      assert (first + rest)[k] == first[k];
    }
  }

  lemma HeldSorted(db: Db, k: nat, rows: seq<Row>, name: string, v: Value)
    requires ValidDb(db) && Holds(rows, name, v)
    ensures Holds(db.sort(k, rows), name, v)
  {
    var i :| 0 <= i < |rows| && Cell(rows[i], name) == Some(v);
    assert rows[i] in multiset(db.sort(k, rows));
    var j :| 0 <= j < |db.sort(k, rows)| && db.sort(k, rows)[j] == rows[i];
  }

  /** The merged column of a union is sharp when the column of every branch is. */
  lemma UnionSharp(db: Db, names: seq<string>, qs: seq<Plan>, es: seq<RelStats>, name: string, kind: Kind)
    requires |qs| == |es| && es != [] && name in names
    requires forall i | 0 <= i < |qs| :: SharpAbout(es[i], Rows(db, qs[i]), name, kind)
    ensures SharpAbout(UnionStats(names, es, false), Concat(db, qs), name, kind)
  {
    var cs := Branches(es, name);
    CountsAdd(db, qs, es);
    assert AllHave(es, name) && AllExact(cs);
    NullsAdd(db, qs, cs, name);
    var i, j := MergedAttained(cs, kind);
    HeldByBranch(db, qs, i, name, cs[i].min.value);
    HeldByBranch(db, qs, j, name, cs[j].max.value);
  }

  /** Through scans, sorts and unions of everything the statistics stay sharp: the nulls of
      the result are counted, and both of its bounds occur in it. */
  lemma {:induction false} SharpnessSurvives(db: Db, sources: Catalog, p: Plan, name: string, kind: Kind)
    requires ValidDb(db) && Truthful(db, sources) && KeepsRows(db, sources, p, name, kind)
    ensures name in Columns(p) && SharpAbout(Estimate(sources, p), Rows(db, p), name, kind)
    decreases p
  {
    match p
    case Scan(t, columns) =>
    case Sort(q, k) =>
      SharpnessSurvives(db, sources, q, name, kind);
      var rows, c := Rows(db, q), Estimate(sources, q).columns[name];
      SortedCount(db, k, rows);
      NullCountPermuted(rows, db.sort(k, rows), name);
      HeldSorted(db, k, rows, name, c.min.value);
      HeldSorted(db, k, rows, name, c.max.value);
    case Union(qs, _) =>
      var es := EstimateAll(sources, p, 0);
      forall i | 0 <= i < |qs|
        ensures SharpAbout(es[i], Rows(db, qs[i]), name, kind) && name in Columns(qs[i])
      {
        SharpnessSurvives(db, sources, qs[i], name, kind);
      }
      UnionMeans(db, qs, false);
      UnionSharp(db, Columns(p), qs, es, name, kind);
  }

  // --- Exact bounds occur ------------------------------------------------------------

  /** Whatever bounds there are occur in the column. */
  ghost predicate Attained(c: ColumnStat, rows: seq<Row>, name: string) {
    && (c.min.Some? ==> Holds(rows, name, c.min.value))
    && (c.max.Some? ==> Holds(rows, name, c.max.value))
  }

  /** Statistics that call bounds exact only when they occur. */
  ghost predicate ExactOccur(e: RelStats, rows: seq<Row>) {
    forall name | name in e.columns && e.columns[name].exact :: Attained(e.columns[name], rows, name)
  }

  ghost predicate ExactSources(db: Db, sources: Catalog) {
    forall t, columns :: ExactOccur(Declared(sources(t, columns), sources(t, columns).columns), db.table(t, columns))
  }

  ghost predicate KeepsValues(rows: seq<Row>, part: seq<Row>) {
    forall x | x in rows :: x in part
  }

  lemma HeldStill(rows: seq<Row>, part: seq<Row>, name: string, v: Value)
    requires Holds(rows, name, v) && KeepsValues(rows, part)
    ensures Holds(part, name, v)
  {
    var i :| 0 <= i < |rows| && Cell(rows[i], name) == Some(v);
    assert rows[i] in rows;
    var j :| 0 <= j < |part| && part[j] == rows[i];
  }

  lemma OccurStill(e: RelStats, e': RelStats, rows: seq<Row>, part: seq<Row>)
    requires ExactOccur(e, rows) && KeepsValues(rows, part)
    requires forall name | name in e'.columns && e'.columns[name].exact ::
      && name in e.columns && e.columns[name].exact
      && e'.columns[name].min == e.columns[name].min && e'.columns[name].max == e.columns[name].max
    ensures ExactOccur(e', part)
  {
    forall name | name in e'.columns && e'.columns[name].exact ensures Attained(e'.columns[name], part, name) {
      var c := e.columns[name];
      if c.min.Some? {
        HeldStill(rows, part, name, c.min.value);
      }
      if c.max.Some? {
        HeldStill(rows, part, name, c.max.value);
      }
    }
  }

  lemma {:induction false} DeduplicatedKeeps(rows: seq<Row>, seen: set<Row>, x: Row)
    requires x in rows && x !in seen
    ensures x in Deduplicated(rows, seen)
    decreases rows
  {
    if rows[0] in seen {
      DeduplicatedKeeps(rows[1..], seen, x);
    } else if rows[0] != x {
      DeduplicatedKeeps(rows[1..], seen + {rows[0]}, x);
    }
  }

  lemma AllDeduplicated(rows: seq<Row>)
    ensures KeepsValues(rows, Deduplicated(rows, {}))
  {
    forall x | x in rows ensures x in Deduplicated(rows, {}) {
      DeduplicatedKeeps(rows, {}, x);
    }
  }

  lemma {:induction false} NotNullKept(env: Env, name: string, rows: seq<Row>, v: Value)
    requires Holds(rows, name, v)
    ensures Holds(Kept(env, IsNotNull(Col(name)), rows), name, v)
  {
    var i :| 0 <= i < |rows| && Cell(rows[i], name) == Some(v);
    var rest := Kept(env, IsNotNull(Col(name)), rows[1..]);
    if i > 0 {
      assert rows[1..][i - 1] == rows[i];
      NotNullKept(env, name, rows[1..], v);
      var k :| 0 <= k < |rest| && Cell(rest[k], name) == Some(v);
      var all := Kept(env, IsNotNull(Col(name)), rows);
      assert all[|all| - |rest| + k] == rest[k];
    } else {
      assert Kept(env, IsNotNull(Col(name)), rows)[0] == rows[0];
    }
  }

  lemma FilterOccur(env: Env, w: Pred, e: RelStats, rows: seq<Row>)
    requires ExactOccur(e, rows)
    ensures ExactOccur(FilterStats(w, e), Kept(env, w, rows))
  {
    if w == Const(true) {
      KeptAll(env, w, rows);
    } else if w != Const(false) && !ProvablyEmpty(e) && CountedNotNull(w, e) {
      var name := w.term.name;
      var c := e.columns[name];
      if c.exact && c.min.Some? {
        NotNullKept(env, name, rows, c.min.value);
      }
      if c.exact && c.max.Some? {
        NotNullKept(env, name, rows, c.max.value);
      }
    } else {
      NarrowedNotExact(w, e);
    }
  }

  lemma NarrowedNotExact(w: Pred, e: RelStats)
    ensures forall name | name in e.columns :: !Narrowed(Weakened(e.columns[name]), w, name).exact
  {
  }

  /** The bounds of a merged column that is exact occur in some branch. */
  lemma UnionOccur(db: Db, names: seq<string>, qs: seq<Plan>, es: seq<RelStats>)
    requires |qs| == |es| && es != [] && forall i | 0 <= i < |qs| :: ExactOccur(es[i], Rows(db, qs[i]))
    ensures ExactOccur(RelStats(0, false, UnionColumns(names, es)), Concat(db, qs))
  {
    var columns := UnionColumns(names, es);
    forall name | name in columns && columns[name].exact ensures Attained(columns[name], Concat(db, qs), name) {
      MergedOccur(db, qs, es, name, Branches(es, name));
    }
  }

  lemma MergedOccur(db: Db, qs: seq<Plan>, es: seq<RelStats>, name: string, cs: seq<ColumnStat>)
    requires |qs| == |es| && es != [] && forall i | 0 <= i < |qs| :: ExactOccur(es[i], Rows(db, qs[i]))
    requires AllHave(es, name) && cs == Branches(es, name) && AllExact(cs)
    ensures Attained(Merged(cs), Concat(db, qs), name)
  {
    forall i | 0 <= i < |cs| ensures Attained(cs[i], Rows(db, qs[i]), name) {
      assert cs[i] == es[i].columns[name];
    }
    if Merged(cs).min.Some? {
      var i := LowOf(cs);
      HeldByBranch(db, qs, i, name, cs[i].min.value);
    }
    if Merged(cs).max.Some? {
      var i := HighOf(cs);
      HeldByBranch(db, qs, i, name, cs[i].max.value);
    }
  }

  lemma LowOf(cs: seq<ColumnStat>) returns (i: nat)
    requires cs != [] && Merged(cs).min.Some?
    ensures i < |cs| && cs[i].min == Merged(cs).min
  {
    var lows := Lows(cs);
    AllLows(cs);
    ExtremesAreMembers(lows[0], lows[1..]);
    assert lows == [lows[0]] + lows[1..];
    i :| 0 <= i < |lows| && lows[i] == Merged(cs).min.value;
  }

  lemma HighOf(cs: seq<ColumnStat>) returns (i: nat)
    requires cs != [] && Merged(cs).max.Some?
    ensures i < |cs| && cs[i].max == Merged(cs).max
  {
    var highs := Highs(cs);
    AllHighs(cs);
    ExtremesAreMembers(highs[0], highs[1..]);
    assert highs == [highs[0]] + highs[1..];
    i :| 0 <= i < |highs| && highs[i] == Merged(cs).max.value;
  }

  lemma {:induction false} JoinNotExact(
    kind: JoinKind, keys: seq<(string, string)>, output: seq<Output>, l: RelStats, r: RelStats)
    ensures forall name | name in JoinColumns(kind, keys, output, l, r) ::
      !JoinColumns(kind, keys, output, l, r)[name].exact
    decreases output
  {
    if output != [] {
      JoinNotExact(kind, keys, output[1..], l, r);
    }
  }

  /** Over sources that call bounds exact only when they occur, so does the estimator: every
      bound it calls exact occurs among the rows of the plan. */
  lemma {:induction false} ExactBoundsOccur(db: Db, sources: Catalog, p: Plan)
    requires ValidDb(db) && ExactSources(db, sources)
    ensures ExactOccur(Estimate(sources, p), Rows(db, p))
    decreases p, 1
  {
    match p
    case Scan(t, columns) => ScanOccur(db, sources, t, columns);
    case Filter(q, w) =>
      ExactBoundsOccur(db, sources, q);
      FilterOccur(db.env, w, Estimate(sources, q), Rows(db, q));
    case Sort(q, k) =>
      ExactBoundsOccur(db, sources, q);
      SortedKeeps(db, k, Rows(db, q));
      OccurStill(Estimate(sources, q), Estimate(sources, q), Rows(db, q), Rows(db, p));
    case Distinct(q) =>
      ExactBoundsOccur(db, sources, q);
      AllDeduplicated(Rows(db, q));
      OccurStill(Estimate(sources, q), Estimate(sources, p), Rows(db, q), Rows(db, p));
    case Sample(_, _) =>
    case Limit(_, _, _) =>
    case Union(qs, distinct) => UnionPlanOccurs(db, sources, p);
    case Join(l, r, kind, keys, output) => JoinNotExact(kind, keys, output, Estimate(sources, l), Estimate(sources, r));
  }

  lemma ScanOccur(db: Db, sources: Catalog, t: string, columns: seq<string>)
    requires ExactSources(db, sources)
    ensures ExactOccur(Estimate(sources, Scan(t, columns)), db.table(t, columns))
  {
    var s := sources(t, columns);
    assert ExactOccur(Declared(s, s.columns), db.table(t, columns));
    forall name | name in ForReasoning(s) && ForReasoning(s)[name].exact
      ensures Attained(ForReasoning(s)[name], db.table(t, columns), name)
    {
      assert Attained(s.columns[name], db.table(t, columns), name);
    }
  }

  lemma SortedKeeps(db: Db, k: nat, rows: seq<Row>)
    requires ValidDb(db)
    ensures KeepsValues(rows, db.sort(k, rows))
  {
    forall x | x in rows ensures x in db.sort(k, rows) {
      assert x in multiset(db.sort(k, rows));
    }
  }

  lemma {:induction false} UnionPlanOccurs(db: Db, sources: Catalog, p: Plan)
    requires ValidDb(db) && ExactSources(db, sources) && p.Union?
    ensures ExactOccur(Estimate(sources, p), Rows(db, p))
    decreases p, 0
  {
    var qs := p.inputs;
    if qs != [] {
      var es := EstimateAll(sources, p, 0);
      forall i | 0 <= i < |qs| ensures ExactOccur(es[i], Rows(db, qs[i])) {
        ExactBoundsOccur(db, sources, qs[i]);
      }
      UnionOccur(db, Columns(p), qs, es);
      UnionMeans(db, qs, p.distinct);
      AllDeduplicated(Concat(db, qs));
      OccurStill(RelStats(0, false, UnionColumns(Columns(p), es)), Estimate(sources, p), Concat(db, qs), Rows(db, p));
    }
  }

  // --- Bounds are never loosened ---------------------------------------------------

  /** Both bounds are at least as tight, and the index is still there. */
  ghost predicate NoLooser(c': ColumnStat, c: ColumnStat) {
    && (c.min.Some? ==> c'.min.Some? && !Less(c'.min.value, c.min.value))
    && (c.max.Some? ==> c'.max.Some? && !Less(c.max.value, c'.max.value))
    && c'.bloom == c.bloom
  }

  lemma NoLooserThrough(c'': ColumnStat, c': ColumnStat, c: ColumnStat)
    requires NoLooser(c'', c') && NoLooser(c', c)
    ensures NoLooser(c'', c)
  {
    if c.min.Some? {
      LessOrder(c''.min.value, c.min.value, c'.min.value);
    }
    if c.max.Some? {
      LessOrder(c.max.value, c''.max.value, c'.max.value);
    }
  }

  lemma {:induction false} TightenedNoLooser(lo: Value, hi: Value, ps: seq<Pred>, name: string, kind: Kind)
    ensures var t := Tightened(lo, hi, ps, name, kind); !Less(t.0, lo) && !Less(hi, t.1)
    decreases ps
  {
    TextOrder();
    if ps != [] {
      var i := ImpliedInterval(ps[0], name, kind);
      var lo', hi' := Raised(lo, i.low), Lowered(hi, i.high);
      TightenedNoLooser(lo', hi', ps[1..], name, kind);
      var t := Tightened(lo', hi', ps[1..], name, kind);
      LessOrder(t.0, lo, lo');
      LessOrder(hi, t.1, hi');
    }
  }

  lemma NarrowedNoLooser(c: ColumnStat, w: Pred, name: string)
    ensures NoLooser(Narrowed(c, w, name), c)
  {
    TextOrder();
    if c.min.Some? && c.max.Some? && KindOf(c.min.value) == KindOf(c.max.value) {
      TightenedNoLooser(c.min.value, c.max.value, Conjuncts(w), name, KindOf(c.min.value));
    }
  }

  /** An operator over one input keeps the bounds and the index of every column, unless it
      knows that there are no rows. */
  lemma OperatorKeepsBounds(sources: Catalog, p: Plan, name: string)
    requires OverOne(p) && name in Estimate(sources, p.input).columns
    ensures
      var e := Estimate(sources, p);
      || CountIs(e, 0)
      || (name in e.columns && NoLooser(e.columns[name], Estimate(sources, p.input).columns[name]))
  {
    TextOrder();
    var e := Estimate(sources, p.input);
    if p.Filter? {
      NarrowedNoLooser(Weakened(e.columns[name]), p.test, name);
    }
  }

  /** What a tower of such operators stands on. */
  ghost function Below(p: Plan): Plan {
    match p
    case Filter(q, _) => Below(q)
    case Sort(q, _) => Below(q)
    case Distinct(q) => Below(q)
    case Sample(q, _) => Below(q)
    case Limit(q, _, _) => Below(q)
    case Scan(_, _) => p
    case Union(_, _) => p
    case Join(_, _, _, _, _) => p
  }

  /** Somewhere in a tower there are known to be no rows. */
  ghost predicate KnownEmpty(sources: Catalog, p: Plan) {
    CountIs(Estimate(sources, p), 0) || (OverOne(p) && KnownEmpty(sources, p.input))
  }

  /** So the bounds of a source reach the top of any tower over it. */
  lemma {:induction false} BoundsReachTheTop(sources: Catalog, p: Plan, name: string)
    requires name in Estimate(sources, Below(p)).columns && !KnownEmpty(sources, p)
    ensures name in Estimate(sources, p).columns
    ensures NoLooser(Estimate(sources, p).columns[name], Estimate(sources, Below(p)).columns[name])
    decreases p
  {
    TextOrder();
    if OverOne(p) {
      BoundsReachTheTop(sources, p.input, name);
      OperatorKeepsBounds(sources, p, name);
      NoLooserThrough(Estimate(sources, p).columns[name], Estimate(sources, p.input).columns[name],
                      Estimate(sources, Below(p)).columns[name]);
    }
  }

  // --- A filter narrows as far as its conjuncts say ----------------------------------

  /** One of the predicates that a predicate is the conjunction of. */
  ghost predicate ConjunctOf(p: Pred, w: Pred) {
    match w
    case And(l, r) => ConjunctOf(p, l) || ConjunctOf(p, r)
    case _ => p == w
  }

  lemma {:induction false} ConjunctListed(p: Pred, w: Pred)
    requires ConjunctOf(p, w)
    ensures p in Conjuncts(w)
  {
    if w.And? {
      if ConjunctOf(p, w.left) {
        ConjunctListed(p, w.left);
      } else {
        ConjunctListed(p, w.right);
      }
    }
  }

  /** The interval lies within the bounds, as far as it has ends. */
  ghost predicate Reaches(lo: Value, hi: Value, i: Interval) {
    && (i.low.Some? && i.low.value != NaN ==> !Less(lo, i.low.value))
    && (i.high.Some? && i.high.value != NaN ==> !Less(i.high.value, hi))
  }

  lemma StepReaches(lo: Value, hi: Value, i: Interval, kind: Kind)
    requires KindOf(lo) == KindOf(hi) == kind && lo != NaN && hi != NaN
    requires OfKind(i.low, kind) && OfKind(i.high, kind)
    ensures Reaches(Raised(lo, i.low), Lowered(hi, i.high), i)
    ensures Raised(lo, i.low) != NaN && Lowered(hi, i.high) != NaN
    ensures KindOf(Raised(lo, i.low)) == KindOf(Lowered(hi, i.high)) == kind
  {
    TextOrder();
  }

  lemma {:induction false} TightenedReaches(lo: Value, hi: Value, ps: seq<Pred>, name: string, kind: Kind, p: Pred)
    requires KindOf(lo) == KindOf(hi) == kind && lo != NaN && hi != NaN && p in ps
    ensures
      var t := Tightened(lo, hi, ps, name, kind);
      Reaches(t.0, t.1, ImpliedInterval(p, name, kind))
    decreases ps
  {
    var i := ImpliedInterval(ps[0], name, kind);
    var lo', hi' := Raised(lo, i.low), Lowered(hi, i.high);
    ImpliedOfKind(ps[0], name, kind);
    StepReaches(lo, hi, i, kind);
    if p == ps[0] {
      TightenedNoLooser(lo', hi', ps[1..], name, kind);
      var t := Tightened(lo', hi', ps[1..], name, kind);
      ReachesOn(lo', hi', t.0, t.1, i);
    } else {
      TightenedReaches(lo', hi', ps[1..], name, kind, p);
    }
  }

  lemma ReachesOn(lo: Value, hi: Value, lo': Value, hi': Value, i: Interval)
    requires Reaches(lo, hi, i) && !Less(lo', lo) && !Less(hi, hi')
    ensures Reaches(lo', hi', i)
  {
    if i.low.Some? {
      LessOrder(lo', i.low.value, lo);
    }
    if i.high.Some? {
      LessOrder(i.high.value, hi', hi);
    }
  }

  /** Statistics with both bounds, of one type, neither NaN. */
  ghost predicate Bounded(c: ColumnStat, kind: Kind) {
    c.min.Some? && c.max.Some? && StatOfKind(c, kind) && c.min != Some(NaN) && c.max != Some(NaN)
  }

  /** Where any row satisfies the predicate at all, the narrowed bounds lie within what each
      of its conjuncts implies. */
  lemma NarrowedReaches(env: Env, row: Row, w: Pred, c: ColumnStat, name: string, x: Value, p: Pred)
    requires Eval(env, row, w) == Some(true) && Cell(row, name) == Some(x) && Fits(c, x) && Bounded(c, KindOf(x))
    requires ConjunctOf(p, w)
    ensures Bounded(Narrowed(c, w, name), KindOf(x))
    ensures
      Reaches(Narrowed(c, w, name).min.value, Narrowed(c, w, name).max.value, ImpliedInterval(p, name, KindOf(x)))
  {
    var lo, hi, kind := c.min.value, c.max.value, KindOf(x);
    ConjunctsHold(env, row, w);
    ConjunctListed(p, w);
    TightenedHolds(env, row, lo, hi, Conjuncts(w), name, x);
    TightenedOfKind(lo, hi, Conjuncts(w), name, kind);
    TightenedReaches(lo, hi, Conjuncts(w), name, kind, p);
    var t := Tightened(lo, hi, Conjuncts(w), name, kind);
    LessOrder(t.1, t.0, x);
    assert !Python(Gt, t.0, t.1);
  }

  /** In particular a comparison with a literal of the column's type, on either side, puts
      the bound on its side no further than the literal. */
  lemma ComparisonNarrows(
    env: Env, row: Row, w: Pred, c: ColumnStat, name: string, x: Value, op: Op, v: Value, turned: bool)
    requires Eval(env, row, w) == Some(true) && Cell(row, name) == Some(x) && Fits(c, x) && Bounded(c, KindOf(x))
    requires KindOf(v) == KindOf(x) && v != NaN
    requires ConjunctOf(
      if turned then Compare(op, Lit(Some(v)), Col(name)) else Compare(op, Col(name), Lit(Some(v))), w)
    ensures
      var n := Narrowed(c, w, name);
      && (op == Eq || op in (if turned then {Lt, Le} else {Gt, Ge}) ==> !Less(n.min.value, v))
      && (op == Eq || op in (if turned then {Gt, Ge} else {Lt, Le}) ==> !Less(v, n.max.value))
  {
    var p := if turned then Compare(op, Lit(Some(v)), Col(name)) else Compare(op, Col(name), Lit(Some(v)));
    NarrowedReaches(env, row, w, c, name, x, p);
  }

  /** And a list puts both bounds no further than some member. */
  lemma ListNarrows(env: Env, row: Row, w: Pred, c: ColumnStat, name: string, x: Value, values: seq<Value>)
    requires Eval(env, row, w) == Some(true) && Cell(row, name) == Some(x) && Fits(c, x) && Bounded(c, KindOf(x))
    requires ConjunctOf(In(Col(name), values), w) && values != [] && Ordinary(values, KindOf(x))
    ensures exists v | v in values :: !Less(Narrowed(c, w, name).min.value, v)
    ensures exists v | v in values :: !Less(v, Narrowed(c, w, name).max.value)
  {
    NarrowedReaches(env, row, w, c, name, x, In(Col(name), values));
    var cur, rest := values[0], values[1..];
    assert values == [cur] + rest;
    assert forall v | v in values :: KindOf(v) == KindOf(x) && v != NaN;
    SmallestExists(cur, rest);
    LargestExists(cur, rest);
  }

  // --- When a join is known to be empty ----------------------------------------------

  /** Rows for the sides of a join that fit what is known about their number. */
  ghost predicate Possible(l: RelStats, r: RelStats, lefts: seq<Row>, rights: seq<Row>) {
    (CountIs(l, 0) ==> lefts == []) && (CountIs(r, 0) ==> rights == [])
  }

  ghost function Filled(keys: seq<(string, string)>, left: bool): Row {
    map i | 0 <= i < |keys| :: (if left then keys[i].0 else keys[i].1) := Some(Int(0))
  }

  lemma FilledPair(keys: seq<(string, string)>)
    ensures Pair(keys, Filled(keys, true), Filled(keys, false))
  {
    forall k | k in keys
      ensures
        var l, r := Filled(keys, true), Filled(keys, false);
        k.0 in l && l[k.0].Some? && k.1 in r && r[k.1].Some? && Engine(Eq, l[k.0].value, r[k.1].value)
    {
      var i :| 0 <= i < |keys| && keys[i] == k;
    }
  }

  /** A join is known to be empty exactly when what is known of its sides makes it empty: no
      rows they may have leave it one. */
  lemma JoinEmptyExactly(kind: JoinKind, keys: seq<(string, string)>, output: seq<Output>, l: RelStats, r: RelStats)
    ensures CountIs(JoinStats(kind, keys, output, l, r), 0)
       <==> forall lefts, rights | Possible(l, r, lefts, rights) :: Joined(kind, keys, output, lefts, rights) == []
  {
    if JoinEmpty(kind, l, r) {
      forall lefts, rights | Possible(l, r, lefts, rights)
        ensures Joined(kind, keys, output, lefts, rights) == []
      {
        NothingJoined(kind, keys, output, l, r, lefts, rights);
      }
    } else {
      var lefts, rights := SomethingJoined(kind, keys, output, l, r);
    }
  }

  lemma NothingJoined(
    kind: JoinKind, keys: seq<(string, string)>, output: seq<Output>, l: RelStats, r: RelStats,
    lefts: seq<Row>, rights: seq<Row>)
    requires JoinEmpty(kind, l, r) && Possible(l, r, lefts, rights)
    ensures Joined(kind, keys, output, lefts, rights) == []
  {
    var rows := Joined(kind, keys, output, lefts, rights);
    if rows != [] {
      JoinedIsEmitted(kind, keys, output, lefts, rights, rows[0]);
    }
  }

  lemma SomethingJoined(
    kind: JoinKind, keys: seq<(string, string)>, output: seq<Output>, l: RelStats, r: RelStats)
    returns (lefts: seq<Row>, rights: seq<Row>)
    requires !JoinEmpty(kind, l, r)
    ensures Possible(l, r, lefts, rights) && Joined(kind, keys, output, lefts, rights) != []
  {
    var a, b := Filled(keys, true), Filled(keys, false);
    FilledPair(keys);
    lefts := if CountIs(l, 0) then [] else [a];
    rights := if CountIs(r, 0) || kind == Anti then [] else [b];
    var left := if lefts == [] then None else Some(a);
    var right := if rights == [] || kind == Semi then None else Some(b);
    FilledEmits(kind, keys, lefts, rights, a, b, left, right);
    EmittedIsJoined(kind, keys, output, lefts, rights, left, right);
  }

  lemma FilledEmits(
    kind: JoinKind, keys: seq<(string, string)>, lefts: seq<Row>, rights: seq<Row>, a: Row, b: Row,
    left: Option<Row>, right: Option<Row>)
    requires Pair(keys, a, b) && (lefts == [] || lefts == [a]) && (rights == [] || rights == [b])
    requires left == if lefts == [] then None else Some(a)
    requires right == if rights == [] || kind == Semi then None else Some(b)
    requires kind in {Inner, Semi} ==> lefts != [] && rights != []
    requires kind in {LeftOuter, Anti} ==> lefts != []
    requires kind == Anti ==> rights == []
    requires kind == RightOuter ==> rights != []
    requires kind == FullOuter ==> lefts != [] || rights != []
    ensures Emits(kind, keys, lefts, rights, left, right)
  {
    if lefts != [] {
      assert a in lefts;
    }
    if rights != [] {
      assert b in rights;
    }
  }

  // --- The columns of a join ---------------------------------------------------------

  lemma IntersectedNoLooser(c: ColumnStat, other: ColumnStat)
    ensures NoLooser(Intersected(c, other), c)
  {
    TextOrder();
  }

  lemma {:induction false} ColumnKept(
    kind: JoinKind, keys: seq<(string, string)>, output: seq<Output>, l: RelStats, r: RelStats, o: Output)
    requires NoRepeats(Aliases(output)) && o in output && o.name in (if o.left then l else r).columns
    ensures o.shown in JoinColumns(kind, keys, output, l, r)
    ensures Some(JoinColumns(kind, keys, output, l, r)[o.shown]) == JoinColumn(kind, keys, o, l, r)
    decreases output
  {
    ShownOnce(output);
    if o != output[0] {
      ColumnKept(kind, keys, output[1..], l, r, o);
    }
  }

  /** A join that is not known to be empty keeps the bounds of every column it shows. */
  lemma JoinKeepsBounds(
    kind: JoinKind, keys: seq<(string, string)>, output: seq<Output>, l: RelStats, r: RelStats, o: Output)
    requires NoRepeats(Aliases(output)) && o in output && o.name in (if o.left then l else r).columns
    requires !CountIs(JoinStats(kind, keys, output, l, r), 0)
    ensures
      var e := JoinStats(kind, keys, output, l, r);
      o.shown in e.columns && NoLooser(e.columns[o.shown], (if o.left then l else r).columns[o.name])
  {
    ColumnKept(kind, keys, output, l, r, o);
    TextOrder();
    var c := (if o.left then l else r).columns[o.name];
    var other := Paired(keys, o.left, o.name, l, r);
    if other.Some? {
      IntersectedNoLooser(c, other.value);
    }
  }

  /** Bounds that are numbers other than zero and NaN. */
  ghost predicate Numeric(c: ColumnStat) {
    c.min.Some? && c.max.Some? && Plain(c.min.value) && Plain(c.max.value)
  }

  ghost predicate Plain(v: Value) {
    !v.Str? && v != NaN && v != NegZero && v != Float(0.0)
  }

  ghost predicate InBounds(c: ColumnStat, x: Value) {
    c.min.Some? && c.max.Some? && Within(c.min.value, c.max.value, x)
  }

  lemma IntersectedMeets(c: ColumnStat, other: ColumnStat, x: Value)
    requires Numeric(c) && Numeric(other) && InBounds(c, x) && InBounds(other, x)
    ensures
      var t := Intersected(c, other);
      && t.min.Some? && !Less(t.min.value, other.min.value)
      && t.max.Some? && !Less(other.max.value, t.max.value)
  {
    var low := if Python(Gt, other.min.value, c.min.value) then other.min.value else c.min.value;
    var high := if Python(Lt, other.max.value, c.max.value) then other.max.value else c.max.value;
    LessOrder(high, low, x);
    assert !Python(Gt, low, high);
  }

  lemma {:induction false} LastPair(
    keys: seq<(string, string)>, left: bool, name: string, l: RelStats, r: RelStats, i: nat)
    requires i < |keys| && (if left then keys[i].0 else keys[i].1) == name
    requires keys[i].0 in l.columns && keys[i].1 in r.columns
    requires forall j | i < j < |keys| :: (if left then keys[j].0 else keys[j].1) != name
    ensures Paired(keys, left, name, l, r) == Some(if left then r.columns[keys[i].1] else l.columns[keys[i].0])
    decreases |keys|
  {
    if i < |keys| - 1 {
      LastPair(keys[..|keys| - 1], left, name, l, r, i);
    }
  }

  /** Where only matches survive, a key column is bounded by both of its sides. */
  lemma KeysBoundEachOther(
    kind: JoinKind, keys: seq<(string, string)>, output: seq<Output>, l: RelStats, r: RelStats, o: Output, i: nat,
    x: Value)
    requires NoRepeats(Aliases(output)) && o in output && kind in {Inner, Semi} && i < |keys|
    requires !CountIs(JoinStats(kind, keys, output, l, r), 0)
    requires (if o.left then keys[i].0 else keys[i].1) == o.name && keys[i].0 in l.columns && keys[i].1 in r.columns
    requires forall j | i < j < |keys| :: (if o.left then keys[j].0 else keys[j].1) != o.name
    requires Numeric(l.columns[keys[i].0]) && InBounds(l.columns[keys[i].0], x)
    requires Numeric(r.columns[keys[i].1]) && InBounds(r.columns[keys[i].1], x)
    ensures
      var e := JoinStats(kind, keys, output, l, r);
      && o.shown in e.columns && e.columns[o.shown].min.Some? && e.columns[o.shown].max.Some?
      && !Less(e.columns[o.shown].min.value, l.columns[keys[i].0].min.value)
      && !Less(e.columns[o.shown].min.value, r.columns[keys[i].1].min.value)
      && !Less(l.columns[keys[i].0].max.value, e.columns[o.shown].max.value)
      && !Less(r.columns[keys[i].1].max.value, e.columns[o.shown].max.value)
  {
    ColumnKept(kind, keys, output, l, r, o);
    LastPair(keys, o.left, o.name, l, r, i);
    var a, b := l.columns[keys[i].0], r.columns[keys[i].1];
    var c, other := if o.left then a else b, if o.left then b else a;
    IntersectedMeets(c, other, x);
    IntersectedNoLooser(c, other);
  }
}
