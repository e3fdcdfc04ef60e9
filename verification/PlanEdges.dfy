/** Where the two rules stop being right, and exactly when they are: literals that a cast
    merges with a cell, a union whose statistics lose a NaN, and a union whose type changes
    with its branches.
 */
module PlanEdges {
  import opened Common
  import opened Doubles
  import opened ZoneMaps
  import opened Plans
  import opened Sources
  import opened Estimates
  import opened PlanRewrites

  // --- When pruning is right -------------------------------------------------------

  lemma KeptCons(env: Env, w: Pred, x: Row, rows: seq<Row>)
    ensures Kept(env, w, [x] + rows) == (if Eval(env, x, w) == Some(true) then [x] else []) + Kept(env, w, rows)
  {
    assert ([x] + rows)[0] == x && ([x] + rows)[1..] == rows;
  }

  lemma RowsRegrouped(a: seq<Row>, b: seq<Row>, c: seq<Row>)
    ensures a + (b + c) == (a + b) + c
  {
  }

  lemma {:induction false} KeptConcat(env: Env, w: Pred, a: seq<Row>, b: seq<Row>)
    ensures Kept(env, w, a + b) == Kept(env, w, a) + Kept(env, w, b)
  {
    if a == [] {
      assert a + b == b;
    } else {
      var x, rest := a[0], a[1..];
      KeptConcat(env, w, rest, b);
      KeptCons(env, w, x, rest);
      KeptCons(env, w, x, rest + b);
      RowsRegrouped([x], rest, b);
      RowsRegrouped(if Eval(env, x, w) == Some(true) then [x] else [], Kept(env, w, rest), Kept(env, w, b));
      assert [x] + rest == a;
    }
  }

  /** Whether every row passes, and whether none does. */
  lemma {:induction false} KeptExactly(env: Env, w: Pred, rows: seq<Row>)
    ensures |Kept(env, w, rows)| <= |rows|
    ensures Kept(env, w, rows) == rows ==> forall i | 0 <= i < |rows| :: Eval(env, rows[i], w) == Some(true)
    ensures Kept(env, w, rows) == [] ==> forall i | 0 <= i < |rows| :: Eval(env, rows[i], w) != Some(true)
  {
    if rows != [] {
      var x, rest := rows[0], rows[1..];
      assert rows == [x] + rest;
      KeptExactly(env, w, rest);
      KeptCons(env, w, x, rest);
      if Kept(env, w, rows) == rows {
        assert Kept(env, w, rows)[1..] == rest;
      }
    }
  }

  /** Some row's cell is merged with the literal. */
  ghost predicate RowMerges(rows: seq<Row>, name: string, v: Value) {
    exists i | 0 <= i < |rows| :: !Apart(Cell(rows[i], name), v)
  }

  /** Pruning a comparison of a column with a literal keeps the rows if and only if the cast
      merges the literal with no row, or the decision is the one for equal values. */
  lemma PruneExactly(db: Db, estimate: Plan -> RelStats, q: Plan, name: string, op: Op, v: Value, d: bool)
    requires Describes(estimate(q), Rows(db, q)) && ComparisonStatus(Column(estimate(q), name), op, v) == Some(d)
    ensures
      var p := Filter(q, Compare(op, Col(name), Lit(Some(v))));
      Rows(db, PruneNode(estimate, p)) == Rows(db, p)
      <==> d == HoldsOfEqual(op) || !RowMerges(Rows(db, q), name, v)
  {
    RowsPruned(db.env, estimate(q), Rows(db, q), name, op, v, d);
  }

  lemma RowsPruned(env: Env, e: RelStats, rows: seq<Row>, name: string, op: Op, v: Value, d: bool)
    requires Describes(e, rows) && ComparisonStatus(Column(e, name), op, v) == Some(d)
    ensures Kept(env, Compare(op, Col(name), Lit(Some(v))), rows) == (if d then rows else [])
       <==> d == HoldsOfEqual(op) || !RowMerges(rows, name, v)
  {
    var w := Compare(op, Col(name), Lit(Some(v)));
    forall i | 0 <= i < |rows| ensures RowRight(env, rows[i], w, d) <==> RowClear(rows[i], name, v, op, d) {
      RowDecided(env, e, rows, i, name, op, v, d);
    }
    AllClear(rows, name, v, op, d);
    KeptRight(env, w, rows, d);
  }

  lemma AllClear(rows: seq<Row>, name: string, v: Value, op: Op, d: bool)
    ensures (forall i | 0 <= i < |rows| :: RowClear(rows[i], name, v, op, d))
       <==> d == HoldsOfEqual(op) || !RowMerges(rows, name, v)
  {
  }

  /** A row on which the decision is right, and one that the cast leaves alone. */
  ghost predicate RowRight(env: Env, row: Row, w: Pred, d: bool) {
    if d then Eval(env, row, w) == Some(true) else Eval(env, row, w) != Some(true)
  }

  ghost predicate RowClear(row: Row, name: string, v: Value, op: Op, d: bool) {
    Apart(Cell(row, name), v) || d == HoldsOfEqual(op)
  }

  lemma RowDecided(env: Env, e: RelStats, rows: seq<Row>, i: nat, name: string, op: Op, v: Value, d: bool)
    requires Describes(e, rows) && i < |rows| && ComparisonStatus(Column(e, name), op, v) == Some(d)
    ensures RowRight(env, rows[i], Compare(op, Col(name), Lit(Some(v))), d) <==> RowClear(rows[i], name, v, op, d)
  {
    ColumnFits(e, rows, name, i);
    AlwaysTrueNeedsNoNulls(Column(e, name), op, v);
    if Cell(rows[i], name).Some? {
      ComparisonExactly(Column(e, name), op, v, Cell(rows[i], name).value);
    }
  }

  /** Keeping all the rows, or none of them, is the filter exactly when every row agrees. */
  lemma KeptRight(env: Env, w: Pred, rows: seq<Row>, d: bool)
    ensures Kept(env, w, rows) == (if d then rows else [])
       <==> forall i | 0 <= i < |rows| :: RowRight(env, rows[i], w, d)
  {
    KeptExactly(env, w, rows);
    if forall i | 0 <= i < |rows| :: RowRight(env, rows[i], w, d) {
      if d {
        assert forall i | 0 <= i < |rows| :: RowRight(env, rows[i], w, d) ==> Eval(env, rows[i], w) == Some(true);
        KeptAll(env, w, rows);
      } else {
        assert forall i | 0 <= i < |rows| :: RowRight(env, rows[i], w, d) ==> Eval(env, rows[i], w) != Some(true);
        KeptNone(env, w, rows);
      }
    }
  }

  /** A literal that the cast merges with no value of the type: one of the type itself, or a
      number short of 2^53. */
  predicate Harmless(kind: Kind, v: Value) {
    || KindOf(v) == kind || v.Str? || v.NaN? || v.NegZero?
    || (v.Int? && -EXACT_LIMIT <= v.i <= EXACT_LIMIT)
    || (v.Float? && (-EXACT_LIMIT) as real < v.r < EXACT_LIMIT as real)
  }

  lemma HarmlessNeverMerges(x: Value, v: Value)
    requires Harmless(KindOf(x), v)
    ensures !Merges(x, v)
  {
    if Merges(x, v) && x.Int? {
      MergesOnlyBeyond(x, v);
    } else if Merges(x, v) && v.Int? {
      MergesOnlyBeyond(v, x);
    }
  }

  /** Every literal of the predicate is harmless beside the column it is compared to. */
  predicate LiteralsHarmless(db: Db, q: Plan, w: Pred) {
    match w
    case And(l, r) => LiteralsHarmless(db, q, l) && LiteralsHarmless(db, q, r)
    case Or(l, r) => LiteralsHarmless(db, q, l) && LiteralsHarmless(db, q, r)
    case Not(p) => LiteralsHarmless(db, q, p)
    case Compare(_, l, r) =>
      && (l.Col? && r.Lit? && r.value.Some? ==> Harmless(ColumnKind(db, q, l.name), r.value.value))
      && (r.Col? && l.Lit? && l.value.Some? ==> Harmless(ColumnKind(db, q, r.name), l.value.value))
    case In(t, values) =>
      t.Col? ==> forall i | 0 <= i < |values| :: Harmless(ColumnKind(db, q, t.name), values[i])
    case Const(_) => true
    case IsNull(_) => true
    case IsNotNull(_) => true
    case Opaque(_) => true
  }

  /** Which can be seen from the predicate and the types: then the cast merges nothing in any
      row, whatever the tables hold. */
  lemma {:induction false} HarmlessUnmerged(db: Db, q: Plan, w: Pred, row: Row)
    requires LiteralsHarmless(db, q, w) && RowKinded(db, q, row)
    ensures Unmerged(w, row)
  {
    match w
    case And(l, r) =>
      HarmlessUnmerged(db, q, l, row);
      HarmlessUnmerged(db, q, r, row);
    case Or(l, r) =>
      HarmlessUnmerged(db, q, l, row);
      HarmlessUnmerged(db, q, r, row);
    case Not(p) => HarmlessUnmerged(db, q, p, row);
    case Compare(_, l, r) =>
      if l.Col? && r.Lit? && r.value.Some? {
        CellApart(db, q, l.name, r.value.value, row);
      }
      if r.Col? && l.Lit? && l.value.Some? {
        CellApart(db, q, r.name, l.value.value, row);
      }
    case In(t, values) =>
      if t.Col? {
        forall i | 0 <= i < |values| ensures Apart(Cell(row, t.name), values[i]) {
          CellApart(db, q, t.name, values[i], row);
        }
      }
    case _ =>
  }

  lemma CellApart(db: Db, q: Plan, name: string, v: Value, row: Row)
    requires RowKinded(db, q, row) && Harmless(ColumnKind(db, q, name), v)
    ensures Apart(Cell(row, name), v)
  {
    assert OfKind(Cell(row, name), ColumnKind(db, q, name));
    if Cell(row, name).Some? {
      HarmlessNeverMerges(Cell(row, name).value, v);
    }
  }

  // --- A union that loses a NaN ----------------------------------------------------

  /** A table in memory, whose bounds are in the engine's order. */
  function InMemory(rows: nat, min: Value, max: Value): Source {
    Source(Some(rows), true, map["f" := ColumnStat(Some(min), Some(max), Some(0), true, true, None)], true)
  }

  lemma InMemoryDeclares(rows: seq<Row>, min: Value, max: Value)
    requires min != NaN && !min.Str?
    requires forall i | 0 <= i < |rows| ::
               Cell(rows[i], "f").Some? && Within(min, max, Cell(rows[i], "f").value)
    ensures Declares(InMemory(|rows|, min, max), rows)
  {
    OneColumnDeclares(InMemory(|rows|, min, max), rows, min, max);
  }

  /** Two branches in memory: the merged bounds are Python's extremes of the two. */
  lemma MergedPair(a: ColumnStat, b: ColumnStat)
    requires a.min.Some? && a.max.Some? && b.min.Some? && b.max.Some?
    requires !Incomparable(b.min.value, a.min.value) && !Incomparable(b.max.value, a.max.value)
    ensures Merged([a, b]).min == if Python(Lt, b.min.value, a.min.value) then b.min else a.min
    ensures Merged([a, b]).max == if Python(Gt, b.max.value, a.max.value) then b.max else a.max
  {
    var cs := [a, b];
    assert cs[1..] == [b] && cs[1..][1..] == [];
    assert Lows(cs[1..]) == [b.min.value] && Highs(cs[1..]) == [b.max.value];
    assert Lows(cs) == [a.min.value, b.min.value] && Highs(cs) == [a.max.value, b.max.value];
    assert Lows(cs)[1..] == [b.min.value] && Highs(cs)[1..] == [b.max.value];
    PairExtremes(a.min.value, b.min.value);
    PairExtremes(a.max.value, b.max.value);
  }

  lemma PairExtremes(x: Value, y: Value)
    requires !Incomparable(y, x)
    ensures Smallest(x, [y]) == Some(if Python(Lt, y, x) then y else x)
    ensures Largest(x, [y]) == Some(if Python(Gt, y, x) then y else x)
  {
    assert [y][1..] == [];
  }

  function TwoTables(): Plan {
    Union([Scan("a", ["f"]), Scan("b", ["f"])], false)
  }

  lemma TwoTablesEstimated(sources: Catalog, lo: Value, hi: Value, lo': Value, hi': Value, n: nat, n': nat)
    requires sources("a", ["f"]) == InMemory(n, lo, hi) && sources("b", ["f"]) == InMemory(n', lo', hi') && n > 0
    requires !Incomparable(lo', lo) && !Incomparable(hi', hi)
    ensures "f" in Estimate(sources, TwoTables()).columns
    ensures
      var c := Estimate(sources, TwoTables()).columns["f"];
      && c.min == Some(if Python(Lt, lo', lo) then lo' else lo)
      && c.max == Some(if Python(Gt, hi', hi) then hi' else hi) && c.bloom == None
  {
    var u := TwoTables();
    var es := EstimateAll(sources, u, 0);
    assert u.inputs[0] == Scan("a", ["f"]) && u.inputs[1] == Scan("b", ["f"]);
    assert es[0] == ToRelStats(InMemory(n, lo, hi)) && es[1] == ToRelStats(InMemory(n', lo', hi'));
    assert !ProvablyEmpty(es[0]);
    var cs := Branches(es, "f");
    assert cs == [cs[0], cs[1]];
    MergedPair(cs[0], cs[1]);
    assert Columns(u) == ["f"] && AllHave(es, "f");
  }

  lemma TwoTablesRows(db: Db)
    ensures Rows(db, TwoTables()) == db.table("a", ["f"]) + db.table("b", ["f"])
  {
    var u := TwoTables();
    assert UnionRows(db, u, 2) == [];
    assert UnionRows(db, u, 1) == Rows(db, u.inputs[1]) + UnionRows(db, u, 2);
  }

  /** A union of two tables in memory, the second of which holds NaN: Python's maximum of the
      two maxima is the number, so the filter that only NaN passes is pruned to nothing. */
  lemma UnionLosesNaN(db: Db, sources: Catalog, w: Pred)
    requires db.table("a", ["f"]) == [map["f" := Some(Float(1.0))]]
    requires db.table("b", ["f"]) == [map["f" := Some(Float(2.0))], map["f" := Some(NaN)]]
    requires sources("a", ["f"]) == InMemory(1, Float(1.0), Float(1.0))
    requires sources("b", ["f"]) == InMemory(2, Float(2.0), NaN)
    requires w == Compare(Gt, Col("f"), Lit(Some(Float(9.0))))
    ensures Declares(sources("a", ["f"]), db.table("a", ["f"])) && Declares(sources("b", ["f"]), db.table("b", ["f"]))
    ensures map["f" := Some(NaN)] in Rows(db, Filter(TwoTables(), w))
    ensures PruneNode(Estimator(sources), Filter(TwoTables(), w)) == Limit(TwoTables(), 0, 0)
  {
    var a, b := db.table("a", ["f"]), db.table("b", ["f"]);
    assert Cell(b[1], "f") == Some(NaN);
    InMemoryDeclares(a, Float(1.0), Float(1.0));
    InMemoryDeclares(b, Float(2.0), NaN);
    TwoTablesRows(db);
    NaNKept(db.env, a + b, 2, w);
    TwoTablesPruned(sources, w);
  }

  lemma NaNKept(env: Env, rows: seq<Row>, k: nat, w: Pred)
    requires k < |rows| && rows[k] == map["f" := Some(NaN)]
    requires w == Compare(Gt, Col("f"), Lit(Some(Float(9.0))))
    ensures rows[k] in Kept(env, w, rows)
  {
    KeptConcat(env, w, rows[..k], rows[k..]);
    assert rows == rows[..k] + rows[k..];
    assert Eval(env, rows[k], w) == Some(true);
    assert rows[k..][0] == rows[k];
  }

  lemma TwoTablesPruned(sources: Catalog, w: Pred)
    requires sources("a", ["f"]) == InMemory(1, Float(1.0), Float(1.0))
    requires sources("b", ["f"]) == InMemory(2, Float(2.0), NaN)
    requires w == Compare(Gt, Col("f"), Lit(Some(Float(9.0))))
    ensures PruneNode(Estimator(sources), Filter(TwoTables(), w)) == Limit(TwoTables(), 0, 0)
  {
    TwoTablesEstimated(sources, Float(1.0), Float(1.0), Float(2.0), NaN, 1, 2);
    var e := Estimate(sources, TwoTables());
    assert ComparisonStatus(Column(e, "f"), Gt, Float(9.0)) == Some(false);
    assert PredicateStatus(w, e) == Some(false);
  }

  // --- The type of a union ---------------------------------------------------------

  /** `promote`: an integer column beside a double one becomes double. */
  function Promoted(a: Kind, b: Kind): Option<Kind> {
    if a == b then Some(a) else if a == TextKind || b == TextKind then None else Some(DoubleKind)
  }

  function PromotedAll(kind: Kind, kinds: seq<Kind>): Option<Kind>
    decreases kinds
  {
    if kinds == [] then Some(kind)
    else
      match Promoted(kind, kinds[0])
      case None => None
      case Some(k) => PromotedAll(k, kinds[1..])
  }

  function KindsAt(db: Db, qs: seq<Plan>, name: string): (r: seq<Kind>)
    ensures |r| == |qs| && forall i | 0 <= i < |qs| :: r[i] == ColumnKind(db, qs[i], name)
  {
    if qs == [] then [] else [ColumnKind(db, qs[0], name)] + KindsAt(db, qs[1..], name)
  }

  /** `Union.available_schema`, at one column. */
  function UnionKind(db: Db, qs: seq<Plan>, name: string): Option<Kind>
    requires qs != []
  {
    var kinds := KindsAt(db, qs, name);
    PromotedAll(kinds[0], kinds[1..])
  }

  /** The types are text together or numbers together. */
  predicate Agree(kind: Kind, kinds: seq<Kind>) {
    forall i | 0 <= i < |kinds| :: (kinds[i] == TextKind <==> kind == TextKind)
  }

  /** A promotion succeeds on all text or on all numbers, and is double if one of them is. */
  lemma {:induction false} PromotedMeans(kind: Kind, kinds: seq<Kind>)
    ensures PromotedAll(kind, kinds).Some? <==> Agree(kind, kinds)
    ensures PromotedAll(kind, kinds).Some? ==>
              (PromotedAll(kind, kinds).value == DoubleKind <==> kind == DoubleKind || DoubleKind in kinds)
    ensures PromotedAll(kind, kinds).Some? ==> (PromotedAll(kind, kinds).value == TextKind <==> kind == TextKind)
    decreases kinds
  {
    if kinds != [] {
      assert kinds == [kinds[0]] + kinds[1..];
      if Promoted(kind, kinds[0]).Some? {
        var next := Promoted(kind, kinds[0]).value;
        PromotedMeans(next, kinds[1..]);
        assert Agree(kind, kinds) <==> Agree(next, kinds[1..]);
      }
    }
  }

  /** Promoting some of the types gives the same type if and only if it is not double or one
      of them is. */
  lemma SomePromoted(all: seq<Kind>, some: seq<Kind>, k: Kind)
    requires all != [] && some != [] && PromotedAll(all[0], all[1..]) == Some(k)
    requires forall x | x in some :: x in all
    ensures PromotedAll(some[0], some[1..]) == Some(k) <==> (k == DoubleKind ==> DoubleKind in some)
  {
    PromotedMeans(all[0], all[1..]);
    PromotedMeans(some[0], some[1..]);
    assert all == [all[0]] + all[1..] && some == [some[0]] + some[1..];
    assert forall x | x in all :: (x == TextKind <==> all[0] == TextKind);
    assert some[0] in some && some[0] in all;
    forall i | 0 <= i < |some[1..]| ensures some[1..][i] == TextKind <==> some[0] == TextKind {
      assert some[i + 1] in some && some[i + 1] in all;
    }
    assert DoubleKind in some ==> DoubleKind in all;
  }

  /** Dropping the empty branches of a union keeps a column's type if and only if the type is
      not double or a branch that is left has it. */
  lemma UnionTypeExactly(db: Db, qs: seq<Plan>, name: string, k: Kind)
    requires qs != [] && Survivors(qs) != [] && UnionKind(db, qs, name) == Some(k)
    ensures UnionKind(db, Survivors(qs), name) == Some(k)
       <==> (k == DoubleKind ==> exists q | q in Survivors(qs) :: ColumnKind(db, q, name) == DoubleKind)
  {
    var left := Survivors(qs);
    var all, some := KindsAt(db, qs, name), KindsAt(db, left, name);
    SurvivorsAreBranches(qs);
    forall x | x in some ensures x in all {
      var i :| 0 <= i < |some| && some[i] == x;
      assert left[i] in left;
      var j :| 0 <= j < |qs| && qs[j] == left[i];
      assert all[j] == x;
    }
    SomePromoted(all, some, k);
    DoubleAmong(db, left, name);
  }

  lemma DoubleAmong(db: Db, qs: seq<Plan>, name: string)
    ensures DoubleKind in KindsAt(db, qs, name) <==> exists q | q in qs :: ColumnKind(db, q, name) == DoubleKind
  {
    var kinds := KindsAt(db, qs, name);
    if DoubleKind in kinds {
      var i :| 0 <= i < |kinds| && kinds[i] == DoubleKind;
      assert qs[i] in qs;
    }
    if q :| q in qs && ColumnKind(db, q, name) == DoubleKind {
      var i :| 0 <= i < |qs| && qs[i] == q;
      assert kinds[i] == DoubleKind;
    }
  }

  /** Concretely: an empty double branch beside an integer one leaves an integer column. */
  lemma EmptyBranchNarrowsType(db: Db, q: Plan, r: Plan, name: string)
    requires ColumnKind(db, q, name) == IntKind && ColumnKind(db, r, name) == DoubleKind && !IsEmpty(q)
    ensures
      var u := Union([q, Limit(r, 0, 0)], false);
      && UnionKind(db, u.inputs, name) == Some(DoubleKind)
      && FoldUnion(u) == q && ColumnKind(db, FoldUnion(u), name) == IntKind
  {
    var qs := [q, Limit(r, 0, 0)];
    var kinds := KindsAt(db, qs, name);
    PromotedMeans(kinds[0], kinds[1..]);
    assert kinds[1..] == [DoubleKind];
    assert qs[1..] == [Limit(r, 0, 0)] && qs[1..][1..] == [];
    assert Survivors(qs[1..][1..]) == [] && Survivors(qs[1..]) == [] && Survivors(qs) == [q];
  }

  /** On alike branches the type is that of the first. */
  lemma AlikeBranchesKind(db: Db, sources: Catalog, p: Plan, name: string)
    requires p.Union? && p.inputs != [] && Valid(p) && Clear(db, sources, p) && name in Columns(p)
    ensures UnionKind(db, p.inputs, name) == Some(ColumnKind(db, p, name))
  {
    var kinds := KindsAt(db, p.inputs, name);
    forall k | k in kinds ensures k == kinds[0] {
      var i :| 0 <= i < |kinds| && kinds[i] == k;
      assert SameKinds(db, p.inputs[i], p.inputs[0]) && Columns(p.inputs[i]) == Columns(p.inputs[0]);
    }
    assert forall k | k in kinds[1..] :: k in kinds;
    PromotedMeans(kinds[0], kinds[1..]);
  }
}
