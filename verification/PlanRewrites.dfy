/** Two optimizer rules over whole plans: pruning filters the zone maps decide, and folding
    provably empty relations upward.
 */
module PlanRewrites {
  import opened Common
  import opened ZoneMaps
  import opened Sources
  import opened Plans
  import opened Estimates

  // --- The rules -------------------------------------------------------------------

  /** The canonical empty relation. */
  predicate IsEmpty(p: Plan) {
    p.Limit? && p.n == 0
  }

  const LEFT_DRIVEN: set<JoinKind> := {Inner, LeftOuter, Semi, Anti}

  /** `_join_over_empty_side`. */
  function FoldJoin(p: Plan): (r: Plan)
    requires p.Join?
    ensures r == p || r == p.left || (r.Limit? && r.n == r.offset == 0 && (r.input == p || r.input == p.left))
  {
    if IsEmpty(p.left) && p.kind in LEFT_DRIVEN then Limit(p, 0, 0)
    else if !IsEmpty(p.right) then p
    else if p.kind == Anti then p.left
    else if p.kind == Semi then Limit(p.left, 0, 0)
    else if p.kind == Inner then Limit(p, 0, 0)
    else p
  }

  function Survivors(qs: seq<Plan>): seq<Plan> {
    if qs == [] then [] else (if IsEmpty(qs[0]) then [] else [qs[0]]) + Survivors(qs[1..])
  }

  /** `_prune_empty_union_branches`. */
  function FoldUnion(p: Plan): Plan
    requires p.Union?
  {
    var left := Survivors(p.inputs);
    if |left| == |p.inputs| then p
    else if left == [] then p.inputs[0]
    else if |left| == 1 then (if p.distinct then Distinct(left[0]) else left[0])
    else Union(left, p.distinct)
  }

  /** `propagate_empty_relation` at one node. */
  function FoldNode(p: Plan): Plan {
    match p
    case Union(_, _) => FoldUnion(p)
    case Join(_, _, _, _, _) => FoldJoin(p)
    case Filter(q, _) => if IsEmpty(q) then q else p
    case Sort(q, _) => if IsEmpty(q) then q else p
    case Distinct(q) => if IsEmpty(q) then q else p
    case Sample(q, _) => if IsEmpty(q) then q else p
    case Limit(q, _, _) => if IsEmpty(q) then q else p
    case Scan(_, _) => p
  }

  /** `zonemap_prune_filter` at one node, under an estimator of statistics. */
  function PruneNode(estimate: Plan -> RelStats, p: Plan): (r: Plan)
    ensures r == p || (p.Filter? && (r == p.input || (r.Limit? && r.n == r.offset == 0 && r.input == p.input)))
  {
    if !p.Filter? then p
    else
      match PredicateStatus(p.test, estimate(p.input))
      case Some(true) => p.input
      case Some(false) => Limit(p.input, 0, 0)
      case None => p
  }

  /** A rule applied to every node, children first. */
  datatype Pass = PruneFilters | FoldEmpties

  function AtNode(estimate: Plan -> RelStats, pass: Pass, p: Plan): Plan {
    match pass
    case PruneFilters => PruneNode(estimate, p)
    case FoldEmpties => FoldNode(p)
  }

  function Apply(estimate: Plan -> RelStats, pass: Pass, p: Plan): Plan
    decreases p
  {
    match p
    case Scan(_, _) => AtNode(estimate, pass, p)
    case Filter(q, w) => AtNode(estimate, pass, Filter(Apply(estimate, pass, q), w))
    case Sort(q, k) => AtNode(estimate, pass, Sort(Apply(estimate, pass, q), k))
    case Distinct(q) => AtNode(estimate, pass, Distinct(Apply(estimate, pass, q)))
    case Sample(q, k) => AtNode(estimate, pass, Sample(Apply(estimate, pass, q), k))
    case Limit(q, n, offset) => AtNode(estimate, pass, Limit(Apply(estimate, pass, q), n, offset))
    case Union(_, d) => AtNode(estimate, pass, Union(ApplyAll(estimate, pass, p, 0), d))
    case Join(l, r, kind, keys, output) =>
      AtNode(estimate, pass, Join(Apply(estimate, pass, l), Apply(estimate, pass, r), kind, keys, output))
  }

  function ApplyAll(estimate: Plan -> RelStats, pass: Pass, p: Plan, i: nat): (r: seq<Plan>)
    requires p.Union? && i <= |p.inputs|
    ensures |r| == |p.inputs| - i
    ensures forall k | 0 <= k < |r| :: r[k] == Apply(estimate, pass, p.inputs[i + k])
    decreases p, |p.inputs| - i
  {
    if i == |p.inputs| then []
    else [Apply(estimate, pass, p.inputs[i])] + ApplyAll(estimate, pass, p, i + 1)
  }

  /** Any number of passes in any order. */
  function Optimized(estimate: Plan -> RelStats, p: Plan, passes: seq<Pass>): Plan
    decreases |passes|
  {
    if passes == [] then p else Optimized(estimate, Apply(estimate, passes[0], p), passes[1..])
  }

  // --- Rules keep the rows ---------------------------------------------------------

  /** The estimator's statistics describe the rows of every plan. */
  ghost predicate Trustworthy(db: Db, sources: Catalog, estimate: Plan -> RelStats) {
    forall p: Plan | Valid(p) && Clear(db, sources, p) :: Describes(estimate(p), Rows(db, p))
  }

  function Estimator(sources: Catalog): Plan -> RelStats {
    (p: Plan) => Estimate(sources, p)
  }

  /** Over truthful sources the engine's own estimator is trustworthy. */
  lemma EstimatorTrustworthy(db: Db, sources: Catalog)
    requires ValidDb(db) && Truthful(db, sources)
    ensures Trustworthy(db, sources, Estimator(sources))
  {
    forall p: Plan | Valid(p) && Clear(db, sources, p) ensures Describes(Estimator(sources)(p), Rows(db, p)) {
      EstimateRight(db, sources, p);
    }
  }

  lemma PruneKeepsRows(db: Db, sources: Catalog, estimate: Plan -> RelStats, p: Plan)
    requires Trustworthy(db, sources, estimate) && Valid(p) && Clear(db, sources, p)
    ensures Rows(db, PruneNode(estimate, p)) == Rows(db, p)
  {
    if p.Filter? {
      var rows := Rows(db, p.input);
      assert Describes(estimate(p.input), rows);
      forall i | 0 <= i < |rows|
        ensures Right(PredicateStatus(p.test, estimate(p.input)), Eval(db.env, rows[i], p.test))
      {
        StatusSound(db.env, rows, i, p.test, estimate(p.input));
      }
      match PredicateStatus(p.test, estimate(p.input))
      case Some(true) => KeptAll(db.env, p.test, rows);
      case Some(false) => KeptNone(db.env, p.test, rows);
      case None =>
    }
  }

  lemma EmptyHasNoRows(db: Db, p: Plan)
    requires IsEmpty(p)
    ensures Rows(db, p) == []
  {
  }

  lemma NothingFromNothing(db: Db, k: nat)
    requires ValidDb(db)
    ensures db.sort(k, []) == [] && db.sample(k, []) == []
  {
    assert multiset(db.sort(k, [])) == multiset([]);
    assert |multiset(db.sort(k, []))| == 0;
    assert multiset(db.sample(k, [])) <= multiset([]);
    assert multiset(db.sample(k, [])) == multiset{};
    assert |multiset(db.sample(k, []))| == 0;
  }

  /** The output columns read off left rows alone. */
  function Projected(output: seq<Output>, lefts: seq<Row>): (r: seq<Row>)
    ensures |r| == |lefts| && forall i | 0 <= i < |r| :: r[i] == OutputRow(output, Some(lefts[i]), None)
  {
    if lefts == [] then [] else [OutputRow(output, Some(lefts[0]), None)] + Projected(output, lefts[1..])
  }

  lemma {:induction false} NoPartners(
    kind: JoinKind, keys: seq<(string, string)>, output: seq<Output>, lefts: seq<Row>)
    ensures kind in {Inner, RightOuter, Semi} ==> FromLefts(kind, keys, output, lefts, []) == []
    ensures kind in {Anti, LeftOuter, FullOuter} ==>
              FromLefts(kind, keys, output, lefts, []) == Projected(output, lefts)
    decreases lefts
  {
    if lefts != [] {
      NoPartners(kind, keys, output, lefts[1..]);
      assert Partners(keys, lefts[0], []) == [];
    }
  }

  lemma {:induction false} ThroughOutput(output: seq<Output>, row: Row, name: string)
    requires forall i | 0 <= i < |output| :: output[i].left && output[i].name == output[i].shown
    requires name in Aliases(output)
    ensures name in OutputRow(output, Some(row), None)
    ensures OutputRow(output, Some(row), None)[name] == Cell(row, name)
  {
    if output[0].shown != name {
      assert name in Aliases(output[1..]);
      ThroughOutput(output[1..], row, name);
    }
  }

  /** An output that passes the left columns through gives back the left rows. */
  lemma PassedThrough(output: seq<Output>, columns: seq<string>, lefts: seq<Row>)
    requires PassesThrough(output, columns) && Typed(lefts, columns)
    ensures Projected(output, lefts) == lefts
  {
    forall i | 0 <= i < |lefts| ensures OutputRow(output, Some(lefts[i]), None) == lefts[i] {
      RowPassedThrough(output, columns, lefts[i], OutputRow(output, Some(lefts[i]), None));
    }
  }

  lemma RowPassedThrough(output: seq<Output>, columns: seq<string>, row: Row, out: Row)
    requires PassesThrough(output, columns) && row.Keys == Named(columns)
    requires out == OutputRow(output, Some(row), None)
    ensures out == row
  {
    OutputRowKeys(output, Some(row), None);
    assert out.Keys == row.Keys;
    forall name | name in row ensures out[name] == row[name] {
      ThroughOutput(output, row, name);
    }
  }

  lemma {:induction false} AllUnmatched(keys: seq<(string, string)>, output: seq<Output>, rights: seq<Row>)
    ensures |Unmatched(keys, output, [], rights)| == |rights|
  {
    if rights != [] {
      AllUnmatched(keys, output, rights[1..]);
    }
  }

  lemma JoinKeepsRows(db: Db, p: Plan)
    requires p.Join? && ValidDb(db) && Valid(p)
    ensures Rows(db, FoldJoin(p)) == Rows(db, p)
  {
    if IsEmpty(p.left) && p.kind in LEFT_DRIVEN {
      EmptyHasNoRows(db, p.left);
      OverEmptyLeft(db, p);
    } else if IsEmpty(p.right) {
      EmptyHasNoRows(db, p.right);
      OverEmptyRight(db, p, Rows(db, p.left));
    }
    if FoldJoin(p).Limit? && FoldJoin(p).n == 0 && FoldJoin(p) != p.left {
      EmptyHasNoRows(db, FoldJoin(p));
    }
  }

  lemma OverEmptyLeft(db: Db, p: Plan)
    requires p.Join? && p.kind in LEFT_DRIVEN && Rows(db, p.left) == []
    ensures Rows(db, p) == []
  {
  }

  /** The join over an empty right side, by its kind. */
  lemma OverEmptyRight(db: Db, p: Plan, lefts: seq<Row>)
    requires p.Join? && ValidDb(db) && Valid(p) && lefts == Rows(db, p.left) && Rows(db, p.right) == []
    ensures p.kind in {Inner, Semi} ==> Rows(db, p) == []
    ensures p.kind == Anti ==> Rows(db, p) == lefts
  {
    if p.kind in {Inner, Semi} {
      NoPartners(p.kind, p.keys, p.output, lefts);
    } else if p.kind == Anti {
      NoPartners(p.kind, p.keys, p.output, lefts);
      LeftPassedThrough(db, p);
    }
  }

  lemma LeftPassedThrough(db: Db, p: Plan)
    requires p.Join? && p.kind == Anti && ValidDb(db) && Valid(p)
    ensures Projected(p.output, Rows(db, p.left)) == Rows(db, p.left)
  {
    RowsTyped(db, p.left);
    PassedThrough(p.output, Columns(p.left), Rows(db, p.left));
  }

  lemma {:induction false} SurvivorsHoldRows(db: Db, qs: seq<Plan>)
    ensures Concat(db, Survivors(qs)) == Concat(db, qs)
    ensures |Survivors(qs)| <= |qs|
    ensures |Survivors(qs)| < |qs| || Survivors(qs) == qs
  {
    if qs != [] {
      var q, tail := qs[0], qs[1..];
      var rest := Survivors(tail);
      SurvivorsHoldRows(db, tail);
      assert qs == [q] + tail;
      ConcatHead(db, q, tail);
      if IsEmpty(q) {
        EmptyHasNoRows(db, q);
        assert Survivors(qs) == [] + rest == rest;
      } else {
        assert Survivors(qs) == [q] + rest;
        ConcatHead(db, q, rest);
      }
    }
  }

  lemma ConcatHead(db: Db, q: Plan, rest: seq<Plan>)
    ensures Concat(db, [q] + rest) == Rows(db, q) + Concat(db, rest)
  {
    assert ([q] + rest)[1..] == rest;
  }

  lemma {:induction false} SurvivorsAreBranches(qs: seq<Plan>)
    ensures forall q | q in Survivors(qs) :: q in qs && !IsEmpty(q)
    ensures Survivors(qs) == [] ==> forall i | 0 <= i < |qs| :: IsEmpty(qs[i])
  {
    if qs != [] {
      SurvivorsAreBranches(qs[1..]);
      assert qs == [qs[0]] + qs[1..];
    }
  }

  lemma UnionKeepsRows(db: Db, p: Plan)
    requires p.Union?
    ensures Rows(db, FoldUnion(p)) == Rows(db, p)
  {
    var left := Survivors(p.inputs);
    SurvivorsHoldRows(db, p.inputs);
    SurvivorsAreBranches(p.inputs);
    UnionMeans(db, p.inputs, p.distinct);
    UnionMeans(db, left, p.distinct);
    if left == [] && p.inputs != [] {
      EmptyHasNoRows(db, p.inputs[0]);
      assert Concat(db, p.inputs) == [];
    }
    if |left| == 1 {
      assert left[1..] == [];
      assert Concat(db, left) == Rows(db, left[0]) + [] == Rows(db, left[0]);
    }
  }

  lemma FoldKeepsRows(db: Db, p: Plan)
    requires ValidDb(db) && Valid(p)
    ensures Rows(db, FoldNode(p)) == Rows(db, p)
  {
    match p
    case Union(_, _) => UnionKeepsRows(db, p);
    case Join(_, _, _, _, _) => JoinKeepsRows(db, p);
    case Sort(q, k) => NothingFromNothing(db, k);
    case Sample(q, k) => NothingFromNothing(db, k);
    case Filter(_, _) =>
    case Distinct(_) =>
    case Limit(_, _, _) =>
    case Scan(_, _) =>
  }

  // --- Rules keep columns and validity ---------------------------------------------

  lemma SurvivorsValid(p: Plan)
    requires p.Union? && Valid(p)
    ensures forall q | q in Survivors(p.inputs) :: Valid(q) && Columns(q) == Columns(p.inputs[0])
  {
    SurvivorsAreBranches(p.inputs);
  }

  lemma NodeKeepsColumns(estimate: Plan -> RelStats, pass: Pass, p: Plan)
    requires Valid(p)
    ensures Valid(AtNode(estimate, pass, p)) && Columns(AtNode(estimate, pass, p)) == Columns(p)
  {
    if p.Union? && pass == FoldEmpties {
      SurvivorsValid(p);
      var left := Survivors(p.inputs);
      assert forall i | 0 <= i < |left| :: left[i] in left;
    }
  }

  /** Both rules keep the types of the columns, and what the data must be clear of. */
  lemma NodeKeepsTypes(db: Db, sources: Catalog, estimate: Plan -> RelStats, pass: Pass, p: Plan)
    requires Valid(p) && Clear(db, sources, p)
    ensures Clear(db, sources, AtNode(estimate, pass, p)) && KeepsTypes(db, sources, AtNode(estimate, pass, p), p)
  {
    if pass == FoldEmpties {
      if p.Union? {
        UnionKeepsTypes(db, sources, p);
      } else if p.Join? {
        JoinKeepsTypes(db, sources, p);
      }
    }
  }

  lemma UnionKeepsTypes(db: Db, sources: Catalog, p: Plan)
    requires p.Union? && Valid(p) && Clear(db, sources, p)
    ensures Clear(db, sources, FoldUnion(p)) && KeepsTypes(db, sources, FoldUnion(p), p)
  {
    var left := Survivors(p.inputs);
    SurvivorsValid(p);
    SurvivorsAreBranches(p.inputs);
    forall i | 0 <= i < |left|
      ensures left[i] in p.inputs && Clear(db, sources, left[i])
      ensures SameKinds(db, left[i], p.inputs[0]) && Columns(left[i]) == Columns(p)
    {
      assert left[i] in left;
      var k :| 0 <= k < |p.inputs| && p.inputs[k] == left[i];
    }
    forall name | name in Columns(p) ensures Unmixed(sources, left, name) {
      FewerUnmixed(sources, p.inputs, left, name);
    }
    forall name, nan | MaxMayBe(sources, Union(left, p.distinct), name, nan) ensures MaxMayBe(sources, p, name, nan) {
      var i :| 0 <= i < |left| && MaxMayBe(sources, left[i], name, nan);
      var k :| 0 <= k < |p.inputs| && p.inputs[k] == left[i];
    }
    if left != [] {
      AlikeFirst(db, left, p.inputs[0]);
    }
  }

  lemma FewerUnmixed(sources: Catalog, qs: seq<Plan>, some: seq<Plan>, name: string)
    requires Unmixed(sources, qs, name) && forall i | 0 <= i < |some| :: some[i] in qs
    ensures Unmixed(sources, some, name)
  {
    forall i, nan | 0 <= i < |some| && MaxMayBe(sources, some[i], name, nan)
      ensures exists k | 0 <= k < |qs| :: MaxMayBe(sources, qs[k], name, nan)
    {
      var k :| 0 <= k < |qs| && qs[k] == some[i];
    }
  }

  /** Branches that are like one plan are like the first of them. */
  lemma AlikeFirst(db: Db, qs: seq<Plan>, first: Plan)
    requires qs != [] && forall i | 0 <= i < |qs| :: SameKinds(db, qs[i], first) && Columns(qs[i]) == Columns(first)
    ensures forall i | 0 <= i < |qs| :: SameKinds(db, qs[i], qs[0])
  {
  }

  lemma {:induction false} ShownThrough(output: seq<Output>, name: string)
    requires forall i | 0 <= i < |output| :: output[i].left && output[i].name == output[i].shown
    requires name in Aliases(output)
    ensures Shown(output, name) == Some(Output(true, name, name))
  {
    if output[0].shown != name {
      assert name in Aliases(output[1..]);
      ShownThrough(output[1..], name);
    }
  }

  lemma JoinKeepsTypes(db: Db, sources: Catalog, p: Plan)
    requires p.Join? && Valid(p) && Clear(db, sources, p)
    ensures Clear(db, sources, FoldJoin(p)) && KeepsTypes(db, sources, FoldJoin(p), p)
  {
    if p.kind in {Semi, Anti} {
      forall name | name in Columns(p)
        ensures ColumnKind(db, p.left, name) == ColumnKind(db, p, name)
        ensures forall nan :: MaxMayBe(sources, p.left, name, nan) <==> MaxMayBe(sources, p, name, nan)
      {
        ShownThrough(p.output, name);
      }
    }
  }

  lemma NodeKeepsRows(db: Db, sources: Catalog, estimate: Plan -> RelStats, pass: Pass, p: Plan)
    requires ValidDb(db) && Trustworthy(db, sources, estimate) && Valid(p) && Clear(db, sources, p)
    ensures Rows(db, AtNode(estimate, pass, p)) == Rows(db, p)
  {
    match pass
    case PruneFilters => PruneKeepsRows(db, sources, estimate, p);
    case FoldEmpties => FoldKeepsRows(db, p);
  }

  // --- Whole plans -----------------------------------------------------------------

  /** Two plans that compute the same rows under the same columns. */
  ghost predicate Equivalent(db: Db, a: Plan, b: Plan) {
    Rows(db, a) == Rows(db, b) && Columns(a) == Columns(b)
  }

  lemma {:induction false} ConcatEqual(db: Db, a: seq<Plan>, b: seq<Plan>)
    requires |a| == |b| && forall i | 0 <= i < |a| :: Rows(db, a[i]) == Rows(db, b[i])
    ensures Concat(db, a) == Concat(db, b)
  {
    if a != [] {
      ConcatEqual(db, a[1..], b[1..]);
    }
  }

  /** What a rewritten plan keeps of the plan: rows, columns and types, and the conditions
      under which further passes are right. */
  ghost predicate Keeps(db: Db, sources: Catalog, a: Plan, b: Plan) {
    Valid(a) && Clear(db, sources, a) && Equivalent(db, a, b) && KeepsTypes(db, sources, a, b)
  }

  lemma {:induction false} KeepsTransitive(db: Db, sources: Catalog, a: Plan, b: Plan, c: Plan)
    requires Keeps(db, sources, a, b) && Keeps(db, sources, b, c)
    ensures Keeps(db, sources, a, c)
  {
    TypesTransitive(db, sources, a, b, c, Columns(a));
  }

  lemma {:induction false} TypesTransitive(db: Db, sources: Catalog, a: Plan, b: Plan, c: Plan, columns: seq<string>)
    requires columns == Columns(a) == Columns(b) && KeepsTypes(db, sources, a, b) && KeepsTypes(db, sources, b, c)
    ensures KeepsTypes(db, sources, a, c)
  {
    forall name | name in columns
      ensures ColumnKind(db, a, name) == ColumnKind(db, c, name)
      ensures forall nan | MaxMayBe(sources, a, name, nan) :: MaxMayBe(sources, c, name, nan)
    {
      assert ColumnKind(db, a, name) == ColumnKind(db, b, name);
    }
  }

  /** Rewriting the input of a node keeps the node. */
  lemma OverRewritten(db: Db, sources: Catalog, p: Plan, q: Plan, p': Plan)
    requires OverOne(p) && Valid(p) && Clear(db, sources, p) && Keeps(db, sources, q, p.input) && p' == Over(p, q)
    ensures Keeps(db, sources, p', p)
  {
    assert Columns(p') == Columns(q) == Columns(p.input) == Columns(p);
    OverTypes(db, sources, p, q, p', Columns(p));
  }

  lemma {:induction false} OverTypes(
    db: Db, sources: Catalog, p: Plan, q: Plan, p': Plan, columns: seq<string>)
    requires OverOne(p) && p' == Over(p, q) && columns == Columns(p') == Columns(q)
    requires KeepsTypes(db, sources, q, p.input)
    ensures KeepsTypes(db, sources, p', p)
  {
    forall name | name in columns
      ensures ColumnKind(db, p', name) == ColumnKind(db, p, name)
      ensures forall nan | MaxMayBe(sources, p', name, nan) :: MaxMayBe(sources, p, name, nan)
    {
      assert ColumnKind(db, p', name) == ColumnKind(db, q, name);
      assert forall nan :: MaxMayBe(sources, p', name, nan) <==> MaxMayBe(sources, q, name, nan);
      assert forall nan :: MaxMayBe(sources, p, name, nan) <==> MaxMayBe(sources, p.input, name, nan);
    }
  }

  lemma UnionRewritten(db: Db, sources: Catalog, p: Plan, rs: seq<Plan>)
    requires p.Union? && Valid(p) && Clear(db, sources, p) && |rs| == |p.inputs|
    requires forall i | 0 <= i < |rs| :: Keeps(db, sources, rs[i], p.inputs[i])
    ensures Keeps(db, sources, Union(rs, p.distinct), p)
  {
    ConcatEqual(db, rs, p.inputs);
    UnionMeans(db, rs, p.distinct);
    UnionMeans(db, p.inputs, p.distinct);
    forall i | 0 <= i < |rs| ensures SameKinds(db, rs[i], rs[0]) && Columns(rs[i]) == Columns(rs[0]) {
      BranchTypes(db, sources, rs[i], p.inputs[i], rs[0], p.inputs[0], Columns(rs[i]));
    }
    forall name, nan, i | 0 <= i < |rs| && name in Columns(p) && MaxMayBe(sources, rs[i], name, nan)
      ensures MaxMayBe(sources, p.inputs[i], name, nan)
    {
      assert Columns(rs[i]) == Columns(p.inputs[i]) == Columns(p);
    }
    forall name | name in Columns(p) ensures Unmixed(sources, rs, name) {
      assert Unmixed(sources, p.inputs, name);
    }
    forall name, nan | name in Columns(p) && MaxMayBe(sources, Union(rs, p.distinct), name, nan)
      ensures MaxMayBe(sources, p, name, nan)
    {
      var i :| 0 <= i < |rs| && MaxMayBe(sources, rs[i], name, nan);
    }
  }

  lemma {:induction false} BranchTypes(
    db: Db, sources: Catalog, r: Plan, q: Plan, first': Plan, first: Plan, columns: seq<string>)
    requires columns == Columns(r) == Columns(q) == Columns(first') == Columns(first)
    requires KeepsTypes(db, sources, r, q) && KeepsTypes(db, sources, first', first) && SameKinds(db, q, first)
    ensures SameKinds(db, r, first')
  {
    forall name | name in columns ensures ColumnKind(db, r, name) == ColumnKind(db, first', name) {
      assert ColumnKind(db, r, name) == ColumnKind(db, q, name) == ColumnKind(db, first, name);
    }
  }

  lemma JoinRewritten(db: Db, sources: Catalog, p: Plan, l: Plan, r: Plan, p': Plan)
    requires p.Join? && Valid(p) && Clear(db, sources, p)
    requires Keeps(db, sources, l, p.left) && Keeps(db, sources, r, p.right)
    requires p' == Join(l, r, p.kind, p.keys, p.output)
    ensures Keeps(db, sources, p', p)
  {
    forall name | name in Columns(p)
      ensures ColumnKind(db, p', name) == ColumnKind(db, p, name)
      ensures forall nan | MaxMayBe(sources, p', name, nan) :: MaxMayBe(sources, p, name, nan)
    {
      ShownUnder(p.output, name);
    }
  }

  /** One pass over a plan, whatever its shape, keeps rows, columns and types. */
  lemma {:induction false} PassKeepsMeaning(db: Db, sources: Catalog, estimate: Plan -> RelStats, pass: Pass, p: Plan)
    requires ValidDb(db) && Trustworthy(db, sources, estimate) && Valid(p) && Clear(db, sources, p)
    ensures Keeps(db, sources, Apply(estimate, pass, p), p)
    decreases p
  {
    var q: Plan;
    match p {
      case Scan(_, _) => q := p;
      case Union(qs, d) =>
        var rs := ApplyAll(estimate, pass, p, 0);
        forall i | 0 <= i < |qs| ensures Keeps(db, sources, rs[i], qs[i]) {
          PassKeepsMeaning(db, sources, estimate, pass, qs[i]);
        }
        UnionRewritten(db, sources, p, rs);
        q := Union(rs, d);
      case Join(l, r, kind, keys, output) =>
        PassKeepsMeaning(db, sources, estimate, pass, l);
        PassKeepsMeaning(db, sources, estimate, pass, r);
        q := Join(Apply(estimate, pass, l), Apply(estimate, pass, r), kind, keys, output);
        JoinRewritten(db, sources, p, q.left, q.right, q);
      case _ =>
        PassKeepsMeaning(db, sources, estimate, pass, p.input);
        q := Over(p, Apply(estimate, pass, p.input));
        OverRewritten(db, sources, p, Apply(estimate, pass, p.input), q);
    }
    assert Apply(estimate, pass, p) == AtNode(estimate, pass, q);
    NodeKeeps(db, sources, estimate, pass, q);
    KeepsTransitive(db, sources, AtNode(estimate, pass, q), q, p);
  }

  lemma NodeKeeps(db: Db, sources: Catalog, estimate: Plan -> RelStats, pass: Pass, q: Plan)
    requires ValidDb(db) && Trustworthy(db, sources, estimate) && Valid(q) && Clear(db, sources, q)
    ensures Keeps(db, sources, AtNode(estimate, pass, q), q)
  {
    NodeKeepsRows(db, sources, estimate, pass, q);
    NodeKeepsColumns(estimate, pass, q);
    NodeKeepsTypes(db, sources, estimate, pass, q);
  }

  /** However many passes run, and in whatever order, the plan computes the same rows in the
      same order under the same columns and types. */
  lemma {:induction false} OptimizingKeepsMeaning(
    db: Db, sources: Catalog, estimate: Plan -> RelStats, p: Plan, passes: seq<Pass>)
    requires ValidDb(db) && Trustworthy(db, sources, estimate) && Valid(p) && Clear(db, sources, p)
    ensures Keeps(db, sources, Optimized(estimate, p, passes), p)
    decreases |passes|
  {
    if passes != [] {
      var q := Apply(estimate, passes[0], p);
      PassKeepsMeaning(db, sources, estimate, passes[0], p);
      OptimizingKeepsMeaning(db, sources, estimate, q, passes[1..]);
      KeepsTransitive(db, sources, Optimized(estimate, q, passes[1..]), q, p);
    }
  }

  /** The whole chain, from what the sources declare: estimating over truthful sources and
      optimizing by what was estimated changes no row, no column and no type. */
  lemma SourcesToPlans(db: Db, sources: Catalog, p: Plan, passes: seq<Pass>)
    requires ValidDb(db) && Truthful(db, sources) && Valid(p) && Clear(db, sources, p)
    ensures Keeps(db, sources, Optimized(Estimator(sources), p, passes), p)
  {
    EstimatorTrustworthy(db, sources);
    OptimizingKeepsMeaning(db, sources, Estimator(sources), p, passes);
  }

  // --- Folding settles -------------------------------------------------------------

  /** Folding again changes nothing. */
  ghost predicate Settled(estimate: Plan -> RelStats, p: Plan) {
    Apply(estimate, FoldEmpties, p) == p
  }

  lemma {:induction false} SurvivorsOfSurvivors(qs: seq<Plan>)
    requires forall i | 0 <= i < |qs| :: !IsEmpty(qs[i])
    ensures Survivors(qs) == qs
  {
    if qs != [] {
      SurvivorsOfSurvivors(qs[1..]);
      assert qs == [qs[0]] + qs[1..];
    }
  }

  lemma AllSettled(estimate: Plan -> RelStats, qs: seq<Plan>, distinct: bool)
    requires forall i | 0 <= i < |qs| :: Settled(estimate, qs[i])
    ensures Apply(estimate, FoldEmpties, Union(qs, distinct)) == FoldUnion(Union(qs, distinct))
  {
    assert ApplyAll(estimate, FoldEmpties, Union(qs, distinct), 0) == qs;
  }

  lemma SurvivorsSettled(estimate: Plan -> RelStats, qs: seq<Plan>)
    requires forall i | 0 <= i < |qs| :: Settled(estimate, qs[i])
    ensures forall i | 0 <= i < |Survivors(qs)| :: Settled(estimate, Survivors(qs)[i]) && !IsEmpty(Survivors(qs)[i])
  {
    SurvivorsAreBranches(qs);
    forall i | 0 <= i < |Survivors(qs)| ensures Settled(estimate, Survivors(qs)[i]) && !IsEmpty(Survivors(qs)[i]) {
      assert Survivors(qs)[i] in qs;
    }
  }

  lemma UnionSettles(estimate: Plan -> RelStats, p: Plan)
    requires p.Union? && forall i | 0 <= i < |p.inputs| :: Settled(estimate, p.inputs[i])
    ensures Settled(estimate, FoldUnion(p))
  {
    var left := Survivors(p.inputs);
    SurvivorsSettled(estimate, p.inputs);
    if |left| == |p.inputs| {
      AllSettled(estimate, p.inputs, p.distinct);
    } else if |left| > 1 {
      AllSettled(estimate, left, p.distinct);
      SurvivorsOfSurvivors(left);
    } else if |left| == 1 {
      assert Settled(estimate, left[0]);
    }
  }

  lemma JoinSettles(estimate: Plan -> RelStats, p: Plan)
    requires p.Join? && Settled(estimate, p.left) && Settled(estimate, p.right)
    ensures Settled(estimate, FoldJoin(p))
  {
    assert Apply(estimate, FoldEmpties, p) == FoldJoin(p);
    if FoldJoin(p) == Limit(p, 0, 0) {
      assert Apply(estimate, FoldEmpties, Limit(p, 0, 0)) == FoldNode(Limit(FoldJoin(p), 0, 0));
    }
  }

  lemma NodeSettles(estimate: Plan -> RelStats, p: Plan)
    requires p.Union? ==> forall i | 0 <= i < |p.inputs| :: Settled(estimate, p.inputs[i])
    requires p.Join? ==> Settled(estimate, p.left) && Settled(estimate, p.right)
    requires !p.Scan? && !p.Union? && !p.Join? ==> Settled(estimate, p.input)
    ensures Settled(estimate, FoldNode(p))
  {
    match p
    case Union(_, _) => UnionSettles(estimate, p);
    case Join(_, _, _, _, _) => JoinSettles(estimate, p);
    case Scan(_, _) =>
    case Filter(_, _) =>
    case Sort(_, _) =>
    case Distinct(_) =>
    case Sample(_, _) =>
    case Limit(_, _, _) =>
  }

  /** Folding is idempotent: the markers do not stack, and one pass reaches a fixpoint. */
  lemma {:induction false} FoldingSettles(estimate: Plan -> RelStats, p: Plan)
    ensures Settled(estimate, Apply(estimate, FoldEmpties, p))
    decreases p
  {
    match p
    case Scan(_, _) => NodeSettles(estimate, p);
    case Filter(q, w) =>
      FoldingSettles(estimate, q);
      NodeSettles(estimate, Filter(Apply(estimate, FoldEmpties, q), w));
    case Sort(q, k) =>
      FoldingSettles(estimate, q);
      NodeSettles(estimate, Sort(Apply(estimate, FoldEmpties, q), k));
    case Distinct(q) =>
      FoldingSettles(estimate, q);
      NodeSettles(estimate, Distinct(Apply(estimate, FoldEmpties, q)));
    case Sample(q, k) =>
      FoldingSettles(estimate, q);
      NodeSettles(estimate, Sample(Apply(estimate, FoldEmpties, q), k));
    case Limit(q, n, offset) =>
      FoldingSettles(estimate, q);
      NodeSettles(estimate, Limit(Apply(estimate, FoldEmpties, q), n, offset));
    case Union(qs, d) =>
      var rs := ApplyAll(estimate, FoldEmpties, p, 0);
      forall i | 0 <= i < |rs| ensures Settled(estimate, rs[i]) {
        FoldingSettles(estimate, qs[i]);
      }
      NodeSettles(estimate, Union(rs, d));
    case Join(l, r, kind, keys, output) =>
      FoldingSettles(estimate, l);
      FoldingSettles(estimate, r);
      NodeSettles(estimate, Join(Apply(estimate, FoldEmpties, l), Apply(estimate, FoldEmpties, r), kind, keys, output));
  }

  // --- What folding leaves ---------------------------------------------------------

  /** A join whose result an empty side decides. */
  predicate DecidedJoin(p: Plan) {
    && p.Join?
    && (|| (IsEmpty(p.left) && p.kind in {Inner, LeftOuter, Semi, Anti})
        || (IsEmpty(p.right) && p.kind in {Inner, Semi, Anti}))
  }

  /** No operator over one input reads the empty marker, no union has it for a branch, and no
      join is decided by it, but for a join that is itself marked empty. */
  ghost predicate Collapsed(p: Plan, marked: bool) {
    match p
    case Scan(_, _) => true
    case Filter(q, _) => !IsEmpty(q) && Collapsed(q, false)
    case Sort(q, _) => !IsEmpty(q) && Collapsed(q, false)
    case Distinct(q) => !IsEmpty(q) && Collapsed(q, false)
    case Sample(q, _) => !IsEmpty(q) && Collapsed(q, false)
    case Limit(q, n, _) => !IsEmpty(q) && Collapsed(q, n == 0)
    case Union(qs, _) => forall i | 0 <= i < |qs| :: !IsEmpty(qs[i]) && Collapsed(qs[i], false)
    case Join(l, r, _, _, _) => (marked || !DecidedJoin(p)) && Collapsed(l, false) && Collapsed(r, false)
  }

  /** Being marked only permits more. */
  lemma Marked(p: Plan)
    requires Collapsed(p, false)
    ensures Collapsed(p, true)
  {
  }

  lemma UnionCollapses(p: Plan)
    requires p.Union? && forall i | 0 <= i < |p.inputs| :: Collapsed(p.inputs[i], false)
    ensures Collapsed(FoldUnion(p), false)
  {
    var left := Survivors(p.inputs);
    SurvivorsAreBranches(p.inputs);
    forall i | 0 <= i < |left| ensures !IsEmpty(left[i]) && Collapsed(left[i], false) {
      assert left[i] in left;
      var k :| 0 <= k < |p.inputs| && p.inputs[k] == left[i];
    }
    if |left| == |p.inputs| {
      AllSurvive(p.inputs);
    }
  }

  lemma {:induction false} AllSurvive(qs: seq<Plan>)
    ensures |Survivors(qs)| <= |qs|
    ensures |Survivors(qs)| == |qs| ==> forall i | 0 <= i < |qs| :: !IsEmpty(qs[i])
  {
    if qs != [] {
      AllSurvive(qs[1..]);
      assert forall i | 0 < i < |qs| :: qs[i] == qs[1..][i - 1];
    }
  }

  lemma NodeCollapses(p: Plan)
    requires p.Union? ==> forall i | 0 <= i < |p.inputs| :: Collapsed(p.inputs[i], false)
    requires p.Join? ==> Collapsed(p.left, false) && Collapsed(p.right, false)
    requires OverOne(p) ==> Collapsed(p.input, false)
    ensures Collapsed(FoldNode(p), false)
  {
    if p.Union? {
      UnionCollapses(p);
    } else if p.Join? {
      Marked(p.left);
    } else if p.Limit? {
      Marked(p.input);
    }
  }

  /** One pass leaves no empty marker below an operator that it decides, whatever the plan. */
  lemma {:induction false} FoldingCollapses(estimate: Plan -> RelStats, p: Plan)
    ensures Collapsed(Apply(estimate, FoldEmpties, p), false)
    decreases p
  {
    match p
    case Scan(_, _) => NodeCollapses(p);
    case Union(qs, d) =>
      var rs := ApplyAll(estimate, FoldEmpties, p, 0);
      forall i | 0 <= i < |rs| ensures Collapsed(rs[i], false) {
        FoldingCollapses(estimate, qs[i]);
      }
      NodeCollapses(Union(rs, d));
    case Join(l, r, kind, keys, output) =>
      FoldingCollapses(estimate, l);
      FoldingCollapses(estimate, r);
      NodeCollapses(Join(Apply(estimate, FoldEmpties, l), Apply(estimate, FoldEmpties, r), kind, keys, output));
    case _ =>
      FoldingCollapses(estimate, p.input);
      NodeCollapses(Over(p, Apply(estimate, FoldEmpties, p.input)));
  }

  /** What a tower of operators over one input stands on: the empty marker nearest to the
      bottom of it, if there is one. */
  ghost function Foot(p: Plan): Plan {
    match p
    case Filter(q, _) => Foot(q)
    case Sort(q, _) => Foot(q)
    case Distinct(q) => Foot(q)
    case Sample(q, _) => Foot(q)
    case Limit(q, n, _) => if n == 0 && !IsEmpty(Foot(q)) then p else Foot(q)
    case Scan(_, _) => p
    case Union(_, _) => p
    case Join(_, _, _, _, _) => p
  }

  /** A tower over an empty marker becomes what the marker does, in one pass. */
  lemma {:induction false} TowerCollapses(estimate: Plan -> RelStats, p: Plan)
    requires IsEmpty(Foot(p))
    ensures Apply(estimate, FoldEmpties, p) == Apply(estimate, FoldEmpties, Foot(p))
    ensures IsEmpty(Apply(estimate, FoldEmpties, p))
    decreases p
  {
    if p != Foot(p) {
      TowerCollapses(estimate, p.input);
    }
  }

  // --- What pruning leaves -----------------------------------------------------------

  /** Every filter of the plan is one that the statistics of its input leave open. */
  ghost predicate OnlyOpenFilters(estimate: Plan -> RelStats, p: Plan) {
    match p
    case Scan(_, _) => true
    case Filter(q, w) => OnlyOpenFilters(estimate, q) && PredicateStatus(w, estimate(q)).None?
    case Sort(q, _) => OnlyOpenFilters(estimate, q)
    case Distinct(q) => OnlyOpenFilters(estimate, q)
    case Sample(q, _) => OnlyOpenFilters(estimate, q)
    case Limit(q, _, _) => OnlyOpenFilters(estimate, q)
    case Union(qs, _) => forall i | 0 <= i < |qs| :: OnlyOpenFilters(estimate, qs[i])
    case Join(l, r, _, _, _) => OnlyOpenFilters(estimate, l) && OnlyOpenFilters(estimate, r)
  }

  /** One pass removes every filter that the statistics decide, whatever the plan. */
  lemma {:induction false} PruningFinishes(estimate: Plan -> RelStats, p: Plan)
    ensures OnlyOpenFilters(estimate, Apply(estimate, PruneFilters, p))
    decreases p
  {
    match p
    case Scan(_, _) =>
    case Union(qs, _) =>
      forall i | 0 <= i < |qs| ensures OnlyOpenFilters(estimate, Apply(estimate, PruneFilters, qs[i])) {
        PruningFinishes(estimate, qs[i]);
      }
    case Join(l, r, _, _, _) =>
      PruningFinishes(estimate, l);
      PruningFinishes(estimate, r);
    case _ => PruningFinishes(estimate, p.input);
  }

  // --- Which side decides a join ---------------------------------------------------

  ghost predicate EmptiedByLeft(kind: JoinKind) {
    forall keys: seq<(string, string)>, output: seq<Output>, rights: seq<Row> ::
      Joined(kind, keys, output, [], rights) == []
  }

  ghost predicate EmptiedByRight(kind: JoinKind) {
    forall keys: seq<(string, string)>, output: seq<Output>, lefts: seq<Row> ::
      Joined(kind, keys, output, lefts, []) == []
  }

  /** Every left row survives, under the join's output. */
  ghost predicate LeftByEmptyRight(kind: JoinKind) {
    forall keys: seq<(string, string)>, output: seq<Output>, lefts: seq<Row> ::
      Joined(kind, keys, output, lefts, []) == Projected(output, lefts)
  }

  /** An empty left side empties exactly the left-driven joins: a right or full join keeps
      every right row, padded. */
  lemma EmptyLeftDecides(kind: JoinKind, keys: seq<(string, string)>, output: seq<Output>, rights: seq<Row>)
    ensures kind in LEFT_DRIVEN <==> EmptiedByLeft(kind)
    ensures kind !in LEFT_DRIVEN ==> |Joined(kind, keys, output, [], rights)| == |rights|
  {
    AllUnmatched(keys, output, rights);
    AllUnmatched([], [], [map[]]);
    assert kind !in LEFT_DRIVEN ==> |Joined(kind, [], [], [], [map[]])| == 1;
  }

  /** An empty right side empties exactly inner, semi and right joins; an anti, left or full
      join then has its left rows under its output. The rule takes the inner, semi and anti
      cases and leaves the others as they are. */
  lemma EmptyRightDecides(kind: JoinKind)
    ensures kind in {Inner, Semi, RightOuter} <==> EmptiedByRight(kind)
    ensures kind in {Anti, LeftOuter, FullOuter} <==> LeftByEmptyRight(kind)
  {
    forall keys: seq<(string, string)>, output: seq<Output>, lefts: seq<Row>
      ensures kind in {Inner, Semi, RightOuter} ==> Joined(kind, keys, output, lefts, []) == []
      ensures kind in {Anti, LeftOuter, FullOuter} ==>
                Joined(kind, keys, output, lefts, []) == Projected(output, lefts)
    {
      NoPartners(kind, keys, output, lefts);
    }
    NoPartners(kind, [], [], [map[]]);
    assert |Projected([], [map[]])| == 1;
    assert kind in {Inner, Semi, RightOuter} ==> Joined(kind, [], [], [map[]], []) == [];
    assert kind in {Anti, LeftOuter, FullOuter} ==> |Joined(kind, [], [], [map[]], [])| == 1;
  }

  // --- When the left side stands in for the join -----------------------------------

  lemma {:induction false} OutputCell(output: seq<Output>, row: Row, i: nat)
    requires NoRepeats(Aliases(output)) && i < |output|
    ensures output[i].shown in OutputRow(output, Some(row), None)
    ensures OutputRow(output, Some(row), None)[output[i].shown]
         == if output[i].left then Cell(row, output[i].name) else None
  {
    if i > 0 {
      assert Aliases(output)[0] != Aliases(output)[i];
      assert Aliases(output)[1..] == Aliases(output[1..]);
      OutputCell(output[1..], row, i - 1);
    }
  }

  /** A row whose every cell holds its column's name. */
  function Tagged(columns: seq<string>): Row {
    map c | c in columns :: Some(Str(c))
  }

  /** A database in which every scan returns the one tagged row of its columns. */
  function TaggedDb(): Db {
    Db((t: string, columns: seq<string>) => [Tagged(columns)], (t: string, name: string) => TextKind,
       Env((id: nat, row: Row) => None, (id: nat, row: Row) => None),
       (k: nat, rows: seq<Row>) => rows, (k: nat, rows: seq<Row>) => rows)
  }

  lemma TaggedDbValid()
    ensures ValidDb(TaggedDb())
  {
    forall t, columns ensures Typed(TaggedDb().table(t, columns), columns) {
      assert Tagged(columns).Keys == Named(columns);
    }
  }

  /** If the tagged row comes back as it was, the output passes it through. */
  lemma TaggedTells(output: seq<Output>, columns: seq<string>)
    requires NoRepeats(Aliases(output)) && Aliases(output) == columns
    requires OutputRow(output, Some(Tagged(columns)), None) == Tagged(columns)
    ensures PassesThrough(output, columns)
  {
    forall i | 0 <= i < |output| ensures output[i].left && output[i].name == output[i].shown {
      OutputCell(output, Tagged(columns), i);
      assert Aliases(output)[i] in columns;
      assert Tagged(columns)[output[i].shown] == Some(Str(output[i].shown));
    }
  }

  /** The left side of a semi or anti join can stand in for a join that leaves its rows
      alone: an anti join must hand them through, and of a semi join, whose rows are then
      none, the column names must agree. */
  predicate StandsIn(kind: JoinKind, output: seq<Output>, columns: seq<string>) {
    && (kind == Anti ==> PassesThrough(output, columns))
    && (kind == Semi ==> Aliases(output) == columns)
  }

  /** A semi or anti join of a table with an empty right side. */
  function OverEmpty(
    table: string, columns: seq<string>, right: Plan, kind: JoinKind, keys: seq<(string, string)>, output: seq<Output>)
    : Plan
  {
    Join(Scan(table, columns), Limit(right, 0, 0), kind, keys, output)
  }

  /** The fold over an empty right side keeps rows and columns, whatever the tables hold,
      exactly when the left side can stand in: an anti join's output must list the left
      columns in order under their own names, and a semi join's aliases must be them. */
  lemma EmptyRightFoldExactly(
    table: string, columns: seq<string>, right: Plan, kind: JoinKind, keys: seq<(string, string)>,
    output: seq<Output>, p: Plan)
    requires kind in {Semi, Anti} && NoRepeats(Aliases(output))
    requires p == OverEmpty(table, columns, right, kind, keys, output)
    ensures StandsIn(kind, output, columns) <==> forall db | ValidDb(db) :: Equivalent(db, FoldJoin(p), p)
  {
    if StandsIn(kind, output, columns) {
      forall db | ValidDb(db) ensures Equivalent(db, FoldJoin(p), p) {
        NoPartners(kind, keys, output, Rows(db, p.left));
        EmptyHasNoRows(db, p.right);
        if kind == Anti {
          PassedThrough(output, columns, Rows(db, p.left));
        }
      }
    }
    if forall db | ValidDb(db) :: Equivalent(db, FoldJoin(p), p) {
      var db := TaggedDb();
      TaggedDbValid();
      assert Equivalent(db, FoldJoin(p), p);
      assert Columns(p.left) == columns && Columns(FoldJoin(p)) == Columns(p.left);
      if kind == Anti {
        NoPartners(kind, keys, output, Rows(db, p.left));
        EmptyHasNoRows(db, p.right);
        assert Projected(output, [Tagged(columns)])[0] == [Tagged(columns)][0];
        TaggedTells(output, columns);
      }
    }
  }

  /** Concretely, an anti join that shows its column under another name: the fold returns
      the bare left side, with the wrong column. */
  lemma RenamingAntiJoinMisfolded(table: string, right: Plan, keys: seq<(string, string)>)
    ensures
      var p := OverEmpty(table, ["x"], right, Anti, keys, [Output(true, "x", "x_right")]);
      FoldJoin(p) == Scan(table, ["x"]) && Columns(FoldJoin(p)) == ["x"] && Columns(p) == ["x_right"]
  {
  }
}
