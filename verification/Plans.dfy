/** Logical plans: the rows a plan computes, and the columns and types it computes them under.
 */
module Plans {
  import opened Common
  import opened ZoneMaps
  import opened Sources

  datatype JoinKind = Inner | LeftOuter | RightOuter | FullOuter | Semi | Anti

  /** One column of a join's output: the side and name it is read from, and its alias. */
  datatype Output = Output(left: bool, name: string, shown: string)

  datatype Plan =
    | Scan(table: string, columns: seq<string>)
    | Filter(input: Plan, test: Pred)
    | Sort(input: Plan, order: nat)
    | Distinct(input: Plan)
    | Sample(input: Plan, seed: nat)
    | Limit(input: Plan, n: nat, offset: nat)
    | Union(inputs: seq<Plan>, distinct: bool)
    | Join(left: Plan, right: Plan, kind: JoinKind, keys: seq<(string, string)>, output: seq<Output>)

  // --- What a plan computes --------------------------------------------------------

  /** The tables and their column types, the expressions left uninterpreted, and the two
      operators whose choice of order or rows is not modelled. */
  datatype Db = Db(
    table: (string, seq<string>) -> seq<Row>, kinds: (string, string) -> Kind, env: Env,
    sort: (nat, seq<Row>) -> seq<Row>, sample: (nat, seq<Row>) -> seq<Row>)

  /** Every row has a cell under each of the columns, and no other. */
  ghost predicate Typed(rows: seq<Row>, columns: seq<string>) {
    forall i | 0 <= i < |rows| :: rows[i].Keys == Named(columns)
  }

  function Named(columns: seq<string>): set<string> {
    set c | c in columns
  }

  /** A scan reads the columns it names at their types, sorting permutes its rows and
      sampling picks some of them. */
  ghost predicate ValidDb(db: Db) {
    && (forall t, columns :: Typed(db.table(t, columns), columns))
    && (forall t, columns, i, name | 0 <= i < |db.table(t, columns)| ::
          OfKind(Cell(db.table(t, columns)[i], name), db.kinds(t, name)))
    && (forall k, rows :: multiset(db.sort(k, rows)) == multiset(rows))
    && (forall k, rows :: multiset(db.sample(k, rows)) <= multiset(rows))
  }

  function Kept(env: Env, p: Pred, rows: seq<Row>): seq<Row> {
    if rows == [] then []
    else (if Eval(env, rows[0], p) == Some(true) then [rows[0]] else []) + Kept(env, p, rows[1..])
  }

  function Deduplicated(rows: seq<Row>, seen: set<Row>): seq<Row> {
    if rows == [] then []
    else if rows[0] in seen then Deduplicated(rows[1..], seen)
    else [rows[0]] + Deduplicated(rows[1..], seen + {rows[0]})
  }

  /** At most `n` rows after skipping `offset`. */
  function Page(rows: seq<Row>, n: nat, offset: nat): seq<Row> {
    if offset >= |rows| then []
    else if offset + n >= |rows| then rows[offset..]
    else rows[offset..offset + n]
  }

  /** Keys match when all are present and equal; a NULL key matches nothing. */
  predicate KeysMatch(keys: seq<(string, string)>, l: Row, r: Row) {
    forall i | 0 <= i < |keys| ::
      var a, b := Cell(l, keys[i].0), Cell(r, keys[i].1);
      a.Some? && b.Some? && Engine(Eq, a.value, b.value)
  }

  function OutputRow(output: seq<Output>, l: Option<Row>, r: Option<Row>): Row {
    if output == [] then map[]
    else
      var o := output[0];
      var side := if o.left then l else r;
      OutputRow(output[1..], l, r)[o.shown := if side.None? then None else Cell(side.value, o.name)]
  }

  function Partners(keys: seq<(string, string)>, l: Row, rights: seq<Row>): seq<Row> {
    if rights == [] then []
    else (if KeysMatch(keys, l, rights[0]) then [rights[0]] else []) + Partners(keys, l, rights[1..])
  }

  predicate HasPartner(keys: seq<(string, string)>, lefts: seq<Row>, r: Row) {
    exists i | 0 <= i < |lefts| :: KeysMatch(keys, lefts[i], r)
  }

  function PairUp(output: seq<Output>, l: Row, partners: seq<Row>): seq<Row> {
    if partners == [] then []
    else [OutputRow(output, Some(l), Some(partners[0]))] + PairUp(output, l, partners[1..])
  }

  /** The rows one left row contributes. Every kind of join emits its output columns; a semi
      or anti join reads them off its left row alone. */
  function FromLeft(kind: JoinKind, keys: seq<(string, string)>, output: seq<Output>, l: Row, rights: seq<Row>)
    : seq<Row>
  {
    var partners := Partners(keys, l, rights);
    var alone := [OutputRow(output, Some(l), None)];
    match kind
    case Semi => if partners == [] then [] else alone
    case Anti => if partners == [] then alone else []
    case Inner => PairUp(output, l, partners)
    case RightOuter => PairUp(output, l, partners)
    case LeftOuter => if partners == [] then alone else PairUp(output, l, partners)
    case FullOuter => if partners == [] then alone else PairUp(output, l, partners)
  }

  function FromLefts(
    kind: JoinKind, keys: seq<(string, string)>, output: seq<Output>, lefts: seq<Row>, rights: seq<Row>)
    : seq<Row>
  {
    if lefts == [] then []
    else FromLeft(kind, keys, output, lefts[0], rights) + FromLefts(kind, keys, output, lefts[1..], rights)
  }

  /** The right rows without a partner, padded, which right and full joins add. */
  function Unmatched(keys: seq<(string, string)>, output: seq<Output>, lefts: seq<Row>, rights: seq<Row>)
    : seq<Row>
  {
    if rights == [] then []
    else
      (if HasPartner(keys, lefts, rights[0]) then [] else [OutputRow(output, None, Some(rights[0]))])
      + Unmatched(keys, output, lefts, rights[1..])
  }

  function Joined(
    kind: JoinKind, keys: seq<(string, string)>, output: seq<Output>, lefts: seq<Row>, rights: seq<Row>)
    : seq<Row>
  {
    FromLefts(kind, keys, output, lefts, rights)
    + (if kind in {RightOuter, FullOuter} then Unmatched(keys, output, lefts, rights) else [])
  }

  function Rows(db: Db, p: Plan): seq<Row>
    decreases p
  {
    match p
    case Scan(t, columns) => db.table(t, columns)
    case Filter(q, pred) => Kept(db.env, pred, Rows(db, q))
    case Sort(q, k) => db.sort(k, Rows(db, q))
    case Distinct(q) => Deduplicated(Rows(db, q), {})
    case Sample(q, k) => db.sample(k, Rows(db, q))
    case Limit(q, n, offset) => Page(Rows(db, q), n, offset)
    case Union(qs, distinct) =>
      var all := UnionRows(db, p, 0);
      if distinct then Deduplicated(all, {}) else all
    case Join(l, r, kind, keys, output) => Joined(kind, keys, output, Rows(db, l), Rows(db, r))
  }

  function UnionRows(db: Db, p: Plan, i: nat): seq<Row>
    requires p.Union? && i <= |p.inputs|
    decreases p, |p.inputs| - i
  {
    if i == |p.inputs| then [] else Rows(db, p.inputs[i]) + UnionRows(db, p, i + 1)
  }

  /** The rows of a list of branches. */
  function Concat(db: Db, qs: seq<Plan>): seq<Row> {
    if qs == [] then [] else Rows(db, qs[0]) + Concat(db, qs[1..])
  }

  lemma {:induction false} UnionIsConcat(db: Db, p: Plan, i: nat)
    requires p.Union? && i <= |p.inputs|
    ensures UnionRows(db, p, i) == Concat(db, p.inputs[i..])
    decreases |p.inputs| - i
  {
    if i < |p.inputs| {
      UnionIsConcat(db, p, i + 1);
      assert p.inputs[i..][1..] == p.inputs[i + 1..];
    }
  }

  function UnionOf(rows: seq<Row>, distinct: bool): seq<Row> {
    if distinct then Deduplicated(rows, {}) else rows
  }

  lemma UnionMeans(db: Db, qs: seq<Plan>, distinct: bool)
    ensures Rows(db, Union(qs, distinct)) == UnionOf(Concat(db, qs), distinct)
  {
    UnionIsConcat(db, Union(qs, distinct), 0);
    assert qs[0..] == qs;
  }

  /** The output columns. */
  function Columns(p: Plan): seq<string> {
    match p
    case Scan(_, columns) => columns
    case Filter(q, _) => Columns(q)
    case Sort(q, _) => Columns(q)
    case Distinct(q) => Columns(q)
    case Sample(q, _) => Columns(q)
    case Limit(q, _, _) => Columns(q)
    case Union(qs, _) => if qs == [] then [] else Columns(qs[0])
    case Join(_, _, _, _, output) => Aliases(output)
  }

  /** The output column shown under a name. */
  function Shown(output: seq<Output>, name: string): Option<Output> {
    if output == [] then None
    else if output[0].shown == name then Some(output[0])
    else Shown(output[1..], name)
  }

  /** The type of an output column. */
  function ColumnKind(db: Db, p: Plan, name: string): Kind {
    match p
    case Scan(t, _) => db.kinds(t, name)
    case Filter(q, _) => ColumnKind(db, q, name)
    case Sort(q, _) => ColumnKind(db, q, name)
    case Distinct(q) => ColumnKind(db, q, name)
    case Sample(q, _) => ColumnKind(db, q, name)
    case Limit(q, _, _) => ColumnKind(db, q, name)
    case Union(qs, _) => if qs == [] then IntKind else ColumnKind(db, qs[0], name)
    case Join(l, r, _, _, output) =>
      var o := Shown(output, name);
      if o.None? then IntKind
      else if o.value.left then ColumnKind(db, l, o.value.name)
      else ColumnKind(db, r, o.value.name)
  }

  ghost predicate SameKinds(db: Db, a: Plan, b: Plan) {
    forall name | name in Columns(a) :: ColumnKind(db, a, name) == ColumnKind(db, b, name)
  }

  function Aliases(output: seq<Output>): (r: seq<string>)
    ensures |r| == |output| && forall i | 0 <= i < |r| :: r[i] == output[i].shown
  {
    if output == [] then [] else [output[0].shown] + Aliases(output[1..])
  }

  /** The output is the left side's columns, in order, under their own names. */
  predicate PassesThrough(output: seq<Output>, columns: seq<string>) {
    && Aliases(output) == columns
    && forall i | 0 <= i < |output| :: output[i].left && output[i].name == output[i].shown
  }

  ghost predicate NoRepeats(names: seq<string>) {
    forall i, j | 0 <= i < j < |names| :: names[i] != names[j]
  }

  /** The keys and the output of a join are columns of its sides. */
  predicate NamesColumns(
    keys: seq<(string, string)>, output: seq<Output>, left: seq<string>, right: seq<string>)
  {
    && (forall i | 0 <= i < |keys| :: keys[i].0 in left && keys[i].1 in right)
    && (forall i | 0 <= i < |output| :: output[i].name in (if output[i].left then left else right))
  }

  /** The branches of every union have the same columns, a join names columns of its sides
      under distinct aliases, lists in filters are ones the oracle reads right, and a semi or
      anti join hands its left side's columns through. */
  ghost predicate Valid(p: Plan) {
    match p
    case Scan(_, _) => true
    case Filter(q, w) => Valid(q) && Foldable(w)
    case Sort(q, _) => Valid(q)
    case Distinct(q) => Valid(q)
    case Sample(q, _) => Valid(q)
    case Limit(q, _, _) => Valid(q)
    case Union(qs, _) =>
      forall i | 0 <= i < |qs| :: Valid(qs[i]) && Columns(qs[i]) == Columns(qs[0])
    case Join(l, r, kind, keys, output) =>
      && Valid(l) && Valid(r) && NoRepeats(Aliases(output))
      && NamesColumns(keys, output, Columns(l), Columns(r))
      && (kind in {Semi, Anti} ==> PassesThrough(output, Columns(l)))
  }

  // --- What the rules need of the data ---------------------------------------------

  /** Whether a column is read off a source whose maximum for it is NaN, or is a value. */
  ghost predicate MaxMayBe(sources: Catalog, p: Plan, name: string, nan: bool) {
    match p
    case Scan(t, columns) =>
      var stats := ForReasoning(sources(t, columns));
      name in stats && stats[name].max.Some? && (stats[name].max.value == NaN) == nan
    case Filter(q, _) => MaxMayBe(sources, q, name, nan)
    case Sort(q, _) => MaxMayBe(sources, q, name, nan)
    case Distinct(q) => MaxMayBe(sources, q, name, nan)
    case Sample(q, _) => MaxMayBe(sources, q, name, nan)
    case Limit(q, _, _) => MaxMayBe(sources, q, name, nan)
    case Union(qs, _) => exists i | 0 <= i < |qs| :: MaxMayBe(sources, qs[i], name, nan)
    case Join(l, r, _, _, output) =>
      var o := Shown(output, name);
      && o.Some?
      && (if o.value.left then MaxMayBe(sources, l, o.value.name, nan) else MaxMayBe(sources, r, o.value.name, nan))
  }

  /** The maxima of a column over the branches of a union are not some of them NaN and some
      of them values. */
  ghost predicate Unmixed(sources: Catalog, qs: seq<Plan>, name: string) {
    || (forall i | 0 <= i < |qs| :: !MaxMayBe(sources, qs[i], name, true))
    || (forall i | 0 <= i < |qs| :: !MaxMayBe(sources, qs[i], name, false))
  }

  /** What `a` keeps of `b` besides its rows: the types, and what its maxima may be. */
  ghost predicate KeepsTypes(db: Db, sources: Catalog, a: Plan, b: Plan) {
    && SameKinds(db, a, b)
    && forall name, nan | name in Columns(a) && MaxMayBe(sources, a, name, nan) :: MaxMayBe(sources, b, name, nan)
  }

  ghost predicate KeysAlike(db: Db, l: Plan, r: Plan, keys: seq<(string, string)>) {
    forall i | 0 <= i < |keys| :: ColumnKind(db, l, keys[i].0) == ColumnKind(db, r, keys[i].1)
  }

  /** The cast merges no literal of a filter with a cell of the rows it meets, the branches of
      a union have the same types and do not mix NaN maxima with others, and the keys of an
      inner or semi join have the same types. */
  ghost predicate Clear(db: Db, sources: Catalog, p: Plan) {
    match p
    case Scan(_, _) => true
    case Filter(q, w) => Clear(db, sources, q) && forall i | 0 <= i < |Rows(db, q)| :: Unmerged(w, Rows(db, q)[i])
    case Sort(q, _) => Clear(db, sources, q)
    case Distinct(q) => Clear(db, sources, q)
    case Sample(q, _) => Clear(db, sources, q)
    case Limit(q, _, _) => Clear(db, sources, q)
    case Union(qs, _) =>
      && (forall i | 0 <= i < |qs| :: Clear(db, sources, qs[i]) && SameKinds(db, qs[i], qs[0]))
      && (forall name | name in Columns(p) :: Unmixed(sources, qs, name))
    case Join(l, r, kind, keys, _) =>
      && Clear(db, sources, l) && Clear(db, sources, r)
      && (kind in {Inner, Semi} ==> KeysAlike(db, l, r, keys))
  }

  // --- Rows have the plan's columns ------------------------------------------------

  lemma {:induction false} OutputRowKeys(output: seq<Output>, l: Option<Row>, r: Option<Row>)
    ensures OutputRow(output, l, r).Keys == Named(Aliases(output))
  {
    if output != [] {
      OutputRowKeys(output[1..], l, r);
      assert Aliases(output) == [output[0].shown] + Aliases(output[1..]);
    }
  }

  lemma TypedConcat(a: seq<Row>, b: seq<Row>, columns: seq<string>)
    requires Typed(a, columns) && Typed(b, columns)
    ensures Typed(a + b, columns)
  {
  }

  /** Rows drawn from typed rows are typed. */
  lemma TypedPart(a: seq<Row>, b: seq<Row>, columns: seq<string>)
    requires Typed(b, columns) && forall x | x in a :: x in b
    ensures Typed(a, columns)
  {
    forall i | 0 <= i < |a| ensures a[i].Keys == Named(columns) {
      assert a[i] in b;
    }
  }

  lemma {:induction false} KeptPart(env: Env, p: Pred, rows: seq<Row>)
    ensures forall x | x in Kept(env, p, rows) :: x in rows
  {
    if rows != [] {
      KeptPart(env, p, rows[1..]);
    }
  }

  lemma {:induction false} KeptAll(env: Env, p: Pred, rows: seq<Row>)
    requires forall i | 0 <= i < |rows| :: Eval(env, rows[i], p) == Some(true)
    ensures Kept(env, p, rows) == rows
  {
    if rows != [] {
      KeptAll(env, p, rows[1..]);
      assert rows == [rows[0]] + rows[1..];
    }
  }

  lemma {:induction false} KeptNone(env: Env, p: Pred, rows: seq<Row>)
    requires forall i | 0 <= i < |rows| :: Eval(env, rows[i], p) != Some(true)
    ensures Kept(env, p, rows) == []
  {
    if rows != [] {
      KeptNone(env, p, rows[1..]);
    }
  }

  lemma {:induction false} DeduplicatedPart(rows: seq<Row>, seen: set<Row>)
    ensures forall x | x in Deduplicated(rows, seen) :: x in rows
  {
    if rows != [] {
      DeduplicatedPart(rows[1..], if rows[0] in seen then seen else seen + {rows[0]});
    }
  }

  lemma MultisetPart(a: seq<Row>, b: seq<Row>)
    requires multiset(a) <= multiset(b)
    ensures forall x | x in a :: x in b
  {
    forall x | x in a ensures x in b {
      assert x in multiset(a);
      assert x in multiset(b);
    }
  }

  lemma {:induction false} PairUpTyped(output: seq<Output>, l: Row, partners: seq<Row>)
    ensures Typed(PairUp(output, l, partners), Aliases(output))
  {
    if partners != [] {
      PairUpTyped(output, l, partners[1..]);
      OutputRowKeys(output, Some(l), Some(partners[0]));
    }
  }

  lemma {:induction false} FromLeftsTyped(
    kind: JoinKind, keys: seq<(string, string)>, output: seq<Output>, lefts: seq<Row>, rights: seq<Row>)
    ensures Typed(FromLefts(kind, keys, output, lefts, rights), Aliases(output))
    decreases lefts
  {
    if lefts != [] {
      FromLeftsTyped(kind, keys, output, lefts[1..], rights);
      PairUpTyped(output, lefts[0], Partners(keys, lefts[0], rights));
      OutputRowKeys(output, Some(lefts[0]), None);
      assert Typed(FromLeft(kind, keys, output, lefts[0], rights), Aliases(output));
      TypedConcat(FromLeft(kind, keys, output, lefts[0], rights),
                  FromLefts(kind, keys, output, lefts[1..], rights), Aliases(output));
    }
  }

  lemma {:induction false} UnmatchedTyped(
    keys: seq<(string, string)>, output: seq<Output>, lefts: seq<Row>, rights: seq<Row>)
    ensures Typed(Unmatched(keys, output, lefts, rights), Aliases(output))
    decreases rights
  {
    if rights != [] {
      UnmatchedTyped(keys, output, lefts, rights[1..]);
      OutputRowKeys(output, None, Some(rights[0]));
    }
  }

  lemma JoinedTyped(
    kind: JoinKind, keys: seq<(string, string)>, output: seq<Output>, lefts: seq<Row>, rights: seq<Row>)
    ensures Typed(Joined(kind, keys, output, lefts, rights), Aliases(output))
  {
    FromLeftsTyped(kind, keys, output, lefts, rights);
    UnmatchedTyped(keys, output, lefts, rights);
  }

  /** A node over one input only selects and reorders its rows. */
  predicate OverOne(p: Plan) {
    p.Filter? || p.Sort? || p.Distinct? || p.Sample? || p.Limit?
  }

  /** The same node over another input. */
  function Over(p: Plan, q: Plan): Plan {
    match p
    case Filter(_, w) => Filter(q, w)
    case Sort(_, k) => Sort(q, k)
    case Distinct(_) => Distinct(q)
    case Sample(_, k) => Sample(q, k)
    case Limit(_, n, offset) => Limit(q, n, offset)
    case Scan(_, _) => p
    case Union(_, _) => p
    case Join(_, _, _, _, _) => p
  }

  lemma RowsFromInput(db: Db, p: Plan)
    requires ValidDb(db) && OverOne(p)
    ensures forall x | x in Rows(db, p) :: x in Rows(db, p.input)
  {
    var rows := Rows(db, p.input);
    match p
    case Filter(_, w) => KeptPart(db.env, w, rows);
    case Sort(_, k) => MultisetPart(db.sort(k, rows), rows);
    case Distinct(_) => DeduplicatedPart(rows, {});
    case Sample(_, k) => MultisetPart(db.sample(k, rows), rows);
    case Limit(_, _, _) =>
  }

  /** The rows of a plan have exactly the plan's columns. */
  lemma {:induction false} RowsTyped(db: Db, p: Plan)
    requires ValidDb(db) && Valid(p)
    ensures Typed(Rows(db, p), Columns(p))
    decreases p, 1, 0
  {
    if OverOne(p) {
      RowsTyped(db, p.input);
      RowsFromInput(db, p);
      TypedPart(Rows(db, p), Rows(db, p.input), Columns(p.input));
    } else if p.Union? {
      UnionTyped(db, p, 0);
      DeduplicatedPart(UnionRows(db, p, 0), {});
      TypedPart(Rows(db, p), UnionRows(db, p, 0), Columns(p));
    } else if p.Join? {
      JoinedTyped(p.kind, p.keys, p.output, Rows(db, p.left), Rows(db, p.right));
    }
  }

  lemma {:induction false} UnionTyped(db: Db, p: Plan, i: nat)
    requires ValidDb(db) && Valid(p) && p.Union? && i <= |p.inputs|
    ensures Typed(UnionRows(db, p, i), Columns(p))
    decreases p, 0, |p.inputs| - i
  {
    if i < |p.inputs| {
      RowsTyped(db, p.inputs[i]);
      UnionTyped(db, p, i + 1);
      TypedConcat(Rows(db, p.inputs[i]), UnionRows(db, p, i + 1), Columns(p));
    }
  }

  // --- Where the rows of a join come from ------------------------------------------

  /** The cell an output column reads. */
  function OutputOf(o: Output, l: Option<Row>, r: Option<Row>): Option<Value> {
    var side := if o.left then l else r;
    if side.None? then None else Cell(side.value, o.name)
  }

  lemma {:induction false} OutputRowCell(output: seq<Output>, l: Option<Row>, r: Option<Row>, name: string)
    ensures
      Cell(OutputRow(output, l, r), name)
      == if Shown(output, name).None? then None else OutputOf(Shown(output, name).value, l, r)
  {
    if output != [] {
      OutputRowCell(output[1..], l, r, name);
    }
  }

  lemma {:induction false} PartnersMatch(keys: seq<(string, string)>, l: Row, rights: seq<Row>)
    ensures forall r | r in Partners(keys, l, rights) :: r in rights && KeysMatch(keys, l, r)
  {
    if rights != [] {
      PartnersMatch(keys, l, rights[1..]);
    }
  }

  lemma {:induction false} PairUpOrigin(output: seq<Output>, l: Row, partners: seq<Row>, x: Row) returns (r: Row)
    requires x in PairUp(output, l, partners)
    ensures r in partners && x == OutputRow(output, Some(l), Some(r))
  {
    r := partners[0];
    if x != OutputRow(output, Some(l), Some(r)) {
      r := PairUpOrigin(output, l, partners[1..], x);
    }
  }

  /** The sides a row of a join was read off, and what its kind says about them. */
  ghost predicate Origin(
    kind: JoinKind, keys: seq<(string, string)>, lefts: seq<Row>, rights: seq<Row>, l: Option<Row>, r: Option<Row>)
  {
    && (l.Some? ==> l.value in lefts) && (r.Some? ==> r.value in rights) && (l.Some? || r.Some?)
    && (kind in {LeftOuter, Anti} ==> l.Some?) && (kind == RightOuter ==> r.Some?)
    && (kind == Inner ==> l.Some? && r.Some? && KeysMatch(keys, l.value, r.value))
    && (kind == Semi ==> l.Some? && r.None? && exists r' | r' in rights :: KeysMatch(keys, l.value, r'))
  }

  lemma FromLeftOrigin(
    kind: JoinKind, keys: seq<(string, string)>, output: seq<Output>, l: Row, rights: seq<Row>, x: Row)
    returns (r: Option<Row>)
    requires x in FromLeft(kind, keys, output, l, rights)
    ensures x == OutputRow(output, Some(l), r) && Origin(kind, keys, [l], rights, Some(l), r)
  {
    var partners := Partners(keys, l, rights);
    PartnersMatch(keys, l, rights);
    r := None;
    if x in PairUp(output, l, partners) && kind !in {Semi, Anti} {
      var p := PairUpOrigin(output, l, partners, x);
      r := Some(p);
    } else if kind == Semi {
      assert partners[0] in rights && KeysMatch(keys, l, partners[0]);
    }
  }

  lemma {:induction false} FromLeftsOrigin(
    kind: JoinKind, keys: seq<(string, string)>, output: seq<Output>, lefts: seq<Row>, rights: seq<Row>, x: Row)
    returns (l: Option<Row>, r: Option<Row>)
    requires x in FromLefts(kind, keys, output, lefts, rights)
    ensures x == OutputRow(output, l, r) && Origin(kind, keys, lefts, rights, l, r)
    decreases lefts
  {
    if x in FromLeft(kind, keys, output, lefts[0], rights) {
      l := Some(lefts[0]);
      r := FromLeftOrigin(kind, keys, output, lefts[0], rights, x);
    } else {
      l, r := FromLeftsOrigin(kind, keys, output, lefts[1..], rights, x);
    }
  }

  lemma {:induction false} UnmatchedOrigin(
    keys: seq<(string, string)>, output: seq<Output>, lefts: seq<Row>, rights: seq<Row>, x: Row)
    returns (r: Row)
    requires x in Unmatched(keys, output, lefts, rights)
    ensures r in rights && x == OutputRow(output, None, Some(r))
    decreases rights
  {
    r := rights[0];
    if HasPartner(keys, lefts, r) || x != OutputRow(output, None, Some(r)) {
      r := UnmatchedOrigin(keys, output, lefts, rights[1..], x);
    }
  }

  lemma JoinedOrigin(
    kind: JoinKind, keys: seq<(string, string)>, output: seq<Output>, lefts: seq<Row>, rights: seq<Row>, x: Row)
    returns (l: Option<Row>, r: Option<Row>)
    requires x in Joined(kind, keys, output, lefts, rights)
    ensures x == OutputRow(output, l, r) && Origin(kind, keys, lefts, rights, l, r)
  {
    if x in FromLefts(kind, keys, output, lefts, rights) {
      l, r := FromLeftsOrigin(kind, keys, output, lefts, rights, x);
    } else {
      var right := UnmatchedOrigin(keys, output, lefts, rights, x);
      l, r := None, Some(right);
    }
  }

  // --- Which rows a join has ---------------------------------------------------------

  /** The row and some row of the other side have equal, present keys. */
  ghost predicate LeftMatches(keys: seq<(string, string)>, l: Row, rights: seq<Row>) {
    exists r | r in rights :: Pair(keys, l, r)
  }

  ghost predicate RightMatches(keys: seq<(string, string)>, lefts: seq<Row>, r: Row) {
    exists l | l in lefts :: Pair(keys, l, r)
  }

  /** Under every key pair both rows hold a value, and the engine calls the two equal. */
  ghost predicate Pair(keys: seq<(string, string)>, l: Row, r: Row) {
    forall k | k in keys ::
      && k.0 in l && l[k.0].Some? && k.1 in r && r[k.1].Some?
      && Engine(Eq, l[k.0].value, r[k.1].value)
  }

  /** What a join emits of a left and a right row, either of which may be missing: the pairs,
      unless it is a semi or an anti join; a left row alone with a partner in a semi join, and
      without one in a left, a full or an anti join; and a right row alone without a partner
      in a right or a full join. */
  ghost predicate Emits(
    kind: JoinKind, keys: seq<(string, string)>, lefts: seq<Row>, rights: seq<Row>, l: Option<Row>, r: Option<Row>)
  {
    match (l, r)
    case (Some(a), Some(b)) => a in lefts && b in rights && Pair(keys, a, b) && kind !in {Semi, Anti}
    case (Some(a), None) =>
      && a in lefts
      && (if kind == Semi then LeftMatches(keys, a, rights)
          else kind in {LeftOuter, FullOuter, Anti} && !LeftMatches(keys, a, rights))
    case (None, Some(b)) => b in rights && kind in {RightOuter, FullOuter} && !RightMatches(keys, lefts, b)
    case (None, None) => false
  }

  lemma PairIsMatch(keys: seq<(string, string)>, l: Row, r: Row)
    ensures KeysMatch(keys, l, r) <==> Pair(keys, l, r)
  {
    if KeysMatch(keys, l, r) {
      forall k | k in keys
        ensures k.0 in l && l[k.0].Some? && k.1 in r && r[k.1].Some? && Engine(Eq, l[k.0].value, r[k.1].value)
      {
        var i :| 0 <= i < |keys| && keys[i] == k;
      }
    }
  }

  lemma {:induction false} PartnersAre(keys: seq<(string, string)>, l: Row, rights: seq<Row>, r: Row)
    ensures r in Partners(keys, l, rights) <==> r in rights && Pair(keys, l, r)
  {
    if rights != [] {
      PartnersAre(keys, l, rights[1..], r);
      PairIsMatch(keys, l, rights[0]);
    }
  }

  lemma {:induction false} PairUpHas(output: seq<Output>, l: Row, partners: seq<Row>, r: Row)
    requires r in partners
    ensures OutputRow(output, Some(l), Some(r)) in PairUp(output, l, partners)
  {
    if r != partners[0] {
      PairUpHas(output, l, partners[1..], r);
    }
  }

  /** The rows of one left row are what it emits. */
  lemma FromLeftEmits(
    kind: JoinKind, keys: seq<(string, string)>, output: seq<Output>, l: Row, lefts: seq<Row>, rights: seq<Row>,
    r: Option<Row>)
    requires l in lefts && Emits(kind, keys, lefts, rights, Some(l), r)
    ensures OutputRow(output, Some(l), r) in FromLeft(kind, keys, output, l, rights)
  {
    var partners := Partners(keys, l, rights);
    NoPartners(keys, l, rights);
    if r.Some? {
      PartnersAre(keys, l, rights, r.value);
      PairUpHas(output, l, partners, r.value);
    }
  }

  lemma NoPartners(keys: seq<(string, string)>, l: Row, rights: seq<Row>)
    ensures Partners(keys, l, rights) == [] <==> !LeftMatches(keys, l, rights)
  {
    var partners := Partners(keys, l, rights);
    if partners != [] {
      PartnersAre(keys, l, rights, partners[0]);
    }
    if LeftMatches(keys, l, rights) {
      var r :| r in rights && Pair(keys, l, r);
      PartnersAre(keys, l, rights, r);
    }
  }

  lemma FromLeftEmitted(
    kind: JoinKind, keys: seq<(string, string)>, output: seq<Output>, l: Row, lefts: seq<Row>, rights: seq<Row>, x: Row)
    returns (r: Option<Row>)
    requires l in lefts && x in FromLeft(kind, keys, output, l, rights)
    ensures x == OutputRow(output, Some(l), r) && Emits(kind, keys, lefts, rights, Some(l), r)
  {
    var partners := Partners(keys, l, rights);
    NoPartners(keys, l, rights);
    if kind in {Semi, Anti} || (kind in {LeftOuter, FullOuter} && partners == []) {
      r := None;
    } else {
      var b := PairUpOrigin(output, l, partners, x);
      PartnersAre(keys, l, rights, b);
      r := Some(b);
    }
  }

  lemma {:induction false} FromLeftsHas(
    kind: JoinKind, keys: seq<(string, string)>, output: seq<Output>, part: seq<Row>, rights: seq<Row>, l: Row, x: Row)
    requires l in part && x in FromLeft(kind, keys, output, l, rights)
    ensures x in FromLefts(kind, keys, output, part, rights)
    decreases part
  {
    if l != part[0] {
      FromLeftsHas(kind, keys, output, part[1..], rights, l, x);
    }
  }

  lemma {:induction false} FromLeftsIs(
    kind: JoinKind, keys: seq<(string, string)>, output: seq<Output>, part: seq<Row>, rights: seq<Row>, x: Row)
    returns (l: Row)
    requires x in FromLefts(kind, keys, output, part, rights)
    ensures l in part && x in FromLeft(kind, keys, output, l, rights)
    decreases part
  {
    l := part[0];
    if x !in FromLeft(kind, keys, output, l, rights) {
      l := FromLeftsIs(kind, keys, output, part[1..], rights, x);
    }
  }

  lemma NoLeft(keys: seq<(string, string)>, lefts: seq<Row>, r: Row)
    ensures HasPartner(keys, lefts, r) <==> RightMatches(keys, lefts, r)
  {
    forall l | l in lefts ensures KeysMatch(keys, l, r) <==> Pair(keys, l, r) {
      PairIsMatch(keys, l, r);
    }
    if RightMatches(keys, lefts, r) {
      var l :| l in lefts && Pair(keys, l, r);
      var i :| 0 <= i < |lefts| && lefts[i] == l;
    }
  }

  lemma {:induction false} UnmatchedAre(
    keys: seq<(string, string)>, output: seq<Output>, lefts: seq<Row>, rights: seq<Row>, x: Row)
    ensures x in Unmatched(keys, output, lefts, rights) <==>
      exists r | r in rights :: !RightMatches(keys, lefts, r) && x == OutputRow(output, None, Some(r))
    decreases rights
  {
    if rights != [] {
      var first, rest := rights[0], rights[1..];
      UnmatchedAre(keys, output, lefts, rest, x);
      NoLeft(keys, lefts, first);
      assert forall r :: r in rights <==> r == first || r in rest;
    }
  }

  ghost predicate EmitsRow(
    kind: JoinKind, keys: seq<(string, string)>, output: seq<Output>, lefts: seq<Row>, rights: seq<Row>, x: Row)
  {
    exists l, r :: Emits(kind, keys, lefts, rights, l, r) && x == OutputRow(output, l, r)
  }

  lemma EmitsBy(
    kind: JoinKind, keys: seq<(string, string)>, output: seq<Output>, lefts: seq<Row>, rights: seq<Row>,
    l: Option<Row>, r: Option<Row>)
    requires Emits(kind, keys, lefts, rights, l, r)
    ensures EmitsRow(kind, keys, output, lefts, rights, OutputRow(output, l, r))
  {
  }

  lemma JoinedIsEmitted(
    kind: JoinKind, keys: seq<(string, string)>, output: seq<Output>, lefts: seq<Row>, rights: seq<Row>, x: Row)
    requires x in Joined(kind, keys, output, lefts, rights)
    ensures EmitsRow(kind, keys, output, lefts, rights, x)
  {
    if x in FromLefts(kind, keys, output, lefts, rights) {
      var l := FromLeftsIs(kind, keys, output, lefts, rights, x);
      var r := FromLeftEmitted(kind, keys, output, l, lefts, rights, x);
      EmitsBy(kind, keys, output, lefts, rights, Some(l), r);
    } else {
      UnmatchedAre(keys, output, lefts, rights, x);
      var r :| r in rights && !RightMatches(keys, lefts, r) && x == OutputRow(output, None, Some(r));
      EmitsBy(kind, keys, output, lefts, rights, None, Some(r));
    }
  }

  lemma EmittedIsJoined(
    kind: JoinKind, keys: seq<(string, string)>, output: seq<Output>, lefts: seq<Row>, rights: seq<Row>,
    l: Option<Row>, r: Option<Row>)
    requires Emits(kind, keys, lefts, rights, l, r)
    ensures OutputRow(output, l, r) in Joined(kind, keys, output, lefts, rights)
  {
    if l.Some? {
      FromLeftEmits(kind, keys, output, l.value, lefts, rights, r);
      FromLeftsHas(kind, keys, output, lefts, rights, l.value, OutputRow(output, l, r));
    } else {
      UnmatchedAre(keys, output, lefts, rights, OutputRow(output, l, r));
    }
  }

  /** The rows of a join, of any kind, are exactly those it emits. */
  lemma JoinedExactly(
    kind: JoinKind, keys: seq<(string, string)>, output: seq<Output>, lefts: seq<Row>, rights: seq<Row>, x: Row)
    ensures x in Joined(kind, keys, output, lefts, rights) <==> EmitsRow(kind, keys, output, lefts, rights, x)
  {
    if x in Joined(kind, keys, output, lefts, rights) {
      JoinedIsEmitted(kind, keys, output, lefts, rights, x);
    }
    if EmitsRow(kind, keys, output, lefts, rights, x) {
      var l, r :| Emits(kind, keys, lefts, rights, l, r) && x == OutputRow(output, l, r);
      EmittedIsJoined(kind, keys, output, lefts, rights, l, r);
    }
  }

  // --- Rows have the plan's types --------------------------------------------------

  ghost predicate RowKinded(db: Db, p: Plan, x: Row) {
    forall name :: OfKind(Cell(x, name), ColumnKind(db, p, name))
  }

  /** The cells of a plan's rows are of the types of its columns. */
  lemma {:induction false} RowsKinded(db: Db, sources: Catalog, p: Plan)
    requires ValidDb(db) && Valid(p) && Clear(db, sources, p)
    ensures forall x | x in Rows(db, p) :: RowKinded(db, p, x)
    decreases p, 1, 0
  {
    if OverOne(p) {
      RowsKinded(db, sources, p.input);
      RowsFromInput(db, p);
      forall x | x in Rows(db, p) ensures RowKinded(db, p, x) {
        assert RowKinded(db, p.input, x);
      }
    } else if p.Union? {
      UnionKinded(db, sources, p, 0);
      DeduplicatedPart(UnionRows(db, p, 0), {});
    } else if p.Join? {
      RowsKinded(db, sources, p.left);
      RowsKinded(db, sources, p.right);
      forall x | x in Rows(db, p) ensures RowKinded(db, p, x) {
        JoinRowKinded(db, p, x);
      }
    }
  }

  lemma JoinRowKinded(db: Db, p: Plan, x: Row)
    requires p.Join? && x in Rows(db, p)
    requires forall l | l in Rows(db, p.left) :: RowKinded(db, p.left, l)
    requires forall r | r in Rows(db, p.right) :: RowKinded(db, p.right, r)
    ensures RowKinded(db, p, x)
  {
    var l, r := JoinedOrigin(p.kind, p.keys, p.output, Rows(db, p.left), Rows(db, p.right), x);
    forall name ensures OfKind(Cell(x, name), ColumnKind(db, p, name)) {
      OutputRowCell(p.output, l, r, name);
    }
  }

  lemma {:induction false} UnionKinded(db: Db, sources: Catalog, p: Plan, i: nat)
    requires ValidDb(db) && Valid(p) && Clear(db, sources, p) && p.Union? && i <= |p.inputs|
    ensures forall x | x in UnionRows(db, p, i) :: RowKinded(db, p, x)
    decreases p, 0, |p.inputs| - i
  {
    if i < |p.inputs| {
      RowsKinded(db, sources, p.inputs[i]);
      RowsTyped(db, p.inputs[i]);
      UnionKinded(db, sources, p, i + 1);
      forall x | x in Rows(db, p.inputs[i]) ensures RowKinded(db, p, x) {
        BranchRowKinded(db, p.inputs[i], p.inputs[0], x);
      }
    }
  }

  lemma BranchRowKinded(db: Db, q: Plan, first: Plan, x: Row)
    requires SameKinds(db, q, first) && RowKinded(db, q, x) && x.Keys == Named(Columns(q))
    ensures RowKinded(db, first, x)
  {
    forall name ensures OfKind(Cell(x, name), ColumnKind(db, first, name)) {
      assert OfKind(Cell(x, name), ColumnKind(db, q, name));
      assert name in x ==> name in Columns(q);
    }
  }
}
