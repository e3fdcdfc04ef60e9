/** The statistics of every plan over its sources: their propagation through the operators,
    and what they then say about the rows.
 */
module Estimates {
  import opened Common
  import opened ZoneMaps
  import opened Plans
  import opened Sources

  // --- Python's extremes -----------------------------------------------------------

  /** `min` over `cur` and the rest; it raises where two cannot be compared. */
  function Smallest(cur: Value, rest: seq<Value>): Option<Value>
    decreases rest
  {
    if rest == [] then Some(cur)
    else if Incomparable(rest[0], cur) then None
    else Smallest(if Python(Lt, rest[0], cur) then rest[0] else cur, rest[1..])
  }

  function Largest(cur: Value, rest: seq<Value>): Option<Value>
    decreases rest
  {
    if rest == [] then Some(cur)
    else if Incomparable(rest[0], cur) then None
    else Largest(if Python(Gt, rest[0], cur) then rest[0] else cur, rest[1..])
  }

  lemma {:induction false} SmallestIsLeast(cur: Value, rest: seq<Value>, m: Value)
    requires cur != NaN && Smallest(cur, rest) == Some(m)
    ensures (m == cur || m in rest) && m != NaN
    ensures !Less(cur, m) && forall v | v in rest :: !Less(v, m)
    decreases rest
  {
    TextOrder();
    if rest != [] {
      var next := if Python(Lt, rest[0], cur) then rest[0] else cur;
      SmallestIsLeast(next, rest[1..], m);
      LessOrder(cur, next, m);
      LessOrder(rest[0], next, m);
      LessOrder(m, next, cur);
      LessOrder(m, next, rest[0]);
      assert rest == [rest[0]] + rest[1..];
    }
  }

  lemma {:induction false} LargestIsGreatest(cur: Value, rest: seq<Value>, m: Value)
    requires cur != NaN && Largest(cur, rest) == Some(m)
    ensures (m == cur || m in rest) && m != NaN
    ensures !Less(m, cur) && forall v | v in rest && v != NaN :: !Less(m, v)
    decreases rest
  {
    TextOrder();
    if rest != [] {
      var next := if Python(Gt, rest[0], cur) then rest[0] else cur;
      LargestIsGreatest(next, rest[1..], m);
      LessOrder(m, next, cur);
      LessOrder(m, next, rest[0]);
      LessOrder(next, m, cur);
      LessOrder(next, m, rest[0]);
      assert rest == [rest[0]] + rest[1..];
    }
  }

  lemma {:induction false} LargestOfNaN(rest: seq<Value>)
    requires Largest(NaN, rest).Some?
    ensures Largest(NaN, rest) == Some(NaN)
  {
    if rest != [] {
      LargestOfNaN(rest[1..]);
    }
  }

  /** Python's maximum of some numbers is the greatest of them in the engine's order exactly
      when NaN comes first or not at all. */
  lemma LargestExactly(cur: Value, rest: seq<Value>, m: Value)
    requires Largest(cur, rest) == Some(m) && KindOf(cur) == DoubleKind
    ensures !Less(m, cur) && (forall v | v in rest :: !Less(m, v)) <==> cur == NaN || NaN !in rest
  {
    if cur == NaN {
      LargestOfNaN(rest);
      LargestNumbers(cur, rest);
    } else {
      LargestIsGreatest(cur, rest, m);
      LargestNumbers(cur, rest);
      if NaN in rest {
        assert Less(m, NaN);
      }
    }
  }

  lemma {:induction false} LargestNumbers(cur: Value, rest: seq<Value>)
    requires Largest(cur, rest).Some? && !cur.Str?
    ensures forall v | v in rest :: !v.Str?
    decreases rest
  {
    if rest != [] {
      LargestNumbers(if Python(Gt, rest[0], cur) then rest[0] else cur, rest[1..]);
      assert rest == [rest[0]] + rest[1..];
    }
  }

  // --- Statistics under a filter ---------------------------------------------------

  /** A column after an operator that drops rows: its bounds and index hold on, its null count
      is lost and nothing is exact. */
  function Weakened(c: ColumnStat): ColumnStat {
    c.(nulls := None, exact := false, nullsExact := false)
  }

  function AllWeakened(columns: map<string, ColumnStat>): map<string, ColumnStat> {
    map name | name in columns :: Weakened(columns[name])
  }

  function Conjuncts(p: Pred): seq<Pred> {
    if p.And? then Conjuncts(p.left) + Conjuncts(p.right) else [p]
  }

  datatype Interval = Interval(low: Option<Value>, high: Option<Value>)

  const ANYTHING := Interval(None, None)

  function CompareInterval(op: Op, v: Value): Interval {
    match op
    case Eq => Interval(Some(v), Some(v))
    case Gt => Interval(Some(v), None)
    case Ge => Interval(Some(v), None)
    case Lt => Interval(None, Some(v))
    case Le => Interval(None, Some(v))
    case Ne => ANYTHING
  }

  predicate AllOfKind(values: seq<Value>, kind: Kind) {
    forall i | 0 <= i < |values| :: KindOf(values[i]) == kind
  }

  predicate LitOfKind(t: Term, kind: Kind) {
    t.Lit? && t.value.Some? && KindOf(t.value.value) == kind
  }

  /** `_interval`: what a conjunct implies for a column, read off literals of its own type. */
  function ImpliedInterval(p: Pred, name: string, kind: Kind): Interval {
    match p
    case In(t, values) =>
      if t == Col(name) && values != [] && AllOfKind(values, kind)
      then Interval(Smallest(values[0], values[1..]), Largest(values[0], values[1..]))
      else ANYTHING
    case Compare(op, l, r) =>
      if l == Col(name) && LitOfKind(r, kind) then CompareInterval(op, r.value.value)
      else if r == Col(name) && LitOfKind(l, kind) then CompareInterval(Flip(op), l.value.value)
      else ANYTHING
    case Const(_) => ANYTHING
    case And(_, _) => ANYTHING
    case Or(_, _) => ANYTHING
    case Not(_) => ANYTHING
    case IsNull(_) => ANYTHING
    case IsNotNull(_) => ANYTHING
    case Opaque(_) => ANYTHING
  }

  function Raised(lo: Value, low: Option<Value>): Value {
    if low.Some? && Python(Gt, low.value, lo) then low.value else lo
  }

  function Lowered(hi: Value, high: Option<Value>): Value {
    if high.Some? && Python(Lt, high.value, hi) then high.value else hi
  }

  function Tightened(lo: Value, hi: Value, ps: seq<Pred>, name: string, kind: Kind): (Value, Value)
    decreases ps
  {
    if ps == [] then (lo, hi)
    else
      var i := ImpliedInterval(ps[0], name, kind);
      Tightened(Raised(lo, i.low), Lowered(hi, i.high), ps[1..], name, kind)
  }

  /** `bounded_by_predicate`. */
  function Narrowed(c: ColumnStat, w: Pred, name: string): ColumnStat {
    if c.min.None? || c.max.None? || KindOf(c.min.value) != KindOf(c.max.value) then c
    else
      var t := Tightened(c.min.value, c.max.value, Conjuncts(w), name, KindOf(c.min.value));
      if Python(Gt, t.0, t.1) then c else c.(min := Some(t.0), max := Some(t.1))
  }

  const NO_ROWS := RelStats(0, true, map[])

  predicate ProvablyEmpty(e: RelStats) {
    e.rowsExact && e.rows == 0
  }

  /** The null test whose effect is on record. */
  predicate CountedNotNull(w: Pred, e: RelStats) {
    && w.IsNotNull? && w.term.Col? && e.rowsExact && w.term.name in e.columns
    && var c := e.columns[w.term.name]; c.nulls.Some? && c.nullsExact
  }

  /** `_estimate_filter`. */
  function FilterStats(w: Pred, e: RelStats): RelStats {
    if w == Const(true) then e
    else if w == Const(false) || ProvablyEmpty(e) then NO_ROWS
    else if CountedNotNull(w, e) then
      var c := e.columns[w.term.name];
      RelStats(if c.nulls.value <= e.rows then e.rows - c.nulls.value else 0, true,
               AllWeakened(e.columns)[w.term.name := c.(nulls := Some(0))])
    else
      RelStats(e.rows, false, map name | name in e.columns :: Narrowed(Weakened(e.columns[name]), w, name))
  }

  /** The bounds are of the types of the cells they speak of. */
  ghost predicate Matching(columns: map<string, ColumnStat>, rows: seq<Row>) {
    forall name, i | name in columns && 0 <= i < |rows| && Cell(rows[i], name).Some? ::
      StatOfKind(columns[name], KindOf(Cell(rows[i], name).value))
  }

  lemma {:induction false} ConjunctsHold(env: Env, row: Row, w: Pred)
    requires Eval(env, row, w) == Some(true)
    ensures forall p | p in Conjuncts(w) :: Eval(env, row, p) == Some(true)
  {
    if w.And? {
      ConjunctsHold(env, row, w.left);
      ConjunctsHold(env, row, w.right);
    }
  }

  /** Within an interval, as far as its ends are ones Python orders. */
  ghost predicate Inside(i: Interval, x: Value) {
    && (i.low.Some? && i.low.value != NaN ==> !Less(x, i.low.value))
    && (i.high.Some? && i.high.value != NaN && x != NaN ==> !Less(i.high.value, x))
  }

  lemma SameKindNeverMerges(a: Value, b: Value)
    requires KindOf(a) == KindOf(b)
    ensures !Merges(a, b)
  {
  }

  lemma CompareImplies(op: Op, v: Value, x: Value)
    requires KindOf(x) == KindOf(v) && Engine(op, x, v)
    ensures Inside(CompareInterval(op, v), x)
  {
    SameKindNeverMerges(x, v);
    EngineIsExact(op, x, v);
    TextOrder();
  }

  lemma ListImplies(values: seq<Value>, kind: Kind, x: Value)
    requires values != [] && AllOfKind(values, kind) && KindOf(x) == kind && Matches(x, values)
    ensures Inside(Interval(Smallest(values[0], values[1..]), Largest(values[0], values[1..])), x)
  {
    var cur, rest := values[0], values[1..];
    var i :| 0 <= i < |values| && Engine(Eq, x, values[i]);
    var v := values[i];
    SameKindNeverMerges(x, v);
    EngineIsExact(Eq, x, v);
    assert v == cur || v in rest by {
      assert i > 0 ==> v == rest[i - 1];
    }
    if Smallest(cur, rest).Some? {
      var m := Smallest(cur, rest).value;
      if cur == NaN {
        SmallestOfNaN(rest);
      } else {
        SmallestIsLeast(cur, rest, m);
        LessOrder(v, x, m);
        LessOrder(x, v, m);
      }
    }
    if Largest(cur, rest).Some? {
      var m := Largest(cur, rest).value;
      if cur == NaN {
        LargestOfNaN(rest);
      } else {
        LargestIsGreatest(cur, rest, m);
        LessOrder(m, v, x);
        LessOrder(m, x, v);
      }
    }
  }

  lemma {:induction false} SmallestOfNaN(rest: seq<Value>)
    requires Smallest(NaN, rest).Some?
    ensures Smallest(NaN, rest) == Some(NaN)
  {
    if rest != [] {
      SmallestOfNaN(rest[1..]);
    }
  }

  lemma ImpliedHolds(env: Env, row: Row, p: Pred, name: string, x: Value)
    requires Eval(env, row, p) == Some(true) && Cell(row, name) == Some(x)
    ensures Inside(ImpliedInterval(p, name, KindOf(x)), x)
  {
    var kind := KindOf(x);
    match p
    case In(t, values) =>
      if t == Col(name) && values != [] && AllOfKind(values, kind) {
        ListImplies(values, kind, x);
      }
    case Compare(op, l, r) =>
      if l == Col(name) && LitOfKind(r, kind) {
        CompareImplies(op, r.value.value, x);
      } else if r == Col(name) && LitOfKind(l, kind) {
        Turned(op, l.value.value, x);
        CompareImplies(Flip(op), l.value.value, x);
      }
    case _ =>
  }

  lemma StepInside(lo: Value, hi: Value, i: Interval, x: Value)
    requires KindOf(hi) == KindOf(x) && Within(lo, hi, x) && Inside(i, x)
    ensures Within(Raised(lo, i.low), Lowered(hi, i.high), x)
  {
  }

  lemma {:induction false} TightenedHolds(
    env: Env, row: Row, lo: Value, hi: Value, ps: seq<Pred>, name: string, x: Value)
    requires forall p | p in ps :: Eval(env, row, p) == Some(true)
    requires Cell(row, name) == Some(x) && KindOf(hi) == KindOf(x) && Within(lo, hi, x)
    ensures var t := Tightened(lo, hi, ps, name, KindOf(x)); Within(t.0, t.1, x)
    decreases ps
  {
    if ps != [] {
      var i := ImpliedInterval(ps[0], name, KindOf(x));
      ImpliedHolds(env, row, ps[0], name, x);
      StepInside(lo, hi, i, x);
      ImpliedOfKind(ps[0], name, KindOf(x));
      TightenedHolds(env, row, Raised(lo, i.low), Lowered(hi, i.high), ps[1..], name, x);
    }
  }

  lemma ImpliedOfKind(p: Pred, name: string, kind: Kind)
    ensures var i := ImpliedInterval(p, name, kind); OfKind(i.low, kind) && OfKind(i.high, kind)
  {
    if p.In? && p.values != [] && AllOfKind(p.values, kind) {
      ExtremesAreMembers(p.values[0], p.values[1..]);
      assert forall v | v in p.values[1..] :: v in p.values;
      assert forall v | v in p.values :: KindOf(v) == kind;
    }
  }

  lemma {:induction false} ExtremesAreMembers(cur: Value, rest: seq<Value>)
    ensures Smallest(cur, rest).Some? ==> Smallest(cur, rest).value == cur || Smallest(cur, rest).value in rest
    ensures Largest(cur, rest).Some? ==> Largest(cur, rest).value == cur || Largest(cur, rest).value in rest
    decreases rest
  {
    if rest != [] {
      ExtremesAreMembers(if Python(Lt, rest[0], cur) then rest[0] else cur, rest[1..]);
      ExtremesAreMembers(if Python(Gt, rest[0], cur) then rest[0] else cur, rest[1..]);
      assert rest == [rest[0]] + rest[1..];
    }
  }

  /** Tightened bounds keep their type, and become NaN neither below nor above. */
  lemma {:induction false} TightenedOfKind(lo: Value, hi: Value, ps: seq<Pred>, name: string, kind: Kind)
    requires KindOf(lo) == KindOf(hi) == kind
    ensures
      var t := Tightened(lo, hi, ps, name, kind);
      KindOf(t.0) == KindOf(t.1) == kind && (t.0 == NaN ==> lo == NaN) && (t.1 == NaN <==> hi == NaN)
    decreases ps
  {
    if ps != [] {
      var i := ImpliedInterval(ps[0], name, kind);
      ImpliedOfKind(ps[0], name, kind);
      TightenedOfKind(Raised(lo, i.low), Lowered(hi, i.high), ps[1..], name, kind);
    }
  }

  /** Narrowed bounds hold of every cell of a row the filter keeps. */
  lemma NarrowedFits(env: Env, row: Row, w: Pred, c: ColumnStat, name: string, x: Value)
    requires Eval(env, row, w) == Some(true) && Cell(row, name) == Some(x)
    requires Fits(c, x) && StatOfKind(c, KindOf(x))
    ensures Fits(Narrowed(c, w, name), x)
  {
    ConjunctsHold(env, row, w);
    if c.min.Some? && c.max.Some? {
      TightenedHolds(env, row, c.min.value, c.max.value, Conjuncts(w), name, x);
      TightenedOfKind(c.min.value, c.max.value, Conjuncts(w), name, KindOf(x));
    }
  }

  // --- What an operator leaves of a description ------------------------------------

  /** Rows taken from described rows are described by weaker statistics. */
  lemma PartDescribed(e: RelStats, rows: seq<Row>, e': RelStats, part: seq<Row>)
    requires Describes(e, rows) && (forall x | x in part :: x in rows)
    requires e'.rowsExact ==> |part| <= e'.rows
    requires e'.columns == AllWeakened(e.columns)
    ensures Describes(e', part)
  {
    forall name | name in e'.columns ensures ColumnDescribes(e', e'.columns[name], part, name) {
      assert ColumnDescribes(e, e.columns[name], rows, name);
      forall i | 0 <= i < |part| && Cell(part[i], name).Some?
        ensures Fits(e'.columns[name], Cell(part[i], name).value)
      {
        assert part[i] in rows;
        var k :| 0 <= k < |rows| && rows[k] == part[i];
        assert Fits(e.columns[name], Cell(rows[k], name).value);
      }
    }
  }

  lemma {:induction false} KeptHolds(env: Env, w: Pred, rows: seq<Row>)
    ensures forall x | x in Kept(env, w, rows) :: x in rows && Eval(env, x, w) == Some(true)
    ensures |Kept(env, w, rows)| <= |rows|
  {
    if rows != [] {
      KeptHolds(env, w, rows[1..]);
    }
  }

  lemma NarrowedDescribes(env: Env, w: Pred, e: RelStats, rows: seq<Row>, e': RelStats)
    requires Describes(e, rows) && Matching(e.columns, rows)
    requires e' == RelStats(e.rows, false, map name | name in e.columns :: Narrowed(Weakened(e.columns[name]), w, name))
    ensures Describes(e', Kept(env, w, rows))
  {
    var part := Kept(env, w, rows);
    KeptHolds(env, w, rows);
    forall name | name in e'.columns ensures ColumnDescribes(e', e'.columns[name], part, name) {
      var c := Weakened(e.columns[name]);
      assert ColumnDescribes(e, e.columns[name], rows, name);
      NarrowedMin(c, w, name);
      forall i | 0 <= i < |part| && Cell(part[i], name).Some?
        ensures Fits(Narrowed(c, w, name), Cell(part[i], name).value)
      {
        assert part[i] in part;
        var k :| 0 <= k < |rows| && rows[k] == part[i];
        assert Fits(e.columns[name], Cell(rows[k], name).value);
        NarrowedFits(env, part[i], w, c, name, Cell(part[i], name).value);
      }
    }
  }

  /** A maximum, if there is one, is NaN exactly if the other is. */
  ghost predicate SameMax(a: ColumnStat, b: ColumnStat) {
    a.max.Some? ==> b.max.Some? && (a.max.value == NaN <==> b.max.value == NaN)
  }

  /** Narrowing makes no bound NaN and touches nothing but the bounds. */
  lemma NarrowedMin(c: ColumnStat, w: Pred, name: string)
    ensures
      var n := Narrowed(c, w, name);
      && n == c.(min := n.min, max := n.max)
      && (n.min == Some(NaN) ==> c.min == Some(NaN)) && SameMax(n, c)
      && forall kind | StatOfKind(c, kind) :: StatOfKind(n, kind)
  {
    if c.min.Some? && c.max.Some? && KindOf(c.min.value) == KindOf(c.max.value) {
      TightenedOfKind(c.min.value, c.max.value, Conjuncts(w), name, KindOf(c.min.value));
    }
  }

  lemma {:induction false} NotNullCounts(env: Env, name: string, rows: seq<Row>)
    ensures |Kept(env, IsNotNull(Col(name)), rows)| == |rows| - NullCount(rows, name)
    ensures forall x | x in Kept(env, IsNotNull(Col(name)), rows) :: Cell(x, name).Some?
  {
    if rows != [] {
      NotNullCounts(env, name, rows[1..]);
    }
  }

  lemma NotNullDescribes(env: Env, w: Pred, e: RelStats, rows: seq<Row>)
    requires Describes(e, rows) && CountedNotNull(w, e) && !ProvablyEmpty(e)
    ensures Describes(FilterStats(w, e), Kept(env, w, rows))
  {
    var name := w.term.name;
    var c, part, e' := e.columns[name], Kept(env, w, rows), FilterStats(w, e);
    assert ColumnDescribes(e, c, rows, name);
    NotNullCounts(env, name, rows);
    KeptHolds(env, w, rows);
    PartDescribed(e, rows, e'.(columns := AllWeakened(e.columns)), part);
    forall i | 0 <= i < |part| ensures Cell(part[i], name).Some? && Fits(c, Cell(part[i], name).value) {
      assert part[i] in part;
      var k :| 0 <= k < |rows| && rows[k] == part[i];
    }
    NoneMissing(part, name);
    forall other | other in e'.columns ensures ColumnDescribes(e', e'.columns[other], part, other) {
      if other != name {
        assert ColumnDescribes(e'.(columns := AllWeakened(e.columns)), e'.columns[other], part, other);
      }
    }
  }

  /** The statistics of a filter describe the rows it keeps. */
  lemma FilterDescribes(env: Env, w: Pred, e: RelStats, rows: seq<Row>)
    requires Describes(e, rows) && Matching(e.columns, rows)
    ensures Describes(FilterStats(w, e), Kept(env, w, rows))
  {
    KeptHolds(env, w, rows);
    if w == Const(true) {
      KeptAll(env, w, rows);
    } else if w == Const(false) {
      KeptNone(env, w, rows);
    } else if ProvablyEmpty(e) {
    } else if CountedNotNull(w, e) {
      NotNullDescribes(env, w, e, rows);
    } else {
      NarrowedDescribes(env, w, e, rows, FilterStats(w, e));
    }
  }

  lemma {:induction false} NullCountOfConcat(a: seq<Row>, b: seq<Row>, name: string)
    ensures NullCount(a + b, name) == NullCount(a, name) + NullCount(b, name)
  {
    if a == [] {
      assert a + b == b;
    } else {
      NullCountOfConcat(a[1..], b, name);
      assert (a + b)[1..] == a[1..] + b;
    }
  }

  lemma {:induction false} NullCountIsTotal(rows: seq<Row>, name: string)
    ensures NullCount(rows, name) as real == Total((x: Row) => if Cell(x, name).None? then 1.0 else 0.0, rows)
  {
    if rows != [] {
      NullCountIsTotal(rows[1..], name);
    }
  }

  lemma NullCountPermuted(a: seq<Row>, b: seq<Row>, name: string)
    requires multiset(a) == multiset(b)
    ensures NullCount(a, name) == NullCount(b, name) && |a| == |b|
  {
    NullCountIsTotal(a, name);
    NullCountIsTotal(b, name);
    TotalPermuted((x: Row) => if Cell(x, name).None? then 1.0 else 0.0, a, b);
  }

  /** A sort keeps every statistic. */
  lemma PermutedDescribed(e: RelStats, rows: seq<Row>, sorted: seq<Row>)
    requires Describes(e, rows) && multiset(sorted) == multiset(rows)
    ensures Describes(e, sorted)
  {
    MultisetPart(sorted, rows);
    NullCountPermuted(sorted, rows, "");
    forall name | name in e.columns ensures ColumnDescribes(e, e.columns[name], sorted, name) {
      assert ColumnDescribes(e, e.columns[name], rows, name);
      NullCountPermuted(sorted, rows, name);
      forall i | 0 <= i < |sorted|
        ensures Cell(sorted[i], name).Some? ==> Fits(e.columns[name], Cell(sorted[i], name).value)
        ensures e.columns[name].nulls == Some(0) ==> Cell(sorted[i], name).Some?
      {
        assert sorted[i] in sorted;
        var k :| 0 <= k < |rows| && rows[k] == sorted[i];
      }
    }
  }

  /** `_estimate_limit`: the offset is not looked at. */
  function LimitStats(n: nat, e: RelStats): RelStats {
    RelStats(if e.rows < n then e.rows else n, n == 0 || e.rowsExact, AllWeakened(e.columns))
  }

  /** The count a limit claims of an input that was counted is right exactly when enough rows
      lie beyond the offset. */
  lemma LimitCountExactly(e: RelStats, rows: seq<Row>, n: nat, offset: nat)
    requires e.rowsExact && e.rows == |rows|
    ensures |Page(rows, n, offset)| == LimitStats(n, e).rows
       <==> offset == 0 || n == 0 || rows == [] || offset + n <= |rows|
  {
  }

  /** `_estimate_distinct`, as far as a count is provable. */
  function DistinctStats(e: RelStats): RelStats {
    RelStats(e.rows, ProvablyEmpty(e), map name | name in e.columns :: e.columns[name].(nulls := None))
  }

  lemma DistinctDescribes(e: RelStats, rows: seq<Row>)
    requires Describes(e, rows)
    ensures Describes(DistinctStats(e), Deduplicated(rows, {}))
  {
    var e', part := DistinctStats(e), Deduplicated(rows, {});
    DeduplicatedPart(rows, {});
    if rows == [] {
      assert part == [];
    }
    forall name | name in e'.columns ensures ColumnDescribes(e', e'.columns[name], part, name) {
      assert ColumnDescribes(e, e.columns[name], rows, name);
      forall i | 0 <= i < |part| && Cell(part[i], name).Some?
        ensures Fits(e'.columns[name], Cell(part[i], name).value)
      {
        assert part[i] in part;
        var k :| 0 <= k < |rows| && rows[k] == part[i];
        assert Fits(e.columns[name], Cell(rows[k], name).value);
      }
    }
  }

  // --- Statistics of a union -------------------------------------------------------

  function Lows(cs: seq<ColumnStat>): seq<Value> {
    if cs == [] then [] else (if cs[0].min.Some? then [cs[0].min.value] else []) + Lows(cs[1..])
  }

  function Highs(cs: seq<ColumnStat>): seq<Value> {
    if cs == [] then [] else (if cs[0].max.Some? then [cs[0].max.value] else []) + Highs(cs[1..])
  }

  function NullSum(cs: seq<ColumnStat>): Option<nat> {
    if cs == [] then Some(0)
    else
      var rest := NullSum(cs[1..]);
      if cs[0].nulls.None? || rest.None? then None else Some(cs[0].nulls.value + rest.value)
  }

  predicate AllExact(cs: seq<ColumnStat>) {
    forall i | 0 <= i < |cs| :: cs[i].exact
  }

  /** `_merge_union_column`: the extremes are Python's. */
  function Merged(cs: seq<ColumnStat>): ColumnStat
    requires cs != []
  {
    var lows, highs := Lows(cs), Highs(cs);
    ColumnStat(
      if |lows| == |cs| then Smallest(lows[0], lows[1..]) else None,
      if |highs| == |cs| then Largest(highs[0], highs[1..]) else None,
      NullSum(cs), AllExact(cs), AllExact(cs), None)
  }

  function Branches(es: seq<RelStats>, name: string): (cs: seq<ColumnStat>)
    ensures |cs| == |es| && forall i | 0 <= i < |es| :: cs[i] == Column(es[i], name)
  {
    if es == [] then [] else [Column(es[0], name)] + Branches(es[1..], name)
  }

  predicate AllHave(es: seq<RelStats>, name: string) {
    forall i | 0 <= i < |es| :: name in es[i].columns
  }

  function UnionColumns(names: seq<string>, es: seq<RelStats>): map<string, ColumnStat>
    requires es != []
  {
    map name | name in names && AllHave(es, name) :: Merged(Branches(es, name))
  }

  function RowSum(es: seq<RelStats>): nat {
    if es == [] then 0 else es[0].rows + RowSum(es[1..])
  }

  predicate AllCounted(es: seq<RelStats>) {
    forall i | 0 <= i < |es| :: es[i].rowsExact
  }

  /** `_estimate_union`. */
  function UnionStats(names: seq<string>, es: seq<RelStats>, distinct: bool): RelStats
    requires es != []
  {
    if forall i | 0 <= i < |es| :: ProvablyEmpty(es[i]) then NO_ROWS
    else RelStats(RowSum(es), !distinct && AllCounted(es), UnionColumns(names, es))
  }

  lemma {:induction false} AllLows(cs: seq<ColumnStat>)
    ensures |Lows(cs)| <= |cs|
    ensures |Lows(cs)| == |cs| ==>
              forall i | 0 <= i < |cs| :: cs[i].min.Some? && Lows(cs)[i] == cs[i].min.value
  {
    if cs != [] {
      AllLows(cs[1..]);
    }
  }

  lemma {:induction false} AllHighs(cs: seq<ColumnStat>)
    ensures |Highs(cs)| <= |cs|
    ensures |Highs(cs)| == |cs| ==>
              forall i | 0 <= i < |cs| :: cs[i].max.Some? && Highs(cs)[i] == cs[i].max.value
  {
    if cs != [] {
      AllHighs(cs[1..]);
    }
  }

  /** The maxima are none of them NaN, or all of them. */
  ghost predicate UnmixedMaxima(cs: seq<ColumnStat>) {
    || (forall i | 0 <= i < |cs| :: cs[i].max != Some(NaN))
    || (forall i | 0 <= i < |cs| :: cs[i].max.Some? ==> cs[i].max.value == NaN)
  }

  /** A merged column speaks of a cell of any branch. */
  lemma MergedFits(cs: seq<ColumnStat>, k: nat, x: Value)
    requires k < |cs| && Fits(cs[k], x) && UnmixedMaxima(cs)
    requires forall i | 0 <= i < |cs| :: cs[i].min != Some(NaN)
    ensures Fits(Merged(cs), x)
  {
    var lows, highs, m := Lows(cs), Highs(cs), Merged(cs);
    AllLows(cs);
    AllHighs(cs);
    if m.min.Some? {
      SmallestIsLeast(lows[0], lows[1..], m.min.value);
      assert k > 0 ==> lows[k] == lows[1..][k - 1];
      LessOrder(x, m.min.value, lows[k]);
    }
    if m.max.Some? && highs[0] != NaN {
      LargestIsGreatest(highs[0], highs[1..], m.max.value);
      assert k > 0 ==> highs[k] == highs[1..][k - 1];
      LessOrder(m.max.value, x, highs[k]);
    } else if m.max.Some? {
      LargestOfNaN(highs[1..]);
      assert highs[k] == NaN;
    }
  }

  /** The merged bounds are bounds of some branch. */
  lemma MergedBounds(cs: seq<ColumnStat>, kind: Kind)
    requires cs != [] && forall i | 0 <= i < |cs| :: StatOfKind(cs[i], kind) && cs[i].min != Some(NaN)
    ensures StatOfKind(Merged(cs), kind) && Merged(cs).min != Some(NaN)
    ensures Merged(cs).max.Some? ==> exists i | 0 <= i < |cs| :: cs[i].max == Merged(cs).max
  {
    var lows, highs, m := Lows(cs), Highs(cs), Merged(cs);
    AllLows(cs);
    AllHighs(cs);
    if m.min.Some? {
      SmallestIsLeast(lows[0], lows[1..], m.min.value);
      assert m.min.value in lows;
    }
    if m.max.Some? {
      ExtremesAreMembers(highs[0], highs[1..]);
      assert m.max.value in highs;
      var i :| 0 <= i < |highs| && highs[i] == m.max.value;
      assert cs[i].max == m.max;
    }
  }

  /** The rows of the branches, with what each branch says about them. */
  ghost predicate EachDescribes(db: Db, qs: seq<Plan>, es: seq<RelStats>) {
    |es| == |qs| && forall i | 0 <= i < |qs| :: Describes(es[i], Rows(db, qs[i]))
  }

  lemma {:induction false} ConcatOrigin(db: Db, qs: seq<Plan>, x: Row) returns (k: nat)
    requires x in Concat(db, qs)
    ensures k < |qs| && x in Rows(db, qs[k])
  {
    if x in Rows(db, qs[0]) {
      k := 0;
    } else {
      var j := ConcatOrigin(db, qs[1..], x);
      k := j + 1;
    }
  }

  lemma {:induction false} UnionCounted(db: Db, qs: seq<Plan>, es: seq<RelStats>)
    requires EachDescribes(db, qs, es) && AllCounted(es)
    ensures |Concat(db, qs)| <= RowSum(es)
  {
    if qs != [] {
      UnionCounted(db, qs[1..], es[1..]);
    }
  }

  /** Exact counts add up. */
  lemma {:induction false} NullsAddUp(db: Db, qs: seq<Plan>, es: seq<RelStats>, name: string)
    requires EachDescribes(db, qs, es) && AllCounted(es) && AllHave(es, name)
    requires AllExact(Branches(es, name)) && NullSum(Branches(es, name)).Some?
    ensures NullSum(Branches(es, name)) == Some(NullCount(Concat(db, qs), name))
    ensures RowSum(es) == |Concat(db, qs)|
  {
    if qs != [] {
      var cs, rows, rest := Branches(es, name), Rows(db, qs[0]), Concat(db, qs[1..]);
      assert cs[1..] == Branches(es[1..], name);
      NullsAddUp(db, qs[1..], es[1..], name);
      BranchCounted(es[0], rows, name);
      NullCountOfConcat(rows, rest, name);
    }
  }

  lemma BranchCounted(e: RelStats, rows: seq<Row>, name: string)
    requires Describes(e, rows) && e.rowsExact && name in e.columns
    requires e.columns[name].exact && e.columns[name].nulls.Some?
    ensures e.columns[name].nulls.value == NullCount(rows, name) && e.rows == |rows|
  {
    assert ColumnDescribes(e, e.columns[name], rows, name);
  }

  lemma {:induction false} NullSumZero(cs: seq<ColumnStat>, k: nat)
    requires k < |cs| && NullSum(cs) == Some(0)
    ensures cs[k].nulls == Some(0)
  {
    if k > 0 {
      NullSumZero(cs[1..], k - 1);
    }
  }

  lemma UnionColumnDescribes(
    db: Db, qs: seq<Plan>, es: seq<RelStats>, e: RelStats, rows: seq<Row>, name: string, kind: Kind)
    requires EachDescribes(db, qs, es) && es != [] && AllHave(es, name)
    requires BranchesRight(es, name, kind)
    requires (forall x | x in rows :: x in Concat(db, qs)) && e.rows == RowSum(es)
    requires e.rowsExact ==> AllCounted(es) && rows == Concat(db, qs)
    ensures ColumnDescribes(e, Merged(Branches(es, name)), rows, name)
  {
    var cs := Branches(es, name);
    forall i | 0 <= i < |cs| ensures cs[i].min != Some(NaN) {
      assert ColumnDescribes(es[i], es[i].columns[name], Rows(db, qs[i]), name);
    }
    MergedBounds(cs, kind);
    forall i | 0 <= i < |rows|
      ensures Cell(rows[i], name).Some? ==> Fits(Merged(cs), Cell(rows[i], name).value)
      ensures NullSum(cs) == Some(0) ==> Cell(rows[i], name).Some?
    {
      assert rows[i] in rows;
      var k := ConcatOrigin(db, qs, rows[i]);
      BranchCell(es[k], Rows(db, qs[k]), rows[i], name);
      if Cell(rows[i], name).Some? {
        MergedFits(cs, k, Cell(rows[i], name).value);
      }
      if NullSum(cs) == Some(0) {
        NullSumZero(cs, k);
      }
    }
    if e.rowsExact && NullSum(cs).Some? && AllExact(cs) {
      NullsAddUp(db, qs, es, name);
    }
  }

  lemma BranchCell(e: RelStats, rows: seq<Row>, x: Row, name: string)
    requires Describes(e, rows) && name in e.columns && x in rows
    ensures Cell(x, name).Some? ==> Fits(Column(e, name), Cell(x, name).value)
    ensures Column(e, name).nulls == Some(0) ==> Cell(x, name).Some?
  {
    assert ColumnDescribes(e, e.columns[name], rows, name);
    var k :| 0 <= k < |rows| && rows[k] == x;
  }

  lemma {:induction false} AllEmpty(db: Db, qs: seq<Plan>, es: seq<RelStats>)
    requires EachDescribes(db, qs, es) && forall i | 0 <= i < |es| :: ProvablyEmpty(es[i])
    ensures Concat(db, qs) == []
  {
    if qs != [] {
      AllEmpty(db, qs[1..], es[1..]);
    }
  }

  // --- Statistics of a join --------------------------------------------------------

  predicate Comparable(v: Option<Value>) {
    v.Some? && !v.value.Str? && !Ambiguous(v.value)
  }

  /** `_intersect_key_stat`. */
  function Intersected(c: ColumnStat, other: ColumnStat): ColumnStat {
    var t := c.(
      min := if Comparable(c.min) && Comparable(other.min) && Python(Gt, other.min.value, c.min.value)
             then other.min else c.min,
      max := if Comparable(c.max) && Comparable(other.max) && Python(Lt, other.max.value, c.max.value)
             then other.max else c.max);
    if Comparable(t.min) && Comparable(t.max) && Python(Gt, t.min.value, t.max.value) then c else t
  }

  /** `_matched_key_stats`: the other side's statistics of the last key pair with the column. */
  function Paired(keys: seq<(string, string)>, left: bool, name: string, l: RelStats, r: RelStats): Option<ColumnStat> {
    if keys == [] then None
    else
      var k := keys[|keys| - 1];
      if (if left then k.0 else k.1) == name && k.0 in l.columns && k.1 in r.columns
      then Some(if left then r.columns[k.1] else l.columns[k.0])
      else Paired(keys[..|keys| - 1], left, name, l, r)
  }

  function JoinColumn(kind: JoinKind, keys: seq<(string, string)>, o: Output, l: RelStats, r: RelStats)
    : Option<ColumnStat>
  {
    var side := if o.left then l else r;
    if o.name !in side.columns then None
    else
      var c := side.columns[o.name];
      var other := if kind in {Inner, Semi} then Paired(keys, o.left, o.name, l, r) else None;
      Some(Weakened(if other.Some? then Intersected(c, other.value) else c))
  }

  /** `join_columns`. */
  function JoinColumns(
    kind: JoinKind, keys: seq<(string, string)>, output: seq<Output>, l: RelStats, r: RelStats)
    : map<string, ColumnStat>
  {
    if output == [] then map[]
    else
      var rest := JoinColumns(kind, keys, output[1..], l, r);
      var c := JoinColumn(kind, keys, output[0], l, r);
      if c.None? then rest else rest[output[0].shown := c.value]
  }

  /** `_join_provably_empty`. */
  predicate JoinEmpty(kind: JoinKind, l: RelStats, r: RelStats) {
    match kind
    case Inner => ProvablyEmpty(l) || ProvablyEmpty(r)
    case Semi => ProvablyEmpty(l) || ProvablyEmpty(r)
    case LeftOuter => ProvablyEmpty(l)
    case Anti => ProvablyEmpty(l)
    case RightOuter => ProvablyEmpty(r)
    case FullOuter => ProvablyEmpty(l) && ProvablyEmpty(r)
  }

  /** `_estimate_join`, as far as a count is provable. */
  function JoinStats(kind: JoinKind, keys: seq<(string, string)>, output: seq<Output>, l: RelStats, r: RelStats)
    : RelStats
  {
    if JoinEmpty(kind, l, r) then NO_ROWS
    else RelStats(UNKNOWN_ROWS, false, JoinColumns(kind, keys, output, l, r))
  }

  lemma {:induction false} JoinColumnShown(
    kind: JoinKind, keys: seq<(string, string)>, output: seq<Output>, l: RelStats, r: RelStats, name: string)
    requires NoRepeats(Aliases(output)) && name in JoinColumns(kind, keys, output, l, r)
    ensures Shown(output, name).Some?
    ensures Some(JoinColumns(kind, keys, output, l, r)[name]) == JoinColumn(kind, keys, Shown(output, name).value, l, r)
    decreases output
  {
    var o, rest := output[0], output[1..];
    var c := JoinColumn(kind, keys, o, l, r);
    if c.None? || o.shown != name {
      ShownOnce(output);
      JoinColumnShown(kind, keys, rest, l, r, name);
      ShownUnder(rest, name);
    }
  }

  /** With distinct aliases the first column's is not shown again. */
  lemma {:induction false} ShownOnce(output: seq<Output>)
    requires output != [] && NoRepeats(Aliases(output))
    ensures NoRepeats(Aliases(output[1..])) && forall o | o in output[1..] :: o.shown != output[0].shown
  {
    var all, tail := Aliases(output), output[1..];
    AliasesTail(output, all, Aliases(tail));
    forall o | o in tail ensures o.shown != output[0].shown {
      var i :| 0 <= i < |tail| && tail[i] == o;
      assert all[0] != all[i + 1];
    }
  }

  lemma AliasesTail(output: seq<Output>, all: seq<string>, rest: seq<string>)
    requires output != [] && all == Aliases(output) && rest == Aliases(output[1..]) && NoRepeats(all)
    ensures |all| == |rest| + 1 && NoRepeats(rest) && forall i | 0 <= i < |rest| :: all[i + 1] == rest[i]
  {
    assert forall i | 0 <= i < |rest| :: all[i + 1] == rest[i];
  }

  lemma {:induction false} ShownUnder(output: seq<Output>, name: string)
    ensures Shown(output, name).Some? ==> Shown(output, name).value.shown == name && Shown(output, name).value in output
  {
    if output != [] {
      ShownUnder(output[1..], name);
      assert output == [output[0]] + output[1..];
    }
  }

  lemma {:induction false} PairedKey(
    keys: seq<(string, string)>, left: bool, name: string, l: RelStats, r: RelStats) returns (i: nat)
    requires Paired(keys, left, name, l, r).Some?
    ensures i < |keys| && (if left then keys[i].0 else keys[i].1) == name
    ensures keys[i].0 in l.columns && keys[i].1 in r.columns
    ensures Paired(keys, left, name, l, r).value == if left then r.columns[keys[i].1] else l.columns[keys[i].0]
  {
    var n := |keys| - 1;
    var k := keys[n];
    if (if left then k.0 else k.1) == name && k.0 in l.columns && k.1 in r.columns {
      i := n;
    } else {
      i := PairedKey(keys[..n], left, name, l, r);
    }
  }

  /** Intersected bounds hold of a value that equals one the other side allows. */
  lemma IntersectedFits(c: ColumnStat, other: ColumnStat, x: Value, y: Value)
    requires Fits(c, x) && Fits(other, y) && KindOf(x) == KindOf(y) && Engine(Eq, x, y)
    requires StatOfKind(other, KindOf(x))
    ensures Fits(Intersected(c, other), x)
  {
    SameKindNeverMerges(x, y);
    EngineIsExact(Eq, x, y);
    if other.min.Some? {
      LessOrder(x, y, other.min.value);
      LessOrder(y, x, other.min.value);
    }
    if other.max.Some? {
      LessOrder(other.max.value, x, y);
      LessOrder(other.max.value, y, x);
    }
  }

  /** Statistics that are right about a plan: they describe its rows, their bounds are of its
      types, and a maximum is NaN, or a value, only where one of its sources' is. */
  ghost predicate RightAbout(db: Db, sources: Catalog, p: Plan, e: RelStats) {
    && Describes(e, Rows(db, p))
    && forall name | name in e.columns :: ColumnRight(db, sources, p, e.columns[name], name)
  }

  ghost predicate ColumnRight(db: Db, sources: Catalog, p: Plan, c: ColumnStat, name: string) {
    && StatOfKind(c, ColumnKind(db, p, name))
    && (c.max.Some? ==> MaxMayBe(sources, p, name, c.max.value == NaN))
  }

  /** The sides of a join, with what is known of their rows. */
  ghost predicate SidesRight(db: Db, sources: Catalog, p: Plan, l: RelStats, r: RelStats) {
    && p.Join? && RightAbout(db, sources, p.left, l) && RightAbout(db, sources, p.right, r)
    && (forall x | x in Rows(db, p.left) :: RowKinded(db, p.left, x))
    && (forall x | x in Rows(db, p.right) :: RowKinded(db, p.right, x))
    && (p.kind in {Inner, Semi} ==> KeysAlike(db, p.left, p.right, p.keys))
  }

  /** A cell of a matched row respects the bounds its key shares with the other side's. */
  lemma KeyCellFits(
    db: Db, sources: Catalog, p: Plan, l: RelStats, r: RelStats, left: bool, name: string, x: Row, y: Row)
    requires SidesRight(db, sources, p, l, r) && p.kind in {Inner, Semi}
    requires x in Rows(db, p.left) && y in Rows(db, p.right) && KeysMatch(p.keys, x, y)
    requires name in (if left then l else r).columns && Paired(p.keys, left, name, l, r).Some?
    ensures
      var cell := Cell(if left then x else y, name);
      && cell.Some?
      && Fits(Intersected((if left then l else r).columns[name], Paired(p.keys, left, name, l, r).value), cell.value)
  {
    var i := PairedKey(p.keys, left, name, l, r);
    var k := p.keys[i];
    assert ColumnKind(db, p.left, k.0) == ColumnKind(db, p.right, k.1);
    var a, b := Cell(x, k.0), Cell(y, k.1);
    assert a.Some? && b.Some? && Engine(Eq, a.value, b.value);
    assert OfKind(a, ColumnKind(db, p.left, k.0)) && OfKind(b, ColumnKind(db, p.right, k.1));
    BranchCell(l, Rows(db, p.left), x, k.0);
    BranchCell(r, Rows(db, p.right), y, k.1);
    assert ColumnRight(db, sources, p.left, l.columns[k.0], k.0);
    assert ColumnRight(db, sources, p.right, r.columns[k.1], k.1);
    if left {
      IntersectedFits(l.columns[k.0], r.columns[k.1], a.value, b.value);
    } else {
      Turned(Eq, a.value, b.value);
      IntersectedFits(r.columns[k.1], l.columns[k.0], b.value, a.value);
    }
  }

  lemma JoinCellFits(
    db: Db, sources: Catalog, p: Plan, l: RelStats, r: RelStats, o: Output, x: Option<Row>, y: Option<Row>)
    requires SidesRight(db, sources, p, l, r) && JoinColumn(p.kind, p.keys, o, l, r).Some?
    requires Origin(p.kind, p.keys, Rows(db, p.left), Rows(db, p.right), x, y) && OutputOf(o, x, y).Some?
    ensures Fits(JoinColumn(p.kind, p.keys, o, l, r).value, OutputOf(o, x, y).value)
  {
    if p.kind in {Inner, Semi} && Paired(p.keys, o.left, o.name, l, r).Some? {
      var partner: Row;
      if p.kind == Inner {
        partner := y.value;
      } else {
        partner :| partner in Rows(db, p.right) && KeysMatch(p.keys, x.value, partner);
      }
      KeyCellFits(db, sources, p, l, r, o.left, o.name, x.value, partner);
    } else if o.left {
      BranchCell(l, Rows(db, p.left), x.value, o.name);
    } else {
      BranchCell(r, Rows(db, p.right), y.value, o.name);
    }
  }

  /** Intersecting bounds keeps their type and makes none NaN. */
  lemma IntersectedRight(c: ColumnStat, other: ColumnStat, kind: Kind)
    requires StatOfKind(c, kind) && StatOfKind(other, kind) && c.min != Some(NaN)
    ensures
      var i := Intersected(c, other);
      StatOfKind(i, kind) && i.min != Some(NaN) && SameMax(i, c)
  {
  }

  lemma JoinColumnRight(db: Db, sources: Catalog, p: Plan, l: RelStats, r: RelStats, name: string)
    requires SidesRight(db, sources, p, l, r) && NoRepeats(Aliases(p.output))
    requires name in JoinColumns(p.kind, p.keys, p.output, l, r)
    ensures
      var c := JoinColumns(p.kind, p.keys, p.output, l, r)[name];
      c.min != Some(NaN) && ColumnRight(db, sources, p, c, name)
  {
    JoinColumnShown(p.kind, p.keys, p.output, l, r, name);
    var o := Shown(p.output, name).value;
    var side, plan := if o.left then l else r, if o.left then p.left else p.right;
    var c := side.columns[o.name];
    assert ColumnRight(db, sources, plan, c, o.name) && ColumnDescribes(side, c, Rows(db, plan), o.name);
    if p.kind in {Inner, Semi} && Paired(p.keys, o.left, o.name, l, r).Some? {
      var i := PairedKey(p.keys, o.left, o.name, l, r);
      assert ColumnKind(db, p.left, p.keys[i].0) == ColumnKind(db, p.right, p.keys[i].1);
      assert ColumnRight(db, sources, p.left, l.columns[p.keys[i].0], p.keys[i].0);
      assert ColumnRight(db, sources, p.right, r.columns[p.keys[i].1], p.keys[i].1);
      IntersectedRight(c, Paired(p.keys, o.left, o.name, l, r).value, ColumnKind(db, plan, o.name));
    }
  }

  lemma JoinEmptyRows(db: Db, sources: Catalog, p: Plan, l: RelStats, r: RelStats)
    requires SidesRight(db, sources, p, l, r) && JoinEmpty(p.kind, l, r)
    ensures Rows(db, p) == []
  {
    var rows := Rows(db, p);
    if rows != [] {
      var x, y := JoinedOrigin(p.kind, p.keys, p.output, Rows(db, p.left), Rows(db, p.right), rows[0]);
      assert false;
    }
  }

  lemma JoinRight(db: Db, sources: Catalog, p: Plan, l: RelStats, r: RelStats, e: RelStats)
    requires SidesRight(db, sources, p, l, r) && NoRepeats(Aliases(p.output))
    requires e == JoinStats(p.kind, p.keys, p.output, l, r)
    ensures RightAbout(db, sources, p, e)
  {
    if JoinEmpty(p.kind, l, r) {
      JoinEmptyRows(db, sources, p, l, r);
    } else {
      forall name | name in e.columns
        ensures ColumnDescribes(e, e.columns[name], Rows(db, p), name)
        ensures ColumnRight(db, sources, p, e.columns[name], name)
      {
        JoinColumnRight(db, sources, p, l, r, name);
        JoinColumnDescribes(db, sources, p, l, r, e, name);
      }
    }
  }

  lemma JoinColumnDescribes(db: Db, sources: Catalog, p: Plan, l: RelStats, r: RelStats, e: RelStats, name: string)
    requires SidesRight(db, sources, p, l, r) && NoRepeats(Aliases(p.output)) && !e.rowsExact
    requires e.columns == JoinColumns(p.kind, p.keys, p.output, l, r) && name in e.columns
    requires e.columns[name].min != Some(NaN)
    ensures ColumnDescribes(e, e.columns[name], Rows(db, p), name)
  {
    JoinColumnShown(p.kind, p.keys, p.output, l, r, name);
    var rows := Rows(db, p);
    forall i | 0 <= i < |rows| && Cell(rows[i], name).Some? ensures Fits(e.columns[name], Cell(rows[i], name).value) {
      var x, y := JoinedOrigin(p.kind, p.keys, p.output, Rows(db, p.left), Rows(db, p.right), rows[i]);
      OutputRowCell(p.output, x, y, name);
      JoinCellFits(db, sources, p, l, r, Shown(p.output, name).value, x, y);
    }
  }

  // --- The estimator ---------------------------------------------------------------

  /** `_estimate_structural`, on the plans of this model. */
  function Estimate(sources: Catalog, p: Plan): RelStats
    decreases p
  {
    match p
    case Scan(t, columns) => ToRelStats(sources(t, columns))
    case Filter(q, w) => FilterStats(w, Estimate(sources, q))
    case Sort(q, _) => Estimate(sources, q)
    case Distinct(q) => DistinctStats(Estimate(sources, q))
    case Sample(q, _) =>
      var e := Estimate(sources, q);
      RelStats(e.rows, false, AllWeakened(e.columns))
    case Limit(q, n, _) => LimitStats(n, Estimate(sources, q))
    case Union(qs, distinct) =>
      if qs == [] then RelStats(UNKNOWN_ROWS, false, map[])
      else UnionStats(Columns(p), EstimateAll(sources, p, 0), distinct)
    case Join(l, r, kind, keys, output) =>
      JoinStats(kind, keys, output, Estimate(sources, l), Estimate(sources, r))
  }

  function EstimateAll(sources: Catalog, p: Plan, i: nat): (es: seq<RelStats>)
    requires p.Union? && i <= |p.inputs|
    ensures |es| == |p.inputs| - i
    ensures forall k | 0 <= k < |es| :: es[k] == Estimate(sources, p.inputs[i + k])
    decreases p, |p.inputs| - i
  {
    if i == |p.inputs| then [] else [Estimate(sources, p.inputs[i])] + EstimateAll(sources, p, i + 1)
  }

  /** Every source declares the truth about the rows that are read off it, in bounds of its
      columns' types. */
  ghost predicate Truthful(db: Db, sources: Catalog) {
    forall t, columns :: TruthfulTable(db, sources(t, columns), t, columns)
  }

  ghost predicate TruthfulTable(db: Db, s: Source, t: string, columns: seq<string>) {
    && Declares(s, db.table(t, columns))
    && forall name | name in s.columns :: StatOfKind(s.columns[name], db.kinds(t, name))
  }

  lemma ScanRight(db: Db, sources: Catalog, t: string, columns: seq<string>)
    requires ValidDb(db) && Truthful(db, sources)
    ensures RightAbout(db, sources, Scan(t, columns), Estimate(sources, Scan(t, columns)))
  {
    var s, rows := sources(t, columns), db.table(t, columns);
    assert TruthfulTable(db, s, t, columns);
    forall name, i | name in s.columns && 0 <= i < |rows| && Cell(rows[i], name).Some?
      ensures StatOfKind(s.columns[name], KindOf(Cell(rows[i], name).value))
    {
      assert OfKind(Cell(db.table(t, columns)[i], name), db.kinds(t, name));
    }
    BridgeDescribes(s, rows);
    forall name | name in ForReasoning(s)
      ensures ColumnRight(db, sources, Scan(t, columns), ForReasoning(s)[name], name)
    {
      assert DeclaresColumn(s, s.columns[name], rows, name);
    }
  }

  lemma MatchingRows(db: Db, sources: Catalog, p: Plan, e: RelStats)
    requires RightAbout(db, sources, p, e) && forall x | x in Rows(db, p) :: RowKinded(db, p, x)
    ensures Matching(e.columns, Rows(db, p))
  {
    var rows := Rows(db, p);
    forall name, i | name in e.columns && 0 <= i < |rows| && Cell(rows[i], name).Some?
      ensures StatOfKind(e.columns[name], KindOf(Cell(rows[i], name).value))
    {
      assert rows[i] in rows && RowKinded(db, p, rows[i]);
      assert OfKind(Cell(rows[i], name), ColumnKind(db, p, name));
      assert ColumnRight(db, sources, p, e.columns[name], name);
    }
  }

  lemma FilterRight(db: Db, sources: Catalog, q: Plan, w: Pred, e: RelStats)
    requires RightAbout(db, sources, q, e) && forall x | x in Rows(db, q) :: RowKinded(db, q, x)
    ensures RightAbout(db, sources, Filter(q, w), FilterStats(w, e))
  {
    MatchingRows(db, sources, q, e);
    FilterDescribes(db.env, w, e, Rows(db, q));
    forall name | name in FilterStats(w, e).columns
      ensures ColumnRight(db, sources, Filter(q, w), FilterStats(w, e).columns[name], name)
    {
      FilterColumn(w, e, name);
      assert ColumnRight(db, sources, q, e.columns[name], name);
    }
  }

  /** The bounds of a filtered column are of the column's type, and its maximum is NaN only
      if it was. */
  lemma FilterColumn(w: Pred, e: RelStats, name: string)
    requires name in FilterStats(w, e).columns
    ensures name in e.columns
    ensures
      var c, n := e.columns[name], FilterStats(w, e).columns[name];
      SameMax(n, c) && forall kind | StatOfKind(c, kind) :: StatOfKind(n, kind)
  {
    NarrowedMin(Weakened(e.columns[name]), w, name);
  }

  /** The operators over one input, other than a filter. */
  lemma OneRight(db: Db, sources: Catalog, p: Plan)
    requires ValidDb(db) && OverOne(p) && !p.Filter? && RightAbout(db, sources, p.input, Estimate(sources, p.input))
    ensures RightAbout(db, sources, p, Estimate(sources, p))
  {
    var e, rows := Estimate(sources, p.input), Rows(db, p.input);
    RowsFromInput(db, p);
    match p
    case Sort(_, k) => PermutedDescribed(e, rows, db.sort(k, rows));
    case Distinct(_) => DistinctDescribes(e, rows);
    case Sample(_, k) => PartDescribed(e, rows, Estimate(sources, p), Rows(db, p));
    case Limit(_, _, _) => PartDescribed(e, rows, Estimate(sources, p), Rows(db, p));
    forall name | name in Estimate(sources, p).columns
      ensures ColumnRight(db, sources, p, Estimate(sources, p).columns[name], name)
    {
      assert ColumnRight(db, sources, p.input, e.columns[name], name);
    }
  }

  /** What the branches of a union say of a column of it. */
  ghost predicate BranchesRight(es: seq<RelStats>, name: string, kind: Kind) {
    (forall i | 0 <= i < |es| :: StatOfKind(Column(es[i], name), kind)) && UnmixedMaxima(Branches(es, name))
  }

  lemma UnionRight(db: Db, sources: Catalog, p: Plan, es: seq<RelStats>, e: RelStats)
    requires p.Union? && p.inputs != [] && Valid(p) && Clear(db, sources, p) && |es| == |p.inputs|
    requires forall i | 0 <= i < |es| :: RightAbout(db, sources, p.inputs[i], es[i])
    requires e == UnionStats(Columns(p), es, p.distinct)
    ensures RightAbout(db, sources, p, e)
  {
    forall name | name in Columns(p) && AllHave(es, name)
      ensures ColumnRight(db, sources, p, Merged(Branches(es, name)), name)
      ensures BranchesRight(es, name, ColumnKind(db, p, name))
    {
      UnionColumnRight(db, sources, p, es, name);
    }
    UnionMeans(db, p.inputs, p.distinct);
    assert EachDescribes(db, p.inputs, es);
    var kinds := map name | name in Columns(p) :: ColumnKind(db, p, name);
    UnionDescribes(db, p.inputs, es, Columns(p), kinds, p.distinct);
  }

  /** The statistics of a union describe its rows. */
  lemma UnionDescribes(
    db: Db, qs: seq<Plan>, es: seq<RelStats>, names: seq<string>, kinds: map<string, Kind>, distinct: bool)
    requires EachDescribes(db, qs, es) && es != []
    requires forall name | name in names :: name in kinds
    requires forall name | name in names && AllHave(es, name) :: BranchesRight(es, name, kinds[name])
    ensures Describes(UnionStats(names, es, distinct), UnionOf(Concat(db, qs), distinct))
  {
    var e, all := UnionStats(names, es, distinct), Concat(db, qs);
    var rows := UnionOf(all, distinct);
    DeduplicatedPart(all, {});
    if forall i | 0 <= i < |es| :: ProvablyEmpty(es[i]) {
      AllEmpty(db, qs, es);
    } else {
      if e.rowsExact {
        UnionCounted(db, qs, es);
      }
      forall name | name in e.columns ensures ColumnDescribes(e, e.columns[name], rows, name) {
        UnionColumnDescribes(db, qs, es, e, rows, name, kinds[name]);
      }
    }
  }

  lemma UnionColumnRight(db: Db, sources: Catalog, p: Plan, es: seq<RelStats>, name: string)
    requires p.Union? && p.inputs != [] && Valid(p) && Clear(db, sources, p) && |es| == |p.inputs|
    requires forall i | 0 <= i < |es| :: RightAbout(db, sources, p.inputs[i], es[i])
    requires name in Columns(p) && AllHave(es, name)
    ensures ColumnRight(db, sources, p, Merged(Branches(es, name)), name)
    ensures BranchesRight(es, name, ColumnKind(db, p, name))
  {
    var cs := Branches(es, name);
    forall i | 0 <= i < |es|
      ensures StatOfKind(cs[i], ColumnKind(db, p, name)) && cs[i].min != Some(NaN)
      ensures cs[i].max.Some? ==> MaxMayBe(sources, p.inputs[i], name, cs[i].max.value == NaN)
    {
      var q := p.inputs[i];
      assert SameKinds(db, q, p.inputs[0]) && Columns(q) == Columns(p);
      assert ColumnRight(db, sources, q, es[i].columns[name], name);
      assert ColumnDescribes(es[i], es[i].columns[name], Rows(db, q), name);
    }
    assert Unmixed(sources, p.inputs, name);
    assert UnmixedMaxima(cs);
    MergedBounds(cs, ColumnKind(db, p, name));
  }

  /** The estimator is right about every plan over truthful sources: what it says of each
      column holds of the rows, through filters, sorts, limits, samples, deduplication, unions
      and joins. */
  lemma {:induction false} EstimateRight(db: Db, sources: Catalog, p: Plan)
    requires ValidDb(db) && Truthful(db, sources) && Valid(p) && Clear(db, sources, p)
    ensures RightAbout(db, sources, p, Estimate(sources, p))
    decreases p
  {
    match p
    case Scan(t, columns) => ScanRight(db, sources, t, columns);
    case Filter(q, w) =>
      EstimateRight(db, sources, q);
      RowsKinded(db, sources, q);
      FilterRight(db, sources, q, w, Estimate(sources, q));
    case Sort(q, _) =>
      EstimateRight(db, sources, q);
      OneRight(db, sources, p);
    case Distinct(q) =>
      EstimateRight(db, sources, q);
      OneRight(db, sources, p);
    case Sample(q, _) =>
      EstimateRight(db, sources, q);
      OneRight(db, sources, p);
    case Limit(q, _, _) =>
      EstimateRight(db, sources, q);
      OneRight(db, sources, p);
    case Union(qs, _) =>
      var es := EstimateAll(sources, p, 0);
      forall i | 0 <= i < |qs| ensures RightAbout(db, sources, qs[i], es[i]) {
        EstimateRight(db, sources, qs[i]);
      }
      if qs != [] {
        UnionRight(db, sources, p, es, Estimate(sources, p));
      }
    case Join(l, r, _, _, _) =>
      EstimateRight(db, sources, l);
      EstimateRight(db, sources, r);
      RowsKinded(db, sources, l);
      RowsKinded(db, sources, r);
      JoinRight(db, sources, p, Estimate(sources, l), Estimate(sources, r), Estimate(sources, p));
  }
}
