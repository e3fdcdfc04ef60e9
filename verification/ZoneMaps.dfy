/** The zone-map oracle: deciding a predicate from a column's bounds, null count and
    membership index, and what that decision is worth on the rows.
 */
module ZoneMaps {
  import opened Common
  import opened Sorting
  import opened Doubles

  // --- Values and their two orders -------------------------------------------------

  /** A value. The negative zero is kept apart because the oracle declines on a float zero
      bound, and NaN because the engine orders it and Python does not. */
  datatype Value = Int(i: int) | Float(r: Double) | NegZero | NaN | Str(s: string)

  /** The column types the values belong to. */
  datatype Kind = IntKind | DoubleKind | TextKind

  function KindOf(v: Value): Kind {
    if v.Int? then IntKind else if v.Str? then TextKind else DoubleKind
  }

  datatype Op = Eq | Ne | Lt | Le | Gt | Ge

  function Num(v: Value): real {
    match v
    case Int(i) => i as real
    case Float(r) => r
    case NegZero => 0.0
    case NaN => 0.0
    case Str(_) => 0.0
  }

  predicate TextLt(a: string, b: string) {
    a != b && StringLe(a, b)
  }

  /** The order of the values themselves: total, the zeros folded together, NaN above every
      number and equal to itself. */
  predicate Less(a: Value, b: Value) {
    if a.Str? || b.Str? then (if a.Str? && b.Str? then TextLt(a.s, b.s) else b.Str?)
    else if a.NaN? || b.NaN? then !a.NaN?
    else Num(a) < Num(b)
  }

  /** The number the engine compares `a` as beside `b`: an integer beside a double is cast. */
  function Beside(a: Value, b: Value): real {
    if a.Int? && KindOf(b) == DoubleKind then Rounded(a.i) as real else Num(a)
  }

  /** The engine's order. */
  predicate Below(a: Value, b: Value) {
    if a.Str? || b.Str? || a.NaN? || b.NaN? then Less(a, b) else Beside(a, b) < Beside(b, a)
  }

  /** Two numbers that differ and that the cast makes equal. */
  predicate Merges(a: Value, b: Value) {
    !a.Str? && !b.Str? && !a.NaN? && !b.NaN? && Num(a) != Num(b) && Beside(a, b) == Beside(b, a)
  }

  /** A comparison, given which side is the smaller. */
  predicate Compared(op: Op, below: bool, above: bool) {
    match op
    case Eq => !below && !above
    case Ne => below || above
    case Lt => below
    case Le => !above
    case Gt => above
    case Ge => !below
  }

  predicate Engine(op: Op, a: Value, b: Value) {
    Compared(op, Below(a, b), Below(b, a))
  }

  predicate Exact(op: Op, a: Value, b: Value) {
    Compared(op, Less(a, b), Less(b, a))
  }

  /** Python cannot order a string and a number. */
  predicate Incomparable(a: Value, b: Value) {
    a.Str? != b.Str?
  }

  /** What a Python comparison answers when it does not raise. */
  predicate Python(op: Op, a: Value, b: Value) {
    if Incomparable(a, b) || a.NaN? || b.NaN? then op == Ne
    else if a.Str? && b.Str? then
      match op
      case Eq => a.s == b.s
      case Ne => a.s != b.s
      case Lt => TextLt(a.s, b.s)
      case Le => !TextLt(b.s, a.s)
      case Gt => TextLt(b.s, a.s)
      case Ge => !TextLt(a.s, b.s)
    else
      match op
      case Eq => Num(a) == Num(b)
      case Ne => Num(a) != Num(b)
      case Lt => Num(a) < Num(b)
      case Le => Num(a) <= Num(b)
      case Gt => Num(a) > Num(b)
      case Ge => Num(a) >= Num(b)
  }

  lemma TextOrder()
    ensures forall a, b :: !(TextLt(a, b) && TextLt(b, a))
    ensures forall a, b, c :: TextLt(a, b) && !TextLt(c, b) ==> TextLt(a, c)
    ensures forall a, b, c :: !TextLt(b, a) && TextLt(b, c) ==> TextLt(a, c)
    ensures forall a, b :: !TextLt(a, b) && !TextLt(b, a) ==> a == b
  {
    StringOrder();
  }

  /** The texts agree up to `k`, where `a` ends or has the smaller character. */
  ghost predicate SmallerAt(a: string, b: string, k: nat) {
    && k <= |a| && k < |b| && (forall i | 0 <= i < k :: a[i] == b[i])
    && (k < |a| ==> a[k] < b[k])
  }

  lemma SmallerInTail(a: string, b: string, k: nat)
    requires a != [] && b != [] && a[0] == b[0]
    ensures SmallerAt(a[1..], b[1..], k) <==> SmallerAt(a, b, k + 1)
  {
    var x, y := a[1..], b[1..];
    if SmallerAt(x, y, k) {
      assert forall i | 0 < i < k + 1 :: a[i] == x[i - 1] && b[i] == y[i - 1];
    }
    if SmallerAt(a, b, k + 1) {
      assert forall i | 0 <= i < k :: x[i] == a[i + 1] && y[i] == b[i + 1];
    }
  }

  /** Texts are ordered by the first character in which they differ, a prefix first. */
  lemma {:induction false} TextByCharacters(a: string, b: string)
    ensures TextLt(a, b) <==> exists k: nat :: SmallerAt(a, b, k)
  {
    if a == [] {
      assert b != [] ==> SmallerAt(a, b, 0);
    } else if b != [] && a[0] == b[0] {
      var x, y := a[1..], b[1..];
      TextByCharacters(x, y);
      assert a == [a[0]] + x && b == [b[0]] + y;
      if k: nat :| SmallerAt(a, b, k) {
        SmallerInTail(a, b, k - 1);
      }
      if k: nat :| SmallerAt(x, y, k) {
        SmallerInTail(a, b, k);
      }
    } else if b != [] {
      assert a[0] < b[0] ==> SmallerAt(a, b, 0);
    }
  }

  /** The order of the values is a strict weak order. */
  lemma LessOrder(a: Value, b: Value, c: Value)
    ensures !(Less(a, b) && Less(b, a))
    ensures Less(a, b) && !Less(c, b) ==> Less(a, c)
    ensures !Less(b, a) && Less(b, c) ==> Less(a, c)
  {
    TextOrder();
  }

  // --- What the cast does to a comparison ------------------------------------------

  lemma CastKeepsSides(a: Value, b: Value)
    ensures !Less(b, a) ==> !Below(b, a)
    ensures !Less(a, b) ==> !Below(a, b)
    ensures Merges(a, b) ==> !Below(a, b) && !Below(b, a)
    ensures !Merges(a, b) ==> (Below(a, b) <==> Less(a, b)) && (Below(b, a) <==> Less(b, a))
  {
    if a.Int? && b.Float? {
      RoundedBeside(a.i, b.r);
    } else if b.Int? && a.Float? {
      RoundedBeside(b.i, a.r);
    } else if a.Int? && b.NegZero? {
      RoundedBeside(a.i, 0.0);
    } else if b.Int? && a.NegZero? {
      RoundedBeside(b.i, 0.0);
    }
  }

  /** The comparisons that hold of equal values. */
  predicate HoldsOfEqual(op: Op) {
    op in {Eq, Le, Ge}
  }

  /** The engine compares exactly, except that it calls two numbers equal that the cast
      merges. */
  lemma EngineIsExact(op: Op, a: Value, b: Value)
    ensures Engine(op, a, b) == if Merges(a, b) then HoldsOfEqual(op) else Exact(op, a, b)
  {
    CastKeepsSides(a, b);
  }

  /** Only an integer and a double merge, both of them at or beyond 2^53. */
  lemma MergesOnlyBeyond(a: Value, b: Value)
    requires Merges(a, b) && a.Int?
    ensures b.Float? && (a.i < -EXACT_LIMIT || EXACT_LIMIT < a.i)
    ensures b.r <= (-EXACT_LIMIT) as real || EXACT_LIMIT as real <= b.r
  {
    var limit := EXACT_LIMIT;
    RoundedExact(limit);
    RoundedExact(-limit);
    if -limit <= a.i <= limit {
      RoundedExact(a.i);
    } else if a.i > limit {
      RoundedGrows(limit, a.i);
    } else {
      RoundedGrows(a.i, -limit);
    }
  }

  // --- Predicates ------------------------------------------------------------------

  type Row = map<string, Option<Value>>

  datatype Term = Col(name: string) | Lit(value: Option<Value>) | Computed(id: nat)

  datatype Pred =
    | Const(b: bool)
    | And(left: Pred, right: Pred)
    | Or(left: Pred, right: Pred)
    | Not(input: Pred)
    | Compare(op: Op, lhs: Term, rhs: Term)
    | IsNull(term: Term)
    | IsNotNull(term: Term)
    | In(term: Term, values: seq<Value>)
    | Opaque(id: nat)

  /** The expressions the oracle does not look into. */
  datatype Env = Env(term: (nat, Row) -> Option<Value>, pred: (nat, Row) -> Option<bool>)

  function Cell(row: Row, name: string): Option<Value> {
    if name in row then row[name] else None
  }

  function TermValue(env: Env, row: Row, t: Term): Option<Value> {
    match t
    case Col(name) => Cell(row, name)
    case Lit(v) => v
    case Computed(id) => env.term(id, row)
  }

  function AndOf(a: Option<bool>, b: Option<bool>): Option<bool> {
    if a == Some(false) || b == Some(false) then Some(false)
    else if a == Some(true) && b == Some(true) then Some(true)
    else None
  }

  function OrOf(a: Option<bool>, b: Option<bool>): Option<bool> {
    if a == Some(true) || b == Some(true) then Some(true)
    else if a == Some(false) && b == Some(false) then Some(false)
    else None
  }

  /** A truth value that a three-valued one may stand for. */
  ghost predicate MayBe(a: Option<bool>, x: bool) {
    a.None? || a.value == x
  }

  ghost predicate AlwaysAnd(a: Option<bool>, b: Option<bool>, v: bool) {
    forall x, y | MayBe(a, x) && MayBe(b, y) :: (x && y) == v
  }

  ghost predicate AlwaysOr(a: Option<bool>, b: Option<bool>, v: bool) {
    forall x, y | MayBe(a, x) && MayBe(b, y) :: (x || y) == v
  }

  /** NULL is an unknown truth value: a conjunction or disjunction has a value exactly when
      it has that one whatever the unknown ones are. */
  lemma NullIsUnknown(a: Option<bool>, b: Option<bool>, v: bool)
    ensures AndOf(a, b) == Some(v) <==> AlwaysAnd(a, b, v)
    ensures OrOf(a, b) == Some(v) <==> AlwaysOr(a, b, v)
  {
    var x := if a.Some? then a.value else true;
    var x' := if a.Some? then a.value else false;
    var y := if b.Some? then b.value else true;
    var y' := if b.Some? then b.value else false;
    assert MayBe(a, x) && MayBe(a, x') && MayBe(b, y) && MayBe(b, y');
    assert a == None || a == Some(x);
    assert b == None || b == Some(y);
  }

  predicate Matches(x: Value, values: seq<Value>) {
    exists i | 0 <= i < |values| :: Engine(Eq, x, values[i])
  }

  /** Three-valued evaluation on one row; `None` is NULL. */
  function Eval(env: Env, row: Row, p: Pred): Option<bool> {
    match p
    case Const(b) => Some(b)
    case And(l, r) => AndOf(Eval(env, row, l), Eval(env, row, r))
    case Or(l, r) => OrOf(Eval(env, row, l), Eval(env, row, r))
    case Not(q) => (match Eval(env, row, q) case None => None case Some(b) => Some(!b))
    case Compare(op, l, r) =>
      var a, b := TermValue(env, row, l), TermValue(env, row, r);
      if a.None? || b.None? then None else Some(Engine(op, a.value, b.value))
    case IsNull(t) => Some(TermValue(env, row, t).None?)
    case IsNotNull(t) => Some(TermValue(env, row, t).Some?)
    case In(t, values) =>
      var a := TermValue(env, row, t);
      if a.None? then None else Some(Matches(a.value, values))
    case Opaque(id) => env.pred(id, row)
  }

  /** The cell, if there is one, is of the kind. */
  predicate OfKind(cell: Option<Value>, kind: Kind) {
    cell.Some? ==> KindOf(cell.value) == kind
  }

  ghost predicate HoldsNaN(rows: seq<Row>, name: string) {
    exists i | 0 <= i < |rows| :: Cell(rows[i], name) == Some(NaN)
  }

  // --- Statistics ------------------------------------------------------------------

  datatype ColumnStat = ColumnStat(
    min: Option<Value>, max: Option<Value>, nulls: Option<nat>,
    exact: bool, nullsExact: bool, bloom: Option<Value -> bool>)

  datatype RelStats = RelStats(rows: nat, rowsExact: bool, columns: map<string, ColumnStat>)

  const UNKNOWN := ColumnStat(None, None, None, false, false, None)

  function Column(stats: RelStats, name: string): ColumnStat {
    if name in stats.columns then stats.columns[name] else UNKNOWN
  }

  function NullCount(rows: seq<Row>, name: string): nat {
    if rows == [] then 0 else (if Cell(rows[0], name).None? then 1 else 0) + NullCount(rows[1..], name)
  }

  /** The index domain of a value. */
  datatype Domain = IntDomain | StrDomain | NoDomain

  function DomainOf(v: Value): Domain {
    if v.Int? then IntDomain else if v.Str? then StrDomain else NoDomain
  }

  /** A value that respects the bounds and, where there is an index, is in it; only integers
      and strings are indexed. */
  ghost predicate Fits(c: ColumnStat, x: Value) {
    && (c.min.Some? ==> !Less(x, c.min.value))
    && (c.max.Some? ==> !Less(c.max.value, x))
    && (c.bloom.Some? ==>
          && c.bloom.value(x) && DomainOf(x) != NoDomain
          && (c.min.Some? ==> DomainOf(c.min.value) == DomainOf(x))
          && (c.max.Some? ==> DomainOf(c.max.value) == DomainOf(x)))
  }

  /** What the statistics claim of the rows. Bounds and a zero null count hold at any
      provenance. An exact row count is not exceeded, and beside an exact null count both are
      right. */
  ghost predicate Describes(stats: RelStats, rows: seq<Row>) {
    && (stats.rowsExact ==> |rows| <= stats.rows)
    && forall name | name in stats.columns :: ColumnDescribes(stats, stats.columns[name], rows, name)
  }

  ghost predicate ColumnDescribes(stats: RelStats, c: ColumnStat, rows: seq<Row>, name: string) {
    && c.min != Some(NaN) && (c.exact ==> c.nullsExact)
    && (forall i | 0 <= i < |rows| && Cell(rows[i], name).Some? :: Fits(c, Cell(rows[i], name).value))
    && CountsRight(stats, c, rows, name)
  }

  ghost predicate CountsRight(stats: RelStats, c: ColumnStat, rows: seq<Row>, name: string) {
    && (c.nulls == Some(0) ==> forall i | 0 <= i < |rows| :: Cell(rows[i], name).Some?)
    && (c.nulls.Some? && c.nullsExact && stats.rowsExact ==>
          c.nulls.value == NullCount(rows, name) && stats.rows == |rows|)
  }

  // --- The oracle ------------------------------------------------------------------

  predicate Ambiguous(v: Value) {
    v.NaN? || v.NegZero? || v == Float(0.0)
  }

  function Flip(op: Op): Op {
    match op case Lt => Gt case Gt => Lt case Le => Ge case Ge => Le case Eq => Eq case Ne => Ne
  }

  /** `True` when every row passes, `False` when none does, and otherwise unknown. */
  type Status = Option<bool>

  /** `_decide`; a comparison that raises leaves the predicate undecided. */
  function Decide(op: Op, lo: Value, hi: Value, v: Value, noNulls: bool): Status {
    var keep := if noNulls then Some(true) else None;
    match op
    case Lt =>
      if Incomparable(lo, v) then None else if Python(Ge, lo, v) then Some(false)
      else if Incomparable(hi, v) then None else if Python(Lt, hi, v) then keep else None
    case Le =>
      if Incomparable(lo, v) then None else if Python(Gt, lo, v) then Some(false)
      else if Incomparable(hi, v) then None else if Python(Le, hi, v) then keep else None
    case Gt =>
      if Incomparable(hi, v) then None else if Python(Le, hi, v) then Some(false)
      else if Incomparable(lo, v) then None else if Python(Gt, lo, v) then keep else None
    case Ge =>
      if Incomparable(hi, v) then None else if Python(Lt, hi, v) then Some(false)
      else if Incomparable(lo, v) then None else if Python(Ge, lo, v) then keep else None
    case Eq =>
      if Incomparable(lo, v) then None else if Python(Lt, v, lo) then Some(false)
      else if Incomparable(hi, v) then None else if Python(Gt, v, hi) then Some(false)
      else if Python(Eq, lo, hi) && Python(Eq, hi, v) then keep else None
    case Ne =>
      if Python(Eq, lo, hi) && Python(Eq, hi, v) then Some(false)
      else if Incomparable(lo, v) then None else if Python(Lt, v, lo) then keep
      else if Incomparable(hi, v) then None else if Python(Gt, v, hi) then keep else None
  }

  /** The column's bounds say which domain its index was built over. */
  predicate SameDomain(c: ColumnStat, v: Value) {
    DomainOf(v) != NoDomain
    && (if c.min.Some? then DomainOf(c.min.value) == DomainOf(v)
        else c.max.Some? && DomainOf(c.max.value) == DomainOf(v))
  }

  predicate ProvenAbsent(c: ColumnStat, v: Value) {
    c.bloom.Some? && SameDomain(c, v) && !c.bloom.value(v)
  }

  /** `_comparison_status`, for a column on the left of `op`. */
  function ComparisonStatus(c: ColumnStat, op: Op, v: Value): Status {
    if op == Eq && ProvenAbsent(c, v) then Some(false)
    else if op == Ne && ProvenAbsent(c, v) && c.nulls == Some(0) then Some(true)
    else if c.min.None? || c.max.None? || Ambiguous(c.min.value) || Ambiguous(c.max.value) then None
    else Decide(op, c.min.value, c.max.value, v, c.nulls == Some(0))
  }

  /** `_is_null_status`. */
  function NullStatus(stats: RelStats, c: ColumnStat, negate: bool): Status {
    if c.nulls == Some(0) then Some(negate)
    else if c.nulls.Some? && c.nullsExact && stats.rowsExact && stats.rows > 0 && c.nulls.value >= stats.rows
    then Some(!negate)
    else None
  }

  /** Whether every member lies outside the bounds: undecided if a comparison raises. */
  function AllOutside(values: seq<Value>, lo: Value, hi: Value): Option<bool> {
    if values == [] then Some(true)
    else if Incomparable(values[0], lo) then None
    else if Python(Lt, values[0], lo) then AllOutside(values[1..], lo, hi)
    else if Incomparable(values[0], hi) then None
    else if Python(Gt, values[0], hi) then AllOutside(values[1..], lo, hi)
    else Some(false)
  }

  /** `_in_list_status`. */
  function InStatus(c: ColumnStat, values: seq<Value>): Status {
    if values == [] || c.min.None? || c.max.None? || Ambiguous(c.min.value) || Ambiguous(c.max.value) then None
    else
      match AllOutside(values, c.min.value, c.max.value)
      case None => None
      case Some(true) => Some(false)
      case Some(false) =>
        if Python(Eq, c.min.value, c.max.value) && c.nulls == Some(0) && c.exact then Some(true) else None
  }

  function AndStatus(a: Status, b: Status): Status {
    if a == Some(false) || b == Some(false) then Some(false)
    else if a == Some(true) && b == Some(true) then Some(true)
    else None
  }

  function OrStatus(a: Status, b: Status): Status {
    if a == Some(true) || b == Some(true) then Some(true)
    else if a == Some(false) && b == Some(false) then Some(false)
    else None
  }

  /** `_predicate_status`. */
  function PredicateStatus(p: Pred, stats: RelStats): Status {
    match p
    case Const(b) => Some(b)
    case And(l, r) => AndStatus(PredicateStatus(l, stats), PredicateStatus(r, stats))
    case Or(l, r) => OrStatus(PredicateStatus(l, stats), PredicateStatus(r, stats))
    case Not(q) => if PredicateStatus(q, stats) == Some(true) then Some(false) else None
    case Compare(op, l, r) =>
      if l.Col? && r.Lit? then
        (if r.value.None? then None else ComparisonStatus(Column(stats, l.name), op, r.value.value))
      else if r.Col? && l.Lit? then
        (if l.value.None? then None else ComparisonStatus(Column(stats, r.name), Flip(op), l.value.value))
      else None
    case IsNull(t) => if t.Col? then NullStatus(stats, Column(stats, t.name), false) else None
    case IsNotNull(t) => if t.Col? then NullStatus(stats, Column(stats, t.name), true) else None
    case In(t, values) => if t.Col? then InStatus(Column(stats, t.name), values) else None
    case Opaque(_) => None
  }

  // --- Soundness -------------------------------------------------------------------

  /** Behind the guards, what Python affirms of a bound and a literal is so, and the engine
      affirms it unless it is a strict comparison of two numbers the cast merges. */
  lemma AffirmedExactly(op: Op, bound: Value, v: Value)
    requires !Ambiguous(bound) && op != Ne && !Incomparable(bound, v)
    requires Python(op, bound, v)
    ensures Exact(op, bound, v)
    ensures Engine(op, bound, v) <==> HoldsOfEqual(op) || !Merges(bound, v)
  {
    TextOrder();
    EngineIsExact(op, bound, v);
  }

  lemma Turned(op: Op, a: Value, b: Value)
    ensures Engine(Flip(op), b, a) <==> Engine(op, a, b)
    ensures Exact(Flip(op), b, a) <==> Exact(op, a, b)
    ensures Python(Flip(op), b, a) <==> Python(op, a, b)
  {
  }

  predicate Within(lo: Value, hi: Value, x: Value) {
    !Less(x, lo) && !Less(hi, x)
  }

  /** A decided comparison is a fact about every value within the bounds. */
  lemma DecidedIsExact(op: Op, lo: Value, hi: Value, v: Value, noNulls: bool, x: Value)
    requires !Ambiguous(lo) && !Ambiguous(hi) && Within(lo, hi, x)
    ensures Decide(op, lo, hi, v, noNulls).Some? ==> Decide(op, lo, hi, v, noNulls).value == Exact(op, x, v)
  {
    var d := Decide(op, lo, hi, v, noNulls);
    if d.Some? {
      DecisionProven(op, lo, hi, v, noNulls);
      LessOrder(v, lo, x);
      LessOrder(lo, v, x);
      LessOrder(hi, v, x);
      LessOrder(v, hi, x);
      LessOrder(x, lo, v);
      LessOrder(x, hi, v);
      LessOrder(lo, x, v);
      LessOrder(hi, x, v);
    }
  }

  /** A decision is the engine's answer on a value within the bounds exactly when the cast
      does not merge value and literal, or the decision is the one for equal values. */
  lemma DecideExactly(op: Op, lo: Value, hi: Value, v: Value, noNulls: bool, x: Value)
    requires !Ambiguous(lo) && !Ambiguous(hi) && Within(lo, hi, x)
    requires Decide(op, lo, hi, v, noNulls).Some?
    ensures
      var d := Decide(op, lo, hi, v, noNulls).value;
      d == Engine(op, x, v) <==> !Merges(x, v) || d == HoldsOfEqual(op)
  {
    DecidedIsExact(op, lo, hi, v, noNulls, x);
    EngineIsExact(op, x, v);
  }

  /** The bound on the literal's side. */
  function Nearer(lo: Value, hi: Value, v: Value): Value {
    if Less(v, lo) then lo else hi
  }

  /** What merges with the literal from within the bounds, the nearer bound does. */
  lemma NearerMerges(lo: Value, hi: Value, v: Value, x: Value)
    requires KindOf(lo) == KindOf(hi) == KindOf(x) && !Less(hi, lo) && Within(lo, hi, x)
    requires Less(v, lo) || Less(hi, v)
    requires Merges(x, v)
    ensures Merges(Nearer(lo, hi, v), v)
  {
    var b := Nearer(lo, hi, v);
    CastKeepsSides(b, v);
    if x.Int? {
      MergesOnlyBeyond(x, v);
      if Less(v, lo) {
        RoundedGrows(lo.i, x.i);
      } else {
        RoundedGrows(x.i, hi.i);
      }
    }
  }

  /** For a column as a whole: a decision is the engine's answer on every value within the
      bounds if and only if it is the one for equal values or the nearer bound and the
      literal stay apart under the cast. */
  lemma BoundsDecideExactly(op: Op, lo: Value, hi: Value, v: Value, noNulls: bool, d: bool)
    requires !Ambiguous(lo) && !Ambiguous(hi) && KindOf(lo) == KindOf(hi) && !Less(hi, lo)
    requires Decide(op, lo, hi, v, noNulls) == Some(d)
    ensures d == HoldsOfEqual(op) || !Merges(Nearer(lo, hi, v), v)
       <==> forall x | KindOf(x) == KindOf(lo) && Within(lo, hi, x) :: Engine(op, x, v) == d
  {
    forall x | KindOf(x) == KindOf(lo) && Within(lo, hi, x)
      ensures Engine(op, x, v) == d <==> !Merges(x, v) || d == HoldsOfEqual(op)
    {
      DecideExactly(op, lo, hi, v, noNulls, x);
    }
    LessOrder(lo, lo, hi);
    LessOrder(hi, hi, lo);
    assert Within(lo, hi, Nearer(lo, hi, v));
    if d != HoldsOfEqual(op) {
      StrictlyOutside(op, lo, hi, v, noNulls, d);
      if x :| KindOf(x) == KindOf(lo) && Within(lo, hi, x) && Merges(x, v) {
        NearerMerges(lo, hi, v, x);
      }
    }
  }

  /** A decision against equal values rests on a literal outside the bounds. */
  lemma StrictlyOutside(op: Op, lo: Value, hi: Value, v: Value, noNulls: bool, d: bool)
    requires !Ambiguous(lo) && !Ambiguous(hi)
    requires Decide(op, lo, hi, v, noNulls) == Some(d) && d != HoldsOfEqual(op)
    ensures Less(v, lo) || Less(hi, v)
  {
    DecisionProven(op, lo, hi, v, noNulls);
  }

  /** Concretely: an integer column of one value, and a comparison with the double it is cast
      to. No row is said to pass, and the engine keeps every row. */
  lemma RoundedColumnMisjudged(env: Env, big: int)
    requires big == EXACT_LIMIT + 1
    ensures
      var stats := RelStats(1, true,
        map["i" := ColumnStat(Some(Int(big)), Some(Int(big)), Some(0), true, true, None)]);
      var rows := [map["i" := Some(Int(big))]];
      var test := Compare(Le, Col("i"), Lit(Some(Float(EXACT_LIMIT as real))));
      && Describes(stats, rows)
      && PredicateStatus(test, stats) == Some(false) && Eval(env, rows[0], test) == Some(true)
  {
    FirstRounded();
    OneRowDescribed("i", Int(big));
    assert Merges(Int(big), Float(EXACT_LIMIT as real));
    EngineIsExact(Le, Int(big), Float(EXACT_LIMIT as real));
  }

  /** And no decision is missed, but where the cast merges: where bounds and literal can be
      compared and there are no nulls, an undecided comparison holds at one point within the
      bounds and fails at another. */
  lemma DecideComplete(op: Op, lo: Value, hi: Value, v: Value) returns (pass: Value, stop: Value)
    requires !Ambiguous(lo) && !Ambiguous(hi) && !Less(hi, lo)
    requires !v.NaN? && !Incomparable(lo, v) && !Incomparable(hi, v)
    requires Decide(op, lo, hi, v, true).None? && !Missed(op, lo, hi, v)
    ensures Within(lo, hi, pass) && Engine(op, pass, v) && (pass in {lo, hi} || (pass == v && op == Eq))
    ensures Within(lo, hi, stop) && !Engine(op, stop, v) && (stop in {lo, hi} || (stop == v && op == Ne))
  {
    if op == Eq || op == Ne {
      EqualityOpen(op, lo, hi, v);
      var other := if Engine(Eq, lo, v) then hi else lo;
      pass, stop := if op == Eq then v else other, if op == Eq then other else v;
    } else {
      OrderOpen(op, lo, hi, v);
      pass, stop := if op in {Lt, Le} then lo else hi, if op in {Lt, Le} then hi else lo;
    }
  }

  lemma OrderOpen(op: Op, lo: Value, hi: Value, v: Value)
    requires !Ambiguous(lo) && !Ambiguous(hi) && !Less(hi, lo) && op in {Lt, Le, Gt, Ge}
    requires !v.NaN? && !Incomparable(lo, v) && !Incomparable(hi, v)
    requires Decide(op, lo, hi, v, true).None? && !Missed(op, lo, hi, v)
    ensures Within(lo, hi, lo) && Within(lo, hi, hi)
    ensures Engine(op, lo, v) == (op in {Lt, Le}) && Engine(op, hi, v) == (op in {Gt, Ge})
  {
    TextOrder();
    CastKeepsSides(lo, v);
    CastKeepsSides(hi, v);
  }

  lemma EqualityOpen(op: Op, lo: Value, hi: Value, v: Value)
    requires !Ambiguous(lo) && !Ambiguous(hi) && !Less(hi, lo) && op in {Eq, Ne}
    requires !v.NaN? && !Incomparable(lo, v) && !Incomparable(hi, v)
    requires Decide(op, lo, hi, v, true).None? && !Missed(op, lo, hi, v)
    ensures Within(lo, hi, v) && Engine(Eq, v, v) && Within(lo, hi, lo) && Within(lo, hi, hi)
    ensures !Engine(Eq, lo, v) || !Engine(Eq, hi, v)
  {
    TextOrder();
  }

  /** The bound that would tell the two answers apart merges with the literal. */
  predicate Missed(op: Op, lo: Value, hi: Value, v: Value) {
    match op
    case Lt => Merges(lo, v)
    case Ge => Merges(lo, v)
    case Le => Merges(hi, v)
    case Gt => Merges(hi, v)
    case Eq => Engine(Eq, lo, v) && Engine(Eq, hi, v)
    case Ne => Engine(Eq, lo, v) && Engine(Eq, hi, v)
  }

  /** Where it merges the decision is missed indeed: the answer is the same throughout. */
  lemma MissedIsConstant(op: Op, lo: Value, hi: Value, v: Value, x: Value)
    requires !Ambiguous(lo) && !Ambiguous(hi) && !Incomparable(lo, v) && !v.NaN?
    requires KindOf(lo) == KindOf(hi) == KindOf(x) && Within(lo, hi, x)
    requires Decide(op, lo, hi, v, true).None? && Missed(op, lo, hi, v)
    ensures Engine(op, x, v) <==> HoldsOfEqual(op)
  {
    TextOrder();
    CastKeepsSides(lo, v);
    CastKeepsSides(hi, v);
    CastKeepsSides(x, v);
    if x.Int? {
      RoundedGrows(lo.i, x.i);
      RoundedGrows(x.i, hi.i);
    }
  }

  /** With a NaN literal every decision is missed: the engine's answer is one and the same
      for all numbers within the bounds, and the oracle leaves it open. */
  lemma NaNLiteralUndecided(op: Op, lo: Value, hi: Value, noNulls: bool, x: Value)
    requires !Ambiguous(lo) && !Ambiguous(hi) && !lo.Str? && !hi.Str?
    requires Within(lo, hi, x)
    ensures Decide(op, lo, hi, NaN, noNulls).None?
    ensures Engine(op, x, NaN) <==> op in {Ne, Lt, Le}
  {
  }

  /** The facts a decision rests on. */
  lemma DecisionProven(op: Op, lo: Value, hi: Value, v: Value, noNulls: bool)
    requires !Ambiguous(lo) && !Ambiguous(hi)
    requires Decide(op, lo, hi, v, noNulls).Some?
    ensures
      var yes := Decide(op, lo, hi, v, noNulls).value;
      match op
      case Lt => if yes then Exact(Lt, hi, v) else Exact(Ge, lo, v)
      case Le => if yes then Exact(Le, hi, v) else Exact(Gt, lo, v)
      case Gt => if yes then Exact(Gt, lo, v) else Exact(Le, hi, v)
      case Ge => if yes then Exact(Ge, lo, v) else Exact(Lt, hi, v)
      case Eq => if yes then Exact(Eq, lo, v) && Exact(Eq, hi, v) else Exact(Gt, lo, v) || Exact(Lt, hi, v)
      case Ne => if yes then Exact(Gt, lo, v) || Exact(Lt, hi, v) else Exact(Eq, lo, v) && Exact(Eq, hi, v)
  {
    forall o: Op | o != Ne && !Incomparable(lo, v) && Python(o, lo, v) ensures Exact(o, lo, v) {
      AffirmedExactly(o, lo, v);
    }
    forall o: Op | o != Ne && !Incomparable(hi, v) && Python(o, hi, v) ensures Exact(o, hi, v) {
      AffirmedExactly(o, hi, v);
    }
    Turned(Lt, v, lo);
    Turned(Gt, v, hi);
    EqualBounds(lo, hi, v);
  }

  lemma EqualBounds(lo: Value, hi: Value, v: Value)
    ensures Python(Eq, lo, hi) && Python(Eq, hi, v) ==>
              Python(Eq, lo, v) && !Incomparable(lo, v) && !Incomparable(hi, v)
  {
  }

  /** Right for every cell of the column. */
  ghost predicate Right(status: Status, outcome: Option<bool>) {
    (status == Some(true) ==> outcome == Some(true)) && (status == Some(false) ==> outcome != Some(true))
  }

  lemma AbsentIsUnequal(c: ColumnStat, v: Value, x: Value)
    requires Fits(c, x) && ProvenAbsent(c, v)
    ensures !Engine(Eq, x, v)
  {
    TextOrder();
    assert DomainOf(x) == DomainOf(v);
    assert x != v;
  }

  /** The status of a comparison, membership index included: right on a value the statistics
      allow exactly when the cast does not merge value and literal, or the status is the
      answer for equal values. */
  lemma ComparisonExactly(c: ColumnStat, op: Op, v: Value, x: Value)
    requires Fits(c, x) && ComparisonStatus(c, op, v).Some?
    ensures
      var d := ComparisonStatus(c, op, v).value;
      d == Engine(op, x, v) <==> !Merges(x, v) || d == HoldsOfEqual(op)
  {
    if (op == Eq || op == Ne) && ProvenAbsent(c, v) {
      AbsentIsUnequal(c, v, x);
    }
    if c.min.Some? && c.max.Some? && !Ambiguous(c.min.value) && !Ambiguous(c.max.value)
       && Decide(op, c.min.value, c.max.value, v, c.nulls == Some(0)).Some? {
      DecideExactly(op, c.min.value, c.max.value, v, c.nulls == Some(0), x);
    }
  }

  /** Some member is merged with the value. */
  ghost predicate SomeMerges(x: Value, values: seq<Value>) {
    exists i | 0 <= i < |values| :: Merges(x, values[i])
  }

  lemma {:induction false} OutsideMeans(values: seq<Value>, lo: Value, hi: Value, x: Value)
    requires !Ambiguous(lo) && !Ambiguous(hi) && Within(lo, hi, x)
    requires AllOutside(values, lo, hi) == Some(true)
    ensures forall i | 0 <= i < |values| :: Engine(Eq, x, values[i]) <==> Merges(x, values[i])
  {
    if values != [] {
      var v := values[0];
      OutsideMeans(values[1..], lo, hi, x);
      DecideExactly(Eq, lo, hi, v, true, x);
      assert values == [v] + values[1..];
    }
  }

  /** Where the scan of the list stops short: a member Python places neither below nor above
      the bounds. */
  lemma {:induction false} InsideFound(values: seq<Value>, lo: Value, hi: Value) returns (i: nat)
    requires AllOutside(values, lo, hi) == Some(false)
    ensures i < |values| && !Incomparable(values[i], lo) && !Incomparable(values[i], hi)
    ensures !Python(Lt, values[i], lo) && !Python(Gt, values[i], hi)
  {
    if !Incomparable(values[0], lo) && !Python(Lt, values[0], lo)
       && !Incomparable(values[0], hi) && !Python(Gt, values[0], hi) {
      i := 0;
    } else {
      var j := InsideFound(values[1..], lo, hi);
      i := j + 1;
    }
  }

  /** On a constant column an ordered member inside the bounds is the constant. */
  lemma ConstantMember(lo: Value, hi: Value, v: Value, x: Value)
    requires !Ambiguous(lo) && !Ambiguous(hi) && Python(Eq, lo, hi)
    requires !v.NaN? && !Incomparable(v, lo) && !Python(Lt, v, lo) && !Python(Gt, v, hi)
    requires Within(lo, hi, x)
    ensures Engine(Eq, x, v)
  {
    TextOrder();
    LessOrder(x, lo, v);
    LessOrder(lo, x, v);
    EngineIsExact(Eq, x, v);
  }

  predicate NoNaN(values: seq<Value>) {
    forall i | 0 <= i < |values| :: !values[i].NaN?
  }

  /** A list called always false is so exactly when no member merges with the value. */
  lemma InFalseExactly(c: ColumnStat, values: seq<Value>, x: Value)
    requires Fits(c, x) && InStatus(c, values) == Some(false)
    ensures Matches(x, values) <==> SomeMerges(x, values)
  {
    OutsideMeans(values, c.min.value, c.max.value, x);
  }

  lemma InSound(c: ColumnStat, values: seq<Value>, x: Value)
    requires Fits(c, x) && NoNaN(values) && !SomeMerges(x, values)
    ensures InStatus(c, values).Some? ==> InStatus(c, values).value == Matches(x, values)
  {
    if InStatus(c, values).Some? {
      if InStatus(c, values).value {
        var lo, hi := c.min.value, c.max.value;
        var i := InsideFound(values, lo, hi);
        ConstantMember(lo, hi, values[i], x);
      } else {
        InFalseExactly(c, values, x);
      }
    }
  }

  lemma {:induction false} NullsCounted(rows: seq<Row>, name: string, i: nat)
    requires i < |rows| && NullCount(rows, name) >= |rows|
    ensures Cell(rows[i], name).None?
  {
    NullsAtMost(rows[1..], name);
    if i > 0 {
      NullsCounted(rows[1..], name, i - 1);
    }
  }

  lemma {:induction false} NullsAtMost(rows: seq<Row>, name: string)
    ensures NullCount(rows, name) <= |rows|
  {
    if rows != [] {
      NullsAtMost(rows[1..], name);
    }
  }

  /** Every way `p` can hold fixes the column at a value of the list. */
  predicate Pins(p: Pred, name: string, values: seq<Value>) {
    match p
    case And(l, r) => Pins(l, name, values) || Pins(r, name, values)
    case Or(l, r) => Pins(l, name, values) && Pins(r, name, values)
    case Compare(op, l, r) =>
      op == Eq && ((l == Col(name) && Listed(r, values)) || (r == Col(name) && Listed(l, values)))
    case Const(_) => false
    case Not(_) => false
    case IsNull(_) => false
    case IsNotNull(_) => false
    case In(_, _) => false
    case Opaque(_) => false
  }

  predicate Listed(t: Term, values: seq<Value>) {
    t.Lit? && t.value.Some? && t.value.value in values
  }

  /** A list that the conjunct before it implies, as the disjunction rule adds one. */
  predicate Inferred(p: Pred, list: Pred) {
    list.In? && list.term.Col? && Pins(p, list.term.name, list.values)
  }

  /** A list with a NaN member stands only beside a conjunct that implies it: the expression
      builder keeps NaN out of lists, and the one rule that does not adds its list to the
      disjunction it was read from. */
  predicate Foldable(p: Pred) {
    match p
    case And(l, r) => Foldable(l) && (Foldable(r) || Inferred(l, r))
    case Or(l, r) => Foldable(l) && Foldable(r)
    case Not(q) => Foldable(q)
    case In(_, values) => NoNaN(values)
    case Compare(_, _, _) => true
    case Const(_) => true
    case IsNull(_) => true
    case IsNotNull(_) => true
    case Opaque(_) => true
  }

  lemma {:induction false} PinnedMatches(env: Env, row: Row, p: Pred, name: string, values: seq<Value>)
    requires Pins(p, name, values) && Eval(env, row, p) == Some(true)
    ensures Cell(row, name).Some? && Matches(Cell(row, name).value, values)
  {
    match p
    case And(l, r) =>
      if Pins(l, name, values) {
        PinnedMatches(env, row, l, name, values);
      } else {
        PinnedMatches(env, row, r, name, values);
      }
    case Or(l, r) =>
      if Eval(env, row, l) == Some(true) {
        PinnedMatches(env, row, l, name, values);
      } else {
        PinnedMatches(env, row, r, name, values);
      }
    case Compare(_, l, r) =>
      var v := if l == Col(name) && Listed(r, values) then r.value.value else l.value.value;
      var i :| 0 <= i < |values| && values[i] == v;
      assert Engine(Eq, Cell(row, name).value, values[i]);
  }

  lemma ColumnFits(stats: RelStats, rows: seq<Row>, name: string, i: nat)
    requires Describes(stats, rows) && i < |rows|
    ensures Cell(rows[i], name).Some? ==> Fits(Column(stats, name), Cell(rows[i], name).value)
    ensures Column(stats, name).nulls == Some(0) ==> Cell(rows[i], name).Some?
  {
    if name in stats.columns {
      assert ColumnDescribes(stats, stats.columns[name], rows, name);
    }
  }

  /** The cast merges no literal of the predicate with the cell it is compared to. */
  ghost predicate Unmerged(p: Pred, row: Row) {
    match p
    case And(l, r) => Unmerged(l, row) && Unmerged(r, row)
    case Or(l, r) => Unmerged(l, row) && Unmerged(r, row)
    case Not(q) => Unmerged(q, row)
    case Compare(_, l, r) =>
      && (l.Col? && r.Lit? && r.value.Some? ==> Apart(Cell(row, l.name), r.value.value))
      && (r.Col? && l.Lit? && l.value.Some? ==> Apart(Cell(row, r.name), l.value.value))
    case In(t, values) => t.Col? && Cell(row, t.name).Some? ==> !SomeMerges(Cell(row, t.name).value, values)
    case Const(_) => true
    case IsNull(_) => true
    case IsNotNull(_) => true
    case Opaque(_) => true
  }

  predicate Apart(x: Option<Value>, v: Value) {
    x.Some? ==> !Merges(x.value, v)
  }

  lemma CompareSound(env: Env, rows: seq<Row>, i: nat, p: Pred, stats: RelStats)
    requires p.Compare? && Describes(stats, rows) && i < |rows| && Unmerged(p, rows[i])
    ensures Right(PredicateStatus(p, stats), Eval(env, rows[i], p))
  {
    if p.lhs.Col? && p.rhs.Lit? && p.rhs.value.Some? {
      ColumnCompared(rows, i, p.lhs.name, p.op, p.rhs.value.value, stats);
    } else if p.rhs.Col? && p.lhs.Lit? && p.lhs.value.Some? {
      ColumnCompared(rows, i, p.rhs.name, Flip(p.op), p.lhs.value.value, stats);
      var x := Cell(rows[i], p.rhs.name);
      if x.Some? {
        Turned(p.op, p.lhs.value.value, x.value);
      }
    }
  }

  lemma ColumnCompared(rows: seq<Row>, i: nat, name: string, op: Op, v: Value, stats: RelStats)
    requires Describes(stats, rows) && i < |rows| && Apart(Cell(rows[i], name), v)
    ensures
      var x := Cell(rows[i], name);
      Right(ComparisonStatus(Column(stats, name), op, v), if x.None? then None else Some(Engine(op, x.value, v)))
  {
    ColumnFits(stats, rows, name, i);
    AlwaysTrueNeedsNoNulls(Column(stats, name), op, v);
    var x := Cell(rows[i], name);
    if x.Some? && ComparisonStatus(Column(stats, name), op, v).Some? {
      ComparisonExactly(Column(stats, name), op, v, x.value);
    }
  }

  lemma AlwaysTrueNeedsNoNulls(c: ColumnStat, op: Op, v: Value)
    ensures ComparisonStatus(c, op, v) == Some(true) ==> c.nulls == Some(0)
  {
  }

  lemma NullSound(rows: seq<Row>, i: nat, stats: RelStats, name: string, negate: bool)
    requires Describes(stats, rows) && i < |rows|
    ensures var s := NullStatus(stats, Column(stats, name), negate);
            s.Some? ==> s.value == if negate then Cell(rows[i], name).Some? else Cell(rows[i], name).None?
  {
    ColumnFits(stats, rows, name, i);
    var c := Column(stats, name);
    if name in stats.columns && c.nulls != Some(0) && NullStatus(stats, c, negate).Some? {
      assert ColumnDescribes(stats, c, rows, name);
      NullsCounted(rows, name, i);
    }
  }

  /** A list whose members do not merge is never wrongly called always false, NaN or not. */
  lemma NotCalledFalse(c: ColumnStat, values: seq<Value>, x: Value)
    requires Fits(c, x) && Matches(x, values) && !SomeMerges(x, values)
    ensures InStatus(c, values) != Some(false)
  {
    if InStatus(c, values) == Some(false) {
      InFalseExactly(c, values, x);
    }
  }

  lemma InferredSound(env: Env, rows: seq<Row>, i: nat, l: Pred, r: Pred, stats: RelStats)
    requires Describes(stats, rows) && i < |rows| && Inferred(l, r) && Unmerged(r, rows[i])
    requires Right(PredicateStatus(l, stats), Eval(env, rows[i], l))
    ensures Right(PredicateStatus(And(l, r), stats), Eval(env, rows[i], And(l, r)))
  {
    var name := r.term.name;
    if Eval(env, rows[i], l) == Some(true) {
      PinnedMatches(env, rows[i], l, name, r.values);
      ColumnFits(stats, rows, name, i);
      assert Eval(env, rows[i], r) == Some(true);
      assert PredicateStatus(r, stats) != Some(false) by {
        NotCalledFalse(Column(stats, name), r.values, Cell(rows[i], name).value);
      }
    }
  }

  /** The oracle is right on every row of every relation its statistics describe: what it
      calls always true holds on each row, and what it calls always false on none, provided
      the cast merges no literal with the row's cells. */
  lemma {:induction false} StatusSound(env: Env, rows: seq<Row>, i: nat, p: Pred, stats: RelStats)
    requires Describes(stats, rows) && Foldable(p) && i < |rows| && Unmerged(p, rows[i])
    ensures Right(PredicateStatus(p, stats), Eval(env, rows[i], p))
  {
    match p
    case Const(_) =>
    case And(l, r) =>
      StatusSound(env, rows, i, l, stats);
      if Foldable(r) {
        StatusSound(env, rows, i, r, stats);
      } else {
        InferredSound(env, rows, i, l, r, stats);
      }
    case Or(l, r) =>
      StatusSound(env, rows, i, l, stats);
      StatusSound(env, rows, i, r, stats);
    case Not(q) =>
      StatusSound(env, rows, i, q, stats);
    case Compare(_, _, _) =>
      CompareSound(env, rows, i, p, stats);
    case IsNull(t) =>
      if t.Col? {
        NullSound(rows, i, stats, t.name, false);
      }
    case IsNotNull(t) =>
      if t.Col? {
        NullSound(rows, i, stats, t.name, true);
      }
    case In(t, values) =>
      if t.Col? {
        ColumnFits(stats, rows, t.name, i);
        var x := Cell(rows[i], t.name);
        if x.Some? {
          InSound(Column(stats, t.name), values, x.value);
        }
      }
    case Opaque(_) =>
  }

  // --- Nothing decidable is left undecided -------------------------------------------

  /** `s` is right whatever outcomes the two statuses allow. */
  ghost predicate RightOfBoth(s: Status, a: Status, b: Status, both: (Option<bool>, Option<bool>) -> Option<bool>) {
    forall x, y | Right(a, x) && Right(b, y) :: Right(s, both(x, y))
  }

  lemma Statuses(s: Status)
    ensures s == None || s == Some(true) || s == Some(false)
  {
    if s.Some? {
      assert s == Some(s.value) && (s.value == true || s.value == false);
    }
  }

  lemma AndDecides(a: Status, b: Status, s: Status)
    requires RightOfBoth(s, a, b, AndOf)
    ensures s.None? || s == AndStatus(a, b)
  {
    Statuses(a);
    Statuses(b);
    Statuses(s);
    var yes: Option<bool>, no: Option<bool> := Some(true), Some(false);
    if a != no && b != no {
      assert Right(a, yes) && Right(b, yes) && Right(s, AndOf(yes, yes));
    }
    if a != yes {
      var y := if b == no then no else yes;
      assert Right(a, no) && Right(b, y) && Right(s, AndOf(no, y));
    }
    if b != yes {
      var x := if a == no then no else yes;
      assert Right(a, x) && Right(b, no) && Right(s, AndOf(x, no));
    }
    if a == yes && b == yes {
      assert AndStatus(a, b) == yes;
    }
  }

  lemma OrDecides(a: Status, b: Status, s: Status)
    requires RightOfBoth(s, a, b, OrOf)
    ensures s.None? || s == OrStatus(a, b)
  {
    Statuses(a);
    Statuses(b);
    Statuses(s);
    var yes: Option<bool>, no: Option<bool> := Some(true), Some(false);
    if a != yes && b != yes {
      assert Right(a, no) && Right(b, no) && Right(s, OrOf(no, no));
    }
    if a != no {
      var y := if b == yes then yes else no;
      assert Right(a, yes) && Right(b, y) && Right(s, OrOf(yes, y));
    }
    if b != no {
      var x := if a == yes then yes else no;
      assert Right(a, x) && Right(b, yes) && Right(s, OrOf(x, yes));
    }
  }

  /** A conjunction and a disjunction are decided whenever the decisions on their parts alone
      allow it: no other right answer exists. */
  lemma ConnectivesDecide(l: Pred, r: Pred, stats: RelStats, s: Status)
    ensures
      var a, b := PredicateStatus(l, stats), PredicateStatus(r, stats);
      && (RightOfBoth(s, a, b, AndOf) ==> s.None? || s == PredicateStatus(And(l, r), stats))
      && (RightOfBoth(s, a, b, OrOf) ==> s.None? || s == PredicateStatus(Or(l, r), stats))
  {
    var a, b := PredicateStatus(l, stats), PredicateStatus(r, stats);
    if RightOfBoth(s, a, b, AndOf) {
      AndDecides(a, b, s);
    }
    if RightOfBoth(s, a, b, OrOf) {
      OrDecides(a, b, s);
    }
  }

  ghost function Negated(x: Option<bool>): Option<bool> {
    match x case None => None case Some(b) => Some(!b)
  }

  /** And a negation. */
  lemma NegationDecides(q: Pred, stats: RelStats, s: Status)
    requires forall x | Right(PredicateStatus(q, stats), x) :: Right(s, Negated(x))
    ensures s.None? || s == PredicateStatus(Not(q), stats)
  {
    var a := PredicateStatus(q, stats);
    Statuses(s);
    var yes: Option<bool>, no: Option<bool>, unknown: Option<bool> := Some(true), Some(false), None;
    if a == yes {
      assert Right(a, yes);
      assert Right(s, Negated(yes)) && Negated(yes) == no;
    } else {
      assert Right(a, no) && Right(a, unknown);
      assert Right(s, Negated(no)) && Right(s, Negated(unknown));
    }
  }

  /** Statistics of one type whose bounds are themselves allowed. */
  ghost predicate Attainable(c: ColumnStat, kind: Kind) {
    && c.min.Some? && c.max.Some? && KindOf(c.min.value) == KindOf(c.max.value) == kind
    && !Ambiguous(c.min.value) && !Ambiguous(c.max.value)
    && Fits(c, c.min.value) && Fits(c, c.max.value)
  }

  /** A comparison that is left open, membership index included, has both answers among the
      cells the statistics allow: some value passes, and some value or a NULL does not. */
  lemma ComparisonComplete(c: ColumnStat, op: Op, v: Value) returns (pass: Value, stop: Value)
    requires Attainable(c, KindOf(v)) && !v.NaN? && ComparisonStatus(c, op, v).None?
    ensures Fits(c, pass) && Engine(op, pass, v)
    ensures c.nulls == Some(0) ==> Fits(c, stop) && !Engine(op, stop, v)
  {
    var lo, hi := c.min.value, c.max.value;
    LessOrder(lo, hi, lo);
    if Decide(op, lo, hi, v, true).None? {
      OneKindNotMissed(op, lo, hi, v);
      pass, stop := DecideComplete(op, lo, hi, v);
      if !ProvenAbsent(c, v) && Within(lo, hi, v) {
        LiteralFits(c, v);
      }
    } else {
      OnlyNullsFail(op, lo, hi, v, c.nulls == Some(0));
      DecideExactly(op, lo, hi, v, true, lo);
      SameKindApart(lo, v);
      pass, stop := lo, lo;
    }
  }

  lemma LiteralFits(c: ColumnStat, v: Value)
    requires Attainable(c, KindOf(v)) && !ProvenAbsent(c, v) && Within(c.min.value, c.max.value, v)
    ensures Fits(c, v)
  {
  }

  /** Without nulls it would be decided, and not against every value. */
  lemma OnlyNullsFail(op: Op, lo: Value, hi: Value, v: Value, noNulls: bool)
    requires Decide(op, lo, hi, v, noNulls).None? && Decide(op, lo, hi, v, true).Some?
    ensures !noNulls && Decide(op, lo, hi, v, true) == Some(true)
  {
  }

  lemma SameKindApart(a: Value, b: Value)
    requires KindOf(a) == KindOf(b)
    ensures !Merges(a, b)
  {
  }

  lemma OneKindNotMissed(op: Op, lo: Value, hi: Value, v: Value)
    requires KindOf(lo) == KindOf(hi) == KindOf(v) && !Ambiguous(lo) && !Ambiguous(hi) && !v.NaN?
    requires Decide(op, lo, hi, v, true).None?
    ensures !Missed(op, lo, hi, v)
  {
    TextOrder();
    SameKindApart(lo, v);
    SameKindApart(hi, v);
    CastKeepsSides(lo, v);
    CastKeepsSides(hi, v);
  }

  /** Members of the column's type that Python can order. */
  ghost predicate Ordinary(values: seq<Value>, kind: Kind) {
    forall i | 0 <= i < |values| :: KindOf(values[i]) == kind && !values[i].NaN?
  }

  /** Some member lies within the bounds. */
  ghost predicate SomeWithin(lo: Value, hi: Value, values: seq<Value>) {
    exists i | 0 <= i < |values| :: Within(lo, hi, values[i])
  }

  lemma {:induction false} OutsideExactly(values: seq<Value>, lo: Value, hi: Value)
    requires Ordinary(values, KindOf(lo)) && KindOf(lo) == KindOf(hi) && !Ambiguous(lo) && !Ambiguous(hi)
    ensures AllOutside(values, lo, hi) == Some(!SomeWithin(lo, hi, values))
  {
    if values != [] {
      var v, rest := values[0], values[1..];
      assert forall i | 0 <= i < |rest| :: rest[i] == values[i + 1];
      OutsideExactly(rest, lo, hi);
      assert Python(Lt, v, lo) == Less(v, lo) && Python(Gt, v, hi) == Less(hi, v);
      if SomeWithin(lo, hi, values) && !Within(lo, hi, v) {
        var i :| 0 <= i < |values| && Within(lo, hi, values[i]);
        assert rest[i - 1] == values[i];
      }
    }
  }

  /** A list is called always false exactly when no member lies within the bounds, and always
      true exactly when one does, the bounds are one value, and there are no nulls. */
  lemma ListDecidedExactly(c: ColumnStat, values: seq<Value>)
    requires values != [] && c.min.Some? && c.max.Some? && !Ambiguous(c.min.value) && !Ambiguous(c.max.value)
    requires Ordinary(values, KindOf(c.min.value)) && KindOf(c.min.value) == KindOf(c.max.value)
    ensures InStatus(c, values) == Some(false) <==> !SomeWithin(c.min.value, c.max.value, values)
    ensures InStatus(c, values) == Some(true) <==>
      && SomeWithin(c.min.value, c.max.value, values) && c.exact && c.nulls == Some(0)
      && !Less(c.min.value, c.max.value) && !Less(c.max.value, c.min.value)
  {
    TextOrder();
    OutsideExactly(values, c.min.value, c.max.value);
  }

  lemma {:induction false} SomeNull(rows: seq<Row>, name: string) returns (i: nat)
    requires NullCount(rows, name) > 0
    ensures i < |rows| && Cell(rows[i], name).None?
  {
    if Cell(rows[0], name).None? {
      i := 0;
    } else {
      var j := SomeNull(rows[1..], name);
      i := j + 1;
    }
  }

  lemma {:induction false} SomeValue(rows: seq<Row>, name: string) returns (i: nat)
    requires NullCount(rows, name) < |rows|
    ensures i < |rows| && Cell(rows[i], name).Some?
  {
    if Cell(rows[0], name).Some? {
      i := 0;
    } else {
      var j := SomeValue(rows[1..], name);
      i := j + 1;
    }
  }

  /** A null test on counted columns is left open exactly when rows of both sorts exist. */
  lemma NullTestOpen(rows: seq<Row>, stats: RelStats, name: string, negate: bool)
    requires Describes(stats, rows) && rows != [] && name in stats.columns && stats.rowsExact
    requires stats.columns[name].nulls.Some? && stats.columns[name].nullsExact
    ensures NullStatus(stats, stats.columns[name], negate).None? <==>
      && (exists i | 0 <= i < |rows| :: Cell(rows[i], name).None?)
      && (exists i | 0 <= i < |rows| :: Cell(rows[i], name).Some?)
  {
    var c := stats.columns[name];
    assert ColumnDescribes(stats, c, rows, name);
    if NullStatus(stats, c, negate).None? {
      var i := SomeNull(rows, name);
      var j := SomeValue(rows, name);
    } else {
      NullSound(rows, 0, stats, name, negate);
      forall i | 0 <= i < |rows| ensures Cell(rows[i], name).None? == Cell(rows[0], name).None? {
        NullSound(rows, i, stats, name, negate);
      }
    }
  }

  // --- Where it is not -------------------------------------------------------------

  /** A list the oracle calls always true on a constant column really is so exactly when a
      member that Python can order lies within the bounds, or one merges with the constant; a
      NaN member reaches the same branch and matches nothing. */
  lemma InTrueExactly(c: ColumnStat, values: seq<Value>, x: Value)
    requires InStatus(c, values) == Some(true) && Fits(c, x)
    ensures Matches(x, values) <==>
            SomeMerges(x, values) ||
            exists i | 0 <= i < |values| ::
              !values[i].NaN? && !Incomparable(values[i], c.min.value)
              && !Python(Lt, values[i], c.min.value) && !Python(Gt, values[i], c.max.value)
  {
    var lo, hi := c.min.value, c.max.value;
    if Matches(x, values) && !SomeMerges(x, values) {
      var i :| 0 <= i < |values| && Engine(Eq, x, values[i]);
      MatchIsInside(lo, hi, values[i], x);
    }
    if i :| 0 <= i < |values| && !values[i].NaN? && !Incomparable(values[i], lo)
            && !Python(Lt, values[i], lo) && !Python(Gt, values[i], hi) {
      ConstantMember(lo, hi, values[i], x);
    }
    if i :| 0 <= i < |values| && Merges(x, values[i]) {
      EngineIsExact(Eq, x, values[i]);
    }
  }

  lemma MatchIsInside(lo: Value, hi: Value, v: Value, x: Value)
    requires !Ambiguous(lo) && !Ambiguous(hi) && Python(Eq, lo, hi)
    requires Within(lo, hi, x) && Engine(Eq, x, v) && !Merges(x, v)
    ensures !v.NaN? && !Incomparable(v, lo) && !Python(Lt, v, lo) && !Python(Gt, v, hi)
  {
    TextOrder();
    EngineIsExact(Eq, x, v);
    LessOrder(x, lo, v);
    LessOrder(hi, x, v);
  }

  /** What the decisions are worth on a NaN row that the bounds leave out: a comparison is
      right on it exactly when it says that NaN is the greatest value, and a list exactly when
      it is called false or has NaN for a member. */
  lemma NaNRowExactly(op: Op, lo: Value, hi: Value, v: Value, noNulls: bool)
    requires !Ambiguous(lo) && !Ambiguous(hi) && !lo.Str? && !hi.Str?
    requires Decide(op, lo, hi, v, noNulls).Some?
    ensures
      var d := Decide(op, lo, hi, v, noNulls).value;
      d == Engine(op, NaN, v) <==> d == (op in {Gt, Ge, Ne})
  {
  }

  lemma NaNRowInListExactly(c: ColumnStat, values: seq<Value>)
    requires InStatus(c, values).Some? && !c.min.value.Str? && !c.max.value.Str?
    ensures
      var d := InStatus(c, values).value;
      d == Matches(NaN, values) <==> !d || NaN in values
  {
    if InStatus(c, values) == Some(false) {
      NoNaNOutside(values, c.min.value, c.max.value);
    }
    if NaN in values {
      var i :| 0 <= i < |values| && values[i] == NaN;
      assert Engine(Eq, NaN, values[i]);
    }
    assert forall i | 0 <= i < |values| :: Engine(Eq, NaN, values[i]) ==> values[i] == NaN;
  }

  lemma {:induction false} NoNaNOutside(values: seq<Value>, lo: Value, hi: Value)
    requires AllOutside(values, lo, hi) == Some(true)
    ensures NaN !in values
  {
    if values != [] {
      NoNaNOutside(values[1..], lo, hi);
      assert values == [values[0]] + values[1..];
    }
  }

  /** Two ways to pin a column, one of them at NaN. */
  function Disjunction(x: string, a: Pred, b: Pred): Pred {
    Or(And(Compare(Eq, Col(x), Lit(Some(NaN))), a), And(Compare(Eq, Col(x), Lit(Some(Float(2.0)))), b))
  }

  /** Concretely: a column that is 1.0 throughout, and the list read off such a disjunction.
      On its own the oracle says every row passes, and no row does; beside the disjunction
      the decision is right. */
  lemma NaNListIsMisjudged(env: Env, a: Pred, b: Pred)
    ensures
      var stats := RelStats(1, true,
        map["x" := ColumnStat(Some(Float(1.0)), Some(Float(1.0)), Some(0), true, true, None)]);
      var rows := [map["x" := Some(Float(1.0))]];
      var list := In(Col("x"), [NaN, Float(2.0)]);
      && Inferred(Disjunction("x", a, b), list) && Describes(stats, rows)
      && PredicateStatus(list, stats) == Some(true) && Eval(env, rows[0], list) == Some(false)
      && (Foldable(a) && Foldable(b) && Unmerged(a, rows[0]) && Unmerged(b, rows[0]) ==>
            Right(PredicateStatus(And(Disjunction("x", a, b), list), stats),
                  Eval(env, rows[0], And(Disjunction("x", a, b), list))))
  {
    var row: Row := map["x" := Some(Float(1.0))];
    var stats := RelStats(1, true,
      map["x" := ColumnStat(Some(Float(1.0)), Some(Float(1.0)), Some(0), true, true, None)]);
    var list := In(Col("x"), [NaN, Float(2.0)]);
    OneRowDescribed("x", Float(1.0));
    DisjunctionPins("x", a, b, [NaN, Float(2.0)]);
    ListMisread([NaN, Float(2.0)]);
    if Foldable(a) && Foldable(b) && Unmerged(a, row) && Unmerged(b, row) {
      DisjunctionUnmerged("x", a, b, row);
      StatusSound(env, [row], 0, And(Disjunction("x", a, b), list), stats);
    }
  }

  lemma ListMisread(values: seq<Value>)
    requires values == [NaN, Float(2.0)]
    ensures AllOutside(values, Float(1.0), Float(1.0)) == Some(false) && !Matches(Float(1.0), values)
  {
  }

  lemma DisjunctionPins(x: string, a: Pred, b: Pred, values: seq<Value>)
    requires NaN in values && Float(2.0) in values
    ensures Pins(Disjunction(x, a, b), x, values)
    ensures Foldable(a) && Foldable(b) ==> Foldable(Disjunction(x, a, b))
  {
    assert Pins(Compare(Eq, Col(x), Lit(Some(NaN))), x, values);
    assert Pins(Compare(Eq, Col(x), Lit(Some(Float(2.0)))), x, values);
    assert Pins(And(Compare(Eq, Col(x), Lit(Some(NaN))), a), x, values);
    assert Foldable(a) ==> Foldable(And(Compare(Eq, Col(x), Lit(Some(NaN))), a));
    assert Foldable(b) ==> Foldable(And(Compare(Eq, Col(x), Lit(Some(Float(2.0)))), b));
  }

  lemma DisjunctionUnmerged(x: string, a: Pred, b: Pred, row: Row)
    requires Unmerged(a, row) && Unmerged(b, row) && Cell(row, x) == Some(Float(1.0))
    ensures Unmerged(Disjunction(x, a, b), row) && Unmerged(In(Col(x), [NaN, Float(2.0)]), row)
  {
    assert Unmerged(Compare(Eq, Col(x), Lit(Some(NaN))), row);
    assert Unmerged(Compare(Eq, Col(x), Lit(Some(Float(2.0)))), row);
  }

  /** One row of one constant column, described by its own value. */
  lemma OneRowDescribed(name: string, v: Value)
    requires v != NaN
    ensures
      Describes(RelStats(1, true, map[name := ColumnStat(Some(v), Some(v), Some(0), true, true, None)]),
                [map[name := Some(v)]])
  {
    var row: Row := map[name := Some(v)];
    assert Cell(row, name) == Some(v);
    assert [row][1..] == [];
    assert NullCount([row], name) == 0;
    TextOrder();
  }
}
