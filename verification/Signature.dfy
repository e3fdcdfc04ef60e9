/** The order-independent result fingerprint every concurrent request is checked with. */
module Signature {
  import opened Common
  import opened Sorting

  /** How one cell is read: `canon` is the normalization of a raw value, and `repr` the
      text a normalized value is sorted by. */
  datatype Codec<!V, !C> = Codec(canon: V -> C, repr: C -> string)

  ghost predicate Faithful<V(!new), C(!new)>(codec: Codec<V, C>) {
    forall a, b :: codec.repr(a) == codec.repr(b) ==> a == b
  }

  datatype Column<V> = Column(name: string, data: seq<V>)

  datatype Table<V> = Table(columns: seq<Column<V>>, numRows: nat)

  function Names<V>(columns: seq<Column<V>>): (r: seq<string>)
    ensures |r| == |columns|
    ensures forall i | 0 <= i < |r| :: r[i] == columns[i].name
  {
    if columns == [] then [] else [columns[0].name] + Names(columns[1..])
  }

  ghost predicate DistinctNames<V>(columns: seq<Column<V>>) {
    forall i, j | 0 <= i < j < |columns| :: columns[i].name != columns[j].name
  }

  /** An Arrow table that can be selected by name: distinct names, equal column lengths. */
  ghost predicate Valid<V>(t: Table<V>) {
    && DistinctNames(t.columns)
    && forall c | c in t.columns :: |c.data| == t.numRows
  }

  /** The column called `name`. */
  function Find<V>(columns: seq<Column<V>>, name: string): (c: Column<V>)
    requires name in Names(columns)
    ensures c in columns && c.name == name
  {
    if columns[0].name == name then columns[0] else Find(columns[1..], name)
  }

  // --- Canonical rows --------------------------------------------------------------

  function CellsAt<V, C>(canon: V -> C, columns: seq<Column<V>>, names: seq<string>, i: nat): (r: seq<C>)
    requires forall n | n in names :: n in Names(columns)
    requires forall c | c in columns :: i < |c.data|
    ensures |r| == |names|
  {
    if names == [] then [] else [canon(Find(columns, names[0]).data[i])] + CellsAt(canon, columns, names[1..], i)
  }

  function SortedNames<V>(columns: seq<Column<V>>): (r: seq<string>)
    ensures |r| == |columns|
    ensures forall n | n in r :: n in Names(columns)
  {
    var r := Sort(StringLe, Names(columns));
    assert forall n | n in r :: n in Names(columns) by {
      forall n | n in r ensures n in Names(columns) {
        SortMember(StringLe, Names(columns), n);
      }
    }
    r
  }

  /** Row `i` of `t` as a canonical tuple, its cells in column-name order. */
  function CanonRow<V, C>(canon: V -> C, t: Table<V>, i: nat): (r: seq<C>)
    requires Valid(t) && i < t.numRows
    ensures |r| == |t.columns|
  {
    CellsAt(canon, t.columns, SortedNames(t.columns), i)
  }

  /** The canonical rows at the given positions. */
  function RowsAt<V, C>(canon: V -> C, t: Table<V>, positions: seq<nat>): (r: seq<seq<C>>)
    requires Valid(t)
    requires forall k | 0 <= k < |positions| :: positions[k] < t.numRows
    ensures |r| == |positions|
    ensures forall k | 0 <= k < |r| :: r[k] == CanonRow(canon, t, positions[k])
  {
    if positions == [] then [] else [CanonRow(canon, t, positions[0])] + RowsAt(canon, t, positions[1..])
  }

  function CanonRows<V, C>(canon: V -> C, t: Table<V>): (r: seq<seq<C>>)
    requires Valid(t)
    ensures |r| == t.numRows
  {
    RowsAt(canon, t, Upto(t.numRows))
  }

  // --- The fingerprint -------------------------------------------------------------

  function ReprRow<C>(repr: C -> string, row: seq<C>): (r: seq<string>)
    ensures |r| == |row|
    ensures forall i | 0 <= i < |row| :: r[i] == repr(row[i])
  {
    if row == [] then [] else [repr(row[0])] + ReprRow(repr, row[1..])
  }

  /** The row order: tuples of cell representations, compared lexicographically. */
  function RowLe<C(!new)>(repr: C -> string): (seq<C>, seq<C>) -> bool {
    (a: seq<C>, b: seq<C>) => TupleLe(ReprRow(repr, a), ReprRow(repr, b))
  }

  const SIGNATURE_EDGE_ROWS := 5

  datatype Sig<C> = Sig(count: nat, head: seq<seq<C>>, tail: seq<seq<C>>)

  /** Keeps the row count and the five rows at either end of the sorted result. */
  function Edges<C>(rows: seq<seq<C>>): (r: Sig<C>)
    ensures r.count == |rows| && r.head <= rows && (r.head == rows || |r.head| == 5)
    ensures |rows| <= 5 ==> r.head == rows && r.tail == []
    ensures |rows| > 5 ==> |r.head| == |r.tail| == 5 && r.tail == rows[|rows| - 5..]
  {
    var n := |rows|;
    Sig(n,
        if n > SIGNATURE_EDGE_ROWS then rows[..SIGNATURE_EDGE_ROWS] else rows,
        if n > SIGNATURE_EDGE_ROWS then rows[n - SIGNATURE_EDGE_ROWS..] else [])
  }

  /** `result_signature`. */
  function ResultSignature<V(!new), C(!new)>(codec: Codec<V, C>, t: Table<V>): Sig<C>
    requires Valid(t)
  {
    Edges(Sort(RowLe(codec.repr), CanonRows(codec.canon, t)))
  }

  lemma RowOrder<V(!new), C(!new)>(codec: Codec<V, C>)
    requires Faithful(codec)
    ensures TotalPreorder(RowLe(codec.repr)) && Antisymmetric(RowLe(codec.repr))
  {
    TupleOrder();
    var le := RowLe(codec.repr);
    forall a, b, c | le(a, b) && le(b, c) ensures le(a, c) {
      assert TupleLe(ReprRow(codec.repr, a), ReprRow(codec.repr, c));
    }
    forall a, b | le(a, b) && le(b, a) ensures a == b {
      assert ReprRow(codec.repr, a) == ReprRow(codec.repr, b);
      assert |a| == |b|;
      forall i | 0 <= i < |a| ensures a[i] == b[i] {
        assert codec.repr(a[i]) == ReprRow(codec.repr, a)[i] == ReprRow(codec.repr, b)[i];
      }
    }
  }

  // --- What the fingerprint forgets, and what it keeps -----------------------------

  /** Two results with the same canonical rows, in any order, have one fingerprint. */
  lemma SignatureOrderFree<V(!new), C(!new)>(codec: Codec<V, C>, t: Table<V>, t': Table<V>)
    requires Faithful(codec) && Valid(t) && Valid(t')
    requires multiset(CanonRows(codec.canon, t)) == multiset(CanonRows(codec.canon, t'))
    ensures ResultSignature(codec, t) == ResultSignature(codec, t')
  {
    RowOrder(codec);
    SortCanonical(RowLe(codec.repr), CanonRows(codec.canon, t), CanonRows(codec.canon, t'));
  }

  ghost function RowOf<V, C>(canon: V -> C, t: Table<V>): nat -> seq<C>
    requires Valid(t)
  {
    (i: nat) => if i < t.numRows then CanonRow(canon, t, i) else []
  }

  lemma RowsAtPermuted<V, C>(canon: V -> C, t: Table<V>, p: seq<nat>, q: seq<nat>)
    requires Valid(t) && multiset(p) == multiset(q)
    requires forall k | 0 <= k < |p| :: p[k] < t.numRows
    requires forall k | 0 <= k < |q| :: q[k] < t.numRows
    ensures multiset(RowsAt(canon, t, p)) == multiset(RowsAt(canon, t, q))
  {
    RowsAtIsMap(canon, t, p);
    RowsAtIsMap(canon, t, q);
    MapPermuted(RowOf(canon, t), p, q);
  }

  lemma RowsAtIsMap<V, C>(canon: V -> C, t: Table<V>, p: seq<nat>)
    requires Valid(t) && forall k | 0 <= k < |p| :: p[k] < t.numRows
    ensures RowsAt(canon, t, p) == MapSeq(RowOf(canon, t), p)
  {
  }

  /** Physically permuting the rows of a table: row `i` of `t'` is row `p[i]` of `t`. */
  ghost predicate RowsPermuted<V>(t: Table<V>, t': Table<V>, p: seq<nat>) {
    && Valid(t) && Valid(t')
    && t'.numRows == t.numRows == |p| && multiset(p) == multiset(Upto(|p|))
    && Names(t.columns) == Names(t'.columns)
    && (forall i | 0 <= i < |p| :: p[i] < t.numRows)
    && forall k, i | 0 <= k < |t.columns| && 0 <= i < |p| ::
         t'.columns[k].data[i] == t.columns[k].data[p[i]]
  }

  lemma FindPosition<V>(columns: seq<Column<V>>, name: string) returns (k: nat)
    requires name in Names(columns)
    ensures k < |columns| && columns[k] == Find(columns, name) && columns[k].name == name
    ensures forall j | 0 <= j < k :: columns[j].name != name
  {
    if columns[0].name == name {
      k := 0;
    } else {
      k := FindPosition(columns[1..], name);
      k := k + 1;
    }
  }

  lemma {:induction false} CellsPermuted<V, C>(
    canon: V -> C, t: Table<V>, t': Table<V>, p: seq<nat>, names: seq<string>, i: nat)
    requires RowsPermuted(t, t', p) && i < |p|
    requires p[i] < t.numRows
    requires forall n | n in names :: n in Names(t.columns)
    ensures CellsAt(canon, t'.columns, names, i) == CellsAt(canon, t.columns, names, p[i])
  {
    if names != [] {
      var k := FindPosition(t.columns, names[0]);
      var k' := FindPosition(t'.columns, names[0]);
      assert Names(t.columns)[k] == Names(t'.columns)[k] && Names(t.columns)[k'] == Names(t'.columns)[k'];
      assert k == k';
      CellsPermuted(canon, t, t', p, names[1..], i);
    }
  }

  /** The fingerprint is invariant under every permutation of the rows. */
  lemma RowPermutationInvariant<V(!new), C(!new)>(codec: Codec<V, C>, t: Table<V>, t': Table<V>, p: seq<nat>)
    requires Faithful(codec) && RowsPermuted(t, t', p)
    ensures ResultSignature(codec, t) == ResultSignature(codec, t')
  {
    var n := t.numRows;
    assert CanonRows(codec.canon, t') == RowsAt(codec.canon, t, p) by {
      forall i | 0 <= i < n
        ensures CanonRow(codec.canon, t', i) == CanonRow(codec.canon, t, p[i])
      {
        CellsPermuted(codec.canon, t, t', p, SortedNames(t.columns), i);
      }
    }
    RowsAtPermuted(codec.canon, t, p, Upto(n));
    SignatureOrderFree(codec, t, t');
  }

  lemma NamesMultiset<V>(a: seq<Column<V>>, b: seq<Column<V>>)
    requires multiset(a) == multiset(b)
    ensures multiset(Names(a)) == multiset(Names(b))
  {
    var f := (c: Column<V>) => c.name;
    assert Names(a) == MapSeq(f, a) && Names(b) == MapSeq(f, b);
    MapPermuted(f, a, b);
  }

  lemma {:induction false} CellsReordered<V, C>(
    canon: V -> C, a: seq<Column<V>>, b: seq<Column<V>>, names: seq<string>, i: nat)
    requires multiset(a) == multiset(b) && DistinctNames(a)
    requires forall n | n in names :: n in Names(a) && n in Names(b)
    requires forall c | c in a :: i < |c.data|
    requires forall c | c in b :: i < |c.data|
    ensures CellsAt(canon, a, names, i) == CellsAt(canon, b, names, i)
  {
    if names != [] {
      var ca, cb := Find(a, names[0]), Find(b, names[0]);
      assert cb in multiset(b) && cb in multiset(a);
      assert ca == cb;
      CellsReordered(canon, a, b, names[1..], i);
    }
  }

  /** The fingerprint is invariant under every permutation of the columns. */
  lemma ColumnPermutationInvariant<V(!new), C(!new)>(codec: Codec<V, C>, t: Table<V>, t': Table<V>)
    requires Valid(t) && Valid(t') && t.numRows == t'.numRows
    requires multiset(t.columns) == multiset(t'.columns)
    ensures ResultSignature(codec, t) == ResultSignature(codec, t')
  {
    NamesMultiset(t.columns, t'.columns);
    StringOrder();
    SortCanonical(StringLe, Names(t.columns), Names(t'.columns));
    assert SortedNames(t.columns) == SortedNames(t'.columns);
    forall i | 0 <= i < t.numRows
      ensures CanonRow(codec.canon, t, i) == CanonRow(codec.canon, t', i)
    {
      CellsReordered(codec.canon, t.columns, t'.columns, SortedNames(t.columns), i);
    }
    assert CanonRows(codec.canon, t) == CanonRows(codec.canon, t');
  }

  lemma EdgesDetermine<C>(a: seq<seq<C>>, b: seq<seq<C>>)
    requires Edges(a) == Edges(b) && |a| <= 2 * SIGNATURE_EDGE_ROWS
    ensures a == b
  {
    var n := |a|;
    assert |b| == n;
    if n > SIGNATURE_EDGE_ROWS {
      forall i | 0 <= i < n ensures a[i] == b[i] {
        if i < SIGNATURE_EDGE_ROWS {
          assert a[i] == Edges(a).head[i] && b[i] == Edges(b).head[i];
        } else {
          assert a[i] == Edges(a).tail[i - (n - SIGNATURE_EDGE_ROWS)];
          assert b[i] == Edges(b).tail[i - (n - SIGNATURE_EDGE_ROWS)];
        }
      }
    }
  }

  /** Up to ten rows the fingerprint loses nothing: equal fingerprints are exactly equal
      multisets of canonical rows. */
  lemma SignatureLossless<V(!new), C(!new)>(codec: Codec<V, C>, t: Table<V>, t': Table<V>)
    requires Faithful(codec) && Valid(t) && Valid(t') && t.numRows <= 2 * SIGNATURE_EDGE_ROWS
    ensures ResultSignature(codec, t) == ResultSignature(codec, t') <==>
      multiset(CanonRows(codec.canon, t)) == multiset(CanonRows(codec.canon, t'))
  {
    RowOrder(codec);
    var le := RowLe(codec.repr);
    var a, b := CanonRows(codec.canon, t), CanonRows(codec.canon, t');
    SortCanonical(le, a, b);
    if ResultSignature(codec, t) == ResultSignature(codec, t') {
      EdgesDetermine(Sort(le, a), Sort(le, b));
    }
  }

  // --- The ten-row bound is sharp --------------------------------------------------

  function Repeat<V>(v: V, n: nat): (r: seq<V>)
    ensures |r| == n && forall i | 0 <= i < n :: r[i] == v
  {
    if n == 0 then [] else [v] + Repeat(v, n - 1)
  }

  function OneColumn<V>(data: seq<V>): (t: Table<V>)
    ensures Valid(t) && t.numRows == |data|
  {
    Table([Column("x", data)], |data|)
  }

  lemma OneColumnRow<V, C>(canon: V -> C, data: seq<V>, i: nat)
    requires i < |data|
    ensures CanonRow(canon, OneColumn(data), i) == [canon(data[i])]
  {
    var columns := OneColumn(data).columns;
    assert Names(columns) == ["x"];
    assert Sort(StringLe, ["x"]) == ["x"];
  }

  /** `k` copies of `a` followed by `n - k` copies of `b`. */
  function TwoValues<T>(a: T, b: T, n: nat, k: nat): (r: seq<T>)
    requires k <= n
    ensures |r| == n && forall i | 0 <= i < n :: r[i] == (if i < k then a else b)
  {
    Repeat(a, k) + Repeat(b, n - k)
  }

  lemma TwoValuesSorted<T(!new)>(le: (T, T) -> bool, a: T, b: T, n: nat, k: nat)
    requires TotalPreorder(le) && le(a, b) && k <= n
    ensures Sort(le, TwoValues(a, b, n, k)) == TwoValues(a, b, n, k)
  {
    assert le(a, a) && le(b, b);
    SortFixpoint(le, TwoValues(a, b, n, k));
  }

  lemma TwoValueRows<V, C>(canon: V -> C, v: V, w: V, n: nat, k: nat)
    requires k <= n
    ensures CanonRows(canon, OneColumn(TwoValues(v, w, n, k))) == TwoValues([canon(v)], [canon(w)], n, k)
  {
    var data := TwoValues(v, w, n, k);
    forall i | 0 <= i < n
      ensures CanonRow(canon, OneColumn(data), i) == TwoValues([canon(v)], [canon(w)], n, k)[i]
    {
      OneColumnRow(canon, data, i);
    }
  }

  /** From eleven rows on it is lossy: whenever two values are distinguishable there are
      results of that size with different rows and one fingerprint. */
  lemma SignatureLossy<V(!new), C(!new)>(codec: Codec<V, C>, v: V, w: V, n: nat)
    returns (t: Table<V>, t': Table<V>)
    requires Faithful(codec) && codec.canon(v) != codec.canon(w) && n > 2 * SIGNATURE_EDGE_ROWS
    ensures Valid(t) && Valid(t') && t.numRows == t'.numRows == n
    ensures multiset(CanonRows(codec.canon, t)) != multiset(CanonRows(codec.canon, t'))
    ensures ResultSignature(codec, t) == ResultSignature(codec, t')
  {
    RowOrder(codec);
    if RowLe(codec.repr)([codec.canon(v)], [codec.canon(w)]) {
      t, t' := OrderedLossy(codec, v, w, n);
    } else {
      t, t' := OrderedLossy(codec, w, v, n);
    }
  }

  lemma OrderedLossy<V(!new), C(!new)>(codec: Codec<V, C>, a: V, b: V, n: nat) returns (t: Table<V>, t': Table<V>)
    requires Faithful(codec) && RowLe(codec.repr)([codec.canon(a)], [codec.canon(b)])
    requires codec.canon(a) != codec.canon(b) && n > 2 * SIGNATURE_EDGE_ROWS
    ensures Valid(t) && Valid(t') && t.numRows == t'.numRows == n
    ensures multiset(CanonRows(codec.canon, t)) != multiset(CanonRows(codec.canon, t'))
    ensures ResultSignature(codec, t) == ResultSignature(codec, t')
  {
    var rows, rows';
    t, rows := TwoValueTable(codec, a, b, n, SIGNATURE_EDGE_ROWS);
    t', rows' := TwoValueTable(codec, a, b, n, n - SIGNATURE_EDGE_ROWS);
    var x, y := [codec.canon(a)], [codec.canon(b)];
    assert x[0] != y[0];
    EdgesAgree(x, y, n, rows, rows');
  }

  /** Moving the boundary between the two values inside the edges changes the rows and not their edges. */
  lemma EdgesAgree<C>(x: seq<C>, y: seq<C>, n: nat, rows: seq<seq<C>>, rows': seq<seq<C>>)
    requires |x| == |y| == 1 && x[0] != y[0] && n > 2 * SIGNATURE_EDGE_ROWS
    requires rows == TwoValues(x, y, n, SIGNATURE_EDGE_ROWS) && rows' == TwoValues(x, y, n, n - SIGNATURE_EDGE_ROWS)
    ensures multiset(rows) != multiset(rows') && Edges(rows) == Edges(rows')
  {
    SameEdges(x, y, n, rows, rows');
    DifferentCounts(x, y, n, rows, rows');
  }

  lemma DifferentCounts<T>(x: T, y: T, n: nat, rows: seq<T>, rows': seq<T>)
    requires x != y && n > 2 * SIGNATURE_EDGE_ROWS
    requires rows == TwoValues(x, y, n, SIGNATURE_EDGE_ROWS) && rows' == TwoValues(x, y, n, n - SIGNATURE_EDGE_ROWS)
    ensures multiset(rows) != multiset(rows')
  {
    TwoValuesCount(x, y, n, SIGNATURE_EDGE_ROWS);
    TwoValuesCount(x, y, n, n - SIGNATURE_EDGE_ROWS);
  }

  /** A one-column result that is some of one value and then another, and its fingerprint. */
  lemma TwoValueTable<V(!new), C(!new)>(codec: Codec<V, C>, a: V, b: V, n: nat, k: nat)
    returns (t: Table<V>, rows: seq<seq<C>>)
    requires Faithful(codec) && RowLe(codec.repr)([codec.canon(a)], [codec.canon(b)]) && k <= n
    ensures Valid(t) && t.numRows == n && rows == TwoValues([codec.canon(a)], [codec.canon(b)], n, k)
    ensures CanonRows(codec.canon, t) == rows && ResultSignature(codec, t) == Edges(rows)
  {
    t, rows := OneColumn(TwoValues(a, b, n, k)), TwoValues([codec.canon(a)], [codec.canon(b)], n, k);
    RowOrder(codec);
    TwoValueRows(codec.canon, a, b, n, k);
    TwoValuesSorted(RowLe(codec.repr), [codec.canon(a)], [codec.canon(b)], n, k);
  }

  lemma SameEdges<C>(x: seq<C>, y: seq<C>, n: nat, rows: seq<seq<C>>, rows': seq<seq<C>>)
    requires n > 2 * SIGNATURE_EDGE_ROWS
    requires rows == TwoValues(x, y, n, SIGNATURE_EDGE_ROWS) && rows' == TwoValues(x, y, n, n - SIGNATURE_EDGE_ROWS)
    ensures Edges(rows) == Edges(rows')
  {
    assert Edges(rows).head == Edges(rows').head;
    assert Edges(rows).tail == Edges(rows').tail;
  }

  lemma TwoValuesCount<T>(x: T, y: T, n: nat, k: nat)
    requires x != y && k <= n
    ensures multiset(TwoValues(x, y, n, k))[x] == k
  {
    RepeatCount(x, y, k);
    RepeatCount(y, x, n - k);
  }

  lemma {:induction false} RepeatCount<T>(x: T, other: T, n: nat)
    requires x != other
    ensures multiset(Repeat(x, n))[x] == n && multiset(Repeat(x, n))[other] == 0
  {
    if n > 0 {
      RepeatCount(x, other, n - 1);
    }
  }

  // --- Comparing two fingerprints --------------------------------------------------

  datatype Verdict = Match | RowCount | FirstRows | LastRows | Unexplained

  /** `signatures_match`, with the message reduced to the clause that produced it. */
  function SignaturesMatch<C(==)>(expected: Sig<C>, actual: Sig<C>): (v: Verdict)
    ensures v == Match <==> expected == actual
    ensures v != Unexplained
  {
    if expected == actual then Match
    else if expected.count != actual.count then RowCount
    else if expected.head != actual.head then FirstRows
    else if expected.tail != actual.tail then LastRows
    else Unexplained
  }
}
