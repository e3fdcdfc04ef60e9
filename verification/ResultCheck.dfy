/** The distributed TPC-H result gates: what accepting a result against a reference
    establishes about order and content.
 */
module ResultCheck {
  import opened Common
  import opened Sorting

  /** How cells are treated: normalization, the text rows are sorted by, and closeness of
      two normalized cells. */
  datatype Rules<!V, !C> = Rules(
    norm: V -> C,
    repr: seq<C> -> string,
    close: (C, C) -> bool)

  datatype Table<V> = Table(names: seq<string>, rows: seq<seq<V>>)

  ghost predicate Valid<V>(t: Table<V>) {
    forall i | 0 <= i < |t.rows| :: |t.rows[i]| == |t.names|
  }

  /** A key column and whether it is sorted descending. */
  datatype Key = Key(name: string, descending: bool)

  function IndexOf(names: seq<string>, name: string): (k: nat)
    requires name in names
    ensures k < |names| && names[k] == name
  {
    if names[0] == name then 0 else 1 + IndexOf(names[1..], name)
  }

  /** The cells of `row` under the given column names. */
  function Pick<V>(names: seq<string>, row: seq<V>, cols: seq<string>): (r: seq<V>)
    requires |row| == |names| && forall i | 0 <= i < |cols| :: cols[i] in names
    ensures |r| == |cols|
  {
    if cols == [] then [] else [row[IndexOf(names, cols[0])]] + Pick(names, row, cols[1..])
  }

  function PickAll<V>(names: seq<string>, rows: seq<seq<V>>, cols: seq<string>): (r: seq<seq<V>>)
    requires forall i | 0 <= i < |rows| :: |rows[i]| == |names|
    requires forall i | 0 <= i < |cols| :: cols[i] in names
    ensures |r| == |rows| && forall i | 0 <= i < |r| :: |r[i]| == |cols|
  {
    if rows == [] then [] else [Pick(names, rows[0], cols)] + PickAll(names, rows[1..], cols)
  }

  function NormRow<V, C>(norm: V -> C): seq<V> -> seq<C> {
    (row: seq<V>) => MapSeq(norm, row)
  }

  /** `_rows`: the normalized cells of the chosen columns, row by row. */
  function NormRows<V, C>(norm: V -> C, rows: seq<seq<V>>): (r: seq<seq<C>>)
    ensures |r| == |rows| && forall i | 0 <= i < |r| :: r[i] == MapSeq(norm, rows[i])
  {
    MapSeq(NormRow(norm), rows)
  }

  // --- Sort order ------------------------------------------------------------------

  /** How the engine orders cells: NULL last in either direction, the rest by `le`. */
  datatype Order<!V> = Order(le: (V, V) -> bool, isNull: V -> bool)

  predicate Before<V>(ord: Order<V>, descending: bool, a: V, b: V) {
    if ord.isNull(a) != ord.isNull(b) then ord.isNull(b)
    else if descending then ord.le(b, a)
    else ord.le(a, b)
  }

  /** Lexicographic comparison of key tuples, each key in its own direction. */
  predicate DirLe<V(==)>(ord: Order<V>, dirs: seq<bool>, a: seq<V>, b: seq<V>) {
    if dirs == [] || a == [] || b == [] then true
    else if a[0] == b[0] then DirLe(ord, dirs[1..], a[1..], b[1..])
    else Before(ord, dirs[0], a[0], b[0])
  }

  /** Key tuples of the right width, in order. */
  ghost predicate InOrder<V>(ord: Order<V>, dirs: seq<bool>, keys: seq<seq<V>>) {
    forall i, j | 0 <= i < j < |keys| :: DirLe(ord, dirs, keys[i], keys[j])
  }

  lemma {:induction false} DirTotal<V(!new)>(ord: Order<V>, dirs: seq<bool>, a: seq<V>, b: seq<V>)
    requires TotalPreorder(ord.le)
    ensures DirLe(ord, dirs, a, b) || DirLe(ord, dirs, b, a)
  {
    if dirs != [] && a != [] && b != [] && a[0] == b[0] {
      DirTotal(ord, dirs[1..], a[1..], b[1..]);
    }
  }

  lemma {:induction false} DirTransitive<V(!new)>(
    ord: Order<V>, dirs: seq<bool>, a: seq<V>, b: seq<V>, c: seq<V>)
    requires TotalPreorder(ord.le) && Antisymmetric(ord.le) && |a| == |b| == |c| == |dirs|
    requires DirLe(ord, dirs, a, b) && DirLe(ord, dirs, b, c)
    ensures DirLe(ord, dirs, a, c)
  {
    if dirs != [] && a[0] == b[0] && b[0] == c[0] {
      DirTransitive(ord, dirs[1..], a[1..], b[1..], c[1..]);
    }
  }

  lemma {:induction false} DirAntisymmetric<V(!new)>(ord: Order<V>, dirs: seq<bool>, a: seq<V>, b: seq<V>)
    requires TotalPreorder(ord.le) && Antisymmetric(ord.le) && |a| == |b| == |dirs|
    requires DirLe(ord, dirs, a, b) && DirLe(ord, dirs, b, a)
    ensures a == b
  {
    if dirs != [] {
      DirAntisymmetric(ord, dirs[1..], a[1..], b[1..]);
      assert a == [a[0]] + a[1..] && b == [b[0]] + b[1..];
    }
  }

  /** Rows on one key: NULLs come after everything else in either direction, and the rest
      ascend or descend. */
  ghost predicate OneKeyOrder<V>(ord: Order<V>, descending: bool, cells: seq<V>) {
    forall i, j | 0 <= i < j < |cells| ::
      && (ord.isNull(cells[i]) ==> ord.isNull(cells[j]))
      && (ord.isNull(cells[i]) == ord.isNull(cells[j]) ==>
            if descending then ord.le(cells[j], cells[i]) else ord.le(cells[i], cells[j]))
  }

  ghost predicate Single<V>(cells: seq<V>, keys: seq<seq<V>>) {
    |keys| == |cells| && forall i | 0 <= i < |keys| :: keys[i] == [cells[i]]
  }

  lemma DirOfOne<V(!new)>(ord: Order<V>, descending: bool, a: V, b: V)
    requires TotalPreorder(ord.le)
    ensures DirLe(ord, [descending], [a], [b]) <==>
      && (ord.isNull(a) ==> ord.isNull(b))
      && (ord.isNull(a) == ord.isNull(b) ==> if descending then ord.le(b, a) else ord.le(a, b))
  {
    assert [descending][1..] == [] && ord.le(a, a);
  }

  lemma OneKeyInOrder<V(!new)>(ord: Order<V>, descending: bool, cells: seq<V>, keys: seq<seq<V>>)
    requires TotalPreorder(ord.le) && Single(cells, keys)
    ensures InOrder(ord, [descending], keys) <==> OneKeyOrder(ord, descending, cells)
  {
    forall i, j | 0 <= i < j < |keys|
      ensures DirLe(ord, [descending], keys[i], keys[j]) <==>
        && (ord.isNull(cells[i]) ==> ord.isNull(cells[j]))
        && (ord.isNull(cells[i]) == ord.isNull(cells[j]) ==>
              if descending then ord.le(cells[j], cells[i]) else ord.le(cells[i], cells[j]))
    {
      DirOfOne(ord, descending, cells[i], cells[j]);
    }
  }

  /** `resorted` is what sorting the rows behind `keys` leaves in the key columns: the same
      tuples, in order. Ties may be broken either way; the key columns cannot tell. */
  ghost predicate Resorted<V>(ord: Order<V>, dirs: seq<bool>, keys: seq<seq<V>>, resorted: seq<seq<V>>) {
    multiset(resorted) == multiset(keys) && InOrder(ord, dirs, resorted)
  }

  ghost predicate Widths<V>(keys: seq<seq<V>>, dirs: seq<bool>) {
    forall i | 0 <= i < |keys| :: |keys[i]| == |dirs|
  }

  lemma HeadsAgree<V(!new)>(ord: Order<V>, dirs: seq<bool>, a: seq<seq<V>>, b: seq<seq<V>>)
    requires TotalPreorder(ord.le) && Antisymmetric(ord.le) && Widths(a, dirs) && Widths(b, dirs)
    requires InOrder(ord, dirs, a) && InOrder(ord, dirs, b) && a != [] && b != []
    requires a[0] in b && b[0] in a
    ensures a[0] == b[0]
  {
    var i :| 0 <= i < |b| && b[i] == a[0];
    var j :| 0 <= j < |a| && a[j] == b[0];
    if i > 0 && j > 0 {
      DirAntisymmetric(ord, dirs, a[0], b[0]);
    }
  }

  /** Tuples in order have one arrangement. */
  lemma {:induction false} InOrderUnique<V(!new)>(
    ord: Order<V>, dirs: seq<bool>, a: seq<seq<V>>, b: seq<seq<V>>)
    requires TotalPreorder(ord.le) && Antisymmetric(ord.le) && Widths(a, dirs) && Widths(b, dirs)
    requires InOrder(ord, dirs, a) && InOrder(ord, dirs, b) && multiset(a) == multiset(b)
    ensures a == b
  {
    assert |a| == |multiset(a)| == |multiset(b)| == |b|;
    if a != [] {
      assert a[0] in multiset(b) && b[0] in multiset(a);
      HeadsAgree(ord, dirs, a, b);
      TailMultiset(a);
      TailMultiset(b);
      InOrderUnique(ord, dirs, a[1..], b[1..]);
      assert a == [a[0]] + a[1..] && b == [b[0]] + b[1..];
    }
  }

  /** The order half of `check`, on the key columns of the result. */
  predicate OrderAccepted<V, C(==)>(norm: V -> C, keys: seq<seq<V>>, resorted: seq<seq<V>>) {
    NormRows(norm, resorted) == NormRows(norm, keys)
  }

  /** A result in order is always accepted, whatever the normalization does. */
  lemma OrderComplete<V(!new), C>(
    norm: V -> C, ord: Order<V>, dirs: seq<bool>, keys: seq<seq<V>>, resorted: seq<seq<V>>)
    requires TotalPreorder(ord.le) && Antisymmetric(ord.le) && Widths(keys, dirs) && Widths(resorted, dirs)
    requires Resorted(ord, dirs, keys, resorted) && InOrder(ord, dirs, keys)
    ensures OrderAccepted(norm, keys, resorted)
  {
    InOrderUnique(ord, dirs, resorted, keys);
  }

  ghost predicate InjectiveOn<V, C>(norm: V -> C, cells: set<V>) {
    forall a, b | a in cells && b in cells && norm(a) == norm(b) :: a == b
  }

  ghost function CellsOf<V>(keys: seq<seq<V>>): set<V> {
    set i, j | 0 <= i < |keys| && 0 <= j < |keys[i]| :: keys[i][j]
  }

  /** Where normalization tells the key cells apart, it is accepted exactly when it is in
      order under the mixed ascending and descending keys. */
  lemma OrderExact<V(!new), C>(
    norm: V -> C, ord: Order<V>, dirs: seq<bool>, keys: seq<seq<V>>, resorted: seq<seq<V>>)
    requires TotalPreorder(ord.le) && Antisymmetric(ord.le) && Widths(keys, dirs) && Widths(resorted, dirs)
    requires Resorted(ord, dirs, keys, resorted) && InjectiveOn(norm, CellsOf(keys))
    ensures OrderAccepted(norm, keys, resorted) <==> InOrder(ord, dirs, keys)
  {
    if InOrder(ord, dirs, keys) {
      OrderComplete(norm, ord, dirs, keys, resorted);
    }
    if OrderAccepted(norm, keys, resorted) {
      assert |keys| == |multiset(keys)| == |multiset(resorted)| == |resorted|;
      forall i | 0 <= i < |keys| ensures keys[i] == resorted[i] {
        NormRowInjective(norm, keys, resorted, i);
      }
      assert keys == resorted;
    }
  }

  lemma NormRowInjective<V, C>(norm: V -> C, keys: seq<seq<V>>, resorted: seq<seq<V>>, i: nat)
    requires |keys| == |resorted| && multiset(keys) == multiset(resorted) && i < |keys|
    requires InjectiveOn(norm, CellsOf(keys)) && NormRows(norm, keys) == NormRows(norm, resorted)
    requires |keys[i]| == |resorted[i]|
    ensures keys[i] == resorted[i]
  {
    assert resorted[i] in multiset(keys);
    var k :| 0 <= k < |keys| && keys[k] == resorted[i];
    assert NormRows(norm, keys)[i] == NormRows(norm, resorted)[i];
    assert MapSeq(norm, keys[i]) == MapSeq(norm, resorted[i]);
    forall j | 0 <= j < |keys[i]| ensures keys[i][j] == resorted[i][j] {
      assert norm(keys[i][j]) == MapSeq(norm, keys[i])[j] == norm(resorted[i][j]);
      assert keys[i][j] in CellsOf(keys) && keys[k][j] in CellsOf(keys);
    }
  }

  /** Where it does not, a result out of order can pass: two keys that normalize alike,
      the larger first. */
  lemma {:induction false} OrderUnsound<V(!new), C>(norm: V -> C, ord: Order<V>, small: V, large: V)
    requires TotalPreorder(ord.le) && Antisymmetric(ord.le)
    requires small != large && Before(ord, false, small, large) && norm(small) == norm(large)
    ensures
      var keys, resorted := [[large], [small]], [[small], [large]];
      && Resorted(ord, [false], keys, resorted) && OrderAccepted(norm, keys, resorted)
      && !InOrder(ord, [false], keys)
  {
    var keys, resorted := [[large], [small]], [[small], [large]];
    assert multiset(keys) == multiset(resorted);
    assert DirLe(ord, [false], [small], [large]);
    assert InOrder(ord, [false], resorted);
    assert !DirLe(ord, [false], keys[0], keys[1]);
    forall i | 0 <= i < 2 ensures NormRows(norm, resorted)[i] == NormRows(norm, keys)[i] {
      assert MapSeq(norm, [small]) == [norm(small)] && MapSeq(norm, [large]) == [norm(large)];
    }
  }

  ghost predicate ExactGate<V(!new), C>(norm: V -> C, ord: Order<V>) {
    forall dirs: seq<bool>, keys: seq<seq<V>>, resorted: seq<seq<V>>
      | Widths(keys, dirs) && Widths(resorted, dirs) && Resorted(ord, dirs, keys, resorted) ::
      OrderAccepted(norm, keys, resorted) <==> InOrder(ord, dirs, keys)
  }

  /** So the gate accepts exactly the ordered results, for every choice of keys and
      directions, if and only if normalization never makes two different cells equal. */
  lemma ExactIffInjective<V(!new), C>(norm: V -> C, ord: Order<V>)
    requires TotalPreorder(ord.le) && Antisymmetric(ord.le)
    ensures ExactGate(norm, ord) <==> forall a, b :: norm(a) == norm(b) ==> a == b
  {
    if forall a, b :: norm(a) == norm(b) ==> a == b {
      forall dirs: seq<bool>, keys: seq<seq<V>>, resorted: seq<seq<V>>
        | Widths(keys, dirs) && Widths(resorted, dirs) && Resorted(ord, dirs, keys, resorted)
        ensures OrderAccepted(norm, keys, resorted) <==> InOrder(ord, dirs, keys)
      {
        OrderExact(norm, ord, dirs, keys, resorted);
      }
    } else {
      var a, b :| norm(a) == norm(b) && a != b;
      if Before(ord, false, a, b) {
        GateMisled(norm, ord, a, b);
      } else {
        GateMisled(norm, ord, b, a);
      }
    }
  }

  lemma GateMisled<V(!new), C>(norm: V -> C, ord: Order<V>, small: V, large: V)
    requires TotalPreorder(ord.le) && Antisymmetric(ord.le)
    requires small != large && Before(ord, false, small, large) && norm(small) == norm(large)
    ensures !ExactGate(norm, ord)
  {
    OrderUnsound(norm, ord, small, large);
    var keys, resorted := [[large], [small]], [[small], [large]];
    assert Widths(keys, [false]) && Widths(resorted, [false]);
  }

  // --- Content ---------------------------------------------------------------------

  predicate RowClose<C>(close: (C, C) -> bool, a: seq<C>, b: seq<C>) {
    |a| == |b| && forall i | 0 <= i < |a| :: close(a[i], b[i])
  }

  function ReprLe<C>(repr: seq<C> -> string): (seq<C>, seq<C>) -> bool {
    (a: seq<C>, b: seq<C>) => StringLe(repr(a), repr(b))
  }

  lemma ReprPreorder<C(!new)>(repr: seq<C> -> string)
    ensures TotalPreorder(ReprLe(repr))
  {
    StringOrder();
  }

  lemma ReprAntisymmetric<C(!new)>(repr: seq<C> -> string)
    requires forall a, b :: repr(a) == repr(b) ==> a == b
    ensures Antisymmetric(ReprLe(repr))
  {
    StringOrder();
  }

  predicate AllClose<C>(close: (C, C) -> bool, mine: seq<seq<C>>, theirs: seq<seq<C>>) {
    |mine| == |theirs| && forall i | 0 <= i < |mine| :: RowClose(close, mine[i], theirs[i])
  }

  function Lefts<C>(pairs: seq<(seq<C>, seq<C>)>): (r: seq<seq<C>>)
    ensures |r| == |pairs| && forall i | 0 <= i < |r| :: r[i] == pairs[i].0
  {
    if pairs == [] then [] else [pairs[0].0] + Lefts(pairs[1..])
  }

  function Rights<C>(pairs: seq<(seq<C>, seq<C>)>): (r: seq<seq<C>>)
    ensures |r| == |pairs| && forall i | 0 <= i < |r| :: r[i] == pairs[i].1
  {
    if pairs == [] then [] else [pairs[0].1] + Rights(pairs[1..])
  }

  /** A one-to-one pairing of the rows of two results. */
  ghost predicate Pairs<C>(pairs: seq<(seq<C>, seq<C>)>, got: seq<seq<C>>, ref: seq<seq<C>>) {
    multiset(Lefts(pairs)) == multiset(got) && multiset(Rights(pairs)) == multiset(ref)
  }

  function Zip<A, B>(a: seq<A>, b: seq<B>): (r: seq<(A, B)>)
    requires |a| == |b|
    ensures |r| == |a| && forall i | 0 <= i < |a| :: r[i] == (a[i], b[i])
  {
    if a == [] then [] else [(a[0], b[0])] + Zip(a[1..], b[1..])
  }

  predicate ContentAccepted<V(!new), C(!new)>(rules: Rules<V, C>, got: seq<seq<C>>, ref: seq<seq<C>>) {
    AllClose(rules.close, Sort(ReprLe(rules.repr), got), Sort(ReprLe(rules.repr), ref))
  }

  /** Acceptance means a bijection: the rows of the two results can be paired one to one
      with every pair close. */
  lemma {:induction false} AcceptancePairs<V(!new), C(!new)>(rules: Rules<V, C>, got: seq<seq<C>>, ref: seq<seq<C>>)
    returns (pairs: seq<(seq<C>, seq<C>)>)
    requires ContentAccepted(rules, got, ref)
    ensures Pairs(pairs, got, ref) && AllPairsClose(rules.close, pairs)
    ensures Lefts(pairs) == Sort(ReprLe(rules.repr), got) && Rights(pairs) == Sort(ReprLe(rules.repr), ref)
  {
    var le := ReprLe(rules.repr);
    var mine, theirs := Sort(le, got), Sort(le, ref);
    SortMultiset(le, got);
    SortMultiset(le, ref);
    pairs := Zip(mine, theirs);
    assert Lefts(pairs) == mine && Rights(pairs) == theirs;
  }

  /** Equal results are always accepted, in whatever row order the engines return them. */
  lemma {:induction false} EqualAccepted<V(!new), C(!new)>(rules: Rules<V, C>, got: seq<seq<C>>, ref: seq<seq<C>>)
    requires forall a, b :: rules.repr(a) == rules.repr(b) ==> a == b
    requires forall a :: rules.close(a, a)
    requires multiset(got) == multiset(ref)
    ensures ContentAccepted(rules, got, ref)
  {
    ReprPreorder(rules.repr);
    ReprAntisymmetric(rules.repr);
    SortCanonical(ReprLe(rules.repr), got, ref);
  }

  /** Both sides of a pairing stand in the order the gate sorts by. */
  ghost predicate InReprOrder<C(!new)>(repr: seq<C> -> string, pairs: seq<(seq<C>, seq<C>)>) {
    Sorting.Ordered(ReprLe(repr), Lefts(pairs)) && Sorting.Ordered(ReprLe(repr), Rights(pairs))
  }

  ghost predicate AllPairsClose<C>(close: (C, C) -> bool, pairs: seq<(seq<C>, seq<C>)>) {
    forall i | 0 <= i < |pairs| :: RowClose(close, pairs[i].0, pairs[i].1)
  }

  /** Acceptance in full: the gate accepts exactly when the rows of the two results can be
      paired one to one and closely with both sides in the order of their text. */
  lemma AcceptedExactly<V(!new), C(!new)>(rules: Rules<V, C>, got: seq<seq<C>>, ref: seq<seq<C>>)
    requires forall a, b :: rules.repr(a) == rules.repr(b) ==> a == b
    ensures ContentAccepted(rules, got, ref) <==>
            exists pairs ::
              Pairs(pairs, got, ref) && InReprOrder(rules.repr, pairs) && AllPairsClose(rules.close, pairs)
  {
    var le := ReprLe(rules.repr);
    ReprPreorder(rules.repr);
    ReprAntisymmetric(rules.repr);
    if ContentAccepted(rules, got, ref) {
      var pairs := AcceptancePairs(rules, got, ref);
      SortOrdered(le, got);
      SortOrdered(le, ref);
      assert InReprOrder(rules.repr, pairs);
    }
    if pairs :| Pairs(pairs, got, ref) && InReprOrder(rules.repr, pairs) && AllPairsClose(rules.close, pairs) {
      SidesSorted(rules, got, Lefts(pairs));
      SidesSorted(rules, ref, Rights(pairs));
    }
  }

  lemma SidesSorted<V(!new), C(!new)>(rules: Rules<V, C>, rows: seq<seq<C>>, side: seq<seq<C>>)
    requires TotalPreorder(ReprLe(rules.repr)) && Antisymmetric(ReprLe(rules.repr))
    requires multiset(side) == multiset(rows) && Sorting.Ordered(ReprLe(rules.repr), side)
    ensures Sort(ReprLe(rules.repr), rows) == side
  {
    var le := ReprLe(rules.repr);
    SortCanonical(le, rows, side);
    SortFixpoint(le, side);
  }

  // --- Close results that are refused ----------------------------------------------

  /** The cells a query returns, after normalization: NULL, a float, or anything else, which
      is told apart by its text. */
  datatype Cell = Null | Flt(r: real) | Other(text: string)

  function Abs(x: real): (r: real)
    ensures r >= 0.0 && (r == x || r == -x)
  {
    if x < 0.0 then -x else x
  }

  function Max(x: real, y: real): (r: real)
    ensures r >= x && r >= y && (r == x || r == y)
  {
    if x < y then y else x
  }

  /** `math.isclose` with both tolerances at one millionth. */
  predicate IsClose(a: real, b: real) {
    Abs(a - b) <= Max(0.000001 * Max(Abs(a), Abs(b)), 0.000001)
  }

  /** `_close`: floats by tolerance, NULL beside a float only as itself, and the rest by
      their text. A float beside another kind of number is not modelled and never close. */
  predicate CellClose(a: Cell, b: Cell) {
    match (a, b)
    case (Flt(x), Flt(y)) => IsClose(x, y)
    case (Null, Null) => true
    case (Other(s), Other(t)) => s == t
    case _ => false
  }

  /** The difference is at most a millionth of `size`, whatever the signs. */
  ghost predicate NearTo(a: real, b: real, size: real) {
    -0.000001 * size <= a - b <= 0.000001 * size || 0.000001 * size <= a - b <= -0.000001 * size
  }

  /** Two cells are close exactly when both are NULL, both read alike, or both are floats that
      differ by at most a millionth, or a millionth of one of them. */
  lemma CellCloseMeans(a: Cell, b: Cell)
    ensures CellClose(a, b) <==>
      || (a == Null && b == Null)
      || (a.Other? && b.Other? && a.text == b.text)
      || (a.Flt? && b.Flt? && (NearTo(a.r, b.r, 1.0) || NearTo(a.r, b.r, a.r) || NearTo(a.r, b.r, b.r)))
  {
    if a.Flt? && b.Flt? {
      var x, y := a.r, b.r;
      assert Max(0.000001 * Max(Abs(x), Abs(y)), 0.000001) >= 0.000001 * Abs(x);
    }
  }

  /** Two results of two float columns, the first of which differs in its seventh decimal
      between rows. Paired as listed they are close cell by cell, and the gate, which pairs
      them in the order of their text, refuses them. */
  lemma CloseRefused(rules: Rules<Cell, Cell>, got: seq<seq<Cell>>, ref: seq<seq<Cell>>)
    requires rules.close == CellClose
    requires got == [[Flt(1.0), Flt(5.0)], [Flt(1.0000001), Flt(9.0)]]
    requires ref == [[Flt(1.0000001), Flt(5.0)], [Flt(1.0), Flt(9.0)]]
    requires rules.repr(got[0]) == "(1.0, 5.0)" && rules.repr(got[1]) == "(1.0000001, 9.0)"
    requires rules.repr(ref[0]) == "(1.0000001, 5.0)" && rules.repr(ref[1]) == "(1.0, 9.0)"
    ensures AllClose(rules.close, got, ref) && !ContentAccepted(rules, got, ref)
  {
    var le := ReprLe(rules.repr);
    ReprOrdered(rules.repr, got[0], got[1], "5.0)", "9.0)");
    ReprOrdered(rules.repr, ref[1], ref[0], "9.0)", "5.0)");
    SortPair(le, got[0], got[1]);
    SortPair(le, ref[0], ref[1]);
    RowsFarApart(got[0], ref[1]);
    assert got == [got[0], got[1]] && ref == [ref[0], ref[1]];
    assert Sort(le, got)[0] == got[0] && Sort(le, ref)[0] == ref[1];
    assert RowClose(rules.close, got[0], ref[0]) && RowClose(rules.close, got[1], ref[1]);
  }

  /** A row that starts with 1.0 comes before one that starts with 1.0000001. */
  lemma ReprOrdered(repr: seq<Cell> -> string, a: seq<Cell>, b: seq<Cell>, x: string, y: string)
    requires repr(a) == "(1.0, " + x && repr(b) == "(1.0000001, " + y
    ensures ReprLe(repr)(a, b) && !ReprLe(repr)(b, a)
  {
    assert "(1.0000001, " + y == "(1.000" + ("0001, " + y);
    CommaBeforeZero(x, "0001, " + y);
  }

  lemma RowsFarApart(a: seq<Cell>, b: seq<Cell>)
    requires |a| == |b| == 2 && a[1] == Flt(5.0) && b[1] == Flt(9.0)
    ensures !RowClose(CellClose, a, b)
  {
    assert !CellClose(a[1], b[1]);
  }

  /** A row that starts with 1.0 comes before one that starts with 1.000. */
  lemma CommaBeforeZero(a: string, b: string)
    ensures StringLe("(1.0, " + a, "(1.000" + b) && !StringLe("(1.000" + b, "(1.0, " + a)
  {
    var x, y := ", " + a, "00" + b;
    assert "(1.0, " + a == "(1.0" + x && "(1.000" + b == "(1.0" + y;
    assert StringLe(x, y) && !StringLe(y, x);
    LexPrefix("(1.0", x, y);
    LexPrefix("(1.0", y, x);
  }

  lemma {:induction false} LexPrefix(front: string, a: string, b: string)
    ensures StringLe(front + a, front + b) <==> StringLe(a, b)
  {
    if front == [] {
      assert front + a == a && front + b == b;
    } else {
      assert (front + a)[1..] == front[1..] + a && (front + b)[1..] == front[1..] + b;
      LexPrefix(front[1..], a, b);
    }
  }

  lemma SortPair<T(!new)>(le: (T, T) -> bool, a: T, b: T)
    ensures Sort(le, [a, b]) == if le(a, b) then [a, b] else [b, a]
  {
    assert [a, b][1..] == [b];
    assert Sort(le, [b]) == Insert(le, b, Sort(le, [b][1..])) == [b];
    assert Sort(le, [a, b]) == Insert(le, a, [b]);
    assert Insert(le, a, [b][1..]) == [a];
  }

  // --- The gates -------------------------------------------------------------------

  datatype Verdict = Agrees | MissingColumns | RowCounts | ColumnCounts | OutOfOrder | RowDiffers

  function KeyNames(keys: seq<Key>): (r: seq<string>)
    ensures |r| == |keys| && forall i | 0 <= i < |r| :: r[i] == keys[i].name
  {
    if keys == [] then [] else [keys[0].name] + KeyNames(keys[1..])
  }

  /** The loop both gates end in: the first pair of rows that is not close. */
  method CompareRows<C>(close: (C, C) -> bool, mine: seq<seq<C>>, theirs: seq<seq<C>>) returns (ok: bool)
    requires |mine| == |theirs|
    ensures ok <==> AllClose(close, mine, theirs)
  {
    for i := 0 to |mine|
      invariant forall k | 0 <= k < i :: RowClose(close, mine[k], theirs[k])
    {
      if !RowClose(close, mine[i], theirs[i]) {
        return false;
      }
    }
    ok := true;
  }

  /** Every reference column is present. */
  ghost predicate HasColumns<V>(got: Table<V>, ref: Table<V>) {
    forall i | 0 <= i < |ref.names| :: ref.names[i] in got.names
  }

  /** The sort keys are columns of the reference. */
  ghost predicate HasKeys<V>(ref: Table<V>, keys: seq<Key>) {
    forall i | 0 <= i < |keys| :: keys[i].name in ref.names
  }

  ghost predicate Ordered<V, C>(rules: Rules<V, C>, got: Table<V>, keys: seq<Key>, resorted: seq<seq<V>>)
    requires Valid(got) && forall i | 0 <= i < |keys| :: keys[i].name in got.names
  {
    keys != [] ==> OrderAccepted(rules.norm, PickAll(got.names, got.rows, KeyNames(keys)), resorted)
  }

  /** The two results are accepted as the same on the given columns. */
  ghost predicate SameOn<V(!new), C(!new)>(rules: Rules<V, C>, got: Table<V>, ref: Table<V>, cols: seq<string>)
    requires Valid(got) && Valid(ref)
    requires forall i | 0 <= i < |cols| :: cols[i] in got.names && cols[i] in ref.names
  {
    ContentAccepted(rules, NormRows(rules.norm, PickAll(got.names, got.rows, cols)),
                    NormRows(rules.norm, PickAll(ref.names, ref.rows, cols)))
  }

  /** A limited query is compared on its keys alone, any other on every reference column. */
  ghost predicate SameContent<V(!new), C(!new)>(
    rules: Rules<V, C>, got: Table<V>, ref: Table<V>, keys: seq<Key>, limited: bool)
    requires Valid(got) && Valid(ref) && HasKeys(ref, keys) && HasColumns(got, ref)
  {
    && (limited ==> SameOn(rules, got, ref, KeyNames(keys)))
    && (!limited ==> SameOn(rules, got, ref, ref.names))
  }

  // --- What the gate says of the cells ----------------------------------------------

  /** `v` is the cell of `row` in the first column called `name`. */
  ghost predicate Under<V>(names: seq<string>, row: seq<V>, name: string, v: V) {
    exists k | 0 <= k < |names| && k < |row| :: names[k] == name && name !in names[..k] && row[k] == v
  }

  /** Whatever stands in the two rows under the column is related by `rel`. */
  ghost predicate CellsRelated<V(!new)>(
    rel: (V, V) -> bool, got: Table<V>, i: nat, ref: Table<V>, j: nat, name: string)
    requires i < |got.rows| && j < |ref.rows|
  {
    forall x, y | Under(got.names, got.rows[i], name, x) && Under(ref.names, ref.rows[j], name, y) :: rel(x, y)
  }

  /** The rows of the two tables can be paired one to one, so that the cells of each pair are
      related under each of the columns. */
  ghost predicate RowsPair<V(!new)>(rel: (V, V) -> bool, got: Table<V>, ref: Table<V>, cols: seq<string>) {
    exists mine, theirs :: PairedBy(rel, got, ref, cols, mine, theirs)
  }

  ghost predicate PairedBy<V(!new)>(
    rel: (V, V) -> bool, got: Table<V>, ref: Table<V>, cols: seq<string>, mine: seq<nat>, theirs: seq<nat>)
  {
    && IsOrder(mine, |got.rows|) && IsOrder(theirs, |ref.rows|) && |mine| == |theirs|
    && forall k | 0 <= k < |mine| ::
      && mine[k] < |got.rows| && theirs[k] < |ref.rows|
      && forall c | c in cols :: CellsRelated(rel, got, mine[k], ref, theirs[k], c)
  }

  ghost function CloseCells<V, C>(rules: Rules<V, C>): (V, V) -> bool {
    (x: V, y: V) => rules.close(rules.norm(x), rules.norm(y))
  }

  ghost function AlikeCells<V, C>(rules: Rules<V, C>): (V, V) -> bool {
    (x: V, y: V) => rules.norm(x) == rules.norm(y)
  }

  lemma {:induction false} IndexIsFirst(names: seq<string>, name: string, k: nat)
    requires k < |names| && names[k] == name && name !in names[..k]
    ensures IndexOf(names, name) == k
  {
    if k > 0 {
      assert names[0] in names[..k];
      assert names[1..][..k - 1] == names[1..k] && forall x | x in names[1..k] :: x in names[..k];
      IndexIsFirst(names[1..], name, k - 1);
    }
  }

  lemma {:induction false} FirstIndex(names: seq<string>, name: string)
    requires name in names
    ensures name !in names[..IndexOf(names, name)]
  {
    var k := IndexOf(names, name);
    if names[0] != name {
      FirstIndex(names[1..], name);
      assert names[..k] == [names[0]] + names[1..][..k - 1];
    }
  }

  /** A column holds one cell of a row, the one that is picked. */
  lemma UnderIsPicked<V>(names: seq<string>, row: seq<V>, name: string, v: V)
    requires |row| == |names| && name in names
    ensures Under(names, row, name, v) <==> row[IndexOf(names, name)] == v
  {
    FirstIndex(names, name);
    if Under(names, row, name, v) {
      var k :| 0 <= k < |names| && k < |row| && names[k] == name && name !in names[..k] && row[k] == v;
      IndexIsFirst(names, name, k);
    }
  }

  lemma {:induction false} PickAt<V>(names: seq<string>, row: seq<V>, cols: seq<string>, c: nat)
    requires |row| == |names| && c < |cols| && forall i | 0 <= i < |cols| :: cols[i] in names
    ensures Under(names, row, cols[c], Pick(names, row, cols)[c])
    ensures Pick(names, row, cols)[c] == row[IndexOf(names, cols[c])]
  {
    UnderIsPicked(names, row, cols[c], row[IndexOf(names, cols[c])]);
    if c > 0 {
      PickAt(names, row, cols[1..], c - 1);
    }
  }

  lemma {:induction false} PickAllAt<V>(names: seq<string>, rows: seq<seq<V>>, cols: seq<string>, i: nat)
    requires i < |rows| && forall k | 0 <= k < |rows| :: |rows[k]| == |names|
    requires forall k | 0 <= k < |cols| :: cols[k] in names
    ensures PickAll(names, rows, cols)[i] == Pick(names, rows[i], cols)
  {
    if i > 0 {
      PickAllAt(names, rows[1..], cols, i - 1);
    }
  }

  /** What is compared of a row, cell by cell. */
  lemma ComparedCell<V, C>(norm: V -> C, t: Table<V>, cols: seq<string>, i: nat, c: nat, v: V)
    requires Valid(t) && (forall k | 0 <= k < |cols| :: cols[k] in t.names) && i < |t.rows| && c < |cols|
    requires Under(t.names, t.rows[i], cols[c], v)
    ensures NormRows(norm, PickAll(t.names, t.rows, cols))[i][c] == norm(v)
  {
    PickAllAt(t.names, t.rows, cols, i);
    PickAt(t.names, t.rows[i], cols, c);
    UnderIsPicked(t.names, t.rows[i], cols[c], v);
  }

  /** Rows that are close as compared have close cells under every compared column. */
  lemma CloseRowsCells<V(!new), C(!new)>(
    rules: Rules<V, C>, got: Table<V>, ref: Table<V>, cols: seq<string>, i: nat, j: nat)
    requires Valid(got) && Valid(ref) && i < |got.rows| && j < |ref.rows|
    requires forall k | 0 <= k < |cols| :: cols[k] in got.names && cols[k] in ref.names
    requires RowClose(rules.close, NormRows(rules.norm, PickAll(got.names, got.rows, cols))[i],
                      NormRows(rules.norm, PickAll(ref.names, ref.rows, cols))[j])
    ensures forall c | c in cols :: CellsRelated(CloseCells(rules), got, i, ref, j, c)
  {
    forall c, x, y | c in cols && Under(got.names, got.rows[i], c, x) && Under(ref.names, ref.rows[j], c, y)
      ensures rules.close(rules.norm(x), rules.norm(y))
    {
      var k :| 0 <= k < |cols| && cols[k] == c;
      ComparedCell(rules.norm, got, cols, i, k, x);
      ComparedCell(rules.norm, ref, cols, j, k, y);
    }
  }

  /** Acceptance pairs the rows of the tables themselves. */
  lemma SamePairs<V(!new), C(!new)>(rules: Rules<V, C>, got: Table<V>, ref: Table<V>, cols: seq<string>)
    requires Valid(got) && Valid(ref)
    requires forall i | 0 <= i < |cols| :: cols[i] in got.names && cols[i] in ref.names
    requires SameOn(rules, got, ref, cols)
    ensures RowsPair(CloseCells(rules), got, ref, cols)
  {
    var a := NormRows(rules.norm, PickAll(got.names, got.rows, cols));
    var b := NormRows(rules.norm, PickAll(ref.names, ref.rows, cols));
    var le := ReprLe(rules.repr);
    SortMultiset(le, a);
    SortMultiset(le, b);
    var mine := OrderOf(Sort(le, a), a);
    var theirs := OrderOf(Sort(le, b), b);
    forall k | 0 <= k < |mine|
      ensures forall c | c in cols :: CellsRelated(CloseCells(rules), got, mine[k], ref, theirs[k], c)
    {
      assert RowClose(rules.close, Sort(le, a)[k], Sort(le, b)[k]);
      CloseRowsCells(rules, got, ref, cols, mine[k], theirs[k]);
    }
    assert PairedBy(CloseCells(rules), got, ref, cols, mine, theirs);
  }

  lemma AlikeRows<V(!new), C(!new)>(
    rules: Rules<V, C>, got: Table<V>, ref: Table<V>, cols: seq<string>, i: nat, j: nat)
    requires Valid(got) && Valid(ref) && i < |got.rows| && j < |ref.rows|
    requires forall k | 0 <= k < |cols| :: cols[k] in got.names && cols[k] in ref.names
    requires forall c | c in cols :: CellsRelated(AlikeCells(rules), got, i, ref, j, c)
    ensures NormRows(rules.norm, PickAll(got.names, got.rows, cols))[i]
         == NormRows(rules.norm, PickAll(ref.names, ref.rows, cols))[j]
  {
    var a := NormRows(rules.norm, PickAll(got.names, got.rows, cols))[i];
    var b := NormRows(rules.norm, PickAll(ref.names, ref.rows, cols))[j];
    forall k | 0 <= k < |cols| ensures a[k] == b[k] {
      assert CellsRelated(AlikeCells(rules), got, i, ref, j, cols[k]);
      AlikeCell(rules, got, ref, cols, i, j, k);
    }
  }

  lemma AlikeCell<V(!new), C(!new)>(
    rules: Rules<V, C>, got: Table<V>, ref: Table<V>, cols: seq<string>, i: nat, j: nat, k: nat)
    requires Valid(got) && Valid(ref) && i < |got.rows| && j < |ref.rows| && k < |cols|
    requires forall k | 0 <= k < |cols| :: cols[k] in got.names && cols[k] in ref.names
    requires CellsRelated(AlikeCells(rules), got, i, ref, j, cols[k])
    ensures NormRows(rules.norm, PickAll(got.names, got.rows, cols))[i][k]
         == NormRows(rules.norm, PickAll(ref.names, ref.rows, cols))[j][k]
  {
    var x, y := Pick(got.names, got.rows[i], cols)[k], Pick(ref.names, ref.rows[j], cols)[k];
    PickAt(got.names, got.rows[i], cols, k);
    PickAt(ref.names, ref.rows[j], cols, k);
    ComparedCell(rules.norm, got, cols, i, k, x);
    ComparedCell(rules.norm, ref, cols, j, k, y);
    assert AlikeCells(rules)(x, y);
  }

  /** Rows that can be paired with every compared cell normalizing alike are accepted. */
  lemma PairedAlikeSame<V(!new), C(!new)>(rules: Rules<V, C>, got: Table<V>, ref: Table<V>, cols: seq<string>)
    requires forall a, b :: rules.repr(a) == rules.repr(b) ==> a == b
    requires forall a :: rules.close(a, a)
    requires Valid(got) && Valid(ref)
    requires forall i | 0 <= i < |cols| :: cols[i] in got.names && cols[i] in ref.names
    requires RowsPair(AlikeCells(rules), got, ref, cols)
    ensures SameOn(rules, got, ref, cols)
  {
    var mine, theirs :| PairedBy(AlikeCells(rules), got, ref, cols, mine, theirs);
    var a := NormRows(rules.norm, PickAll(got.names, got.rows, cols));
    var b := NormRows(rules.norm, PickAll(ref.names, ref.rows, cols));
    forall k | 0 <= k < |mine| ensures a[mine[k]] == b[theirs[k]] {
      AlikeRows(rules, got, ref, cols, mine[k], theirs[k]);
    }
    var r := seq(|mine|, k requires 0 <= k < |mine| => a[mine[k]]);
    OrderPermutes(a, mine, r);
    OrderPermutes(b, theirs, r);
    EqualAccepted(rules, a, b);
  }

  /** Two tables with the same columns hold the same cells under some of them. */
  ghost predicate SameUnder<V(!new)>(s: Table<V>, t: Table<V>, cols: seq<string>) {
    && s.names == t.names && |s.rows| == |t.rows|
    && forall i, c, v | 0 <= i < |s.rows| && c in cols && Under(s.names, s.rows[i], c, v) ::
      Under(t.names, t.rows[i], c, v)
  }

  lemma SamePicks<V(!new)>(s: Table<V>, t: Table<V>, cols: seq<string>)
    requires Valid(s) && Valid(t) && SameUnder(s, t, cols) && forall i | 0 <= i < |cols| :: cols[i] in s.names
    ensures PickAll(s.names, s.rows, cols) == PickAll(t.names, t.rows, cols)
  {
    forall i | 0 <= i < |s.rows| ensures PickAll(s.names, s.rows, cols)[i] == PickAll(t.names, t.rows, cols)[i] {
      PickAllAt(s.names, s.rows, cols, i);
      PickAllAt(t.names, t.rows, cols, i);
      SamePick(s, t, cols, i);
    }
  }

  lemma SamePick<V(!new)>(s: Table<V>, t: Table<V>, cols: seq<string>, i: nat)
    requires Valid(s) && Valid(t) && SameUnder(s, t, cols) && forall i | 0 <= i < |cols| :: cols[i] in s.names
    requires i < |s.rows|
    ensures Pick(s.names, s.rows[i], cols) == Pick(t.names, t.rows[i], cols)
  {
    var a, b := Pick(s.names, s.rows[i], cols), Pick(t.names, t.rows[i], cols);
    forall c | 0 <= c < |cols| ensures a[c] == b[c] {
      PickAt(s.names, s.rows[i], cols, c);
      PickAt(t.names, t.rows[i], cols, c);
      UnderIsPicked(t.names, t.rows[i], cols[c], a[c]);
    }
  }

  /** Only the keys of a limited query matter: changing any other cell, in the result or in
      the reference, changes no verdict. */
  lemma LimitedSeesKeys<V(!new), C(!new)>(
    rules: Rules<V, C>, got: Table<V>, got': Table<V>, ref: Table<V>, ref': Table<V>, keys: seq<Key>,
    resorted: seq<seq<V>>)
    requires Valid(got) && Valid(ref) && Valid(got') && Valid(ref') && HasKeys(ref, keys)
    requires SameUnder(got, got', KeyNames(keys)) && SameUnder(ref, ref', KeyNames(keys)) && HasColumns(got, ref)
    ensures Ordered(rules, got, keys, resorted) <==> Ordered(rules, got', keys, resorted)
    ensures SameContent(rules, got, ref, keys, true) <==> SameContent(rules, got', ref', keys, true)
  {
    SamePicks(got, got', KeyNames(keys));
    SamePicks(ref, ref', KeyNames(keys));
  }

  /** The keys a result was sorted by again read, cell by cell, as they stand in it. */
  lemma OrderedCells<V(!new), C(!new)>(
    rules: Rules<V, C>, got: Table<V>, keys: seq<Key>, resorted: seq<seq<V>>, i: nat, c: nat, v: V)
    requires Valid(got) && (forall k | 0 <= k < |keys| :: keys[k].name in got.names) && i < |got.rows| && c < |keys|
    requires Ordered(rules, got, keys, resorted) && Under(got.names, got.rows[i], keys[c].name, v)
    ensures |resorted| == |got.rows| && |resorted[i]| == |keys| && rules.norm(resorted[i][c]) == rules.norm(v)
  {
    var rows := NormRows(rules.norm, PickAll(got.names, got.rows, KeyNames(keys)));
    assert |NormRows(rules.norm, resorted)| == |rows|;
    assert NormRows(rules.norm, resorted)[i] == rows[i];
    ComparedCell(rules.norm, got, KeyNames(keys), i, c, v);
  }

  /** `check` for a query with the given sort keys. `resorted` is what the engine's own
      sort leaves in the key columns. */
  method Check<V(!new), C(==,!new)>(
    rules: Rules<V, C>, got: Table<V>, ref: Table<V>, keys: seq<Key>, limited: bool, resorted: seq<seq<V>>)
    returns (v: Verdict)
    requires Valid(got) && Valid(ref) && HasKeys(ref, keys)
    ensures v == MissingColumns <==> !HasColumns(got, ref)
    ensures v == RowCounts <==> HasColumns(got, ref) && |got.rows| != |ref.rows|
    ensures v == OutOfOrder <==>
      HasColumns(got, ref) && |got.rows| == |ref.rows| && !Ordered(rules, got, keys, resorted)
    ensures v == Agrees <==>
      && HasColumns(got, ref) && |got.rows| == |ref.rows| && Ordered(rules, got, keys, resorted)
      && SameContent(rules, got, ref, keys, limited)
    ensures v == Agrees && !limited ==> RowsPair(CloseCells(rules), got, ref, ref.names)
    ensures v == Agrees && limited ==> RowsPair(CloseCells(rules), got, ref, KeyNames(keys))
    ensures v != ColumnCounts
  {
    for i := 0 to |ref.names|
      invariant forall k | 0 <= k < i :: ref.names[k] in got.names
    {
      if ref.names[i] !in got.names {
        return MissingColumns;
      }
    }
    if |got.rows| != |ref.rows| {
      return RowCounts;
    }
    var keyNames := KeyNames(keys);
    if keys != [] && NormRows(rules.norm, resorted) != NormRows(rules.norm, PickAll(got.names, got.rows, keyNames)) {
      return OutOfOrder;
    }
    var cols := if limited then keyNames else ref.names;
    var mine := Sort(ReprLe(rules.repr), NormRows(rules.norm, PickAll(got.names, got.rows, cols)));
    var theirs := Sort(ReprLe(rules.repr), NormRows(rules.norm, PickAll(ref.names, ref.rows, cols)));
    var ok := CompareRows(rules.close, mine, theirs);
    if !ok {
      return RowDiffers;
    }
    SamePairs(rules, got, ref, cols);
    return Agrees;
  }

  /** `check_standard`: columns by position, rows in order. */
  method CheckStandard<V, C>(rules: Rules<V, C>, got: Table<V>, ref: Table<V>) returns (v: Verdict)
    requires Valid(got) && Valid(ref)
    ensures v == Agrees <==>
      && |got.names| == |ref.names|
      && AllClose(rules.close, NormRows(rules.norm, got.rows), NormRows(rules.norm, ref.rows))
    ensures v == ColumnCounts <==> |got.names| != |ref.names|
    ensures v == RowCounts <==> |got.names| == |ref.names| && |got.rows| != |ref.rows|
    ensures v in {Agrees, ColumnCounts, RowCounts, RowDiffers}
  {
    if |got.names| != |ref.names| {
      return ColumnCounts;
    }
    if |got.rows| != |ref.rows| {
      return RowCounts;
    }
    var ok := CompareRows(rules.close, NormRows(rules.norm, got.rows), NormRows(rules.norm, ref.rows));
    return if ok then Agrees else RowDiffers;
  }
}
