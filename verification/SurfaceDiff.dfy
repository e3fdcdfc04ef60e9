/** The public-surface snapshot gate: what an empty diff, and an exit code of 0, establish
    about two snapshots.
 */
module SurfaceDiff {
  import opened Common
  import opened Sorting
  import opened Text

  /** A captured value. Numbers, strings and the other leaves are told apart by `Leaf`. */
  datatype Json = Leaf(text: string, kind: int) | List(items: seq<Json>) | Obj(fields: map<string, Json>)

  /** One reported difference. */
  datatype Line =
    | RemovedItem(path: string, item: string)
    | AddedItem(path: string, item: string)
    | RemovedKey(path: string)
    | AddedKey(path: string)
    | Changed(path: string, before: Json, after: Json)
    | Reordered(path: string, count: nat)
    | Position(index: nat, was: string, now: string)
    | MorePositions(count: nat)

  // --- Sorted sets -----------------------------------------------------------------

  ghost predicate IsLeast<T(!new)>(le: (T, T) -> bool, s: set<T>, x: T) {
    x in s && forall y | y in s :: le(x, y)
  }

  lemma LeastExists<T(!new)>(le: (T, T) -> bool, s: set<T>)
    requires TotalPreorder(le) && Antisymmetric(le) && s != {}
    ensures exists x :: IsLeast(le, s, x)
    ensures forall x, y | IsLeast(le, s, x) && IsLeast(le, s, y) :: x == y
  {
    var e := Listing(s);
    var z :| z in s;
    assert z in e;
    SortOrdered(le, e);
    var x := Sort(le, e)[0];
    forall y | y in s ensures le(x, y) {
      SortMember(le, e, y);
      HeadIsLeast(le, Sort(le, e), y);
    }
    SortMember(le, e, x);
    assert IsLeast(le, s, x);
  }

  lemma Prepended(x: string, rest: seq<string>, s: set<string>)
    requires x in s && (forall y | y in s :: StringLe(x, y))
    requires Ordered(StringLe, rest) && forall y :: y in rest <==> y in s - {x}
    ensures Ordered(StringLe, [x] + rest)
  {
    var r := [x] + rest;
    forall i, j | 0 <= i < j < |r| ensures StringLe(r[i], r[j]) {
      assert r[j] == rest[j - 1];
      assert rest[j - 1] in rest;
      if i > 0 {
        assert r[i] == rest[i - 1];
      }
    }
  }

  /** `sorted(s)`. */
  function Listed(s: set<string>): (r: seq<string>)
    ensures forall x :: x in r <==> x in s
    ensures |r| == |s|
  {
    if s == {} then []
    else
      var x := Least(s);
      var rest := Listed(s - {x});
      assert forall y :: y in [x] + rest <==> y == x || y in rest;
      [x] + rest
  }

  function Least(s: set<string>): (x: string)
    requires s != {}
    ensures x in s && forall y | y in s :: StringLe(x, y)
  {
    StringOrder();
    LeastExists(StringLe, s);
    var x :| x in s && forall y | y in s :: StringLe(x, y);
    x
  }

  /** The listing is in order. */
  lemma {:induction false} ListedOrdered(s: set<string>)
    ensures Ordered(StringLe, Listed(s))
  {
    if s != {} {
      var x := Least(s);
      ListedOrdered(s - {x});
      Prepended(x, Listed(s - {x}), s);
    }
  }

  // --- The diff --------------------------------------------------------------------

  /** Surfaces whose order is behaviour. */
  const ORDERED_SURFACES: set<string> := {"kyber_rules"}

  function Root(path: string): string {
    Split(Split(path, '.')[0], '[')[0]
  }

  predicate OrderMatters(path: string) {
    Root(path) in ORDERED_SURFACES
  }

  function Child(path: string, key: string): string {
    if path != "" then path + "." + key else key
  }

  function Removals(path: string, items: seq<string>): (r: seq<Line>)
    ensures |r| == |items| && forall i | 0 <= i < |r| :: r[i] == RemovedItem(path, items[i])
  {
    if items == [] then [] else [RemovedItem(path, items[0])] + Removals(path, items[1..])
  }

  function Additions(path: string, items: seq<string>): (r: seq<Line>)
    ensures |r| == |items| && forall i | 0 <= i < |r| :: r[i] == AddedItem(path, items[i])
  {
    if items == [] then [] else [AddedItem(path, items[0])] + Additions(path, items[1..])
  }

  /** The positions, counted from `i`, at which two lists differ over their common length. */
  function Moves(was: seq<string>, now: seq<string>, i: nat): (r: seq<Line>)
  {
    if was == [] || now == [] then []
    else (if was[0] == now[0] then [] else [Position(i, was[0], now[0])]) + Moves(was[1..], now[1..], i + 1)
  }

  function MoveLines(path: string, moved: seq<Line>): seq<Line> {
    if moved == [] then []
    else if |moved| > 5 then [Reordered(path, |moved|)] + moved[..5] + [MorePositions(|moved| - 5)]
    else [Reordered(path, |moved|)] + moved
  }

  function Members(items: seq<string>): set<string> {
    set x | x in items
  }

  function MembershipLines(path: string, was: seq<string>, now: seq<string>): seq<Line> {
    Removals(path, Listed(Members(was) - Members(now))) + Additions(path, Listed(Members(now) - Members(was)))
  }

  /** `_list_diff`: membership first, and order only where it carries meaning. */
  function ListDiff(path: string, was: seq<string>, now: seq<string>): seq<Line> {
    var lines := MembershipLines(path, was, now);
    if OrderMatters(path) && lines == [] then MoveLines(path, Moves(was, now, 0)) else lines
  }

  function DiffAt(show: Json -> string, before: Json, after: Json, path: string, key: string): seq<Line>
    requires before.Obj? && after.Obj?
    decreases before, 0
  {
    if key !in after.fields then [RemovedKey(Child(path, key))]
    else if key !in before.fields then [AddedKey(Child(path, key))]
    else Diff(show, before.fields[key], after.fields[key], Child(path, key))
  }

  function DiffKeys(show: Json -> string, before: Json, after: Json, path: string, keys: seq<string>): seq<Line>
    requires before.Obj? && after.Obj?
    decreases before, 1, keys
  {
    if keys == [] then []
    else DiffAt(show, before, after, path, keys[0]) + DiffKeys(show, before, after, path, keys[1..])
  }

  function Diff(show: Json -> string, before: Json, after: Json, path: string): seq<Line>
    decreases before, 2
  {
    if before.Obj? && after.Obj? then
      DiffKeys(show, before, after, path, Listed(before.fields.Keys + after.fields.Keys))
    else if before.List? && after.List? then
      ListDiff(path, MapSeq(show, before.items), MapSeq(show, after.items))
    else if before != after then [Changed(path, before, after)]
    else []
  }

  /** `diff`: recursion over the snapshot, extending a list of lines key by key. */
  method FindDifferences(show: Json -> string, before: Json, after: Json, path: string) returns (lines: seq<Line>)
    ensures lines == Diff(show, before, after, path)
    decreases before, 1
  {
    if before.Obj? && after.Obj? {
      lines := FindInFields(show, before, after, path);
    } else if before.List? && after.List? {
      lines := ListDiff(path, MapSeq(show, before.items), MapSeq(show, after.items));
    } else {
      lines := if before != after then [Changed(path, before, after)] else [];
    }
  }

  method FindInFields(show: Json -> string, before: Json, after: Json, path: string) returns (lines: seq<Line>)
    requires before.Obj? && after.Obj?
    ensures lines == DiffKeys(show, before, after, path, Listed(before.fields.Keys + after.fields.Keys))
    decreases before, 0
  {
    lines := [];
    var keys := Listed(before.fields.Keys + after.fields.Keys);
    ghost var all := DiffKeys(show, before, after, path, keys);
    assert keys[0..] == keys && [] + all == all;
    for i := 0 to |keys|
      invariant all == lines + DiffKeys(show, before, after, path, keys[i..])
    {
      var key := keys[i];
      var found;
      if key !in after.fields {
        found := [RemovedKey(Child(path, key))];
      } else if key !in before.fields {
        found := [AddedKey(Child(path, key))];
      } else {
        found := FindDifferences(show, before.fields[key], after.fields[key], Child(path, key));
      }
      assert found == DiffAt(show, before, after, path, key);
      NextKey(show, before, after, path, keys, i, lines, all);
      lines := lines + found;
    }
  }

  lemma NextKey(
    show: Json -> string, before: Json, after: Json, path: string, keys: seq<string>, i: nat,
    lines: seq<Line>, all: seq<Line>)
    requires before.Obj? && after.Obj? && i < |keys|
    requires all == lines + DiffKeys(show, before, after, path, keys[i..])
    ensures all
         == (lines + DiffAt(show, before, after, path, keys[i])) + DiffKeys(show, before, after, path, keys[i + 1..])
  {
    assert keys[i..][0] == keys[i] && keys[i..][1..] == keys[i + 1..];
  }

  // --- What an empty diff means ----------------------------------------------------

  /** Same position, same text, over the common length. */
  ghost predicate Aligned(was: seq<string>, now: seq<string>) {
    forall i | 0 <= i < |was| && i < |now| :: was[i] == now[i]
  }

  ghost predicate ListsAgree(was: seq<string>, now: seq<string>, ordered: bool) {
    Members(was) == Members(now) && (ordered ==> Aligned(was, now))
  }

  /** Two snapshots with the same keys at every level, equal leaves, and lists that agree
      in members and, on an ordered surface, in position. */
  ghost predicate Agree(show: Json -> string, before: Json, after: Json, path: string)
    decreases before
  {
    if before.Obj? && after.Obj? then
      && before.fields.Keys == after.fields.Keys
      && forall k | k in before.fields :: Agree(show, before.fields[k], after.fields[k], Child(path, k))
    else if before.List? && after.List? then
      ListsAgree(MapSeq(show, before.items), MapSeq(show, after.items), OrderMatters(path))
    else before == after
  }

  lemma {:induction false} MovesEmpty(was: seq<string>, now: seq<string>, i: nat)
    ensures Moves(was, now, i) == [] <==> Aligned(was, now)
  {
    if was != [] && now != [] {
      MovesEmpty(was[1..], now[1..], i + 1);
      assert Aligned(was, now) <==> was[0] == now[0] && Aligned(was[1..], now[1..]) by {
        if was[0] == now[0] && Aligned(was[1..], now[1..]) {
          forall j | 0 <= j < |was| && j < |now| ensures was[j] == now[j] {
            if j > 0 {
              assert was[1..][j - 1] == now[1..][j - 1];
            }
          }
        }
      }
    }
  }

  lemma MembershipEmpty(path: string, was: seq<string>, now: seq<string>)
    ensures MembershipLines(path, was, now) == [] <==> Members(was) == Members(now)
  {
    var gone, come := Members(was) - Members(now), Members(now) - Members(was);
    assert |MembershipLines(path, was, now)| == |gone| + |come|;
    assert gone == {} && come == {} <==> Members(was) == Members(now);
  }

  lemma ListDiffEmpty(path: string, was: seq<string>, now: seq<string>)
    ensures ListDiff(path, was, now) == [] <==> ListsAgree(was, now, OrderMatters(path))
  {
    MembershipEmpty(path, was, now);
    MovesEmpty(was, now, 0);
  }

  // --- What every line says ----------------------------------------------------------

  /** What lies below a value along a path of keys. */
  ghost function At(j: Json, keys: seq<string>): Option<Json>
    decreases |keys|
  {
    if keys == [] then Some(j)
    else if j.Obj? && keys[0] in j.fields then At(j.fields[keys[0]], keys[1..])
    else None
  }

  /** How the place at the end of a path of keys is written. */
  ghost function Named(path: string, keys: seq<string>): string
    decreases |keys|
  {
    if keys == [] then path else Named(Child(path, keys[0]), keys[1..])
  }

  /** At how many of the first `k` positions two lists differ. */
  ghost function DifferingBefore(was: seq<string>, now: seq<string>, k: nat): nat
    requires k <= |was| && k <= |now|
  {
    if k == 0 then 0 else DifferingBefore(was, now, k - 1) + if was[k - 1] != now[k - 1] then 1 else 0
  }

  ghost function Shared(was: seq<string>, now: seq<string>): (n: nat)
    ensures n <= |was| && n <= |now| && (n == |was| || n == |now|)
  {
    if |was| <= |now| then |was| else |now|
  }

  ghost function Differing(was: seq<string>, now: seq<string>): nat {
    DifferingBefore(was, now, Shared(was, now))
  }

  /** The lists hold the same members, on a surface whose order matters. */
  ghost predicate OrderOnly(was: seq<string>, now: seq<string>, path: string) {
    OrderMatters(path) && forall x :: x in was <==> x in now
  }

  /** A line about two lists: a member of one alone, or how many positions differ, the first
      five of them, and how many more. */
  ghost predicate SaysOfLists(line: Line, was: seq<string>, now: seq<string>, path: string) {
    match line
    case RemovedItem(at, item) => at == path && item in was && item !in now
    case AddedItem(at, item) => at == path && item !in was && item in now
    case Reordered(at, count) => at == path && OrderOnly(was, now, path) && count == Differing(was, now) > 0
    case Position(i, x, y) =>
      && OrderOnly(was, now, path) && i < |was| && i < |now|
      && x == was[i] != now[i] == y && DifferingBefore(was, now, i) < 5
    case MorePositions(count) => OrderOnly(was, now, path) && count + 5 == Differing(was, now) > 5
    case _ => false
  }

  /** A line about the two values at one place: a key of one alone, what two lists hold, or
      two values of which one is no object and one no list, and which differ. */
  ghost predicate Says(show: Json -> string, line: Line, before: Json, after: Json, path: string) {
    if before.Obj? && after.Obj? then
      || (exists k :: k in before.fields && k !in after.fields && line == RemovedKey(Child(path, k)))
      || (exists k :: k !in before.fields && k in after.fields && line == AddedKey(Child(path, k)))
    else if before.List? && after.List? then
      SaysOfLists(line, MapSeq(show, before.items), MapSeq(show, after.items), path)
    else before != after && line == Changed(path, before, after)
  }

  /** A line about some place that both snapshots have. */
  ghost predicate SaysAt(
    show: Json -> string, line: Line, before: Json, after: Json, path: string, keys: seq<string>)
  {
    && At(before, keys).Some? && At(after, keys).Some?
    && Says(show, line, At(before, keys).value, At(after, keys).value, Named(path, keys))
  }

  ghost predicate SaidSomewhere(show: Json -> string, line: Line, before: Json, after: Json, path: string) {
    exists keys :: SaysAt(show, line, before, after, path, keys)
  }

  lemma {:induction false} DifferingTail(was: seq<string>, now: seq<string>, k: nat)
    requires 0 < k <= |was| && k <= |now|
    ensures DifferingBefore(was, now, k)
         == (if was[0] != now[0] then 1 else 0) + DifferingBefore(was[1..], now[1..], k - 1)
  {
    if k > 1 {
      DifferingTail(was, now, k - 1);
    }
  }

  lemma {:induction false} DifferingGrows(was: seq<string>, now: seq<string>, j: nat, k: nat)
    requires j <= k <= |was| && k <= |now|
    ensures DifferingBefore(was, now, j) <= DifferingBefore(was, now, k)
  {
    if j < k {
      DifferingGrows(was, now, j, k - 1);
    }
  }

  /** There are as many moves as differing positions. */
  lemma {:induction false} MovesCount(was: seq<string>, now: seq<string>, i: nat)
    ensures |Moves(was, now, i)| == Differing(was, now)
  {
    if was != [] && now != [] {
      MovesCount(was[1..], now[1..], i + 1);
      DifferingTail(was, now, Shared(was, now));
    }
  }

  /** A differing position is listed behind those before it. */
  lemma {:induction false} MoveOf(was: seq<string>, now: seq<string>, i: nat, k: nat)
    requires k < |was| && k < |now| && was[k] != now[k]
    ensures
      var t := DifferingBefore(was, now, k);
      t < |Moves(was, now, i)| && Moves(was, now, i)[t] == Position(i + k, was[k], now[k])
  {
    if k > 0 {
      MoveOf(was[1..], now[1..], i + 1, k - 1);
      DifferingTail(was, now, k);
    }
  }

  /** And every move is a differing position. */
  lemma {:induction false} MoveIs(was: seq<string>, now: seq<string>, i: nat, t: nat) returns (k: nat)
    requires t < |Moves(was, now, i)|
    ensures k < |was| && k < |now| && was[k] != now[k] && DifferingBefore(was, now, k) == t
    ensures Moves(was, now, i)[t] == Position(i + k, was[k], now[k])
  {
    if was[0] != now[0] && t == 0 {
      k := 0;
    } else {
      var j := MoveIs(was[1..], now[1..], i + 1, if was[0] != now[0] then t - 1 else t);
      k := j + 1;
      DifferingTail(was, now, k);
    }
  }

  lemma FirstMoves(was: seq<string>, now: seq<string>, line: Line, moves: seq<Line>, n: nat)
    requires moves == Moves(was, now, 0) && n <= |moves|
    ensures line in moves[..n] <==>
      && line.Position? && line.index < |was| && line.index < |now|
      && line.was == was[line.index] != now[line.index] == line.now
      && DifferingBefore(was, now, line.index) < n
  {
    if line in moves[..n] {
      var t :| 0 <= t < n && moves[t] == line;
      var k := MoveIs(was, now, 0, t);
    }
    if line.Position? && line.index < |was| && line.index < |now| && was[line.index] != now[line.index] {
      MoveOf(was, now, 0, line.index);
    }
  }

  lemma MoveLinesSay(path: string, was: seq<string>, now: seq<string>, line: Line, moves: seq<Line>, count: nat)
    requires moves == Moves(was, now, 0) && count == Differing(was, now) && OrderOnly(was, now, path)
    ensures line in MoveLines(path, moves) <==> SaysOfLists(line, was, now, path)
  {
    MovesCount(was, now, 0);
    var n := if count > 5 then 5 else count;
    FirstMoves(was, now, line, moves, n);
    if line.Position? && line.index < |was| && line.index < |now| && was[line.index] != now[line.index] {
      DifferingGrows(was, now, line.index + 1, Shared(was, now));
    }
    assert moves[..count] == moves;
    if count > 5 {
      assert line in MoveLines(path, moves) <==>
        line == Reordered(path, count) || line in moves[..5] || line == MorePositions(count - 5);
    } else if count > 0 {
      assert line in MoveLines(path, moves) <==> line == Reordered(path, count) || line in moves[..n];
    }
  }

  lemma RemovalsSay(path: string, items: seq<string>, line: Line)
    ensures line in Removals(path, items) <==> line.RemovedItem? && line.path == path && line.item in items
    ensures line in Additions(path, items) <==> line.AddedItem? && line.path == path && line.item in items
  {
    if (line.RemovedItem? || line.AddedItem?) && line.path == path && line.item in items {
      var i :| 0 <= i < |items| && items[i] == line.item;
      assert Removals(path, items)[i] == RemovedItem(path, line.item);
      assert Additions(path, items)[i] == AddedItem(path, line.item);
    }
  }

  lemma MembershipSays(path: string, was: seq<string>, now: seq<string>, line: Line)
    ensures line in MembershipLines(path, was, now) <==>
      && (line.RemovedItem? || line.AddedItem?) && SaysOfLists(line, was, now, path)
  {
    var gone, come := Members(was) - Members(now), Members(now) - Members(was);
    RemovalsSay(path, Listed(gone), line);
    RemovalsSay(path, Listed(come), line);
    assert line in MembershipLines(path, was, now) <==>
      line in Removals(path, Listed(gone)) || line in Additions(path, Listed(come));
  }

  lemma ListDiffSays(path: string, was: seq<string>, now: seq<string>, line: Line)
    ensures line in ListDiff(path, was, now) <==> SaysOfLists(line, was, now, path)
  {
    MembershipSays(path, was, now, line);
    MembershipEmpty(path, was, now);
    if Members(was) == Members(now) {
      assert forall x :: x in was <==> x in Members(was);
      assert forall x :: x in now <==> x in Members(now);
      if OrderMatters(path) {
        MoveLinesSay(path, was, now, line, Moves(was, now, 0), Differing(was, now));
      }
    } else {
      assert exists x :: (x in Members(was)) != (x in Members(now));
    }
  }

  lemma {:induction false} InSomeKey(
    show: Json -> string, before: Json, after: Json, path: string, keys: seq<string>, line: Line)
    requires before.Obj? && after.Obj?
    ensures line in DiffKeys(show, before, after, path, keys) <==>
      exists k :: k in keys && line in DiffAt(show, before, after, path, k)
    decreases keys
  {
    if keys == [] {
      assert DiffKeys(show, before, after, path, keys) == [];
    } else {
      var rest := keys[1..];
      InSomeKey(show, before, after, path, rest, line);
      assert line in DiffKeys(show, before, after, path, keys) <==>
        line in DiffAt(show, before, after, path, keys[0]) || line in DiffKeys(show, before, after, path, rest);
      assert keys == [keys[0]] + rest;
      if k :| k in keys && line in DiffAt(show, before, after, path, k) {
        assert k == keys[0] || k in rest;
      }
      if k :| k in rest && line in DiffAt(show, before, after, path, k) {
        assert k in keys;
      }
      assert keys[0] in keys;
    }
  }

  /** The same about the places below one key. */
  ghost predicate SaysBelow(
    show: Json -> string, line: Line, before: Json, after: Json, path: string, k: string)
    requires before.Obj? && after.Obj?
  {
    && k in before.fields && k in after.fields
    && SaidSomewhere(show, line, before.fields[k], after.fields[k], Child(path, k))
  }

  /** A place is the top, or below one of the keys. */
  lemma PlacesOf(show: Json -> string, line: Line, before: Json, after: Json, path: string)
    ensures SaidSomewhere(show, line, before, after, path) <==>
      || Says(show, line, before, after, path)
      || (before.Obj? && after.Obj? && exists k :: SaysBelow(show, line, before, after, path, k))
  {
    if Says(show, line, before, after, path) {
      assert SaysAt(show, line, before, after, path, []);
    }
    if before.Obj? && after.Obj? && exists k :: SaysBelow(show, line, before, after, path, k) {
      var k :| SaysBelow(show, line, before, after, path, k);
      var keys :| SaysAt(show, line, before.fields[k], after.fields[k], Child(path, k), keys);
      SaysUnder(show, line, before, after, path, k, keys);
    }
    if SaidSomewhere(show, line, before, after, path) {
      var keys :| SaysAt(show, line, before, after, path, keys);
      PlaceIsBelow(show, line, before, after, path, keys);
    }
  }

  lemma PlaceIsBelow(
    show: Json -> string, line: Line, before: Json, after: Json, path: string, keys: seq<string>)
    requires SaysAt(show, line, before, after, path, keys)
    ensures
      || Says(show, line, before, after, path)
      || (before.Obj? && after.Obj? && exists k :: SaysBelow(show, line, before, after, path, k))
  {
    if keys != [] {
      assert keys == [keys[0]] + keys[1..] && before.Obj? && after.Obj?;
      SaysUnder(show, line, before, after, path, keys[0], keys[1..]);
      assert SaysBelow(show, line, before, after, path, keys[0]);
    }
  }

  lemma SaysUnder(
    show: Json -> string, line: Line, before: Json, after: Json, path: string, k: string, keys: seq<string>)
    requires before.Obj? && after.Obj? && k in before.fields && k in after.fields
    ensures SaysAt(show, line, before, after, path, [k] + keys) <==>
      SaysAt(show, line, before.fields[k], after.fields[k], Child(path, k), keys)
  {
    var all := [k] + keys;
    assert all[0] == k && all[1..] == keys;
  }

  lemma TopKey(show: Json -> string, before: Json, after: Json, path: string, line: Line, k: string)
    requires before.Obj? && after.Obj? && k in before.fields.Keys + after.fields.Keys
    requires k in before.fields && k in after.fields ==>
      (line in Diff(show, before.fields[k], after.fields[k], Child(path, k)) <==>
       SaysBelow(show, line, before, after, path, k))
    ensures line in DiffAt(show, before, after, path, k) <==>
      || (k !in after.fields && line == RemovedKey(Child(path, k)))
      || (k !in before.fields && line == AddedKey(Child(path, k)))
      || SaysBelow(show, line, before, after, path, k)
  {
  }

  /** What the keys of two objects report. */
  lemma ObjectsSay(show: Json -> string, before: Json, after: Json, path: string, line: Line, all: seq<string>)
    requires before.Obj? && after.Obj? && forall k :: k in all <==> k in before.fields.Keys + after.fields.Keys
    requires forall k | k in all && k in before.fields && k in after.fields ::
      line in Diff(show, before.fields[k], after.fields[k], Child(path, k)) <==>
      SaysBelow(show, line, before, after, path, k)
    ensures line in DiffKeys(show, before, after, path, all) <==>
      Says(show, line, before, after, path) || exists k :: SaysBelow(show, line, before, after, path, k)
  {
    InSomeKey(show, before, after, path, all, line);
    forall k | k in all
      ensures line in DiffAt(show, before, after, path, k) <==>
        || (k !in after.fields && line == RemovedKey(Child(path, k)))
        || (k !in before.fields && line == AddedKey(Child(path, k)))
        || SaysBelow(show, line, before, after, path, k)
    {
      TopKey(show, before, after, path, line, k);
    }
  }

  /** The whole diff, line by line: a line is in it exactly when it is about some place that
      both snapshots have. */
  lemma {:induction false} DiffSays(show: Json -> string, before: Json, after: Json, path: string, line: Line)
    ensures line in Diff(show, before, after, path) <==> SaidSomewhere(show, line, before, after, path)
    decreases before
  {
    PlacesOf(show, line, before, after, path);
    if before.Obj? && after.Obj? {
      var all := Listed(before.fields.Keys + after.fields.Keys);
      forall k | k in all && k in before.fields && k in after.fields
        ensures line in Diff(show, before.fields[k], after.fields[k], Child(path, k)) <==>
          SaysBelow(show, line, before, after, path, k)
      {
        DiffSays(show, before.fields[k], after.fields[k], Child(path, k), line);
      }
      ObjectsSay(show, before, after, path, line, all);
    } else if before.List? && after.List? {
      ListDiffSays(path, MapSeq(show, before.items), MapSeq(show, after.items), line);
    }
  }

  lemma {:induction false} NamedBelow(path: string, keys: seq<string>)
    requires path != "" && keys != []
    ensures Named(path, keys) == path + ("." + Join(keys, '.'))
    decreases |keys|
  {
    var sub := path + "." + keys[0];
    if |keys| == 1 {
      assert keys[1..] == [] && Join(keys, '.') == keys[0];
      assert sub == path + ("." + keys[0]);
    } else {
      NamedBelow(sub, keys[1..]);
      assert sub + ("." + Join(keys[1..], '.')) == path + ("." + (keys[0] + (['.'] + Join(keys[1..], '.'))));
    }
  }

  /** A place in a snapshot is written as its keys, with dots between them. */
  lemma PlacesAreDotted(keys: seq<string>)
    requires keys != [] && keys[0] != ""
    ensures Named("", keys) == Join(keys, '.')
  {
    if |keys| == 1 {
      assert keys[1..] == [];
    } else {
      NamedBelow(keys[0], keys[1..]);
    }
  }

  // --- Which surfaces are ordered ----------------------------------------------------

  lemma {:induction false} FirstPiece(s: string, c: char)
    ensures Split(s, c)[0] <= s && Without(Split(s, c)[0], c)
    ensures |Split(s, c)[0]| < |s| ==> s[|Split(s, c)[0]|] == c
  {
    if s != [] && s[0] != c {
      FirstPiece(s[1..], c);
    }
  }

  /** The root of a path is its first `n` characters exactly when neither mark is among them
      and one of them, or the end, follows. */
  lemma RootEnds(path: string, head: string, root: string, n: nat)
    requires head <= path && Without(head, '.') && (|head| < |path| ==> path[|head|] == '.')
    requires root <= head && Without(root, '[') && (|root| < |head| ==> head[|root|] == '[')
    ensures |root| == n <==>
      && n <= |path| && (forall i | 0 <= i < n :: path[i] != '.' && path[i] != '[')
      && (|path| == n || path[n] == '.' || path[n] == '[')
  {
    assert forall i | 0 <= i < |root| :: path[i] == root[i] == head[i];
    if n <= |path| && (forall i | 0 <= i < n :: path[i] != '.' && path[i] != '[') {
      assert |head| >= n;
      assert forall i | 0 <= i < |head| :: path[i] == head[i];
    }
  }

  /** Order is compared in the rule list and in whatever lies below it, and nowhere else. */
  lemma OrderMattersExactly(path: string)
    ensures OrderMatters(path) <==>
      "kyber_rules" <= path && (|path| == 11 || path[11] == '.' || path[11] == '[')
  {
    var name := "kyber_rules";
    var head := Split(path, '.')[0];
    FirstPiece(path, '.');
    FirstPiece(head, '[');
    var root := Split(head, '[')[0];
    RootEnds(path, head, root, 11);
    if OrderMatters(path) {
      assert root == name && |name| == 11;
    }
    if name <= path && (|path| == 11 || path[11] == '.' || path[11] == '[') {
      assert path[..11] == name;
      assert forall i | 0 <= i < 11 :: name[i] != '.' && name[i] != '[';
      assert root == path[..11];
    }
  }

  // --- What an empty diff means, over whole snapshots -----------------------------------

  /** The diff is empty exactly when the snapshots agree. */
  lemma {:induction false} DiffEmptyIff(show: Json -> string, before: Json, after: Json, path: string)
    ensures Diff(show, before, after, path) == [] <==> Agree(show, before, after, path)
    decreases before, 1
  {
    if before.Obj? && after.Obj? {
      var all := before.fields.Keys + after.fields.Keys;
      DiffKeysEmpty(show, before, after, path, Listed(all));
      AllKeysAgree(show, before, after, path, Listed(all));
    } else if before.List? && after.List? {
      ListDiffEmpty(path, MapSeq(show, before.items), MapSeq(show, after.items));
    }
  }

  ghost predicate KeyAgrees(show: Json -> string, before: Json, after: Json, path: string, k: string)
    requires before.Obj? && after.Obj?
  {
    k in before.fields && k in after.fields && Agree(show, before.fields[k], after.fields[k], Child(path, k))
  }

  lemma AllKeysAgree(show: Json -> string, before: Json, after: Json, path: string, keys: seq<string>)
    requires before.Obj? && after.Obj? && forall k :: k in keys <==> k in before.fields.Keys + after.fields.Keys
    ensures Agree(show, before, after, path) <==> forall k | k in keys :: KeyAgrees(show, before, after, path, k)
  {
    if forall k | k in keys :: KeyAgrees(show, before, after, path, k) {
      forall k ensures k in before.fields <==> k in after.fields {
        assert k in before.fields || k in after.fields ==> k in keys;
      }
      assert before.fields.Keys == after.fields.Keys;
      forall k | k in before.fields ensures Agree(show, before.fields[k], after.fields[k], Child(path, k)) {
        assert KeyAgrees(show, before, after, path, k);
      }
    }
  }

  lemma {:induction false} DiffKeysEmpty(
    show: Json -> string, before: Json, after: Json, path: string, keys: seq<string>)
    requires before.Obj? && after.Obj?
    requires forall i | 0 <= i < |keys| :: keys[i] in before.fields.Keys + after.fields.Keys
    ensures DiffKeys(show, before, after, path, keys) == [] <==>
            forall k | k in keys :: KeyAgrees(show, before, after, path, k)
    decreases before, 0, keys
  {
    if keys != [] {
      var k := keys[0];
      DiffKeysEmpty(show, before, after, path, keys[1..]);
      if k in before.fields && k in after.fields {
        DiffEmptyIff(show, before.fields[k], after.fields[k], Child(path, k));
      }
      assert DiffAt(show, before, after, path, k) == [] <==> KeyAgrees(show, before, after, path, k);
      assert forall x :: x in keys <==> x == k || x in keys[1..];
    }
  }

  // --- Lists without duplicates ----------------------------------------------------

  ghost predicate DuplicateFree(s: seq<string>) {
    forall i, j | 0 <= i < j < |s| :: s[i] != s[j]
  }

  /** The content a list is supposed to have in common: the sequence where order is
      behaviour, and otherwise the multiset. */
  ghost predicate SameContent(was: seq<string>, now: seq<string>, ordered: bool) {
    if ordered then was == now else multiset(was) == multiset(now)
  }

  lemma {:induction false} DistinctMultiset(s: seq<string>, x: string)
    requires DuplicateFree(s)
    ensures multiset(s)[x] == if x in s then 1 else 0
  {
    if s != [] {
      DistinctMultiset(s[1..], x);
      HeadMultiset(s);
      assert s[0] !in s[1..];
      assert x in s <==> x == s[0] || x in s[1..];
    }
  }

  lemma DistinctMembers(was: seq<string>, now: seq<string>)
    requires DuplicateFree(was) && DuplicateFree(now)
    ensures Members(was) == Members(now) <==> multiset(was) == multiset(now)
  {
    if Members(was) == Members(now) {
      forall x ensures multiset(was)[x] == multiset(now)[x] {
        DistinctMultiset(was, x);
        DistinctMultiset(now, x);
        assert x in was <==> x in Members(was);
        assert x in now <==> x in Members(now);
      }
    }
    if multiset(was) == multiset(now) {
      forall x ensures x in Members(was) <==> x in Members(now) {
        assert x in was <==> x in multiset(was);
        assert x in now <==> x in multiset(now);
      }
    }
  }

  /** Without duplicates a list agrees exactly when its content is the same. */
  lemma DistinctListsExact(was: seq<string>, now: seq<string>, ordered: bool)
    requires DuplicateFree(was) && DuplicateFree(now)
    ensures ListsAgree(was, now, ordered) <==> SameContent(was, now, ordered)
  {
    DistinctMembers(was, now);
    if ListsAgree(was, now, ordered) {
      assert |was| == |multiset(was)| == |multiset(now)| == |now|;
    }
  }

  ghost predicate AllDistinct(show: Json -> string, j: Json)
    decreases j
  {
    match j
    case Leaf(_, _) => true
    case List(items) => DuplicateFree(MapSeq(show, items))
    case Obj(fields) => forall k | k in fields :: AllDistinct(show, fields[k])
  }

  /** Same keys, leaves and list contents at every level. */
  ghost predicate Same(show: Json -> string, before: Json, after: Json, path: string)
    decreases before
  {
    if before.Obj? && after.Obj? then
      && before.fields.Keys == after.fields.Keys
      && forall k | k in before.fields :: Same(show, before.fields[k], after.fields[k], Child(path, k))
    else if before.List? && after.List? then
      SameContent(MapSeq(show, before.items), MapSeq(show, after.items), OrderMatters(path))
    else before == after
  }

  /** On snapshots whose lists hold no duplicates, the diff is empty exactly when the
      snapshots are the same. */
  lemma {:induction false} DiffExact(show: Json -> string, before: Json, after: Json, path: string)
    requires AllDistinct(show, before) && AllDistinct(show, after)
    ensures Diff(show, before, after, path) == [] <==> Same(show, before, after, path)
  {
    DiffEmptyIff(show, before, after, path);
    AgreeIsSame(show, before, after, path);
  }

  lemma {:induction false} AgreeIsSame(show: Json -> string, before: Json, after: Json, path: string)
    requires AllDistinct(show, before) && AllDistinct(show, after)
    ensures Agree(show, before, after, path) <==> Same(show, before, after, path)
    decreases before
  {
    if before.Obj? && after.Obj? {
      if before.fields.Keys == after.fields.Keys {
        forall k | k in before.fields
          ensures Agree(show, before.fields[k], after.fields[k], Child(path, k))
             <==> Same(show, before.fields[k], after.fields[k], Child(path, k))
        {
          assert k in after.fields;
          AgreeIsSame(show, before.fields[k], after.fields[k], Child(path, k));
        }
      }
    } else if before.List? && after.List? {
      DistinctListsExact(MapSeq(show, before.items), MapSeq(show, after.items), OrderMatters(path));
    }
  }

  /** A list without the repetitions of its elements. */
  function Dedupe(s: seq<string>): (r: seq<string>)
    ensures forall x :: x in r <==> x in s
    ensures |r| <= |s|
  {
    if s == [] then []
    else if s[0] in s[1..] then Dedupe(s[1..])
    else [s[0]] + Dedupe(s[1..])
  }

  lemma {:induction false} DedupeDistinct(s: seq<string>)
    ensures DuplicateFree(Dedupe(s))
    ensures !DuplicateFree(s) ==> |Dedupe(s)| < |s|
  {
    if s != [] {
      DedupeDistinct(s[1..]);
      if s[0] !in s[1..] {
        var r := Dedupe(s[1..]);
        assert s[0] !in r;
        assert !DuplicateFree(s) ==> !DuplicateFree(s[1..]) by {
          if DuplicateFree(s[1..]) {
            forall i, j | 0 <= i < j < |s| ensures s[i] != s[j] {
              if i > 0 {
                assert s[1..][i - 1] != s[1..][j - 1];
              }
            }
          }
        }
      }
    }
  }

  /** Membership is compared as a set, so on a surface without order the condition is exact:
      against lists without duplicates, an empty diff proves equal multisets if and only if
      the list has no duplicates either. */
  lemma ExactIffDuplicateFree(path: string, was: seq<string>)
    requires !OrderMatters(path)
    ensures DuplicateFree(was) <==>
            forall now | DuplicateFree(now) && ListDiff(path, was, now) == [] :: multiset(was) == multiset(now)
  {
    if DuplicateFree(was) {
      forall now | DuplicateFree(now) && ListDiff(path, was, now) == [] ensures multiset(was) == multiset(now) {
        ListDiffEmpty(path, was, now);
        DistinctMembers(was, now);
      }
    } else {
      var now := Dedupe(was);
      DedupeDistinct(was);
      ListDiffEmpty(path, was, now);
      assert Members(was) == Members(now);
      assert |multiset(was)| == |was| && |multiset(now)| == |now|;
    }
  }

  /** On an ordered surface an empty diff means that one list is the other with some of its
      members repeated at the end. */
  lemma OrderedDiffExactly(path: string, was: seq<string>, now: seq<string>)
    requires OrderMatters(path)
    ensures ListDiff(path, was, now) == [] <==> Members(was) == Members(now) && (was <= now || now <= was)
  {
    ListDiffEmpty(path, was, now);
    AlignedIsPrefix(was, now);
  }

  lemma AlignedIsPrefix(was: seq<string>, now: seq<string>)
    ensures Aligned(was, now) <==> was <= now || now <= was
  {
    if Aligned(was, now) {
      if |was| <= |now| {
        assert was == now[..|was|];
      } else {
        assert now == was[..|now|];
      }
    }
  }

  /** All its members once, and then repetitions. */
  ghost predicate RepeatsAtEnd(s: seq<string>) {
    |Members(s)| < |s| && DuplicateFree(s[..|Members(s)|])
  }

  lemma {:induction false} MembersCount(s: seq<string>)
    ensures |Members(s)| <= |s|
    ensures DuplicateFree(s) <==> |Members(s)| == |s|
  {
    if s == [] {
      assert Members(s) == {};
    } else {
      MembersCount(s[1..]);
      assert Members(s) == {s[0]} + Members(s[1..]);
      if s[0] in s[1..] {
        assert Members(s) == Members(s[1..]);
        var j :| 0 <= j < |s[1..]| && s[1..][j] == s[0];
        assert s[j + 1] == s[0];
      } else {
        assert s[0] !in Members(s[1..]);
        DistinctTail(s);
      }
    }
  }

  lemma DistinctTail(s: seq<string>)
    requires s != [] && s[0] !in s[1..]
    ensures DuplicateFree(s) <==> DuplicateFree(s[1..])
  {
    if DuplicateFree(s[1..]) {
      forall i, j | 0 <= i < j < |s| ensures s[i] != s[j] {
        assert s[j] == s[1..][j - 1];
        if i > 0 {
          assert s[i] == s[1..][i - 1];
        }
      }
    }
  }

  /** A front without duplicates that is as long as the list has members has them all. */
  lemma FrontHasAll(s: seq<string>, k: nat)
    requires k <= |s| && DuplicateFree(s[..k]) && k == |Members(s)|
    ensures Members(s[..k]) == Members(s)
  {
    MembersCount(s[..k]);
    assert Members(s[..k]) <= Members(s);
    SubsetOfSize(Members(s[..k]), Members(s));
  }

  lemma SubsetOfSize(a: set<string>, b: set<string>)
    requires a <= b && |a| == |b|
    ensures a == b
  {
    assert |b - a| == |b| - |a|;
  }

  /** So on an ordered surface, against lists without duplicates, an empty diff proves the
      lists equal exactly when the list is not its members followed by repetitions. */
  lemma OrderedExactIff(path: string, was: seq<string>)
    requires OrderMatters(path)
    ensures !RepeatsAtEnd(was) <==>
            forall now | DuplicateFree(now) && ListDiff(path, was, now) == [] :: was == now
  {
    MembersCount(was);
    var k := |Members(was)|;
    if RepeatsAtEnd(was) {
      FrontHasAll(was, k);
      OrderedDiffExactly(path, was, was[..k]);
      assert was[..k] <= was && was[..k] != was;
    } else {
      forall now | DuplicateFree(now) && ListDiff(path, was, now) == [] ensures was == now {
        OrderedDiffExactly(path, was, now);
        MembersCount(now);
        assert |now| == k;
        assert now <= was ==> now == was[..k];
      }
    }
  }

  // --- Swapping the snapshots ------------------------------------------------------

  /** A line with removed and added, before and after, exchanged. */
  function Flip(line: Line): Line {
    match line
    case RemovedItem(p, x) => AddedItem(p, x)
    case AddedItem(p, x) => RemovedItem(p, x)
    case RemovedKey(p) => AddedKey(p)
    case AddedKey(p) => RemovedKey(p)
    case Changed(p, b, a) => Changed(p, a, b)
    case Position(i, w, n) => Position(i, n, w)
    case Reordered(_, _) => line
    case MorePositions(_) => line
  }

  lemma FlipConcat(a: seq<Line>, b: seq<Line>)
    ensures MapSeq(Flip, a + b) == MapSeq(Flip, a) + MapSeq(Flip, b)
  {
  }

  lemma {:induction false} MovesFlip(was: seq<string>, now: seq<string>, i: nat)
    ensures Moves(now, was, i) == MapSeq(Flip, Moves(was, now, i))
  {
    if was != [] && now != [] {
      MovesFlip(was[1..], now[1..], i + 1);
      FlipConcat(if was[0] == now[0] then [] else [Position(i, was[0], now[0])], Moves(was[1..], now[1..], i + 1));
    }
  }

  lemma MoveLinesFlip(path: string, moved: seq<Line>)
    ensures MoveLines(path, MapSeq(Flip, moved)) == MapSeq(Flip, MoveLines(path, moved))
  {
    if |moved| > 5 {
      assert MapSeq(Flip, moved)[..5] == MapSeq(Flip, moved[..5]);
    }
  }

  lemma MembershipFlip(path: string, was: seq<string>, now: seq<string>)
    ensures multiset(MembershipLines(path, now, was)) == multiset(MapSeq(Flip, MembershipLines(path, was, now)))
  {
    var gone, come := Listed(Members(was) - Members(now)), Listed(Members(now) - Members(was));
    TurnedLines(path, gone, come);
  }

  lemma TurnedLines(path: string, gone: seq<string>, come: seq<string>)
    ensures multiset(Removals(path, come) + Additions(path, gone))
         == multiset(MapSeq(Flip, Removals(path, gone) + Additions(path, come)))
  {
    FlipConcat(Removals(path, gone), Additions(path, come));
    assert MapSeq(Flip, Removals(path, gone)) == Additions(path, gone);
    assert MapSeq(Flip, Additions(path, come)) == Removals(path, come);
    Commuted(Removals(path, come), Additions(path, gone));
  }

  lemma ListDiffFlip(path: string, was: seq<string>, now: seq<string>)
    ensures multiset(ListDiff(path, now, was)) == multiset(MapSeq(Flip, ListDiff(path, was, now)))
  {
    MembershipFlip(path, was, now);
    MembershipEmpty(path, was, now);
    MembershipEmpty(path, now, was);
    if OrderMatters(path) && Members(was) == Members(now) {
      MovesFlip(was, now, 0);
      MoveLinesFlip(path, Moves(was, now, 0));
    }
  }

  /** Swapping the snapshots exchanges the added and removed lines, and the two sides of
      every other line, and reports nothing more and nothing less. */
  lemma {:induction false} DiffFlips(show: Json -> string, before: Json, after: Json, path: string)
    ensures multiset(Diff(show, after, before, path)) == multiset(MapSeq(Flip, Diff(show, before, after, path)))
    decreases before, 3
  {
    if before.Obj? && after.Obj? {
      ObjectsFlip(show, before, after, path);
    } else if before.List? && after.List? {
      ListDiffFlip(path, MapSeq(show, before.items), MapSeq(show, after.items));
    }
  }

  lemma {:induction false} ObjectsFlip(show: Json -> string, before: Json, after: Json, path: string)
    requires before.Obj? && after.Obj?
    ensures multiset(Diff(show, after, before, path)) == multiset(MapSeq(Flip, Diff(show, before, after, path)))
    decreases before, 2
  {
    assert after.fields.Keys + before.fields.Keys == before.fields.Keys + after.fields.Keys;
    KeysFlip(show, before, after, path, Listed(before.fields.Keys + after.fields.Keys));
  }

  lemma {:induction false} AtFlip(show: Json -> string, before: Json, after: Json, path: string, k: string)
    requires before.Obj? && after.Obj? && (k in before.fields || k in after.fields)
    ensures multiset(DiffAt(show, after, before, path, k))
         == multiset(MapSeq(Flip, DiffAt(show, before, after, path, k)))
    decreases before, 0
  {
    if k in before.fields && k in after.fields {
      DiffFlips(show, before.fields[k], after.fields[k], Child(path, k));
    }
  }

  lemma JoinedFlip(a: seq<Line>, b: seq<Line>, fa: seq<Line>, fb: seq<Line>)
    requires multiset(fa) == multiset(MapSeq(Flip, a)) && multiset(fb) == multiset(MapSeq(Flip, b))
    ensures multiset(fa + fb) == multiset(MapSeq(Flip, a + b))
  {
    FlipConcat(a, b);
  }

  lemma Commuted(a: seq<Line>, b: seq<Line>)
    ensures multiset(a + b) == multiset(b + a)
  {
  }

  lemma {:induction false} KeysFlip(show: Json -> string, before: Json, after: Json, path: string, keys: seq<string>)
    requires before.Obj? && after.Obj?
    requires forall i | 0 <= i < |keys| :: keys[i] in before.fields.Keys + after.fields.Keys
    ensures multiset(DiffKeys(show, after, before, path, keys))
         == multiset(MapSeq(Flip, DiffKeys(show, before, after, path, keys)))
    decreases before, 1, keys
  {
    if keys != [] {
      var k := keys[0];
      assert k in before.fields || k in after.fields;
      KeysFlip(show, before, after, path, keys[1..]);
      AtFlip(show, before, after, path, k);
      JoinedFlip(DiffAt(show, before, after, path, k), DiffKeys(show, before, after, path, keys[1..]),
                 DiffAt(show, after, before, path, k), DiffKeys(show, after, before, path, keys[1..]));
    }
  }

  // --- The gate --------------------------------------------------------------------

  /** The surfaces that failed to capture. */
  function Broken(snapshot: Json): set<string> {
    match snapshot
    case Obj(fields) => set k | k in fields && fields[k].Obj? && "error" in fields[k].fields
    case Leaf(_, _) => {}
    case List(_) => {}
  }

  /** `capture`: a surface that raises is recorded as its error. */
  function Recorded(outcome: Result<Json>): Json {
    match outcome
    case Ok(v) => v
    case Err(e) => Obj(map["error" := Leaf(e, 0)])
  }

  function Capture(tree: map<string, Result<Json>>): Json {
    Obj(map k | k in tree :: Recorded(tree[k]))
  }

  /** `--diff`: the exit code. */
  method CompareSnapshots(show: Json -> string, baseline: Json, current: Json) returns (code: int)
    ensures code == 0 || code == 1
    ensures code == 0 <==> Broken(current) == {} && Broken(baseline) == {} && Agree(show, baseline, current, "")
  {
    DiffEmptyIff(show, baseline, current, "");
    if Broken(current) != {} || Broken(baseline) != {} {
      return 1;
    }
    var lines := FindDifferences(show, baseline, current, "");
    return if lines == [] then 0 else 1;
  }

  /** The gate on two trees. */
  ghost predicate Passes(show: Json -> string, was: map<string, Result<Json>>, now: map<string, Result<Json>>) {
    var baseline, current := Capture(was), Capture(now);
    Broken(current) == {} && Broken(baseline) == {} && Agree(show, baseline, current, "")
  }

  /** A tree passes against another only if every surface of both was captured, and each
      agrees: two failures never compare equal. */
  lemma {:induction false} PassingProvesSurfaces(
    show: Json -> string, was: map<string, Result<Json>>, now: map<string, Result<Json>>)
    requires Passes(show, was, now)
    ensures was.Keys == now.Keys
    ensures forall k | k in was :: was[k].Ok? && now[k].Ok? && Agree(show, was[k].value, now[k].value, k)
  {
    var baseline, current := Capture(was), Capture(now);
    assert baseline.fields.Keys == was.Keys && current.fields.Keys == now.Keys;
    forall k | k in was ensures was[k].Ok? && now[k].Ok? && Agree(show, was[k].value, now[k].value, k) {
      assert k !in Broken(baseline) && k !in Broken(current);
      CapturedOk(was, k);
      CapturedOk(now, k);
      assert Child("", k) == k;
    }
  }

  lemma CapturedOk(tree: map<string, Result<Json>>, k: string)
    requires k in tree && k !in Broken(Capture(tree))
    ensures tree[k].Ok? && Capture(tree).fields[k] == tree[k].value
  {
    assert Capture(tree).fields[k] == Recorded(tree[k]);
  }

  /** The compiled engine of a tree: its entry points with their signatures, and the reason
      it cannot be loaded, if it cannot. */
  datatype Native = Native(entries: map<string, string>, failure: Option<string>)

  function Unavailable(reason: string): Json {
    Obj(map["unavailable" := Leaf(reason, 0)])
  }

  function Signatures(entries: map<string, string>): Json {
    Obj(map k | k in entries :: Leaf(entries[k], 0))
  }

  /** `_native_ffi`: an engine that does not load is a value of its own, and not an error. */
  function NativeFfi(engine: Native): Json {
    match engine.failure
    case Some(reason) => Unavailable(reason)
    case None => Signatures(engine.entries)
  }

  ghost predicate IsUnavailable(value: Json) {
    exists reason :: value == Unavailable(reason)
  }

  /** A tree with the given engine captured under its own surface. */
  function WithEngine(tree: map<string, Result<Json>>, engine: Native): map<string, Result<Json>> {
    tree["native_ffi" := Ok(NativeFfi(engine))]
  }

  /** An entry point of the name reads as a failed surface. */
  predicate NamesError(engine: Native) {
    "error" in NativeFfi(engine).fields
  }

  /** Given two trees that pass without it, adding the engine keeps them passing exactly when
      neither has an entry point named `error`, which would read as a failure to capture, and
      the two values agree. */
  lemma WithEnginePasses(
    show: Json -> string, was: map<string, Result<Json>>, now: map<string, Result<Json>>, a: Native, b: Native)
    requires Passes(show, was, now) && "native_ffi" !in was
    ensures Passes(show, WithEngine(was, a), WithEngine(now, b)) <==>
            !NamesError(a) && !NamesError(b) && Agree(show, NativeFfi(a), NativeFfi(b), "native_ffi")
  {
    OtherSurface(was, a, "native_ffi");
    OtherSurface(now, b, "native_ffi");
    if NamesError(a) {
      assert "native_ffi" in Broken(Capture(WithEngine(was, a)));
    } else if NamesError(b) {
      assert "native_ffi" in Broken(Capture(WithEngine(now, b)));
    } else {
      NamedEnginePasses(show, was, now, a, b);
    }
  }

  lemma NamedEnginePasses(
    show: Json -> string, was: map<string, Result<Json>>, now: map<string, Result<Json>>, a: Native, b: Native)
    requires Passes(show, was, now) && "native_ffi" !in was && !NamesError(a) && !NamesError(b)
    ensures Passes(show, WithEngine(was, a), WithEngine(now, b)) <==>
            Agree(show, NativeFfi(a), NativeFfi(b), "native_ffi")
  {
    var t, u := WithEngine(was, a), WithEngine(now, b);
    PassingProvesSurfaces(show, was, now);
    EngineNotBroken(was, a);
    EngineNotBroken(now, b);
    assert Capture(t).fields.Keys == Capture(u).fields.Keys;
    assert Child("", "native_ffi") == "native_ffi";
    if Agree(show, NativeFfi(a), NativeFfi(b), "native_ffi") {
      forall k | k in Capture(t).fields
        ensures Agree(show, Capture(t).fields[k], Capture(u).fields[k], Child("", k))
      {
        OtherSurface(was, a, k);
        OtherSurface(now, b, k);
        assert Child("", k) == k;
      }
    } else {
      OtherSurface(was, a, "native_ffi");
      OtherSurface(now, b, "native_ffi");
    }
  }

  lemma OtherSurface(tree: map<string, Result<Json>>, engine: Native, k: string)
    requires k in WithEngine(tree, engine)
    ensures k == "native_ffi" ==> Capture(WithEngine(tree, engine)).fields[k] == NativeFfi(engine)
    ensures k != "native_ffi" ==> k in tree && Capture(WithEngine(tree, engine)).fields[k] == Recorded(tree[k])
  {
  }

  lemma EngineNotBroken(tree: map<string, Result<Json>>, engine: Native)
    requires Broken(Capture(tree)) == {} && "error" !in NativeFfi(engine).fields
    ensures Broken(Capture(WithEngine(tree, engine))) == {}
  {
    var t := WithEngine(tree, engine);
    forall k | k in t ensures k !in Broken(Capture(t)) {
      if k != "native_ffi" {
        assert k in tree && k !in Broken(Capture(tree));
      }
    }
  }

  /** Two trees whose engines do not load for one and the same reason pass whatever their
      entry points are, provided everything else does; for different reasons they do not. */
  lemma UnbuiltEnginePasses(
    show: Json -> string, was: map<string, Result<Json>>, now: map<string, Result<Json>>, a: Native, b: Native)
    requires Passes(show, was, now) && "native_ffi" !in was && a.failure.Some? && b.failure.Some?
    ensures Passes(show, WithEngine(was, a), WithEngine(now, b)) <==> a.failure == b.failure
  {
    WithEnginePasses(show, was, now, a, b);
    ReasonsAgree(show, a.failure.value, b.failure.value, "native_ffi");
  }

  lemma ReasonsAgree(show: Json -> string, a: string, b: string, path: string)
    ensures Agree(show, Unavailable(a), Unavailable(b), path) <==> a == b
  {
    var x, y := Unavailable(a), Unavailable(b);
    assert "unavailable" in x.fields && x.fields.Keys == y.fields.Keys;
    if Agree(show, x, y, path) {
      assert Agree(show, x.fields["unavailable"], y.fields["unavailable"], Child(path, "unavailable"));
    }
    if a == b {
      AgreeSelf(show, x, path);
    }
  }

  lemma LeavesAgree(show: Json -> string, a: map<string, string>, b: map<string, string>, path: string)
    ensures Agree(show, Signatures(a), Signatures(b), path) <==> a == b
  {
    var x, y := Signatures(a), Signatures(b);
    if Agree(show, x, y, path) {
      assert x.fields.Keys == a.Keys && y.fields.Keys == b.Keys;
      forall k | k in a ensures k in b && a[k] == b[k] {
        assert Agree(show, x.fields[k], y.fields[k], Child(path, k));
      }
    }
    if a == b {
      AgreeSelf(show, x, path);
    }
  }

  /** Any two engines behind the two recorded values have the same entry points. */
  ghost predicate ProvesEntries(x: Json, y: Json) {
    forall a: Native, b: Native | NativeFfi(a) == x && NativeFfi(b) == y :: a.entries == b.entries
  }

  /** A pass proves the entry points of the two engines equal if and only if neither
      recorded value is the object an unbuilt engine leaves. */
  lemma PassProvesEntriesExactly(show: Json -> string, a: Native, b: Native)
    requires Agree(show, NativeFfi(a), NativeFfi(b), "native_ffi")
    ensures ProvesEntries(NativeFfi(a), NativeFfi(b)) <==>
            !IsUnavailable(NativeFfi(a)) && !IsUnavailable(NativeFfi(b))
  {
    var x, y := NativeFfi(a), NativeFfi(b);
    if !IsUnavailable(x) && !IsUnavailable(y) {
      forall c: Native, d: Native | NativeFfi(c) == x && NativeFfi(d) == y ensures c.entries == d.entries {
        assert c.failure.None? && d.failure.None?;
        LeavesAgree(show, c.entries, d.entries, "native_ffi");
      }
    } else if IsUnavailable(x) {
      var reason :| x == Unavailable(reason);
      HiddenEntries(x, y, reason, b, true);
    } else {
      var reason :| y == Unavailable(reason);
      HiddenEntries(x, y, reason, a, false);
    }
  }

  /** Behind an unavailable value there may be any entry points. */
  lemma HiddenEntries(x: Json, y: Json, reason: string, other: Native, first: bool)
    requires if first then x == Unavailable(reason) && NativeFfi(other) == y
             else y == Unavailable(reason) && NativeFfi(other) == x
    ensures !ProvesEntries(x, y)
  {
    var one := Native(map["f" := "()"], Some(reason));
    var two := Native(map["g" := "()"], Some(reason));
    assert "f" in one.entries && "f" !in two.entries;
    if first {
      assert one.entries != other.entries || two.entries != other.entries;
      assert NativeFfi(one) == x && NativeFfi(two) == x;
    } else {
      assert NativeFfi(one) == y && NativeFfi(two) == y;
    }
  }

  lemma {:induction false} AgreeSelf(show: Json -> string, j: Json, path: string)
    ensures Agree(show, j, j, path)
    decreases j
  {
    if j.Obj? {
      forall k | k in j.fields ensures Agree(show, j.fields[k], j.fields[k], Child(path, k)) {
        AgreeSelf(show, j.fields[k], Child(path, k));
      }
    }
  }
}
