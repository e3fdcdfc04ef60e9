/** Stable sorting of sequences under a caller-supplied order, shared by every
    component that calls Python's `sorted`: percentiles, fingerprints, result
    gates and surface diffs.
 */
module Sorting {

  ghost predicate TotalPreorder<T(!new)>(le: (T, T) -> bool) {
    && (forall a, b :: le(a, b) || le(b, a))
    && (forall a, b, c :: le(a, b) && le(b, c) ==> le(a, c))
  }

  ghost predicate Antisymmetric<T(!new)>(le: (T, T) -> bool) {
    forall a, b :: le(a, b) && le(b, a) ==> a == b
  }

  ghost predicate Ordered<T(!new)>(le: (T, T) -> bool, s: seq<T>) {
    forall i, j | 0 <= i < j < |s| :: le(s[i], s[j])
  }

  /** Puts `x` in front of the first element it does not exceed. */
  function Insert<T(!new)>(le: (T, T) -> bool, x: T, s: seq<T>): (r: seq<T>)
    ensures |r| == |s| + 1
  {
    if s == [] || le(x, s[0]) then [x] + s else [s[0]] + Insert(le, x, s[1..])
  }

  /** Python's `sorted`: elements that compare equal keep their input order, because
      an earlier element is inserted last and in front of its equals. */
  function Sort<T(!new)>(le: (T, T) -> bool, s: seq<T>): (r: seq<T>)
    ensures |r| == |s|
  {
    if s == [] then [] else Insert(le, s[0], Sort(le, s[1..]))
  }

  lemma {:induction false} InsertMultiset<T(!new)>(le: (T, T) -> bool, x: T, s: seq<T>)
    ensures multiset(Insert(le, x, s)) == multiset{x} + multiset(s)
  {
    if s == [] || le(x, s[0]) {
    } else {
      InsertMultiset(le, x, s[1..]);
      assert s == [s[0]] + s[1..];
    }
  }

  lemma {:induction false} SortMultiset<T(!new)>(le: (T, T) -> bool, s: seq<T>)
    ensures multiset(Sort(le, s)) == multiset(s)
  {
    if s != [] {
      SortMultiset(le, s[1..]);
      InsertMultiset(le, s[0], Sort(le, s[1..]));
      assert s == [s[0]] + s[1..];
    }
  }

  lemma {:induction false} InsertMember<T(!new)>(le: (T, T) -> bool, x: T, s: seq<T>, y: T)
    requires y in Insert(le, x, s)
    ensures y == x || y in s
  {
    InsertMultiset(le, x, s);
    assert y in multiset(Insert(le, x, s));
  }

  lemma {:induction false} InsertOrdered<T(!new)>(le: (T, T) -> bool, x: T, s: seq<T>)
    requires TotalPreorder(le) && Ordered(le, s)
    ensures Ordered(le, Insert(le, x, s))
  {
    if s == [] {
    } else if le(x, s[0]) {
      var r := [x] + s;
      forall i, j | 0 <= i < j < |r| ensures le(r[i], r[j]) {
        assert le(x, s[j - 1]);
      }
    } else {
      InsertOrdered(le, x, s[1..]);
      var tail := Insert(le, x, s[1..]);
      var r := [s[0]] + tail;
      forall i, j | 0 <= i < j < |r| ensures le(r[i], r[j]) {
        if i == 0 {
          InsertMember(le, x, s[1..], tail[j - 1]);
        } else {
          assert r[i] == tail[i - 1] && r[j] == tail[j - 1];
        }
      }
    }
  }

  lemma {:induction false} SortOrdered<T(!new)>(le: (T, T) -> bool, s: seq<T>)
    requires TotalPreorder(le)
    ensures Ordered(le, Sort(le, s))
  {
    if s != [] {
      SortOrdered(le, s[1..]);
      InsertOrdered(le, s[0], Sort(le, s[1..]));
    }
  }

  /** Sorting an ordered sequence changes nothing. */
  lemma {:induction false} SortFixpoint<T(!new)>(le: (T, T) -> bool, s: seq<T>)
    requires TotalPreorder(le) && Ordered(le, s)
    ensures Sort(le, s) == s
  {
    if s != [] {
      SortFixpoint(le, s[1..]);
      assert s == [s[0]] + s[1..];
      assert |s| > 1 ==> le(s[0], s[1]);
    }
  }

  lemma HeadIsLeast<T(!new)>(le: (T, T) -> bool, s: seq<T>, y: T)
    requires TotalPreorder(le) && Ordered(le, s)
    requires y in s
    ensures le(s[0], y)
  {
    var j :| 0 <= j < |s| && s[j] == y;
    assert le(y, y);
  }

  lemma LastIsGreatest<T(!new)>(le: (T, T) -> bool, s: seq<T>, y: T)
    requires TotalPreorder(le) && Ordered(le, s)
    requires y in s
    ensures le(y, s[|s| - 1])
  {
    var j :| 0 <= j < |s| && s[j] == y;
    assert le(y, y);
  }

  lemma SortMember<T(!new)>(le: (T, T) -> bool, s: seq<T>, x: T)
    ensures x in Sort(le, s) <==> x in s
  {
    SortMultiset(le, s);
    assert x in Sort(le, s) <==> x in multiset(Sort(le, s));
    assert x in s <==> x in multiset(s);
  }

  /** Under an antisymmetric order the ordered arrangement of a multiset is unique. */
  lemma {:induction false} OrderedUnique<T(!new)>(le: (T, T) -> bool, s: seq<T>, t: seq<T>)
    requires TotalPreorder(le) && Antisymmetric(le)
    requires Ordered(le, s) && Ordered(le, t) && multiset(s) == multiset(t)
    ensures s == t
  {
    assert |s| == |multiset(s)| == |multiset(t)| == |t|;
    if s != [] {
      assert s[0] == t[0] by {
        assert s[0] in multiset(t) && t[0] in multiset(s);
        HeadIsLeast(le, s, t[0]);
        HeadIsLeast(le, t, s[0]);
      }
      TailMultiset(s);
      TailMultiset(t);
      OrderedUnique(le, s[1..], t[1..]);
      assert s == [s[0]] + s[1..] && t == [t[0]] + t[1..];
    }
  }

  lemma TailMultiset<T>(s: seq<T>)
    requires s != []
    ensures multiset(s[1..]) == multiset(s) - multiset{s[0]}
  {
    assert s == [s[0]] + s[1..];
  }

  /** Hence sorting forgets the input order and nothing else. */
  lemma SortCanonical<T(!new)>(le: (T, T) -> bool, s: seq<T>, t: seq<T>)
    requires TotalPreorder(le) && Antisymmetric(le)
    ensures Sort(le, s) == Sort(le, t) <==> multiset(s) == multiset(t)
  {
    SortMultiset(le, s);
    SortMultiset(le, t);
    if multiset(s) == multiset(t) {
      SortOrdered(le, s);
      SortOrdered(le, t);
      OrderedUnique(le, Sort(le, s), Sort(le, t));
    }
  }

  // --- Lexicographic orders --------------------------------------------------------

  /** Lexicographic comparison of sequences whose elements are ordered by `le`. */
  predicate LexLe<T(==,!new)>(le: (T, T) -> bool, a: seq<T>, b: seq<T>) {
    if a == [] then true
    else if b == [] then false
    else if a[0] == b[0] then LexLe(le, a[1..], b[1..])
    else le(a[0], b[0])
  }

  lemma {:induction false} LexTotal<T(!new)>(le: (T, T) -> bool, a: seq<T>, b: seq<T>)
    requires TotalPreorder(le)
    ensures LexLe(le, a, b) || LexLe(le, b, a)
  {
    if a != [] && b != [] && a[0] == b[0] {
      LexTotal(le, a[1..], b[1..]);
    }
  }

  lemma {:induction false} LexTransitive<T(!new)>(le: (T, T) -> bool, a: seq<T>, b: seq<T>, c: seq<T>)
    requires TotalPreorder(le) && Antisymmetric(le)
    requires LexLe(le, a, b) && LexLe(le, b, c)
    ensures LexLe(le, a, c)
  {
    if a != [] && a[0] == b[0] && b[0] == c[0] {
      LexTransitive(le, a[1..], b[1..], c[1..]);
    }
  }

  lemma {:induction false} LexAntisymmetric<T(!new)>(le: (T, T) -> bool, a: seq<T>, b: seq<T>)
    requires TotalPreorder(le) && Antisymmetric(le)
    requires LexLe(le, a, b) && LexLe(le, b, a)
    ensures a == b
  {
    if a != [] && b != [] {
      LexAntisymmetric(le, a[1..], b[1..]);
      assert a == [a[0]] + a[1..] && b == [b[0]] + b[1..];
    }
  }

  predicate CharLe(a: char, b: char) {
    a <= b
  }

  /** Python's `<=` on strings. */
  predicate StringLe(a: string, b: string) {
    LexLe(CharLe, a, b)
  }

  lemma StringOrder()
    ensures TotalPreorder(StringLe) && Antisymmetric(StringLe)
  {
    forall a, b ensures StringLe(a, b) || StringLe(b, a) {
      LexTotal(CharLe, a, b);
    }
    forall a, b, c | StringLe(a, b) && StringLe(b, c) ensures StringLe(a, c) {
      LexTransitive(CharLe, a, b, c);
    }
    forall a, b | StringLe(a, b) && StringLe(b, a) ensures a == b {
      LexAntisymmetric(CharLe, a, b);
    }
  }

  /** Python's `<=` on tuples of strings. */
  predicate TupleLe(a: seq<string>, b: seq<string>) {
    LexLe(StringLe, a, b)
  }

  lemma TupleOrder()
    ensures TotalPreorder(TupleLe) && Antisymmetric(TupleLe)
  {
    StringOrder();
    forall a, b ensures TupleLe(a, b) || TupleLe(b, a) {
      LexTotal(StringLe, a, b);
    }
    forall a, b, c | TupleLe(a, b) && TupleLe(b, c) ensures TupleLe(a, c) {
      LexTransitive(StringLe, a, b, c);
    }
    forall a, b | TupleLe(a, b) && TupleLe(b, a) ensures a == b {
      LexAntisymmetric(StringLe, a, b);
    }
  }
}
