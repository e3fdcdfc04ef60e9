/** Datatypes and sequence facts used across the model. */
module Common {

  datatype Option<+T> = None | Some(value: T)

  /** A value, or the exception the source raises instead. */
  datatype Result<+T> = Ok(value: T) | Err(reason: string)

  function Flatten<T>(parts: seq<seq<T>>): (r: seq<T>)
  {
    if parts == [] then [] else parts[0] + Flatten(parts[1..])
  }

  lemma {:induction false} FlattenSnoc<T>(parts: seq<seq<T>>, last: seq<T>)
    ensures Flatten(parts + [last]) == Flatten(parts) + last
  {
    if parts == [] {
      assert [] + [last] == [last];
      assert Flatten([last]) == last + Flatten([]);
    } else {
      assert (parts + [last])[1..] == parts[1..] + [last];
      FlattenSnoc(parts[1..], last);
    }
  }

  lemma {:induction false} FlattenConcat<T>(a: seq<seq<T>>, b: seq<seq<T>>)
    ensures Flatten(a + b) == Flatten(a) + Flatten(b)
  {
    if a == [] {
      assert [] + b == b;
    } else {
      assert (a + b)[1..] == a[1..] + b;
      FlattenConcat(a[1..], b);
    }
  }

  function SumReal(s: seq<real>): real {
    if s == [] then 0.0 else s[0] + SumReal(s[1..])
  }

  function MapSeq<A, B>(f: A -> B, s: seq<A>): (r: seq<B>)
    ensures |r| == |s|
    ensures forall i | 0 <= i < |s| :: r[i] == f(s[i])
  {
    if s == [] then [] else [f(s[0])] + MapSeq(f, s[1..])
  }

  function RemoveAt<T>(s: seq<T>, j: nat): (r: seq<T>)
    requires j < |s|
    ensures |r| == |s| - 1
    ensures forall i | 0 <= i < |r| :: r[i] == if i < j then s[i] else s[i + 1]
  {
    s[..j] + s[j + 1..]
  }

  lemma RemoveAtMultiset<T>(s: seq<T>, j: nat)
    requires j < |s|
    ensures multiset(s) == multiset{s[j]} + multiset(RemoveAt(s, j))
  {
    assert s == s[..j] + [s[j]] + s[j + 1..];
  }

  /** Picks the occurrence of `x` that a permutation argument removes. */
  lemma Locate<T>(s: seq<T>, x: T) returns (j: nat)
    requires x in multiset(s)
    ensures j < |s| && s[j] == x
    ensures multiset(RemoveAt(s, j)) == multiset(s) - multiset{x}
  {
    assert x in s;
    j :| 0 <= j < |s| && s[j] == x;
    RemoveAtMultiset(s, j);
  }

  lemma HeadMultiset<T>(s: seq<T>)
    requires s != []
    ensures multiset(s) == multiset{s[0]} + multiset(s[1..])
  {
    assert s == [s[0]] + s[1..];
  }

  lemma MapRemoveAt<A, B>(f: A -> B, s: seq<A>, j: nat)
    requires j < |s|
    ensures multiset(MapSeq(f, s)) == multiset{f(s[j])} + multiset(MapSeq(f, RemoveAt(s, j)))
  {
    RemoveAtMultiset(MapSeq(f, s), j);
    MapOfRemoved(f, s, j);
  }

  lemma MapOfRemoved<A, B>(f: A -> B, s: seq<A>, j: nat)
    requires j < |s|
    ensures MapSeq(f, RemoveAt(s, j)) == RemoveAt(MapSeq(f, s), j)
  {
  }

  /** Mapping a permuted sequence permutes the image. */
  lemma {:induction false} MapPermuted<A, B>(f: A -> B, a: seq<A>, b: seq<A>)
    requires multiset(a) == multiset(b)
    ensures multiset(MapSeq(f, a)) == multiset(MapSeq(f, b))
  {
    if a == [] {
      assert |multiset(b)| == 0;
      assert b == [];
    } else {
      HeadMultiset(a);
      assert a[0] in multiset(b);
      var j := Locate(b, a[0]);
      MapPermuted(f, a[1..], RemoveAt(b, j));
      MapRemoveAt(f, b, j);
      HeadMultiset(MapSeq(f, a));
      assert MapSeq(f, a)[1..] == MapSeq(f, a[1..]);
    }
  }

  /** The weights of the elements added up. */
  ghost function Total<T>(weight: T -> real, s: seq<T>): real {
    if s == [] then 0.0 else weight(s[0]) + Total(weight, s[1..])
  }

  lemma {:induction false} TotalRemove<T>(weight: T -> real, s: seq<T>, j: nat)
    requires j < |s|
    ensures Total(weight, s) == weight(s[j]) + Total(weight, RemoveAt(s, j))
  {
    if j == 0 {
      assert RemoveAt(s, 0) == s[1..];
    } else {
      TotalRemove(weight, s[1..], j - 1);
      assert RemoveAt(s, j)[1..] == RemoveAt(s[1..], j - 1);
    }
  }

  /** Adding up in another order gives the same total. */
  lemma {:induction false} TotalPermuted<T>(weight: T -> real, a: seq<T>, b: seq<T>)
    requires multiset(a) == multiset(b)
    ensures Total(weight, a) == Total(weight, b) && |a| == |b|
  {
    assert |a| == |multiset(a)| == |multiset(b)| == |b|;
    if a != [] {
      HeadMultiset(a);
      assert a[0] in multiset(b);
      var j := Locate(b, a[0]);
      TotalPermuted(weight, a[1..], RemoveAt(b, j));
      TotalRemove(weight, b, j);
    }
  }

  /** `range(n)`. */
  function Upto(n: nat): (r: seq<nat>)
    ensures |r| == n && forall i | 0 <= i < n :: r[i] == i
  {
    if n == 0 then [] else Upto(n - 1) + [n - 1]
  }

  /** `order` lists 0 to `n - 1`, each once. */
  ghost predicate IsOrder(order: seq<nat>, n: nat) {
    multiset(order) == multiset(Upto(n))
  }

  /** The elements of `s` in the given order. */
  function Arranged<T>(s: seq<T>, order: seq<nat>, missing: T): (r: seq<T>)
    ensures |r| == |order|
  {
    MapSeq((i: nat) => if i < |s| then s[i] else missing, order)
  }

  /** Arranging in another order permutes. */
  lemma ArrangedPermutes<T>(s: seq<T>, order: seq<nat>, missing: T)
    requires IsOrder(order, |s|)
    ensures multiset(Arranged(s, order, missing)) == multiset(s) && |order| == |s|
  {
    var at := (i: nat) => if i < |s| then s[i] else missing;
    MapPermuted(at, order, Upto(|s|));
    assert MapSeq(at, Upto(|s|)) == s;
    assert |order| == |multiset(order)| == |multiset(Upto(|s|))| == |s|;
  }

  /** Every element of `a` stands in `b` at the place `order` gives. */
  ghost predicate StandsAt<T>(a: seq<T>, b: seq<T>, order: seq<nat>) {
    && |order| == |a|
    && forall k | 0 <= k < |a| :: order[k] < |b| && a[k] == b[order[k]]
  }

  /** The places of a sequence without its `j`-th element, in the whole sequence. */
  function Past(j: nat): nat -> nat {
    (i: nat) => if i < j then i else i + 1
  }

  /** A permutation has an order. */
  lemma {:induction false} OrderOf<T>(a: seq<T>, b: seq<T>) returns (order: seq<nat>)
    requires multiset(a) == multiset(b)
    ensures IsOrder(order, |b|) && StandsAt(a, b, order) && |a| == |b|
  {
    assert |a| == |multiset(a)| == |multiset(b)| == |b|;
    if a == [] {
      order := Upto(0);
    } else {
      var j := FirstIn(a, b);
      var rest := OrderOf(a[1..], RemoveAt(b, j));
      order := OrderExtended(a, b, j, rest);
    }
  }

  lemma FirstIn<T>(a: seq<T>, b: seq<T>) returns (j: nat)
    requires a != [] && multiset(a) == multiset(b)
    ensures j < |b| && b[j] == a[0] && multiset(a[1..]) == multiset(RemoveAt(b, j))
  {
    HeadMultiset(a);
    assert a[0] in multiset(b);
    j := Locate(b, a[0]);
  }

  lemma OrderExtended<T>(a: seq<T>, b: seq<T>, j: nat, rest: seq<nat>) returns (order: seq<nat>)
    requires a != [] && j < |b| && b[j] == a[0]
    requires IsOrder(rest, |b| - 1) && StandsAt(a[1..], RemoveAt(b, j), rest)
    ensures IsOrder(order, |b|) && StandsAt(a, b, order)
  {
    order := [j] + MapSeq(Past(j), rest);
    OrderGrows(rest, j, |b| - 1);
    PlacesGrow(a, b, j, rest);
  }

  lemma PlacesGrow<T>(a: seq<T>, b: seq<T>, j: nat, rest: seq<nat>)
    requires a != [] && j < |b| && b[j] == a[0] && StandsAt(a[1..], RemoveAt(b, j), rest)
    ensures StandsAt(a, b, [j] + MapSeq(Past(j), rest))
  {
    var order := [j] + MapSeq(Past(j), rest);
    forall k | 0 < k < |a| ensures order[k] < |b| && a[k] == b[order[k]] {
      assert a[k] == a[1..][k - 1] == RemoveAt(b, j)[rest[k - 1]];
      assert order[k] == Past(j)(rest[k - 1]);
    }
  }

  lemma OrderGrows(rest: seq<nat>, j: nat, n: nat)
    requires IsOrder(rest, n) && j <= n
    ensures IsOrder([j] + MapSeq(Past(j), rest), n + 1)
  {
    MapPermuted(Past(j), rest, Upto(n));
    PastAll(j, n);
    RemoveAtMultiset(Upto(n + 1), j);
  }

  lemma PastAll(j: nat, n: nat)
    requires j <= n
    ensures MapSeq(Past(j), Upto(n)) == RemoveAt(Upto(n + 1), j)
  {
  }

  /** Whatever is found at the places of an order is a permutation. */
  lemma OrderPermutes<T>(s: seq<T>, order: seq<nat>, r: seq<T>)
    requires IsOrder(order, |s|) && StandsAt(r, s, order)
    ensures multiset(r) == multiset(s)
  {
    if s == [] {
      assert |order| == |multiset(order)| == 0;
    } else {
      ArrangedPermutes(s, order, s[0]);
      assert r == Arranged(s, order, s[0]);
    }
  }

  /** A set can be listed, each member once. */
  lemma {:induction false} Listing<T>(s: set<T>) returns (order: seq<T>)
    ensures forall i, j | 0 <= i < j < |order| :: order[i] != order[j]
    ensures forall x :: x in order <==> x in s
    decreases |s|
  {
    if s == {} {
      order := [];
    } else {
      var x :| x in s;
      var rest := Listing(s - {x});
      order := [x] + rest;
      forall i, j | 0 <= i < j < |order| ensures order[i] != order[j] {
        assert order[j] == rest[j - 1] && rest[j - 1] in rest;
      }
    }
  }

  // --- Files of rows ---------------------------------------------------------------

  /** `-(-n // k)`: rows a file when `n` rows go into at most `k` files. */
  function Ceiling(n: nat, k: nat): nat
    requires k > 0
  {
    (n + k - 1) / k
  }

  lemma CeilingCovers(n: nat, k: nat, per: nat)
    requires k > 0 && per == Ceiling(n, k)
    ensures k * per >= n && (n > 0 ==> per > 0)
  {
    assert (n + k - 1) == k * per + (n + k - 1) % k;
  }

  /** Every file but the last has `per` rows, and the last has at least one and no more. */
  ghost predicate EvenFiles<T>(files: seq<seq<T>>, per: nat) {
    && (forall i | 0 <= i < |files| :: 0 < |files[i]| <= per)
    && (forall i | 0 <= i < |files| - 1 :: |files[i]| == per)
  }

  lemma AppendFile<T>(files: seq<seq<T>>, rows: seq<T>, lo: nat, hi: nat)
    requires lo <= hi <= |rows| && Flatten(files) == rows[..lo]
    ensures Flatten(files + [rows[lo..hi]]) == rows[..hi]
  {
    FlattenSnoc(files, rows[lo..hi]);
    assert rows[..lo] + rows[lo..hi] == rows[..hi];
  }

  /** Appending to full files keeps the files even. */
  lemma AppendEven<T>(files: seq<seq<T>>, file: seq<T>, per: nat)
    requires (forall i | 0 <= i < |files| :: |files[i]| == per) && 0 < |file| <= per
    ensures EvenFiles(files + [file], per)
  {
  }
}
