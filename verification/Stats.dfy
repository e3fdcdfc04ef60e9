/** Latency statistics of the concurrency benchmark: interpolated percentiles, the
    steady-state window, and the sweep point they are folded into.
 */
module Stats {
  import opened Common
  import opened Sorting

  predicate RealLe(a: real, b: real) {
    a <= b
  }

  lemma RealOrder()
    ensures TotalPreorder(RealLe) && Antisymmetric(RealLe)
  {
  }

  // --- Percentiles -----------------------------------------------------------------

  /** Linear interpolation between the two order statistics around position `q`. */
  function Interpolate(ordered: seq<real>, q: real): (r: real)
    requires |ordered| > 0 && 0.0 <= q <= 100.0
  {
    if |ordered| == 1 then ordered[0]
    else
      var pos := Position(|ordered|, q);
      var low := pos.Floor;
      var high := if low + 1 < |ordered| - 1 then low + 1 else |ordered| - 1;
      var frac := pos - low as real;
      ordered[low] * (1.0 - frac) + ordered[high] * frac
  }

  function Position(n: nat, q: real): (pos: real)
    requires n > 0 && 0.0 <= q <= 100.0
    ensures 0.0 <= pos <= (n - 1) as real
  {
    Fraction((n - 1) as real, q / 100.0)
  }

  function Fraction(x: real, f: real): (r: real)
    requires 0.0 <= x && 0.0 <= f <= 1.0
    ensures 0.0 <= r <= x
  {
    assert x - x * f == x * (1.0 - f);
    x * f
  }

  /** `percentile`: an empty sample is an error. */
  function Percentile(values: seq<real>, q: real): (r: Result<real>)
    requires 0.0 <= q <= 100.0
    ensures r.Err? <==> values == []
  {
    if values == [] then Err("percentile of an empty sample")
    else Ok(Interpolate(Sort(RealLe, values), q))
  }

  /** `b` is at least `a`, sample by sample. */
  ghost predicate Dominated(a: seq<real>, b: seq<real>) {
    |a| == |b| && forall i | 0 <= i < |a| :: a[i] <= b[i]
  }

  lemma NotNegative(x: real, y: real)
    requires 0.0 <= x && 0.0 <= y
    ensures 0.0 <= x * y
  {
  }

  lemma LerpMonotone(a: real, b: real, a': real, b': real, f: real)
    requires a <= a' && b <= b' && 0.0 <= f <= 1.0
    ensures a * (1.0 - f) + b * f <= a' * (1.0 - f) + b' * f
  {
    NotNegative(a' - a, 1.0 - f);
    NotNegative(b' - b, f);
    assert (a' - a) * (1.0 - f) == a' * (1.0 - f) - a * (1.0 - f);
    assert (b' - b) * f == b' * f - b * f;
  }

  lemma LerpBetween(a: real, b: real, f: real)
    requires a <= b && 0.0 <= f <= 1.0
    ensures a <= a * (1.0 - f) + b * f <= b
  {
    NotNegative(b - a, f);
    NotNegative(b - a, 1.0 - f);
    assert a * (1.0 - f) + b * f == a + (b - a) * f;
    assert a * (1.0 - f) + b * f == b - (b - a) * (1.0 - f);
  }

  lemma LerpGrows(a: real, b: real, f: real, g: real)
    requires a <= b && 0.0 <= f <= g
    ensures a * (1.0 - f) + b * f <= a * (1.0 - g) + b * g
  {
    NotNegative(b - a, g - f);
    assert a * (1.0 - g) + b * g == a * (1.0 - f) + b * f + (b - a) * (g - f);
  }

  lemma DominatedCons(x: real, y: real, s: seq<real>, t: seq<real>)
    requires x <= y && Dominated(s, t)
    ensures Dominated([x] + s, [y] + t)
  {
  }

  lemma DominatedTail(s: seq<real>, t: seq<real>)
    requires Dominated(s, t) && s != [] && Ordered(RealLe, s) && Ordered(RealLe, t)
    ensures s[0] <= t[0] && Dominated(s[1..], t[1..]) && Ordered(RealLe, s[1..]) && Ordered(RealLe, t[1..])
    ensures s == [s[0]] + s[1..] && t == [t[0]] + t[1..]
  {
  }

  /** The head of an ordered sample goes back in front of its tail. */
  lemma InsertHead(s: seq<real>)
    requires s != [] && Ordered(RealLe, s)
    ensures Insert(RealLe, s[0], s[1..]) == s
  {
    assert |s| > 1 ==> RealLe(s[0], s[1]);
    assert s == [s[0]] + s[1..];
  }

  /** Inserting into dominated ordered samples keeps every order statistic dominated. */
  lemma {:induction false} InsertDominated(x: real, y: real, s: seq<real>, t: seq<real>)
    requires x <= y && Dominated(s, t) && Ordered(RealLe, s) && Ordered(RealLe, t)
    ensures Dominated(Insert(RealLe, x, s), Insert(RealLe, y, t))
    decreases |s|
  {
    if s != [] {
      DominatedTail(s, t);
      InsertCases(x, s);
      InsertCases(y, t);
      if x <= s[0] {
        if y <= t[0] {
          DominatedCons(x, y, s, t);
        } else {
          InsertHead(s);
          InsertDominated(s[0], y, s[1..], t[1..]);
          DominatedCons(x, t[0], s, Insert(RealLe, y, t[1..]));
        }
      } else if y <= t[0] {
        InsertHead(t);
        InsertDominated(x, t[0], s[1..], t[1..]);
        DominatedCons(s[0], y, Insert(RealLe, x, s[1..]), t);
      } else {
        InsertDominated(x, y, s[1..], t[1..]);
        DominatedCons(s[0], t[0], Insert(RealLe, x, s[1..]), Insert(RealLe, y, t[1..]));
      }
    }
  }

  lemma InsertCases(x: real, s: seq<real>)
    requires s != []
    ensures x <= s[0] ==> Insert(RealLe, x, s) == [x] + s
    ensures x > s[0] ==> Insert(RealLe, x, s) == [s[0]] + Insert(RealLe, x, s[1..])
  {
  }

  /** Order statistics are monotone: the k-th smallest of a dominating sample dominates
      the k-th smallest of the other, whatever order the samples arrived in. */
  lemma {:induction false} SortDominated(a: seq<real>, b: seq<real>)
    requires Dominated(a, b)
    ensures Dominated(Sort(RealLe, a), Sort(RealLe, b))
  {
    if a != [] {
      SortDominated(a[1..], b[1..]);
      RealOrder();
      SortOrdered(RealLe, a[1..]);
      SortOrdered(RealLe, b[1..]);
      InsertDominated(a[0], b[0], Sort(RealLe, a[1..]), Sort(RealLe, b[1..]));
    }
  }

  /** No percentile of a slower sample is smaller. */
  lemma PercentileMonotone(a: seq<real>, b: seq<real>, q: real)
    requires Dominated(a, b) && a != [] && 0.0 <= q <= 100.0
    ensures Percentile(a, q).value <= Percentile(b, q).value
  {
    SortDominated(a, b);
    var s, t := Sort(RealLe, a), Sort(RealLe, b);
    if |s| > 1 {
      var pos := Position(|s|, q);
      var low := pos.Floor;
      var high := if low + 1 < |s| - 1 then low + 1 else |s| - 1;
      LerpMonotone(s[low], s[high], t[low], t[high], pos - low as real);
    }
  }

  /** A percentile does not depend on the order the samples were recorded in. */
  lemma PercentileOrderFree(a: seq<real>, b: seq<real>, q: real)
    requires multiset(a) == multiset(b) && 0.0 <= q <= 100.0
    ensures Percentile(a, q) == Percentile(b, q)
  {
    RealOrder();
    SortCanonical(RealLe, a, b);
    assert |a| == |multiset(a)| == |b|;
  }

  /** Percentiles grow with `q`. */
  lemma PercentileGrows(values: seq<real>, q: real, q': real)
    requires values != [] && 0.0 <= q <= q' <= 100.0
    ensures Percentile(values, q).value <= Percentile(values, q').value
  {
    RealOrder();
    SortOrdered(RealLe, values);
    InterpolateInQ(Sort(RealLe, values), q, q');
  }

  lemma InterpolateInQ(s: seq<real>, q: real, q': real)
    requires s != [] && Ordered(RealLe, s) && 0.0 <= q <= q' <= 100.0
    ensures Interpolate(s, q) <= Interpolate(s, q')
  {
    if |s| > 1 {
      PositionGrows(|s|, q, q');
      InterpolateGrows(s, Position(|s|, q), Position(|s|, q'));
    }
  }

  lemma PositionGrows(n: nat, q: real, q': real)
    requires n > 0 && 0.0 <= q <= q' <= 100.0
    ensures Position(n, q) <= Position(n, q')
  {
    var x, f, g := (n - 1) as real, q / 100.0, q' / 100.0;
    assert f <= g;
    NotNegative(x, g - f);
    assert x * (g - f) == x * g - x * f;
  }

  lemma InterpolateGrows(s: seq<real>, pos: real, pos': real)
    requires |s| > 1 && Ordered(RealLe, s)
    requires 0.0 <= pos <= pos' <= (|s| - 1) as real
    ensures At(s, pos) <= At(s, pos')
  {
    var low, low' := pos.Floor, pos'.Floor;
    AtBetween(s, pos);
    AtBetween(s, pos');
    if low == low' {
      LerpGrows(s[low], s[Next(s, low)], pos - low as real, pos' - low as real);
    } else {
      assert Next(s, low) <= low';
      assert Next(s, low) == low' || RealLe(s[Next(s, low)], s[low']);
    }
  }

  lemma AtBetween(s: seq<real>, pos: real)
    requires |s| > 1 && Ordered(RealLe, s)
    requires 0.0 <= pos <= (|s| - 1) as real
    ensures s[pos.Floor] <= s[Next(s, pos.Floor)]
    ensures s[pos.Floor] <= At(s, pos) <= s[Next(s, pos.Floor)]
  {
    var low := pos.Floor;
    assert low == Next(s, low) || RealLe(s[low], s[Next(s, low)]);
    LerpBetween(s[low], s[Next(s, low)], pos - low as real);
  }

  ghost function Next(s: seq<real>, low: nat): nat
    requires low < |s|
    ensures Next(s, low) < |s|
  {
    if low + 1 < |s| - 1 then low + 1 else |s| - 1
  }

  ghost function At(s: seq<real>, pos: real): real
    requires |s| > 1 && 0.0 <= pos <= (|s| - 1) as real
  {
    var low := pos.Floor;
    var frac := pos - low as real;
    s[low] * (1.0 - frac) + s[Next(s, low)] * frac
  }

  function MaxOf(s: seq<real>): (m: real)
    requires s != []
    ensures m in s && forall x | x in s :: x <= m
  {
    if |s| == 1 then s[0]
    else
      var rest := MaxOf(s[1..]);
      assert s == [s[0]] + s[1..];
      if rest < s[0] then s[0] else rest
  }

  function MinOf(s: seq<real>): (m: real)
    requires s != []
    ensures m in s && forall x | x in s :: m <= x
  {
    if |s| == 1 then s[0]
    else
      var rest := MinOf(s[1..]);
      assert s == [s[0]] + s[1..];
      if s[0] < rest then s[0] else rest
  }

  lemma MaxDominated(a: seq<real>, b: seq<real>)
    requires Dominated(a, b) && a != []
    ensures MaxOf(a) <= MaxOf(b)
  {
    var i :| 0 <= i < |a| && a[i] == MaxOf(a);
    assert b[i] in b;
  }

  /** The ends of the sorted sample are its smallest and largest member. */
  lemma SortedEnds(values: seq<real>)
    requires values != []
    ensures Sort(RealLe, values)[0] == MinOf(values)
    ensures Sort(RealLe, values)[|values| - 1] == MaxOf(values)
  {
    var s := Sort(RealLe, values);
    forall x ensures x in s <==> x in values {
      SortMember(RealLe, values, x);
    }
    assert s[0] in s && s[|s| - 1] in s;
    RealOrder();
    SortOrdered(RealLe, values);
    HeadIsLeast(RealLe, s, MinOf(values));
    LastIsGreatest(RealLe, s, MaxOf(values));
  }

  lemma InterpolateEnds(s: seq<real>)
    requires s != []
    ensures Interpolate(s, 0.0) == s[0]
    ensures Interpolate(s, 100.0) == s[|s| - 1]
  {
    if |s| > 1 {
      assert 0.0 / 100.0 == 0.0 && 100.0 / 100.0 == 1.0;
      assert Position(|s|, 0.0) == 0.0;
      assert Position(|s|, 100.0) == (|s| - 1) as real;
    }
  }

  /** The 100th percentile is the largest sample and the 0th the smallest, so every
      percentile lies between them. */
  lemma PercentileRange(values: seq<real>, q: real)
    requires values != [] && 0.0 <= q <= 100.0
    ensures MinOf(values) <= Percentile(values, q).value <= MaxOf(values)
    ensures Percentile(values, 0.0).value == MinOf(values)
    ensures Percentile(values, 100.0).value == MaxOf(values)
  {
    SortedEnds(values);
    InterpolateEnds(Sort(RealLe, values));
    PercentileGrows(values, 0.0, q);
    PercentileGrows(values, q, 100.0);
  }

  // --- What a percentile is --------------------------------------------------------

  /** How many of the values are below `x`, and how many at most `x`. */
  ghost function CountBelow(values: seq<real>, x: real): nat {
    if values == [] then 0 else (if values[0] < x then 1 else 0) + CountBelow(values[1..], x)
  }

  ghost function CountAtMost(values: seq<real>, x: real): nat {
    if values == [] then 0 else (if values[0] <= x then 1 else 0) + CountAtMost(values[1..], x)
  }

  /** `x` is the value that `k` others come before. */
  ghost predicate Ranks(values: seq<real>, k: nat, x: real) {
    x in values && CountBelow(values, x) <= k < CountAtMost(values, x)
  }

  /** `f` lies between the two values around a position, as far along as the position is. */
  ghost predicate LiesAt(values: seq<real>, at: real, f: real) {
    && 0 <= at.Floor
    && exists a, b | Ranks(values, at.Floor, a) && Ranks(values, Following(at.Floor, |values|), b) ::
        f == Blend(a, b, at - at.Floor as real)
  }

  ghost function Blend(a: real, b: real, share: real): real {
    a + (b - a) * share
  }

  /** `f` is `q` percent of the way from the first of the values to the last. */
  ghost predicate IsPercentile(values: seq<real>, q: real, f: real) {
    values != [] && LiesAt(values, q / 100.0 * (|values| - 1) as real, f)
  }

  /** The next position, as long as there is one. */
  function Following(k: nat, n: nat): nat {
    if k + 1 < n then k + 1 else k
  }

  lemma {:induction false} CountsConcat(a: seq<real>, b: seq<real>, x: real)
    ensures CountBelow(a + b, x) == CountBelow(a, x) + CountBelow(b, x)
    ensures CountAtMost(a + b, x) == CountAtMost(a, x) + CountAtMost(b, x)
  {
    if a == [] {
      assert a + b == b;
    } else {
      CountsConcat(a[1..], b, x);
      assert (a + b)[1..] == a[1..] + b && (a + b)[0] == a[0];
    }
  }

  lemma {:induction false} CountsAreTotals(values: seq<real>, x: real)
    ensures CountBelow(values, x) as real == Total((v: real) => if v < x then 1.0 else 0.0, values)
    ensures CountAtMost(values, x) as real == Total((v: real) => if v <= x then 1.0 else 0.0, values)
  {
    if values != [] {
      CountsAreTotals(values[1..], x);
    }
  }

  lemma CountsPermuted(a: seq<real>, b: seq<real>, x: real)
    requires multiset(a) == multiset(b)
    ensures CountBelow(a, x) == CountBelow(b, x) && CountAtMost(a, x) == CountAtMost(b, x)
  {
    CountsAreTotals(a, x);
    CountsAreTotals(b, x);
    TotalPermuted((v: real) => if v < x then 1.0 else 0.0, a, b);
    TotalPermuted((v: real) => if v <= x then 1.0 else 0.0, a, b);
  }

  lemma {:induction false} NoneBelow(s: seq<real>, x: real)
    requires forall i | 0 <= i < |s| :: x <= s[i]
    ensures CountBelow(s, x) == 0
  {
    if s != [] {
      NoneBelow(s[1..], x);
    }
  }

  lemma {:induction false} CountsBounded(s: seq<real>, x: real)
    ensures CountBelow(s, x) <= |s|
    ensures (forall i | 0 <= i < |s| :: s[i] <= x) ==> CountAtMost(s, x) == |s|
  {
    if s != [] {
      CountsBounded(s[1..], x);
      assert forall i | 0 <= i < |s[1..]| :: s[1..][i] == s[i + 1];
    }
  }

  /** In an ordered sequence the value at `k` has rank `k`. */
  lemma OrderedRanks(s: seq<real>, k: nat)
    requires Ordered(RealLe, s) && k < |s|
    ensures Ranks(s, k, s[k])
  {
    var x := s[k];
    assert s == s[..k] + s[k..] && s == s[..k + 1] + s[k + 1..];
    CountsConcat(s[..k], s[k..], x);
    CountsConcat(s[..k + 1], s[k + 1..], x);
    CountsBounded(s[..k], x);
    CountsBounded(s[..k + 1], x);
    NoneBelow(s[k..], x);
  }

  lemma RanksPermuted(a: seq<real>, b: seq<real>, k: nat, x: real)
    requires multiset(a) == multiset(b) && Ranks(a, k, x)
    ensures Ranks(b, k, x)
  {
    CountsPermuted(a, b, x);
    assert x in multiset(b);
  }

  /** `percentile` computes the percentile. */
  lemma {:induction false} PercentileMeans(values: seq<real>, q: real)
    requires values != [] && 0.0 <= q <= 100.0
    ensures IsPercentile(values, q, Percentile(values, q).value)
  {
    var s, at := Sort(RealLe, values), Position(|values|, q);
    SortMultiset(RealLe, values);
    assert |s| == |multiset(s)| == |values|;
    PositionIs(|values|, q);
    RanksOfSorted(values, s, at.Floor);
    RanksOfSorted(values, s, Following(at.Floor, |values|));
    InterpolateIs(s, q, at, at.Floor, Following(at.Floor, |values|));
    Between(values, at, s[at.Floor], s[Following(at.Floor, |values|)], Interpolate(s, q));
  }

  lemma RanksOfSorted(values: seq<real>, s: seq<real>, k: nat)
    requires s == Sort(RealLe, values) && k < |s|
    ensures Ranks(values, k, s[k])
  {
    RealOrder();
    SortOrdered(RealLe, values);
    SortMultiset(RealLe, values);
    OrderedRanks(s, k);
    RanksPermuted(s, values, k, s[k]);
  }

  lemma Between(values: seq<real>, at: real, a: real, b: real, f: real)
    requires 0 <= at.Floor && Ranks(values, at.Floor, a) && Ranks(values, Following(at.Floor, |values|), b)
    requires f == Blend(a, b, at - at.Floor as real)
    ensures LiesAt(values, at, f)
  {
  }

  lemma PositionIs(n: nat, q: real)
    requires n > 0 && 0.0 <= q <= 100.0
    ensures Position(n, q) == q / 100.0 * (n - 1) as real && 0 <= Position(n, q).Floor < n
  {
  }

  lemma InterpolateIs(s: seq<real>, q: real, at: real, low: nat, high: nat)
    requires s != [] && 0.0 <= q <= 100.0 && at == Position(|s|, q) && low == at.Floor
    requires high == Following(low, |s|) < |s|
    ensures Interpolate(s, q) == Blend(s[low], s[high], at - low as real)
  {
    var frac := at - low as real;
    if |s| > 1 {
      BlendIs(s[low], s[high], frac);
    }
  }

  lemma BlendIs(a: real, b: real, share: real)
    ensures a * (1.0 - share) + b * share == Blend(a, b, share)
  {
    assert a * (1.0 - share) == a - a * share;
    assert (b - a) * share == b * share - a * share;
  }

  // --- The steady-state window -----------------------------------------------------

  /** The entries of `xs` whose flag is set, in order. */
  function Keep<T>(mask: seq<bool>, xs: seq<T>): (r: seq<T>)
    requires |mask| == |xs|
    ensures |r| <= |xs|
  {
    if mask == [] then []
    else
      var n := |xs| - 1;
      Keep(mask[..n], xs[..n]) + (if mask[n] then [xs[n]] else [])
  }

  /** The selection from the first `i` entries. */
  function Kept<T>(mask: seq<bool>, xs: seq<T>, i: nat): seq<T>
    requires |mask| == |xs| && i <= |xs|
  {
    Keep(mask[..i], xs[..i])
  }

  lemma KeptEnds<T>(mask: seq<bool>, xs: seq<T>)
    requires |mask| == |xs|
    ensures Kept(mask, xs, 0) == [] && Kept(mask, xs, |xs|) == Keep(mask, xs)
  {
    assert mask[..|xs|] == mask && xs[..|xs|] == xs;
  }

  lemma KeepStep<T>(mask: seq<bool>, xs: seq<T>, i: nat)
    requires |mask| == |xs| && i < |xs|
    ensures mask[i] ==> Kept(mask, xs, i + 1) == Kept(mask, xs, i) + [xs[i]]
    ensures !mask[i] ==> Kept(mask, xs, i + 1) == Kept(mask, xs, i)
  {
    assert mask[..i + 1][..i] == mask[..i] && xs[..i + 1][..i] == xs[..i];
  }

  ghost predicate Increasing(ks: seq<nat>) {
    forall i, j | 0 <= i < j < |ks| :: ks[i] < ks[j]
  }

  /** A selection holds the flagged entries. */
  lemma {:induction false} KeepsFlagged<T>(mask: seq<bool>, xs: seq<T>, x: T)
    requires |mask| == |xs|
    ensures x in Keep(mask, xs) <==> exists i | 0 <= i < |xs| :: mask[i] && xs[i] == x
  {
    if mask != [] {
      var n := |xs| - 1;
      KeepsFlagged(mask[..n], xs[..n], x);
      if i :| 0 <= i < |xs| && mask[i] && xs[i] == x {
        assert i < n ==> mask[..n][i] && xs[..n][i] == x;
      }
      if i :| 0 <= i < n && mask[..n][i] && xs[..n][i] == x {
        assert mask[i] && xs[i] == x;
      }
    }
  }

  /** A selection from increasing positions is increasing. */
  lemma {:induction false} KeepsIncreasing(mask: seq<bool>, ks: seq<nat>)
    requires |mask| == |ks| && Increasing(ks)
    ensures Increasing(Keep(mask, ks))
  {
    if mask != [] {
      var n := |ks| - 1;
      var front := Keep<nat>(mask[..n], ks[..n]);
      KeepsIncreasing(mask[..n], ks[..n]);
      forall i | 0 <= i < |front| ensures front[i] < ks[n] {
        KeepsFlagged<nat>(mask[..n], ks[..n], front[i]);
      }
    }
  }

  /** Selecting from two lists with one mask keeps their entries side by side. */
  lemma {:induction false} KeepsBeside<A(!new), B(!new)>(mask: seq<bool>, xs: seq<A>, ys: seq<B>, f: A -> B)
    requires |mask| == |xs| == |ys| && forall i | 0 <= i < |xs| :: ys[i] == f(xs[i])
    ensures |Keep(mask, xs)| == |Keep(mask, ys)|
    ensures forall i | 0 <= i < |Keep(mask, xs)| :: Keep(mask, ys)[i] == f(Keep(mask, xs)[i])
  {
    if mask != [] {
      var n := |xs| - 1;
      KeepsBeside(mask[..n], xs[..n], ys[..n], f);
    }
  }

  function WarmMask(starts: seq<real>, warmup: real): (mask: seq<bool>)
    ensures |mask| == |starts|
    ensures forall i | 0 <= i < |starts| :: mask[i] == (starts[i] < warmup)
  {
    if starts == [] then [] else [starts[0] < warmup] + WarmMask(starts[1..], warmup)
  }

  function SteadyMask(starts: seq<real>, warmup: real, cut: real): (mask: seq<bool>)
    ensures |mask| == |starts|
    ensures forall i | 0 <= i < |starts| :: mask[i] == (warmup <= starts[i] <= cut)
  {
    if starts == [] then [] else [warmup <= starts[0] <= cut] + SteadyMask(starts[1..], warmup, cut)
  }

  function Latest(starts: seq<real>): (r: real)
    requires starts != []
    ensures r in starts && forall x | x in starts :: x <= r
  {
    MaxOf(starts)
  }

  datatype Split = Split(warm: seq<real>, steady: seq<real>)

  function WarmOf(starts: seq<real>, latencies: seq<real>, warmup: real): seq<real>
    requires |starts| == |latencies|
  {
    Keep(WarmMask(starts, warmup), latencies)
  }

  function SteadyOf(starts: seq<real>, latencies: seq<real>, warmup: real, cut: real): seq<real>
    requires |starts| == |latencies|
  {
    Keep(SteadyMask(starts, warmup, cut), latencies)
  }

  /** What `steady_state` computes. The masks read only the start times. */
  function SplitOf(starts: seq<real>, latencies: seq<real>, warmup: real, cooldown: real): Split
    requires |starts| == |latencies|
  {
    if starts == [] then Split([], [])
    else
      Split(WarmOf(starts, latencies, warmup),
            SteadyOf(starts, latencies, warmup, Latest(starts) - cooldown))
  }

  /** `steady_state`: samples of unequal length raise, except that no starts at all
      returns before the samples are paired. */
  method SteadyState(starts: seq<real>, latencies: seq<real>, warmup: real, cooldown: real)
    returns (r: Result<Split>)
    ensures r.Err? <==> starts != [] && |starts| != |latencies|
    ensures starts == [] ==> r == Ok(Split([], []))
    ensures |starts| == |latencies| ==> r == Ok(SplitOf(starts, latencies, warmup, cooldown))
  {
    if starts == [] {
      return Ok(Split([], []));
    }
    if |starts| != |latencies| {
      return Err("zip() arguments have unequal lengths");
    }
    var warm, steady := Partition(starts, latencies, warmup, Latest(starts) - cooldown);
    r := Ok(Split(warm, steady));
  }

  /** The loop of `steady_state`. */
  method Partition(starts: seq<real>, latencies: seq<real>, warmup: real, cut: real)
    returns (warm: seq<real>, steady: seq<real>)
    requires |starts| == |latencies|
    ensures warm == WarmOf(starts, latencies, warmup)
    ensures steady == SteadyOf(starts, latencies, warmup, cut)
  {
    warm, steady := [], [];
    ghost var wm, sm := WarmMask(starts, warmup), SteadyMask(starts, warmup, cut);
    KeptEnds(wm, latencies);
    KeptEnds(sm, latencies);
    for i := 0 to |starts|
      invariant warm == Kept(wm, latencies, i)
      invariant steady == Kept(sm, latencies, i)
    {
      KeepStep(wm, latencies, i);
      KeepStep(sm, latencies, i);
      if starts[i] < warmup {
        warm := warm + [latencies[i]];
      } else if starts[i] <= cut {
        steady := steady + [latencies[i]];
      }
    }
  }

  lemma {:induction false} KeepDominated(mask: seq<bool>, a: seq<real>, b: seq<real>)
    requires |mask| == |a| && Dominated(a, b)
    ensures Dominated(Keep(mask, a), Keep(mask, b))
  {
    if mask != [] {
      var n := |a| - 1;
      KeepDominated(mask[..n], a[..n], b[..n]);
    }
  }

  /** Disjoint selections add up to the selection of either. */
  lemma {:induction false} KeepUnion<T>(a: seq<bool>, b: seq<bool>, both: seq<bool>, xs: seq<T>)
    requires |a| == |b| == |both| == |xs|
    requires forall i | 0 <= i < |xs| :: !(a[i] && b[i]) && both[i] == (a[i] || b[i])
    ensures multiset(Keep(both, xs)) == multiset(Keep(a, xs)) + multiset(Keep(b, xs))
  {
    if xs != [] {
      var n := |xs| - 1;
      KeepUnion(a[..n], b[..n], both[..n], xs[..n]);
      KeepLast(a, xs);
      KeepLast(b, xs);
      KeepLast(both, xs);
    }
  }

  lemma {:induction false} KeepAll<T>(mask: seq<bool>, xs: seq<T>)
    requires |mask| == |xs| && forall i | 0 <= i < |mask| :: mask[i]
    ensures Keep(mask, xs) == xs
  {
    if xs != [] {
      var n := |xs| - 1;
      KeepAll(mask[..n], xs[..n]);
      assert xs == xs[..n] + [xs[n]];
    }
  }

  lemma KeepLast<T>(mask: seq<bool>, xs: seq<T>)
    requires |mask| == |xs| > 0
    ensures
      var n := |xs| - 1;
      multiset(Keep(mask, xs)) ==
      multiset(Keep(mask[..n], xs[..n])) + (if mask[n] then multiset{xs[n]} else multiset{})
  {
  }

  function TailMask(starts: seq<real>, warmup: real, cut: real): (mask: seq<bool>)
    ensures |mask| == |starts|
    ensures forall i | 0 <= i < |starts| :: mask[i] == (warmup <= starts[i] && cut < starts[i])
  {
    if starts == [] then [] else [warmup <= starts[0] && cut < starts[0]] + TailMask(starts[1..], warmup, cut)
  }

  function Either(a: seq<bool>, b: seq<bool>): (r: seq<bool>)
    requires |a| == |b|
    ensures |r| == |a| && forall i | 0 <= i < |a| :: r[i] == (a[i] || b[i])
  {
    if a == [] then [] else [a[0] || b[0]] + Either(a[1..], b[1..])
  }

  /** The requests `steady_state` reports in neither list. */
  ghost function TailOf(starts: seq<real>, latencies: seq<real>, warmup: real, cut: real): seq<real>
    requires |starts| == |latencies|
  {
    Keep(TailMask(starts, warmup, cut), latencies)
  }

  /** Every request lands in exactly one of the warm-up, the steady window and the
      cool-down tail; none is counted twice or lost. */
  lemma WindowsConserve(starts: seq<real>, latencies: seq<real>, warmup: real, cut: real)
    requires |starts| == |latencies|
    ensures
      multiset(WarmOf(starts, latencies, warmup)) + multiset(SteadyOf(starts, latencies, warmup, cut)) +
      multiset(TailOf(starts, latencies, warmup, cut)) == multiset(latencies)
  {
    var w, s, t := WarmMask(starts, warmup), SteadyMask(starts, warmup, cut), TailMask(starts, warmup, cut);
    KeepUnion(w, s, Either(w, s), latencies);
    KeepUnion(Either(w, s), t, Either(Either(w, s), t), latencies);
    KeepAll(Either(Either(w, s), t), latencies);
  }

  // --- Folding clients into a sweep point ------------------------------------------

  datatype ErrorNote =
    | WrongAnswer(name: string, why: string)
    | Exception(name: string, text: string)
    | NothingSteady

  datatype ClientStats = ClientStats(
    clientId: int,
    requests: nat,
    steadyRequests: nat,
    steadySeconds: real,
    latenciesMs: seq<real>,
    coldMs: seq<real>,
    rssPeakMb: real,
    errors: seq<ErrorNote>)
  {
    function Qps(): (r: real)
      ensures 0.0 <= r
    {
      if steadySeconds <= 0.0 then 0.0 else steadyRequests as real / steadySeconds
    }
  }

  function Rates(clients: seq<ClientStats>): seq<real> {
    if clients == [] then [] else [clients[0].Qps()] + Rates(clients[1..])
  }

  lemma {:induction false} RatesNonNegative(clients: seq<ClientStats>)
    ensures |Rates(clients)| == |clients|
    ensures forall r | r in Rates(clients) :: 0.0 <= r
  {
    if clients != [] {
      RatesNonNegative(clients[1..]);
    }
  }

  function Fairness(clients: seq<ClientStats>): (r: real) {
    var rates := Rates(clients);
    if rates == [] || MaxOf(rates) <= 0.0 then 0.0 else MinOf(rates) / MaxOf(rates)
  }

  /** Fairness is a ratio in [0, 1], and it is 1 exactly when some client made progress
      and all of them made the same. */
  lemma FairnessMeaning(clients: seq<ClientStats>)
    ensures 0.0 <= Fairness(clients) <= 1.0
    ensures Fairness(clients) == 1.0 <==>
      (exists r | r in Rates(clients) :: r > 0.0)
      && forall a, b | a in Rates(clients) && b in Rates(clients) :: a == b
  {
    RatesNonNegative(clients);
    var rates := Rates(clients);
    if rates != [] && MaxOf(rates) > 0.0 {
      var lo, hi := MinOf(rates), MaxOf(rates);
      assert lo <= hi && 0.0 <= lo;
      RatioBounds(lo, hi);
      if lo == hi {
        forall a, b | a in rates && b in rates ensures a == b {
          assert lo <= a <= hi && lo <= b <= hi;
        }
      }
    }
  }

  lemma RatioBounds(lo: real, hi: real)
    requires 0.0 <= lo <= hi && 0.0 < hi
    ensures 0.0 <= lo / hi <= 1.0
    ensures lo / hi == 1.0 <==> lo == hi
  {
    var r := lo / hi;
    assert r * hi == lo;
    assert (1.0 - r) * hi == hi - lo;
    SignOf(r, hi);
    SignOf(1.0 - r, hi);
  }

  lemma SignOf(x: real, k: real)
    requires k > 0.0
    ensures x * k > 0.0 <==> x > 0.0
    ensures x * k == 0.0 <==> x == 0.0
  {
  }

  function ScalingEfficiency(qpsN: real, qps1: real, n: int): (r: real) {
    if qps1 <= 0.0 || n <= 0 then 0.0 else qpsN / (n as real * qps1)
  }

  /** "Below 1/n" means exactly that the n clients together were slower than one. */
  lemma BelowOneOverN(qpsN: real, qps1: real, n: int)
    requires qps1 > 0.0 && n > 0
    ensures ScalingEfficiency(qpsN, qps1, n) < 1.0 / n as real <==> qpsN < qps1
    ensures ScalingEfficiency(qpsN, qps1, n) == 1.0 <==> qpsN == n as real * qps1
  {
    var k := n as real;
    assert k * qps1 > 0.0;
    var e := qpsN / (k * qps1);
    assert e * (k * qps1) == qpsN;
    var x := e * k;
    assert x * qps1 == qpsN;
    assert 1.0 / k * k == 1.0;
    assert e < 1.0 / k <==> x < 1.0 by { ScaleCompare(e, 1.0 / k, k); }
    assert x < 1.0 <==> x * qps1 < 1.0 * qps1 by { ScaleCompare(x, 1.0, qps1); }
  }

  lemma ScaleCompare(a: real, b: real, k: real)
    requires k > 0.0
    ensures a < b <==> a * k < b * k
  {
    if a < b { assert (b - a) * k > 0.0; }
    if a >= b { assert (a - b) * k >= 0.0; }
  }

  datatype SweepPoint = SweepPoint(
    clients: nat,
    qps: real,
    scalingEfficiency: real,
    fairness: real,
    p50: real,
    p90: real,
    p99: real,
    p999: real,
    maxMs: real,
    coldMs: real,
    steadyRequests: nat,
    rssPeakMb: real,
    errors: seq<ErrorNote>)

  function Pooled(clients: seq<ClientStats>): seq<real> {
    if clients == [] then [] else clients[0].latenciesMs + Pooled(clients[1..])
  }

  function PooledCold(clients: seq<ClientStats>): seq<real> {
    if clients == [] then [] else clients[0].coldMs + PooledCold(clients[1..])
  }

  function PooledErrors(clients: seq<ClientStats>): seq<ErrorNote> {
    if clients == [] then [] else clients[0].errors + PooledErrors(clients[1..])
  }

  function SteadyTotal(clients: seq<ClientStats>): nat {
    if clients == [] then 0 else clients[0].steadyRequests + SteadyTotal(clients[1..])
  }

  function RssPeaks(clients: seq<ClientStats>): (r: seq<real>)
    ensures |r| == |clients|
  {
    if clients == [] then [] else [clients[0].rssPeakMb] + RssPeaks(clients[1..])
  }

  function ColdOf(cold: seq<real>): real {
    if cold == [] then 0.0 else Percentile(cold, 50.0).value
  }

  /** `summarize`: pooled percentiles, or zeros when nothing was steady. */
  function Summarize(clients: seq<ClientStats>, baselineQps: Option<real>): SweepPoint {
    var pooled := Pooled(clients);
    var errors := PooledErrors(clients);
    var rss := if clients == [] then 0.0 else MaxOf(RssPeaks(clients));
    if pooled == [] then
      SweepPoint(|clients|, 0.0, 0.0, 0.0, 0.0, 0.0, 0.0, 0.0, 0.0, ColdOf(PooledCold(clients)), 0, rss,
                 if errors == [] then [NothingSteady] else errors)
    else
      var total := SumReal(Rates(clients));
      SweepPoint(
        |clients|, total,
        if baselineQps.None? then 1.0 else ScalingEfficiency(total, baselineQps.value, |clients|),
        Fairness(clients),
        Percentile(pooled, 50.0).value,
        Percentile(pooled, 90.0).value,
        Percentile(pooled, 99.0).value,
        Percentile(pooled, 99.9).value,
        MaxOf(pooled),
        ColdOf(PooledCold(clients)),
        SteadyTotal(clients), rss, errors)
  }

  // --- What a sweep point says -----------------------------------------------------

  /** A client's steady requests a second. */
  ghost function Rate(c: ClientStats): real {
    if c.steadySeconds <= 0.0 then 0.0 else c.steadyRequests as real / c.steadySeconds
  }

  ghost function AllSteady(clients: seq<ClientStats>): seq<real> {
    Flatten(MapSeq((c: ClientStats) => c.latenciesMs, clients))
  }

  ghost function AllCold(clients: seq<ClientStats>): seq<real> {
    Flatten(MapSeq((c: ClientStats) => c.coldMs, clients))
  }

  ghost function AllErrors(clients: seq<ClientStats>): seq<ErrorNote> {
    Flatten(MapSeq((c: ClientStats) => c.errors, clients))
  }

  ghost predicate IsGreatest(values: seq<real>, x: real) {
    x in values && forall v | v in values :: v <= x
  }

  lemma {:induction false} PooledIsAll(clients: seq<ClientStats>)
    ensures Pooled(clients) == AllSteady(clients) && PooledCold(clients) == AllCold(clients)
    ensures PooledErrors(clients) == AllErrors(clients)
  {
    if clients != [] {
      PooledIsAll(clients[1..]);
      MapFirst((c: ClientStats) => c.latenciesMs, clients);
      MapFirst((c: ClientStats) => c.coldMs, clients);
      MapFirst((c: ClientStats) => c.errors, clients);
    }
  }

  lemma MapFirst<A, B>(f: A -> seq<B>, s: seq<A>)
    requires s != []
    ensures Flatten(MapSeq(f, s)) == f(s[0]) + Flatten(MapSeq(f, s[1..]))
  {
    assert MapSeq(f, s)[0] == f(s[0]) && MapSeq(f, s)[1..] == MapSeq(f, s[1..]);
  }

  lemma {:induction false} TotalsAre(clients: seq<ClientStats>)
    ensures SumReal(Rates(clients)) == Total(Rate, clients)
    ensures SteadyTotal(clients) as real == Total((c: ClientStats) => c.steadyRequests as real, clients)
  {
    if clients != [] {
      TotalsAre(clients[1..]);
      assert Rates(clients)[0] == Rate(clients[0]) && Rates(clients)[1..] == Rates(clients[1..]);
    }
  }

  /** The rate is so much of that of `n` clients at the baseline. */
  ghost predicate Efficient(efficiency: real, n: nat, baseline: real, qps: real) {
    efficiency * (n as real * baseline) == qps
  }

  /** The throughput of a sweep point is the sum of the clients' rates, over all of them. */
  ghost predicate Throughput(clients: seq<ClientStats>, baselineQps: Option<real>, p: SweepPoint) {
    && p.clients == |clients| && p.qps == Total(Rate, clients)
    && p.steadyRequests as real == Total((c: ClientStats) => c.steadyRequests as real, clients)
    && (baselineQps.None? ==> p.scalingEfficiency == 1.0)
    && (baselineQps.Some? && baselineQps.value > 0.0 && clients != [] ==>
          Efficient(p.scalingEfficiency, |clients|, baselineQps.value, p.qps))
    && (baselineQps.Some? && baselineQps.value <= 0.0 ==> p.scalingEfficiency == 0.0)
  }

  /** Every latency figure is the percentile of its name over the pooled samples. */
  ghost predicate Latencies(clients: seq<ClientStats>, p: SweepPoint) {
    var all := AllSteady(clients);
    && IsPercentile(all, 50.0, p.p50) && IsPercentile(all, 90.0, p.p90) && IsPercentile(all, 99.0, p.p99)
    && IsPercentile(all, 99.9, p.p999) && IsGreatest(all, p.maxMs)
  }

  /** What does not depend on there being a steady sample. */
  ghost predicate AlwaysReported(clients: seq<ClientStats>, p: SweepPoint) {
    && p.clients == |clients|
    && (if AllCold(clients) == [] then p.coldMs == 0.0 else IsPercentile(AllCold(clients), 50.0, p.coldMs))
    && (clients == [] ==> p.rssPeakMb == 0.0)
    && (clients != [] ==> IsGreatest(MapSeq((c: ClientStats) => c.rssPeakMb, clients), p.rssPeakMb))
  }

  lemma LatenciesAre(clients: seq<ClientStats>, baselineQps: Option<real>)
    requires Pooled(clients) != []
    ensures Latencies(clients, Summarize(clients, baselineQps))
  {
    var all := Pooled(clients);
    PooledIsAll(clients);
    PercentileMeans(all, 50.0);
    PercentileMeans(all, 90.0);
    PercentileMeans(all, 99.0);
    PercentileMeans(all, 99.9);
  }

  lemma ThroughputIs(clients: seq<ClientStats>, baselineQps: Option<real>)
    requires Pooled(clients) != []
    ensures Throughput(clients, baselineQps, Summarize(clients, baselineQps))
  {
    TotalsAre(clients);
    if baselineQps.Some? && baselineQps.value > 0.0 && clients != [] {
      EfficiencyMeans(SumReal(Rates(clients)), baselineQps.value, |clients|);
    }
  }

  lemma AlwaysAre(clients: seq<ClientStats>, baselineQps: Option<real>)
    ensures AlwaysReported(clients, Summarize(clients, baselineQps))
  {
    var cold := PooledCold(clients);
    PooledIsAll(clients);
    PeaksAre(clients);
    if cold != [] {
      PercentileMeans(cold, 50.0);
    }
  }

  /** A sweep point in full, in terms of the clients' samples. */
  lemma SweepPointMeans(clients: seq<ClientStats>, baselineQps: Option<real>, p: SweepPoint)
    requires p == Summarize(clients, baselineQps)
    ensures AlwaysReported(clients, p)
    ensures AllSteady(clients) != [] ==>
              Throughput(clients, baselineQps, p) && Latencies(clients, p) && p.errors == AllErrors(clients)
    ensures AllSteady(clients) == [] ==>
              && p.qps == p.scalingEfficiency == p.fairness == 0.0 && p.steadyRequests == 0
              && p.p50 == p.p90 == p.p99 == p.p999 == p.maxMs == 0.0
              && p.errors == if AllErrors(clients) == [] then [NothingSteady] else AllErrors(clients)
  {
    PooledIsAll(clients);
    AlwaysAre(clients, baselineQps);
    if AllSteady(clients) != [] {
      LatenciesAre(clients, baselineQps);
      ThroughputIs(clients, baselineQps);
    }
  }

  lemma EfficiencyMeans(qpsN: real, qps1: real, n: nat)
    requires qps1 > 0.0 && n > 0
    ensures Efficient(ScalingEfficiency(qpsN, qps1, n), n, qps1, qpsN)
  {
    assert n as real * qps1 > 0.0;
  }

  lemma {:induction false} PeaksAre(clients: seq<ClientStats>)
    ensures RssPeaks(clients) == MapSeq((c: ClientStats) => c.rssPeakMb, clients)
  {
    if clients != [] {
      PeaksAre(clients[1..]);
    }
  }

  /** Fairness is the slowest client's rate over the fastest's. */
  lemma FairnessIsRatio(clients: seq<ClientStats>, slowest: nat, fastest: nat)
    requires slowest < |clients| && fastest < |clients|
    requires forall i | 0 <= i < |clients| :: Rate(clients[slowest]) <= Rate(clients[i]) <= Rate(clients[fastest])
    ensures Rate(clients[fastest]) <= 0.0 ==> Fairness(clients) == 0.0
    ensures Rate(clients[fastest]) > 0.0 ==>
              IsQuotient(Fairness(clients), Rate(clients[slowest]), Rate(clients[fastest]))
  {
    var rates := Rates(clients);
    RatesAre(clients);
    ExtremesAt(rates, slowest, fastest);
    if rates[fastest] > 0.0 {
      QuotientTimes(rates[slowest], rates[fastest]);
    }
  }

  ghost predicate IsQuotient(r: real, x: real, y: real) {
    r * y == x
  }

  lemma QuotientTimes(x: real, y: real)
    requires y > 0.0
    ensures IsQuotient(x / y, x, y)
  {
  }

  lemma ExtremesAt(rates: seq<real>, i: nat, j: nat)
    requires i < |rates| && j < |rates| && forall k | 0 <= k < |rates| :: rates[i] <= rates[k] <= rates[j]
    ensures MinOf(rates) == rates[i] && MaxOf(rates) == rates[j]
  {
    assert rates[i] in rates && rates[j] in rates;
    var k :| 0 <= k < |rates| && rates[k] == MinOf(rates);
    var m :| 0 <= m < |rates| && rates[m] == MaxOf(rates);
  }

  lemma {:induction false} RatesAre(clients: seq<ClientStats>)
    ensures |Rates(clients)| == |clients|
    ensures forall i | 0 <= i < |clients| :: Rates(clients)[i] == Rate(clients[i])
  {
    if clients != [] {
      RatesAre(clients[1..]);
    }
  }

  /** The five latency figures of a sweep point are always in order. */
  lemma SweepPointOrdered(clients: seq<ClientStats>, baselineQps: Option<real>)
    ensures var p := Summarize(clients, baselineQps); p.p50 <= p.p90 <= p.p99 <= p.p999 <= p.maxMs
  {
    var pooled := Pooled(clients);
    if pooled != [] {
      PercentileGrows(pooled, 50.0, 90.0);
      PercentileGrows(pooled, 90.0, 99.0);
      PercentileGrows(pooled, 99.0, 99.9);
      PercentileRange(pooled, 99.9);
    }
  }
}
