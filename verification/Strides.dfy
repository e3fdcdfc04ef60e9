/** Round-robin dealing of a list: `files[rank::world]` and the backend-suite shards. */
module Strides {
  import opened Common

  /** Python's `xs[start::step]`. */
  function Stride<T>(xs: seq<T>, start: nat, step: nat): (r: seq<T>)
    requires step > 0
    decreases |xs| - start
  {
    if start >= |xs| then [] else [xs[start]] + Stride(xs, start + step, step)
  }

  /** Appending an element extends exactly the stride whose turn it is. */
  lemma {:induction false} StrideSnoc<T>(xs: seq<T>, x: T, start: nat, step: nat)
    requires step > 0
    ensures Stride(xs + [x], start, step) ==
      Stride(xs, start, step) + if start <= |xs| && (|xs| - start) % step == 0 then [x] else []
    decreases |xs| + 1 - start
  {
    if start < |xs| {
      StrideSnoc(xs, x, start + step, step);
      assert (|xs| - start) % step == (if |xs| - start < step then |xs| - start else (|xs| - start - step) % step) by {
        ModStep(|xs| - start, step);
      }
      assert (xs + [x])[start] == xs[start];
    } else if start == |xs| {
      assert (xs + [x])[start] == x;
      assert Stride(xs + [x], start + step, step) == [];
    }
  }

  lemma ModStep(a: nat, b: nat)
    requires b > 0
    ensures a % b == if a < b then a else (a - b) % b
  {
    if a >= b {
      var q, r := (a - b) / b, (a - b) % b;
      assert a == (q + 1) * b + r;
      ModUnique(a, b, q + 1, r);
    } else {
      ModUnique(a, b, 0, a);
    }
  }

  lemma ModUnique(a: int, b: int, q: int, r: int)
    requires b > 0 && 0 <= r < b && a == q * b + r
    ensures a / b == q && a % b == r
  {
    var q', r' := a / b, a % b;
    assert a == q' * b + r' && 0 <= r' < b;
    assert (q - q') * b == r' - r;
    if q > q' {
      AtLeastOnce(q - q', b);
      assert false;
    } else if q < q' {
      AtLeastOnce(q' - q, b);
      assert false;
    }
  }

  lemma AtLeastOnce(k: int, b: int)
    requires k >= 1 && b > 0
    ensures k * b >= b
  {
    assert (k - 1) * b >= 0;
  }

  /** For a start below the step, the turn is decided by the remainder of the index. */
  lemma TurnOf(n: nat, start: nat, step: nat)
    requires start < step
    ensures start <= n && (n - start) % step == 0 <==> n % step == start
  {
    if start <= n && (n - start) % step == 0 {
      var q := (n - start) / step;
      ModUnique(n, step, q, start);
    }
    if n % step == start {
      var q := n / step;
      ModUnique(n - start, step, q, 0);
      assert n == q * step + start && q * step >= 0;
    }
  }

  /** The strides 0, 1, ..., k - 1, one after another. */
  function Dealt<T>(xs: seq<T>, step: nat, k: nat): seq<T>
    requires step > 0
  {
    if k == 0 then [] else Dealt(xs, step, k - 1) + Stride(xs, k - 1, step)
  }

  /** Appending `x` extends stride `turn` and no other. */
  ghost predicate Extends<T>(xs: seq<T>, x: T, step: nat, turn: nat)
    requires step > 0
  {
    forall s | 0 <= s < step ::
      Stride(xs + [x], s, step) == Stride(xs, s, step) + if s == turn then [x] else []
  }

  lemma SomeStrideExtends<T>(xs: seq<T>, x: T, step: nat) returns (turn: nat)
    requires step > 0
    ensures turn < step && Extends(xs, x, step, turn)
  {
    turn := |xs| % step;
    forall s | 0 <= s < step
      ensures Stride(xs + [x], s, step) == Stride(xs, s, step) + if s == turn then [x] else []
    {
      StrideSnoc(xs, x, s, step);
      TurnOf(|xs|, s, step);
    }
  }

  lemma {:induction false} DealtSnoc<T>(xs: seq<T>, x: T, step: nat, turn: nat, k: nat)
    requires k <= step && step > 0 && Extends(xs, x, step, turn)
    ensures multiset(Dealt(xs + [x], step, k)) ==
      multiset(Dealt(xs, step, k)) + if turn < k then multiset{x} else multiset{}
  {
    if k > 0 {
      DealtSnoc(xs, x, step, turn, k - 1);
      assert Stride(xs + [x], k - 1, step) == Stride(xs, k - 1, step) + if k - 1 == turn then [x] else [];
    }
  }

  lemma {:induction false} DealtNothing<T>(step: nat, k: nat)
    requires step > 0
    ensures Dealt<T>([], step, k) == []
  {
    if k > 0 {
      DealtNothing<T>(step, k - 1);
    }
  }

  /** Dealing to `step` hands every element to exactly one of them. */
  lemma {:induction false} DealtPartition<T>(xs: seq<T>, step: nat)
    requires step > 0
    ensures multiset(Dealt(xs, step, step)) == multiset(xs)
  {
    if xs == [] {
      DealtNothing<T>(step, step);
    } else {
      var n := |xs| - 1;
      assert xs == xs[..n] + [xs[n]];
      DealtPartition(xs[..n], step);
      var turn := SomeStrideExtends(xs[..n], xs[n], step);
      DealtSnoc(xs[..n], xs[n], step, turn, step);
    }
  }

  /** Stride `start` takes the elements at `start`, `start + step`, ... in order. */
  lemma {:induction false} StrideAt<T>(xs: seq<T>, start: nat, step: nat, k: nat)
    requires step > 0 && k < |Stride(xs, start, step)|
    ensures start + k * step < |xs| && Stride(xs, start, step)[k] == xs[start + k * step]
    decreases k
  {
    if k > 0 {
      StrideAt(xs, start + step, step, k - 1);
      assert start + step + (k - 1) * step == start + k * step;
    }
  }

  /** How long stride `start` is: within one of its even share. */
  lemma {:induction false} StrideLength<T>(xs: seq<T>, start: nat, step: nat)
    requires start < step
    ensures |Stride(xs, start, step)| == |xs| / step + if start < |xs| % step then 1 else 0
    decreases |xs|
  {
    if xs == [] {
      ModUnique(0, step, 0, 0);
    } else {
      var n := |xs| - 1;
      assert xs == xs[..n] + [xs[n]];
      StrideLength(xs[..n], start, step);
      StrideSnoc(xs[..n], xs[n], start, step);
      TurnOf(n, start, step);
      DivStep(n, step);
    }
  }

  lemma DivStep(n: nat, step: nat)
    requires step > 0
    ensures (n + 1) / step == n / step + (if n % step == step - 1 then 1 else 0)
    ensures (n + 1) % step == if n % step == step - 1 then 0 else n % step + 1
  {
    var q, r := n / step, n % step;
    assert n == q * step + r;
    if r == step - 1 {
      assert n + 1 == (q + 1) * step + 0;
      ModUnique(n + 1, step, q + 1, 0);
    } else {
      ModUnique(n + 1, step, q, r + 1);
    }
  }

  // --- `shard` ---------------------------------------------------------------------

  /** The files whose 1-based position is congruent to `index`. */
  function Congruent(files: seq<string>, index: nat, count: nat): seq<string>
    requires count > 0
  {
    if files == [] then []
    else
      var n := |files| - 1;
      Congruent(files[..n], index, count) + if (n + 1) % count == index % count then [files[n]] else []
  }

  /** `shard`: an out-of-range index is an error. */
  method Shard(files: seq<string>, index: int, count: int) returns (r: Result<seq<string>>)
    ensures r.Err? <==> !(1 <= index <= count)
    ensures r.Ok? ==> r.value == Congruent(files, index, count)
  {
    if !(1 <= index <= count) {
      return Err("shard is out of range");
    }
    var out := [];
    for i := 1 to |files| + 1
      invariant out == Congruent(files[..i - 1], index, count)
    {
      assert files[..i][..i - 1] == files[..i - 1];
      if i % count == index % count {
        out := out + [files[i - 1]];
      }
    }
    assert files[..|files|] == files;
    r := Ok(out);
  }

  lemma SameTurn(n: nat, index: nat, count: nat)
    requires 1 <= index <= count
    ensures (n + 1) % count == index % count <==> n % count == index - 1
  {
    DivStep(n, count);
    if index == count {
      ModUnique(index, count, 1, 0);
    } else {
      ModUnique(index, count, 0, index);
    }
  }

  lemma {:induction false} CongruentIsStride(files: seq<string>, index: nat, count: nat)
    requires 1 <= index <= count
    ensures Congruent(files, index, count) == Stride(files, index - 1, count)
  {
    if files != [] {
      var n := |files| - 1;
      CongruentIsStride(files[..n], index, count);
      assert files == files[..n] + [files[n]];
      StrideSnoc(files[..n], files[n], index - 1, count);
      TurnOf(n, index - 1, count);
      SameTurn(n, index, count);
    }
  }

  /** Shards 1..k, one after another. */
  function Shards(files: seq<string>, count: nat, k: nat): seq<string>
    requires count > 0
  {
    if k == 0 then [] else Shards(files, count, k - 1) + Congruent(files, k, count)
  }

  lemma {:induction false} ShardsAreDealt(files: seq<string>, count: nat, k: nat)
    requires k <= count && count > 0
    ensures Shards(files, count, k) == Dealt(files, count, k)
  {
    if k > 0 {
      ShardsAreDealt(files, count, k - 1);
      CongruentIsStride(files, k, count);
    }
  }

  /** The shards 1..count partition the selection. */
  lemma ShardsPartition(files: seq<string>, count: nat)
    requires count > 0
    ensures multiset(Shards(files, count, count)) == multiset(files)
  {
    ShardsAreDealt(files, count, count);
    DealtPartition(files, count);
  }

  /** No two shards differ in size by more than one. */
  lemma ShardsBalanced(files: seq<string>, count: nat, i: nat, j: nat)
    requires 1 <= i <= count && 1 <= j <= count
    ensures |Congruent(files, i, count)| <= |Congruent(files, j, count)| + 1
  {
    CongruentIsStride(files, i, count);
    CongruentIsStride(files, j, count);
    StrideLength(files, i - 1, count);
    StrideLength(files, j - 1, count);
  }

  /** A shard keeps the selection order: its k-th file is `count` places after the one
      before it. */
  lemma ShardKeepsOrder(files: seq<string>, count: nat, i: nat, k: nat)
    requires 1 <= i <= count && k < |Congruent(files, i, count)|
    ensures i - 1 + k * count < |files| && Congruent(files, i, count)[k] == files[i - 1 + k * count]
  {
    CongruentIsStride(files, i, count);
    StrideAt(files, i - 1, count, k);
  }
}
