/** Rounding an integer to a double: 53 significant bits, ties to even.
 */
module Doubles {
  /** Up to here every integer is a double. */
  const EXACT_LIMIT: int := 0x20_0000_0000_0000

  /** The distance between the doubles around `n`. */
  function Spacing(n: nat): (u: nat)
    ensures u >= 1
  {
    if n < EXACT_LIMIT then 1 else 2 * Spacing(n / 2)
  }

  /** `q * u + rem` rounded to a multiple of `u`. */
  function Nearest(q: nat, rem: nat, u: nat): (r: nat)
    ensures q * u <= r <= q * u + u
  {
    if 2 * rem > u || (2 * rem == u && q % 2 == 1) then q * u + u else q * u
  }

  function RoundedNat(n: nat): nat {
    var u := Spacing(n);
    Nearest(n / u, n % u, u)
  }

  /** The double an integer is cast to. */
  function Rounded(i: int): int {
    if i >= 0 then RoundedNat(i) else 0 - RoundedNat(-i)
  }

  /** The reals a double column may hold: beyond the limit only integers that the cast
      leaves alone. */
  predicate IsDouble(r: real) {
    || -(EXACT_LIMIT as real) <= r <= EXACT_LIMIT as real
    || (r == r.Floor as real && Rounded(r.Floor) == r.Floor)
  }

  type Double = r: real | IsDouble(r) witness 0.0

  // --- The cast is monotone --------------------------------------------------------

  lemma {:induction false} SpacingBounds(n: nat)
    ensures n < EXACT_LIMIT * Spacing(n)
    ensures n >= EXACT_LIMIT ==> n >= EXACT_LIMIT / 2 * Spacing(n)
  {
    if n >= EXACT_LIMIT {
      SpacingBounds(n / 2);
    }
  }

  lemma {:induction false} SpacingGrows(m: nat, n: nat)
    requires m <= n
    ensures Spacing(m) == Spacing(n) || 2 * Spacing(m) <= Spacing(n)
  {
    if m >= EXACT_LIMIT {
      SpacingGrows(m / 2, n / 2);
    }
  }

  lemma TimesGrows(a: nat, b: nat, u: nat)
    requires a <= b
    ensures a * u <= b * u
  {
    assert b * u == a * u + (b - a) * u;
  }

  lemma Times(a: nat, b: nat, u: nat)
    ensures a <= b ==> a * u <= b * u
    ensures a < b ==> a * u + u <= b * u
  {
    if a <= b {
      TimesGrows(a, b, u);
    }
    if a < b {
      TimesGrows(a + 1, b, u);
      assert (a + 1) * u == a * u + u;
    }
  }

  lemma Quotient(n: nat, u: nat) returns (q: nat, rem: nat)
    requires u >= 1
    ensures q == n / u && rem == n % u && n == q * u + rem && rem < u
  {
    q, rem := n / u, n % u;
  }

  /** A cast stays below the power of two at which the spacing grows. */
  lemma NotPast(n: nat, u: nat, limit: nat)
    requires u >= 1 && n < limit * u
    ensures Nearest(n / u, n % u, u) <= limit * u
  {
    var q, rem := Quotient(n, u);
    Times(limit, q, u);
    Times(q, limit, u);
  }

  lemma NotBefore(n: nat, u: nat, start: nat)
    requires u >= 1 && start * u <= n
    ensures start * u <= Nearest(n / u, n % u, u)
  {
    var q, rem := Quotient(n, u);
    Times(q, start, u);
    Times(start, q, u);
  }

  lemma NearestGrows(m: nat, n: nat, u: nat)
    requires u >= 1 && m <= n
    ensures Nearest(m / u, m % u, u) <= Nearest(n / u, n % u, u)
  {
    var q, rem := Quotient(m, u);
    var k, rem' := Quotient(n, u);
    Times(q, k, u);
    Times(k, q, u);
  }

  lemma {:induction false} RoundedNatGrows(m: nat, n: nat)
    requires m <= n
    ensures RoundedNat(m) <= RoundedNat(n)
  {
    var u, w := Spacing(m), Spacing(n);
    SpacingGrows(m, n);
    if u == w {
      NearestGrows(m, n, u);
    } else {
      SpacingBounds(m);
      SpacingBounds(n);
      NotPast(m, u, EXACT_LIMIT);
      NotBefore(n, w, EXACT_LIMIT / 2);
    }
  }

  lemma RoundedGrows(i: int, j: int)
    requires i <= j
    ensures Rounded(i) <= Rounded(j)
  {
    if i >= 0 {
      RoundedNatGrows(i, j);
    } else if j < 0 {
      RoundedNatGrows(-j, -i);
    }
  }

  /** Up to the limit the cast is exact. */
  lemma RoundedExact(i: int)
    requires -EXACT_LIMIT <= i <= EXACT_LIMIT
    ensures Rounded(i) == i
  {
    assert Spacing(EXACT_LIMIT) == 2 * Spacing(EXACT_LIMIT / 2);
  }

  /** An integer on one side of a double is not cast to the other side of it. */
  lemma RoundedBeside(i: int, r: Double)
    ensures i as real <= r ==> Rounded(i) as real <= r
    ensures i as real >= r ==> Rounded(i) as real >= r
  {
    var limit := EXACT_LIMIT;
    assert IsDouble(r);
    RoundedExact(limit);
    RoundedExact(-limit);
    if r == r.Floor as real && Rounded(r.Floor) == r.Floor {
      if i <= r.Floor {
        RoundedGrows(i, r.Floor);
      }
      if i >= r.Floor {
        RoundedGrows(r.Floor, i);
      }
    } else if i > limit {
      RoundedGrows(limit, i);
      assert i as real > limit as real >= r;
    } else if i < -limit {
      RoundedGrows(i, -limit);
      assert (i as real) < (-limit) as real <= r;
    } else {
      RoundedExact(i);
    }
  }

  /** The first integer that is not a double. */
  lemma FirstRounded()
    ensures Rounded(EXACT_LIMIT + 1) == EXACT_LIMIT
  {
    assert Spacing(EXACT_LIMIT + 1) == 2 * Spacing((EXACT_LIMIT + 1) / 2);
  }

  // --- The cast is the nearest double ------------------------------------------------

  ghost function Pow2(e: nat): (r: nat)
    ensures r >= 1
  {
    if e == 0 then 1 else 2 * Pow2(e - 1)
  }

  /** A whole number that is a double: at most 53 significant bits, and zeros after them. */
  ghost predicate Representable(d: int) {
    exists m: int, e: nat :: Significant(d, m, e)
  }

  ghost predicate Significant(d: int, m: int, e: nat) {
    -EXACT_LIMIT <= m <= EXACT_LIMIT && d == m * Pow2(e)
  }

  ghost function Distance(a: int, b: int): nat {
    if a <= b then b - a else a - b
  }

  /** `r` is an even multiple of the gap between `r` and `d`. */
  ghost predicate EvenOf(r: int, d: int) {
    exists m: int :: m % 2 == 0 && IsProduct(r, m, d - r)
  }

  ghost predicate IsProduct(r: int, m: int, u: int) {
    r == m * u
  }

  /** No double is nearer to `i` than `r`, and one as near is only passed over for an even
      significand. */
  ghost predicate IsNearest(r: int, i: int) {
    && Representable(r)
    && forall d | Representable(d) ::
      && Distance(r, i) <= Distance(d, i)
      && (Distance(r, i) == Distance(d, i) && d != r ==> EvenOf(r, d))
  }

  lemma {:induction false} SpacingIsPower(n: nat) returns (e: nat)
    ensures Spacing(n) == Pow2(e)
  {
    if n < EXACT_LIMIT {
      e := 0;
    } else {
      var f := SpacingIsPower(n / 2);
      e := f + 1;
    }
  }

  lemma {:induction false} Pow2Adds(a: nat, b: nat)
    ensures Pow2(a + b) == Pow2(a) * Pow2(b)
  {
    if a > 0 {
      Pow2Adds(a - 1, b);
      assert Pow2(a + b) == 2 * Pow2(a - 1 + b);
    }
  }

  lemma Regrouped(m: int, x: int, u: int)
    ensures m * (x * u) == (m * x) * u
  {
  }

  /** No multiple of `u` lies strictly between two that follow each other. */
  lemma MultipleBeside(k: int, q: nat, u: nat)
    ensures k * u <= q * u || k * u >= q * u + u
  {
    if k < 0 {
      assert k * u <= 0 <= q * u;
    } else {
      Times(k, q, u);
      Times(q, k, u);
    }
  }

  /** A double with a smaller exponent than `u` is no further than half the limit of `u`s. */
  lemma SmallExponent(m: int, w: nat, u: nat, q: nat)
    requires m <= EXACT_LIMIT && 2 * w <= u && EXACT_LIMIT / 2 <= q
    ensures m * w <= q * u
  {
    var half := EXACT_LIMIT / 2;
    if m < 0 {
      assert m * w <= 0 <= q * u;
    } else {
      TimesGrows(m, 2 * half, w);
      assert 2 * half * w == half * (2 * w);
      GapGrows(half, 2 * w, u);
      TimesGrows(half, q, u);
    }
  }

  lemma GapGrows(a: nat, u: nat, w: nat)
    requires u <= w
    ensures a * u <= a * w
  {
  }

  lemma {:induction false} Pow2Grows(f: nat, e: nat)
    requires f < e
    ensures 2 * Pow2(f) <= Pow2(e)
  {
    if f + 1 < e {
      Pow2Grows(f, e - 1);
    }
  }

  /** A double with a larger exponent than `u` is a multiple of it. */
  lemma LargeExponent(d: int, m: int, f: nat, u: nat, e: nat) returns (k: int)
    requires d == m * Pow2(f) && u == Pow2(e) && f >= e
    ensures d == k * u
  {
    var x := Pow2(f - e);
    Pow2Adds(f - e, e);
    Regrouped(m, x, u);
    k := m * x;
  }

  /** No double lies strictly between the two multiples of the spacing around a number. */
  lemma DoubleBeside(d: int, m: int, f: nat, q: nat, u: nat, e: nat)
    requires Significant(d, m, f) && u == Pow2(e) && EXACT_LIMIT / 2 <= q
    ensures d <= q * u || d >= q * u + u
  {
    if f >= e {
      var k := LargeExponent(d, m, f, u, e);
      MultipleBeside(k, q, u);
    } else {
      Pow2Grows(f, e);
      SmallExponent(m, Pow2(f), u, q);
    }
  }

  /** Which of the two neighbours is taken, by distances. */
  lemma NearestOfTwo(n: nat, q: nat, rem: nat, u: nat, low: nat, d: int, r: int)
    requires u >= 1 && low == q * u && n == low + rem && rem < u && r == Nearest(q, rem, u)
    requires d <= low || d >= low + u
    ensures Distance(r, n) <= Distance(d, n)
    ensures Distance(r, n) == Distance(d, n) && d != r ==>
      (r == low && d == low + u && q % 2 == 0) || (r == low + u && d == low && q % 2 == 1)
  {
  }

  lemma NearestBig(n: nat, d: int)
    requires n >= EXACT_LIMIT && Representable(d)
    ensures Distance(RoundedNat(n), n) <= Distance(d, n)
    ensures Distance(RoundedNat(n), n) == Distance(d, n) && d != RoundedNat(n) ==> EvenOf(RoundedNat(n), d)
  {
    var u, r := Spacing(n), RoundedNat(n);
    var e := SpacingIsPower(n);
    var q, rem := Quotient(n, u);
    SpacingBounds(n);
    Times(EXACT_LIMIT / 2, q, u);
    Times(q, EXACT_LIMIT / 2, u);
    var m: int, f: nat :| Significant(d, m, f);
    DoubleBeside(d, m, f, q, u, e);
    NearestOfTwo(n, q, rem, u, q * u, d, r);
    if Distance(r, n) == Distance(d, n) && d != r {
      TieIsEven(q, u, r, d);
    }
  }

  lemma TieIsEven(q: nat, u: nat, r: int, d: int)
    requires (r == q * u && d == q * u + u && q % 2 == 0) || (r == q * u + u && d == q * u && q % 2 == 1)
    ensures EvenOf(r, d)
  {
    if r == q * u && q % 2 == 0 && d == r + u {
      EvenBy(r, d, q, u);
    } else {
      var m, gap := 0 - (q + 1), 0 - u;
      assert m * gap == q * u + u;
      EvenBy(r, d, m, gap);
    }
  }

  lemma EvenBy(r: int, d: int, m: int, u: int)
    requires m % 2 == 0 && r == m * u && u == d - r
    ensures EvenOf(r, d)
  {
    assert IsProduct(r, m, u);
  }

  lemma Cancelled(k: nat, limit: nat, u: nat)
    requires u >= 1 && k * u <= limit * u
    ensures k <= limit
  {
    Times(limit, k, u);
  }

  lemma MultipleRepresentable(k: nat, u: nat, e: nat)
    requires u == Pow2(e) && k * u <= EXACT_LIMIT * u
    ensures Representable(k * u)
  {
    Cancelled(k, EXACT_LIMIT, u);
    assert Significant(k * u, k, e);
  }

  lemma RoundedRepresentable(n: nat)
    ensures Representable(RoundedNat(n))
  {
    var u := Spacing(n);
    var e := SpacingIsPower(n);
    SpacingBounds(n);
    NotPast(n, u, EXACT_LIMIT);
    var q, rem := Quotient(n, u);
    NearestIsMultiple(q, rem, u);
    if RoundedNat(n) == q * u {
      MultipleRepresentable(q, u, e);
    } else {
      MultipleRepresentable(q + 1, u, e);
    }
  }

  lemma NearestIsMultiple(q: nat, rem: nat, u: nat)
    ensures Nearest(q, rem, u) == q * u || Nearest(q, rem, u) == (q + 1) * u
  {
  }

  lemma NearestNat(n: nat)
    ensures IsNearest(RoundedNat(n), n)
  {
    RoundedRepresentable(n);
    forall d | Representable(d)
      ensures Distance(RoundedNat(n), n) <= Distance(d, n)
      ensures Distance(RoundedNat(n), n) == Distance(d, n) && d != RoundedNat(n) ==> EvenOf(RoundedNat(n), d)
    {
      if n >= EXACT_LIMIT {
        NearestBig(n, d);
      } else {
        RoundedExact(n);
      }
    }
  }

  lemma RepresentableMirrored(d: int)
    requires Representable(d)
    ensures Representable(-d)
  {
    var m: int, e: nat :| Significant(d, m, e);
    assert (-m) * Pow2(e) == -(m * Pow2(e));
    assert Significant(-d, -m, e);
  }

  lemma EvenMirrored(r: int, d: int)
    requires EvenOf(-r, -d)
    ensures EvenOf(r, d)
  {
    var m: int :| m % 2 == 0 && IsProduct(-r, m, -d - -r);
    assert m * (d - r) == -(m * (-d - -r));
    assert IsProduct(r, m, d - r);
  }

  lemma NearestMirrored(r: int, i: int)
    requires IsNearest(-r, -i)
    ensures IsNearest(r, i)
  {
    RepresentableMirrored(-r);
    forall d | Representable(d)
      ensures Distance(r, i) <= Distance(d, i)
      ensures Distance(r, i) == Distance(d, i) && d != r ==> EvenOf(r, d)
    {
      RepresentableMirrored(d);
      if Distance(r, i) == Distance(d, i) && d != r {
        assert EvenOf(-r, -d);
        EvenMirrored(r, d);
      }
    }
  }

  /** The cast takes an integer to the nearest double, and to the even one of two. */
  lemma RoundedIsNearest(i: int)
    ensures IsNearest(Rounded(i), i)
  {
    if i >= 0 {
      NearestNat(i);
    } else {
      NearestNat(-i);
      NearestMirrored(Rounded(i), i);
    }
  }

  /** So it leaves alone exactly the integers that are doubles. */
  lemma RoundedFixesDoubles(i: int)
    ensures Rounded(i) == i <==> Representable(i)
  {
    RoundedIsNearest(i);
    if Representable(i) {
      assert Distance(Rounded(i), i) <= Distance(i, i);
    }
  }
}
