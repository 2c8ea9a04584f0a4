/**
Power-of-two alignment, wrapping division and page covers on words of `w` bits.

Each function below is the bit trick or wrapping expression of the header; the
lemmas relate it to the mathematical notion, for every word width and every
argument, including those where an intermediate result wraps.
*/
module Alignment {
  import opened Words

  predicate Multiple(n: nat, d: nat) {
    if d == 0 then n == 0 else n % d == 0
  }

  /** `r` is the least multiple of `a` that is not below `v`. */
  ghost predicate IsRoundUp(r: nat, v: nat, a: nat) {
    && r >= v && Multiple(r, a)
    && forall m: nat :: m >= v && Multiple(m, a) ==> r <= m
  }

  /** `r` is the greatest multiple of `a` that is not above `v`. */
  ghost predicate IsRoundDown(r: nat, v: nat, a: nat) {
    && r <= v && Multiple(r, a)
    && forall m: nat :: m <= v && Multiple(m, a) ==> m <= r
  }

  function RoundUp(v: nat, a: nat): nat
    requires a > 0
  {
    (v + a - 1) / a * a
  }

  function RoundDown(v: nat, a: nat): nat
    requires a > 0
  {
    v / a * a
  }

  // ----- the header's functions

  function HostAlign(value: nat, alignment: nat, w: nat): (r: nat) {
    And(Wrap(value + Wrap(alignment - 1, w), w), Complement(Wrap(alignment - 1, w), w))
  }

  predicate HasAlignment(value: nat, alignment: nat, w: nat) {
    HostAlign(value, alignment, w) == value
  }

  predicate IsPowerOfTwo(value: nat, w: nat) {
    value != 0 && And(value, Wrap(value - 1, w)) == 0
  }

  /** The operands are unsigned: `-1`, `-lhs` and the outer negation all wrap. */
  function CeilDiv(lhs: nat, rhs: nat, w: nat): (q: nat)
    requires rhs != 0
  {
    if lhs != 0 && (lhs > 0) == (rhs > 0)
    then Wrap(Wrap(lhs + Wrap(if rhs > 0 then -1 else 1, w), w) / rhs + 1, w)
    else Wrap(-(Wrap(-lhs, w) / rhs), w)
  }

  // ----- rounding

  lemma QuotientTimes(n: nat, d: nat)
    requires d > 0
    ensures n == n / d * d + n % d
    ensures Multiple(n / d * d, d)
  {
    DivModUnique(n / d * d, d, n / d, 0);
  }

  /** Multiples of `d` are at least `d` apart. */
  lemma MultiplesApart(m: nat, n: nat, d: nat)
    requires d > 0 && Multiple(m, d) && Multiple(n, d) && m < n
    ensures m + d <= n
  {
    QuotientTimes(m, d);
    QuotientTimes(n, d);
    assert n - m == (n / d - m / d) * d;
    if n / d > m / d { MulAtLeast(n / d - m / d, d); }
  }

  lemma RoundUpIsLeast(v: nat, a: nat)
    requires a > 0
    ensures IsRoundUp(RoundUp(v, a), v, a)
    ensures RoundUp(v, a) < v + a
  {
    QuotientTimes(v + a - 1, a);
    forall m: nat | m >= v && Multiple(m, a)
      ensures RoundUp(v, a) <= m
    {
      if m < RoundUp(v, a) { MultiplesApart(m, RoundUp(v, a), a); }
    }
  }

  lemma RoundDownIsGreatest(v: nat, a: nat)
    requires a > 0
    ensures IsRoundDown(RoundDown(v, a), v, a)
    ensures v < RoundDown(v, a) + a
    ensures RoundDown(v, a) == v - v % a
  {
    QuotientTimes(v, a);
    forall m: nat | m <= v && Multiple(m, a)
      ensures m <= RoundDown(v, a)
    {
      if RoundDown(v, a) < m { MultiplesApart(RoundDown(v, a), m, a); }
    }
  }

  // ----- align

  /** A word-sized power of two divides the word modulus. */
  lemma Pow2Divides(a: nat, w: nat) returns (k: nat)
    requires IsPow2(a) && a < Pow2(w)
    ensures k < w && a == Pow2(k)
    ensures Multiple(Pow2(w), a)
  {
    k :| a == Pow2(k);
    if w <= k { Pow2Monotone(w, k); }
    Pow2Add(w - k, k);
    DivModUnique(Pow2(w), a, Pow2(w - k), 0);
  }

  /** The mask form rounds a word down. */
  lemma MaskRoundsDown(v: nat, a: nat, w: nat)
    requires IsPow2(a) && a < Pow2(w) && v < Pow2(w)
    ensures Wrap(a - 1, w) == a - 1
    ensures And(v, Complement(a - 1, w)) == RoundDown(v, a)
  {
    var k := Pow2Divides(a, w);
    SmallRemainder(a - 1, Pow2(w));
    HighMask(v, k, w);
    RoundDownIsGreatest(v, a);
  }

  /** On every word, `iree_host_align` is rounding up, reduced to the word. */
  lemma AlignIsRoundUpWrapped(v: nat, a: nat, w: nat)
    requires IsPow2(a) && a < Pow2(w) && v < Pow2(w)
    ensures RoundUp(v, a) <= Pow2(w)
    ensures HostAlign(v, a, w) == if RoundUp(v, a) == Pow2(w) then 0 else RoundUp(v, a)
  {
    var x := v + a - 1;
    MaskRoundsDown(Wrap(x, w), a, w);
    assert HostAlign(v, a, w) == RoundDown(Wrap(x, w), a);
    if x < Pow2(w) {
      WrapSmall(x, w);
      RoundDownIsGreatest(x, a);
    } else {
      TopRoundsUp(v, a, w);
    }
  }

  /** In the last block of the word, rounding up gives the modulus and the mask zero. */
  lemma TopRoundsUp(v: nat, a: nat, w: nat)
    requires IsPow2(a) && a < Pow2(w) && v < Pow2(w) <= v + a - 1
    ensures RoundUp(v, a) == Pow2(w) && RoundDown(Wrap(v + a - 1, w), a) == 0
  {
    var W, x := Pow2(w), v + a - 1;
    var _ := Pow2Divides(a, w);
    RoundUpIsLeast(v, a);
    if RoundUp(v, a) < W { MultiplesApart(RoundUp(v, a), W, a); }
    DivModUnique(x, W, 1, x - W);
    SmallRemainder(x - W, a);
  }

  /** The mask form is the least multiple not below the value exactly when that
      multiple fits the word; the only other outcome is zero. */
  lemma AlignIsLeastMultiple(v: nat, a: nat, w: nat, r: nat)
    requires IsPow2(a) && a < Pow2(w) && v < Pow2(w)
    requires IsRoundUp(r, v, a)
    ensures HostAlign(v, a, w) == r <==> r < Pow2(w)
    ensures r >= Pow2(w) ==> HostAlign(v, a, w) == 0
  {
    RoundUpIsLeast(v, a);
    assert r == RoundUp(v, a);
    AlignIsRoundUpWrapped(v, a, w);
  }

  /** The alignment test is exact on every word, although the inner align may wrap. */
  lemma HasAlignmentIsExact(v: nat, a: nat, w: nat)
    requires IsPow2(a) && a < Pow2(w) && v < Pow2(w)
    ensures HasAlignment(v, a, w) <==> Multiple(v, a)
  {
    RoundUpIsLeast(v, a);
    AlignIsRoundUpWrapped(v, a, w);
    SmallRemainder(0, a);
    assert Multiple(0, a);
    assert v == 0 ==> RoundUp(v, a) == 0;
  }

  /** `v & (v - 1)` vanishes exactly on the powers of two. */
  lemma PowerOfTwoTestIsExact(v: nat, w: nat)
    requires v < Pow2(w)
    ensures IsPowerOfTwo(v, w) <==> IsPow2(v)
  {
    if v == 0 {
    } else {
      SmallRemainder(v - 1, Pow2(w));
      PredecessorTest(v);
    }
  }

  lemma {:induction false} PredecessorTest(v: nat)
    requires v > 0
    ensures And(v, v - 1) == 0 <==> IsPow2(v)
  {
    if v == 1 {
      assert v == Pow2(0);
    } else if v % 2 == 1 {
      AndSelf(v / 2);
      assert (v - 1) / 2 == v / 2;
      forall k: nat
        ensures v != Pow2(k)
      {
      }
    } else {
      var u := v / 2;
      PredecessorTest(u);
      assert (v - 1) / 2 == u - 1;
      if IsPow2(u) {
        var k: nat :| u == Pow2(k);
        assert Pow2(k + 1) == v;
        Pow2IsPow2(k + 1);
      }
      if IsPow2(v) {
        var k: nat :| k <= v && v == Pow2(k);
        if k > 0 {
          assert Pow2(k) == 2 * Pow2(k - 1);
          Pow2IsPow2(k - 1);
        }
      }
    }
  }

  // ----- division

  /** No step of the wrapping expression loses anything. */
  lemma CeilDivUnwrapped(lhs: nat, rhs: nat, w: nat)
    requires lhs < Pow2(w) && 0 < rhs < Pow2(w)
    ensures CeilDiv(lhs, rhs, w) == if lhs == 0 then 0 else (lhs - 1) / rhs + 1
  {
    var W := Pow2(w);
    if lhs == 0 {
      SmallRemainder(0, W);
      SmallRemainder(0, rhs);
    } else {
      DivModUnique(-1, W, -1, W - 1);
      DivModUnique(lhs + (W - 1), W, 1, lhs - 1);
      CeilingOfPredecessor(lhs, rhs);
      SmallRemainder((lhs - 1) / rhs + 1, W);
    }
  }

  /** The wrapping expression is the mathematical ceiling for every word. */
  lemma CeilDivIsCeiling(lhs: nat, rhs: nat, w: nat)
    requires lhs < Pow2(w) && 0 < rhs < Pow2(w)
    ensures CeilDiv(lhs, rhs, w) * rhs == RoundUp(lhs, rhs)
    ensures CeilDiv(lhs, rhs, w) <= lhs
  {
    CeilDivUnwrapped(lhs, rhs, w);
    if lhs == 0 {
      SmallRemainder(rhs - 1, rhs);
    } else {
      CeilingOfPredecessor(lhs, rhs);
    }
  }

  lemma CeilingOfPredecessor(n: nat, d: nat)
    requires n > 0 && d > 0
    ensures 0 <= (n - 1) / d < n
    ensures ((n - 1) / d + 1) * d == RoundUp(n, d)
  {
    var q, r := (n - 1) / d, (n - 1) % d;
    QuotientTimes(n - 1, d);
    if q >= n { MulLarge(q, d); }
    assert n + d - 1 == (q + 1) * d + r;
    DivModUnique(n + d - 1, d, q + 1, r);
  }

  lemma MulLarge(q: nat, d: nat)
    requires d > 0
    ensures q * d >= q
  {
    assert q * d == q * (d - 1) + q;
  }

  /** `ceil_div(v, a) * a`, computed in the word, is `align(v, a)`. */
  lemma CeilDivTimesIsAlign(v: nat, a: nat, w: nat)
    requires IsPow2(a) && a < Pow2(w) && v < Pow2(w)
    ensures Wrap(CeilDiv(v, a, w) * a, w) == HostAlign(v, a, w)
  {
    CeilDivIsCeiling(v, a, w);
    AlignIsRoundUpWrapped(v, a, w);
    if RoundUp(v, a) == Pow2(w) {
      DivModUnique(Pow2(w), Pow2(w), 1, 0);
    } else {
      SmallRemainder(RoundUp(v, a), Pow2(w));
    }
  }
}
