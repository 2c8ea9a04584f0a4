/**
Greatest common divisor and least common multiple of device sizes.
*/
module NumberTheory {
  import opened Words
  import opened Alignment

  function Gcd(a: nat, b: nat): nat
    decreases b
  {
    if b == 0 then a else Gcd(b, a % b)
  }

  /** `a * (b / gcd(a, b))` in a word of `w` bits.  With both arguments zero the
      header divides by zero. */
  function Lcm(a: nat, b: nat, w: nat): nat
    requires a != 0 || b != 0
  {
    Wrap(LcmProduct(a, b), w)
  }

  function LcmProduct(a: nat, b: nat): nat
    requires a != 0 || b != 0
  {
    GcdPositive(a, b);
    var q: nat := b / Gcd(a, b);
    a * q
  }

  /** `g` is a common divisor and every common divisor is at most `g`. */
  ghost predicate IsGreatestCommonDivisor(g: nat, a: nat, b: nat) {
    && Multiple(a, g) && Multiple(b, g)
    && forall d: nat :: Multiple(a, d) && Multiple(b, d) ==> d <= g
  }

  /** The common multiples of `a` and `b` are exactly the multiples of `l`. */
  ghost predicate IsLeastCommonMultiple(l: nat, a: nat, b: nat) {
    forall n: nat :: Multiple(n, l) <==> Multiple(n, a) && Multiple(n, b)
  }

  // ----- multiples

  lemma Quotient(n: nat, d: nat) returns (q: nat)
    requires Multiple(n, d)
    ensures n == q * d
  {
    if d == 0 {
      q := 0;
    } else {
      q := n / d;
      QuotientTimes(n, d);
    }
  }

  lemma ProductIsMultiple(q: int, d: nat, n: nat)
    requires n == q * d
    ensures Multiple(n, d)
  {
    if d > 0 { DivModUnique(n, d, q, 0); }
  }

  /** Replacing `a` by its remainder keeps the common divisors. */
  lemma EuclidStep(a: nat, b: nat, d: nat)
    requires b > 0
    ensures Multiple(a, d) && Multiple(b, d) <==> Multiple(b, d) && Multiple(a % b, d)
  {
    QuotientTimes(a, b);
    if Multiple(b, d) {
      var y := Quotient(b, d);
      assert a == a / b * (y * d) + a % b;
      assert a / b * (y * d) == (a / b * y) * d;
      if Multiple(a, d) {
        var x := Quotient(a, d);
        assert a % b == (x - a / b * y) * d;
        ProductIsMultiple(x - a / b * y, d, a % b);
      }
      if Multiple(a % b, d) {
        var z := Quotient(a % b, d);
        assert a == (a / b * y + z) * d;
        ProductIsMultiple(a / b * y + z, d, a);
      }
    }
  }

  // ----- greatest common divisor

  lemma {:induction false} GcdPositive(a: nat, b: nat)
    requires a != 0 || b != 0
    ensures Gcd(a, b) > 0
    decreases b
  {
    if b > 0 { GcdPositive(b, a % b); }
  }

  /** The common divisors of two values are the divisors of their gcd. */
  lemma {:induction false} GcdCommonDivisors(a: nat, b: nat, d: nat)
    ensures Multiple(Gcd(a, b), d) <==> Multiple(a, d) && Multiple(b, d)
    decreases b
  {
    if b == 0 {
      ProductIsMultiple(0, d, 0);
    } else {
      EuclidStep(a, b, d);
      GcdCommonDivisors(b, a % b, d);
    }
  }

  lemma GcdIsGreatest(a: nat, b: nat)
    requires a != 0 || b != 0
    ensures IsGreatestCommonDivisor(Gcd(a, b), a, b)
  {
    var g := Gcd(a, b);
    GcdPositive(a, b);
    ProductIsMultiple(1, g, g);
    GcdCommonDivisors(a, b, g);
    forall d: nat | Multiple(a, d) && Multiple(b, d)
      ensures d <= g
    {
      GcdCommonDivisors(a, b, d);
      var q := Quotient(g, d);
      MulAtLeast(q, d);
    }
  }

  lemma {:induction false} Bezout(a: nat, b: nat) returns (x: int, y: int)
    ensures Gcd(a, b) == x * a + y * b
    decreases b
  {
    if b == 0 {
      x, y := 1, 0;
    } else {
      var x', y' := Bezout(b, a % b);
      x, y := y', x' - y' * (a / b);
      QuotientTimes(a, b);
      BezoutStep(a, b, a / b, a % b, x', y');
    }
  }

  lemma BezoutStep(a: int, b: int, q: int, r: int, x: int, y: int)
    requires a == q * b + r
    ensures x * b + y * r == y * a + (x - y * q) * b
  {
    PullFactor(y, q, b);
    assert y * a == y * (q * b) + y * r;
    assert (x - y * q) * b == x * b - (y * q) * b;
  }

  // ----- least common multiple

  lemma ReassociateProduct(a: int, b: int, c: int)
    ensures a * (b * c) == (a * b) * c
    ensures a * b == b * a
  {
  }

  /** A common multiple of `a` and `b` is a multiple of `a * (b / gcd)`. */
  lemma CommonMultiple(a: nat, b: nat, n: nat)
    requires a != 0 || b != 0
    requires Multiple(n, a) && Multiple(n, b)
    ensures Multiple(n, LcmProduct(a, b))
  {
    var g := Gcd(a, b);
    GcdPositive(a, b);
    GcdIsGreatest(a, b);
    var b' := Quotient(b, g);
    DivModUnique(b, g, b', 0);
    var p := Quotient(n, a);
    var q := Quotient(n, b);
    var x, y := Bezout(a, b);
    var t := q * x + p * y;
    BezoutTimes(a, b, g, x, y, n, p, q);
    ReassociateProduct(a, b', g);
    ReassociateProduct(t, a * b', g);
    CancelFactor(n, t * (a * b'), g);
    ProductIsMultiple(t, a * b', n);
  }

  lemma BezoutTimes(a: int, b: int, g: int, x: int, y: int, n: int, p: int, q: int)
    requires g == x * a + y * b && n == p * a && n == q * b
    ensures n * g == (q * x + p * y) * (a * b)
  {
    assert n * g == n * (x * a) + n * (y * b);
    FourFactors(q, b, x, a);
    FourFactors(p, a, y, b);
  }

  lemma FourFactors(q: int, b: int, x: int, a: int)
    ensures (q * b) * (x * a) == (q * x) * (a * b) == (q * x) * (b * a)
  {
    PullFactor(q, b, x * a);
    PullFactor(q, x, b * a);
    PullFactor(x, b, a);
  }

  lemma CancelFactor(m: int, n: int, g: int)
    requires g > 0 && m * g == n * g
    ensures m == n
  {
    assert (m - n) * g == 0;
  }

  lemma MultipleOfProduct(a: nat, a': nat, b: nat, b': nat, g: nat, n: nat)
    requires a == a' * g && b == b' * g && Multiple(n, a * b')
    ensures Multiple(n, a) && Multiple(n, b)
  {
    var q := Quotient(n, a * b');
    assert n == (q * b') * a;
    ProductIsMultiple(q * b', a, n);
    assert a * b' == a' * b;
    assert n == (q * a') * b;
    ProductIsMultiple(q * a', b, n);
  }

  /** The unwrapped product has the defining property of the least common multiple. */
  lemma ProductOverGcd(a: nat, b: nat)
    requires a != 0 || b != 0
    ensures IsLeastCommonMultiple(LcmProduct(a, b), a, b)
  {
    var g := Gcd(a, b);
    GcdIsGreatest(a, b);
    GcdPositive(a, b);
    var a' := Quotient(a, g);
    var b' := Quotient(b, g);
    DivModUnique(b, g, b', 0);
    var l := a * b';
    forall n: nat
      ensures Multiple(n, l) <==> Multiple(n, a) && Multiple(n, b)
    {
      if Multiple(n, l) { MultipleOfProduct(a, a', b, b', g, n); }
      if Multiple(n, a) && Multiple(n, b) { CommonMultiple(a, b, n); }
    }
  }

  lemma LeastCommonMultipleUnique(l: nat, l': nat, a: nat, b: nat)
    requires IsLeastCommonMultiple(l, a, b) && IsLeastCommonMultiple(l', a, b)
    ensures l == l'
  {
    ProductIsMultiple(1, l, l);
    ProductIsMultiple(1, l', l');
    assert Multiple(l, l') && Multiple(l', l);
    var q := Quotient(l, l');
    var q' := Quotient(l', l);
    if l > 0 && l' > 0 {
      MulAtLeast(q, l');
      MulAtLeast(q', l);
    }
  }

  /** The word-sized lcm is the least common multiple exactly when that fits the word. */
  lemma LcmIsExactIffItFits(a: nat, b: nat, w: nat, l: nat)
    requires a != 0 || b != 0
    requires IsLeastCommonMultiple(l, a, b)
    ensures Lcm(a, b, w) == l <==> l < Pow2(w)
  {
    ProductOverGcd(a, b);
    LeastCommonMultipleUnique(l, LcmProduct(a, b), a, b);
    if l < Pow2(w) { SmallRemainder(l, Pow2(w)); }
  }
}
