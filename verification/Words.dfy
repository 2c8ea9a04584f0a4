/**
Fixed-width unsigned machine words, as natural numbers below a power of two.

The bit operators are defined digit by digit, so that they make sense for every
word width; `AndIsBitwise`, `OrIsBitwise` and `ComplementIsBitwise` tie them to
the individual bits.  The masks used by the runtime headers are then related to
quotients and remainders.
*/
module Words {

  function Pow2(k: nat): (p: nat)
    ensures p >= 1
  {
    if k == 0 then 1 else 2 * Pow2(k - 1)
  }

  function And(a: nat, b: nat): nat {
    if a == 0 || b == 0 then 0
    else 2 * And(a / 2, b / 2) + if a % 2 == 1 && b % 2 == 1 then 1 else 0
  }

  function Or(a: nat, b: nat): nat
    decreases a + b
  {
    if a == 0 then b else if b == 0 then a
    else 2 * Or(a / 2, b / 2) + if a % 2 == 1 || b % 2 == 1 then 1 else 0
  }

  /** `~a` in a word of `w` bits. */
  function Complement(a: nat, w: nat): (c: nat)
    requires a < Pow2(w)
    ensures c < Pow2(w)
  {
    Pow2(w) - 1 - a
  }

  /** Truncation of an integer to a word of `w` bits; `%` is Euclidean, so a
      negative argument comes out as its two's complement. */
  function Wrap(x: int, w: nat): (r: nat)
    ensures r < Pow2(w)
  {
    x % Pow2(w)
  }

  /** `v >> k`. */
  function Shr(v: nat, k: nat): nat {
    QuotientNonNegative(v, Pow2(k));
    v / Pow2(k)
  }

  /** `v << k`, in a word wide enough to hold it. */
  function Shl(v: nat, k: nat): nat {
    v * Pow2(k)
  }

  /** Bit `i` of `a`. */
  predicate Bit(a: nat, i: nat) {
    if i == 0 then a % 2 == 1 else Bit(a / 2, i - 1)
  }

  predicate IsPow2(v: nat) {
    exists k: nat :: k <= v && v == Pow2(k)
  }

  // ----- the operators act bit by bit

  lemma {:induction false} ZeroHasNoBits(i: nat)
    ensures !Bit(0, i)
  {
    if i > 0 { ZeroHasNoBits(i - 1); }
  }

  lemma {:induction false} AndIsBitwise(a: nat, b: nat, i: nat)
    ensures Bit(And(a, b), i) <==> Bit(a, i) && Bit(b, i)
  {
    ZeroHasNoBits(i);
    if a != 0 && b != 0 && i > 0 {
      AndIsBitwise(a / 2, b / 2, i - 1);
      assert And(a, b) / 2 == And(a / 2, b / 2);
    }
  }

  lemma AndHalves(a: nat, b: nat)
    ensures And(a, b) == 2 * And(a / 2, b / 2) + if a % 2 == 1 && b % 2 == 1 then 1 else 0
  {
  }

  lemma {:induction false} OrIsBitwise(a: nat, b: nat, i: nat)
    ensures Bit(Or(a, b), i) <==> Bit(a, i) || Bit(b, i)
  {
    ZeroHasNoBits(i);
    if a != 0 && b != 0 && i > 0 {
      OrIsBitwise(a / 2, b / 2, i - 1);
      assert Or(a, b) / 2 == Or(a / 2, b / 2);
    }
  }

  lemma {:induction false} ComplementIsBitwise(a: nat, w: nat, i: nat)
    requires a < Pow2(w) && i < w
    ensures Bit(Complement(a, w), i) <==> !Bit(a, i)
  {
    if i > 0 {
      ComplementIsBitwise(a / 2, w - 1, i - 1);
      assert Complement(a, w) / 2 == Complement(a / 2, w - 1);
    }
  }

  lemma {:induction false} ShrIsBitwise(a: nat, k: nat, i: nat)
    ensures Bit(Shr(a, k), i) <==> Bit(a, i + k)
  {
    if k > 0 {
      ShrIsBitwise(a / 2, k - 1, i);
      HalveThenShift(a, k);
    }
  }

  lemma HalveThenShift(a: nat, k: nat)
    requires k > 0
    ensures Shr(a, k) == Shr(a / 2, k - 1)
  {
    var m := Pow2(k - 1);
    var q, r := a / 2 / m, a / 2 % m;
    PullFactor(2, q, m);
    assert a == q * (2 * m) + (2 * r + a % 2);
    DivModUnique(a, 2 * m, q, 2 * r + a % 2);
  }

  lemma {:induction false} ShlIsBitwise(a: nat, k: nat, i: nat)
    ensures Bit(Shl(a, k), i) <==> i >= k && Bit(a, i - k)
  {
    if k > 0 {
      PullFactor(2, a, Pow2(k - 1));
      var half := Shl(a, k - 1);
      assert Shl(a, k) == 2 * half;
      if i > 0 { ShlIsBitwise(a, k - 1, i - 1); }
    }
  }

  // ----- powers of two

  lemma {:induction false} Pow2Monotone(j: nat, k: nat)
    requires j <= k
    ensures Pow2(j) <= Pow2(k)
  {
    if j < k { Pow2Monotone(j, k - 1); }
  }

  lemma {:induction false} Pow2Add(j: nat, k: nat)
    ensures Pow2(j + k) == Pow2(j) * Pow2(k)
  {
    if j > 0 {
      Pow2Add(j - 1, k);
      assert Pow2(j + k) == 2 * Pow2(j - 1 + k);
      PullFactor(2, Pow2(j - 1), Pow2(k));
    }
  }

  lemma PullFactor(c: int, x: int, y: int)
    ensures (c * x) * y == c * (x * y) == x * (c * y)
  {
  }

  lemma {:induction false} BelowPow2(k: nat)
    ensures k < Pow2(k)
  {
    if k > 0 { BelowPow2(k - 1); }
  }

  lemma Pow2IsPow2(k: nat)
    ensures IsPow2(Pow2(k))
  {
    BelowPow2(k);
  }

  // ----- masks

  /** Division with remainder has one answer. */
  lemma DivModUnique(n: int, m: nat, q: int, r: int)
    requires 0 <= r < m && n == q * m + r
    ensures n / m == q && n % m == r
  {
    var q', r' := n / m, n % m;
    assert n == q' * m + r';
    assert (q - q') * m == r' - r;
    if q > q' {
      MulAtLeast(q - q', m);
    } else if q < q' {
      assert (q' - q) * m == r - r';
      MulAtLeast(q' - q, m);
    }
  }

  lemma MulAtLeast(d: int, m: nat)
    requires d >= 1
    ensures d * m >= m
  {
    assert d * m == (d - 1) * m + m;
  }

  lemma QuotientNonNegative(v: nat, m: nat)
    requires m > 0
    ensures v / m >= 0
  {
    var q := v / m;
    assert v == q * m + v % m;
    if q < 0 { MulAtLeast(-q, m); }
  }

  lemma MulMonotone(x: int, y: int, m: nat)
    requires x <= y
    ensures x * m <= y * m
  {
    assert (y - x) * m >= 0;
  }

  lemma SmallRemainder(v: nat, m: nat)
    requires v < m
    ensures v % m == v && v / m == 0
  {
    DivModUnique(v, m, 0, v);
  }

  // ----- wrapping and sums

  lemma WrapMultiple(x: int, q: int, w: nat)
    ensures Wrap(x + q * Pow2(w), w) == Wrap(x, w)
  {
    var W := Pow2(w);
    assert x + q * W == (x / W + q) * W + x % W;
    DivModUnique(x + q * W, W, x / W + q, x % W);
  }

  lemma WrapAbsorbs(x: int, y: int, w: nat)
    ensures Wrap(Wrap(x, w) + y, w) == Wrap(x + y, w)
  {
    var q := x / Pow2(w);
    assert x + y == Wrap(x, w) + y + q * Pow2(w);
    WrapMultiple(Wrap(x, w) + y, q, w);
  }

  lemma WrapAbsorbsMinus(x: int, y: int, w: nat)
    ensures Wrap(Wrap(x, w) - y, w) == Wrap(x - y, w)
  {
    var q := x / Pow2(w);
    assert x - y == Wrap(x, w) - y + q * Pow2(w);
    WrapMultiple(Wrap(x, w) - y, q, w);
  }

  lemma WrapAbsorbsNegated(x: int, y: int, w: nat)
    ensures Wrap(y - Wrap(x, w), w) == Wrap(y - x, w)
  {
    var q := x / Pow2(w);
    assert y - Wrap(x, w) == y - x + q * Pow2(w);
    WrapMultiple(y - x, q, w);
  }

  lemma WrapSmall(x: nat, w: nat)
    requires x < Pow2(w)
    ensures Wrap(x, w) == x
  {
    SmallRemainder(x, Pow2(w));
  }

  lemma SameWrap(x: int, y: int, d: int, w: nat)
    requires Wrap(x, w) == Wrap(y, w)
    ensures Wrap(x + d, w) == Wrap(y + d, w)
  {
    hide Wrap, Pow2;
    WrapAbsorbs(x, d, w);
    WrapAbsorbs(y, d, w);
  }

  // ----- masks by halves

  lemma HalfOfRemainder(v: nat, m: nat)
    requires m > 0
    ensures (v / 2) % m == (v % (2 * m)) / 2
    ensures v % (2 * m) % 2 == v % 2
  {
    var q, r := v / (2 * m), v % (2 * m);
    PullFactor(2, q, m);
    assert v == 2 * (q * m) + r;
    DivModUnique(v / 2, m, q, r / 2);
  }

  /** `v & (2^k - 1)` keeps the remainder by `2^k`. */
  lemma {:induction false} LowMask(v: nat, k: nat)
    ensures And(v, Pow2(k) - 1) == v % Pow2(k)
  {
    if k > 0 {
      LowMask(v / 2, k - 1);
      LowMaskStep(v, Pow2(k - 1));
    }
  }

  lemma LowMaskStep(v: nat, m: nat)
    requires m > 0 && And(v / 2, m - 1) == v / 2 % m
    ensures And(v, 2 * m - 1) == v % (2 * m)
  {
    HalfOfRemainder(v, m);
    assert (2 * m - 1) / 2 == m - 1;
  }

  /** `v & ~(2^k - 1)` clears the low `k` bits: it rounds down to a multiple of `2^k`. */
  lemma HighMask(v: nat, k: nat, w: nat)
    requires k <= w && v < Pow2(w)
    ensures Pow2(k) - 1 < Pow2(w)
    ensures And(v, Complement(Pow2(k) - 1, w)) == v - v % Pow2(k)
  {
    Pow2Monotone(k, w);
    HighOnes(v, k, w);
  }

  lemma {:induction false} HighOnes(v: nat, k: nat, w: nat)
    requires k <= w && v < Pow2(w)
    ensures Pow2(k) <= Pow2(w) && And(v, Pow2(w) - Pow2(k)) == v - v % Pow2(k)
  {
    Pow2Monotone(k, w);
    if k == 0 {
      AllOnes(v, w);
    } else {
      HighOnes(v / 2, k - 1, w - 1);
      HighMaskStep(v, Pow2(w - 1) - Pow2(k - 1), Pow2(k - 1));
    }
  }

  lemma HighMaskStep(v: nat, mask: nat, m: nat)
    requires m > 0 && And(v / 2, mask) == v / 2 - v / 2 % m
    ensures And(v, 2 * mask) == v - v % (2 * m)
  {
    HalfOfRemainder(v, m);
    assert 2 * mask / 2 == mask;
  }

  lemma AllOnes(v: nat, w: nat)
    requires v < Pow2(w)
    ensures And(v, Pow2(w) - 1) == v
  {
    LowMask(v, w);
    SmallRemainder(v, Pow2(w));
  }

  lemma {:induction false} AndSelf(v: nat)
    ensures And(v, v) == v
  {
    if v > 0 { AndSelf(v / 2); }
  }

  /** Or-ing in a value above all the bits of `a` is addition. */
  lemma {:induction false} OrDisjoint(a: nat, b: nat, k: nat)
    requires a < Pow2(k)
    ensures Or(a, Shl(b, k)) == a + Shl(b, k)
  {
    if k > 0 {
      OrDisjoint(a / 2, b, k - 1);
      PullFactor(2, b, Pow2(k - 1));
      OrStep(a, b * Pow2(k - 1));
    }
  }

  lemma OrStep(a: nat, s: nat)
    requires Or(a / 2, s) == a / 2 + s
    ensures Or(a, 2 * s) == a + 2 * s
  {
    assert 2 * s / 2 == s;
  }
}
