/**
Byte-wise little-endian stores and loads, and the native byte order of words.

A store writes the bytes of a value one assignment at a time through an index
map: the identity on little-endian hosts, the mirror image otherwise.
*/
module LittleEndian {
  import opened Words

  type Byte = b: nat | b < 256

  datatype Order = Little | Big

  /** The n-byte index map `IREE_LE_IDX_n(i)`. */
  function Index(order: Order, n: nat, i: nat): (j: nat)
    requires i < n
    ensures j < n
  {
    if order.Little? then i else n - 1 - i
  }

  /** The bytes of `s`, permuted by the index map of its length. */
  function Permuted(order: Order, s: seq<Byte>): (r: seq<Byte>)
    ensures |r| == |s| && forall i :: 0 <= i < |s| ==> r[i] == s[Index(order, |s|, i)]
  {
    seq(|s|, i requires 0 <= i < |s| => s[Index(order, |s|, i)])
  }

  /** The value of a byte string, least significant byte first. */
  function LeValue(s: seq<Byte>): nat {
    if s == [] then 0 else s[0] + 256 * LeValue(s[1..])
  }

  /** The low `n` bytes of `v`, least significant first. */
  function LeBytes(v: nat, n: nat): (s: seq<Byte>)
    ensures |s| == n
  {
    if n == 0 then [] else [v % 256] + LeBytes(v / 256, n - 1)
  }

  /** The n-byte memory image of `v`. */
  function NativeBytes(order: Order, v: nat, n: nat): (s: seq<Byte>)
    ensures |s| == n
  {
    Permuted(order, LeBytes(v, n))
  }

  /** The value of the memory image `s`. */
  function NativeValue(order: Order, s: seq<Byte>): nat {
    LeValue(Permuted(order, s))
  }

  /** `s` with `bytes` written from index `at` on. */
  function Overwrite(s: seq<Byte>, at: nat, bytes: seq<Byte>): (r: seq<Byte>)
    requires at + |bytes| <= |s|
    ensures |r| == |s|
    ensures forall j :: 0 <= j < |s| ==> r[j] == if at <= j < at + |bytes| then bytes[j - at] else s[j]
  {
    s[..at] + bytes + s[at + |bytes|..]
  }

  // ----- byte strings and values

  lemma PermutedTwice(order: Order, s: seq<Byte>)
    ensures Permuted(order, Permuted(order, s)) == s
  {
  }

  lemma {:induction false} BytesOfValue(s: seq<Byte>)
    ensures LeBytes(LeValue(s), |s|) == s
    ensures LeValue(s) < Pow2(8 * |s|)
  {
    if s != [] {
      BytesOfValue(s[1..]);
      EightDoublings(8 * (|s| - 1));
      BytePlus(s[0], LeValue(s[1..]));
    }
  }

  lemma BytePlus(b: Byte, v: nat)
    ensures (b + 256 * v) % 256 == b && (b + 256 * v) / 256 == v
  {
  }

  lemma EightDoublings(k: nat)
    ensures Pow2(k + 8) == 256 * Pow2(k)
  {
    Pow2Add(8, k);
    assert Pow2(8) == 256;
  }

  lemma {:induction false} ValueOfBytes(v: nat, n: nat)
    requires v < Pow2(8 * n)
    ensures LeValue(LeBytes(v, n)) == v
  {
    if n > 0 {
      EightDoublings(8 * (n - 1));
      ValueOfBytes(v / 256, n - 1);
      assert LeBytes(v, n)[1..] == LeBytes(v / 256, n - 1);
    }
  }

  /** A word and its memory image determine each other. */
  lemma NativeRoundTrip(order: Order, v: nat, n: nat)
    requires v < Pow2(8 * n)
    ensures NativeValue(order, NativeBytes(order, v, n)) == v
  {
    PermutedTwice(order, LeBytes(v, n));
    ValueOfBytes(v, n);
  }

  lemma NativeImage(order: Order, s: seq<Byte>)
    ensures NativeValue(order, s) < Pow2(8 * |s|)
    ensures NativeBytes(order, NativeValue(order, s), |s|) == s
  {
    BytesOfValue(Permuted(order, s));
    PermutedTwice(order, s);
  }

  /** Byte `i` is what `(uint8_t)(v >> 8 * i)` keeps. */
  lemma {:induction false} ByteOfShift(v: nat, n: nat, i: nat)
    requires i < n
    ensures LeBytes(v, n)[i] == ShiftedByte(v, 8 * i)
  {
    if i > 0 {
      ByteOfShift(v / 256, n - 1, i - 1);
      DropByte(v, 8 * (i - 1));
    }
  }

  /** Byte `i` of the memory image: the lowest byte comes first on a little-endian host and
      last on a big-endian one. */
  lemma NativeByteAt(order: Order, v: nat, n: nat, i: nat)
    requires i < n
    ensures order.Little? ==> NativeBytes(order, v, n)[i] == v / Pow2(8 * i) % 256
    ensures order.Big? ==> NativeBytes(order, v, n)[i] == v / Pow2(8 * (n - 1 - i)) % 256
  {
    ByteOfShift(v, n, Index(order, n, i));
  }

  /** Shifting and masking above the low byte. */
  lemma DropByte(v: nat, k: nat)
    ensures Shr(v, k + 8) == Shr(v / 256, k)
    ensures Wrap(v, k + 8) % 256 == v % 256 && Wrap(v, k + 8) / 256 == Wrap(v / 256, k)
  {
    EightDoublings(k);
    DivideTwice(v, 256, Pow2(k));
  }

  /** Dividing by a product, one factor at a time. */
  lemma DivideTwice(v: nat, a: nat, b: nat)
    requires a > 0 && b > 0
    ensures a * b > 0 && v / (a * b) == v / a / b
    ensures v % (a * b) % a == v % a && v % (a * b) / a == v / a % b
  {
    var q, r := v / a, v % a;
    var q', r' := q / b, q % b;
    NestedQuotient(v, a, b, q, r, q', r');
    DivModUnique(v, a * b, q', r' * a + r);
    DivModUnique(r' * a + r, a, r', r);
  }

  lemma NestedQuotient(v: nat, a: nat, b: nat, q: nat, r: nat, q': nat, r': nat)
    requires v == q * a + r && q == q' * b + r' && r < a && r' < b
    ensures a * b > 0 && v == q' * (a * b) + (r' * a + r) && 0 <= r' * a + r < a * b
  {
    PullFactor(q', b, a);
    assert (q' * b + r') * a == (q' * b) * a + r' * a;
    MulMonotone(r' + 1, b, a);
    MulMonotone(0, r', a);
  }

  lemma {:induction false} ValueAppend(s: seq<Byte>, b: Byte)
    ensures LeValue(s + [b]) == LeValue(s) + Shl(b, 8 * |s|)
  {
    if s == [] {
      assert s + [b] == [b];
    } else {
      ValueAppend(s[1..], b);
      assert (s + [b])[1..] == s[1..] + [b];
      EightDoublings(8 * (|s| - 1));
      PullFactor(256, b, Pow2(8 * (|s| - 1)));
    }
  }

  // ----- loads

  function LoadU16(p: seq<Byte>, order: Order): nat
    requires |p| == 2
  {
    Or(p[Index(order, 2, 0)], Shl(p[Index(order, 2, 1)], 8))
  }

  function LoadU32(p: seq<Byte>, order: Order): nat
    requires |p| == 4
  {
    Or(Or(Or(p[Index(order, 4, 0)],
             Shl(p[Index(order, 4, 1)], 8)),
          Shl(p[Index(order, 4, 2)], 16)),
       Shl(p[Index(order, 4, 3)], 24))
  }

  function LoadU64(p: seq<Byte>, order: Order): nat
    requires |p| == 8
  {
    Or(Or(Or(Or(Or(Or(Or(p[Index(order, 8, 0)],
                         Shl(p[Index(order, 8, 1)], 8)),
                      Shl(p[Index(order, 8, 2)], 16)),
                   Shl(p[Index(order, 8, 3)], 24)),
                Shl(p[Index(order, 8, 4)], 32)),
             Shl(p[Index(order, 8, 5)], 40)),
          Shl(p[Index(order, 8, 6)], 48)),
       Shl(p[Index(order, 8, 7)], 56))
  }

  /** Or-ing in the next byte appends it. */
  lemma LoadStep(s: seq<Byte>, i: nat)
    requires i < |s|
    ensures Or(LeValue(s[..i]), Shl(s[i], 8 * i)) == LeValue(s[..i + 1])
  {
    BytesOfValue(s[..i]);
    OrDisjoint(LeValue(s[..i]), s[i], 8 * i);
    ValueAppend(s[..i], s[i]);
    assert s[..i] + [s[i]] == s[..i + 1];
  }

  lemma FirstByte(s: seq<Byte>)
    requires |s| > 0
    ensures LeValue(s[..1]) == s[0]
  {
    assert s[..1][1..] == [];
  }

  lemma LoadU16Value(p: seq<Byte>, order: Order)
    requires |p| == 2
    ensures LoadU16(p, order) == NativeValue(order, p)
  {
    var s := Permuted(order, p);
    FirstByte(s);
    LoadStep(s, 1);
    assert s[..2] == s;
  }

  lemma LoadU32Value(p: seq<Byte>, order: Order)
    requires |p| == 4
    ensures LoadU32(p, order) == NativeValue(order, p)
  {
    var s := Permuted(order, p);
    FirstByte(s);
    LoadStep(s, 1);
    LoadStep(s, 2);
    LoadStep(s, 3);
    assert s[..4] == s;
  }

  lemma LoadU64Value(p: seq<Byte>, order: Order)
    requires |p| == 8
    ensures LoadU64(p, order) == NativeValue(order, p)
  {
    hide Or, Shl, LeValue;
    var s := Permuted(order, p);
    FirstByte(s);
    LoadStep(s, 1);
    LoadStep(s, 2);
    LoadStep(s, 3);
    LoadStep(s, 4);
    LoadStep(s, 5);
    LoadStep(s, 6);
    LoadStep(s, 7);
    assert s[..8] == s;
  }

  // ----- stores (the index map is chosen when the header is compiled)

  /** `(uint8_t)(v >> k)`. */
  function ShiftedByte(v: nat, k: nat): Byte { Shr(v, k) % 256 }

  method StoreU16(p: array<Byte>, at: nat, value: nat, order: Order)
    requires at + 2 <= p.Length
    modifies p
    ensures p[..] == Overwrite(old(p[..]), at, NativeBytes(order, value, 2))
  {
    hide ShiftedByte, NativeBytes;
    if order.Little? {
      p[at + 0] := ShiftedByte(value, 0);
      p[at + 1] := ShiftedByte(value, 8);
    } else {
      p[at + 1] := ShiftedByte(value, 0);
      p[at + 0] := ShiftedByte(value, 8);
    }
    StoredBytes(old(p[..]), p[..], at, value, 2, order);
  }

  method StoreU32(p: array<Byte>, at: nat, value: nat, order: Order)
    requires at + 4 <= p.Length
    modifies p
    ensures p[..] == Overwrite(old(p[..]), at, NativeBytes(order, value, 4))
  {
    hide ShiftedByte, NativeBytes;
    if order.Little? {
      p[at + 0] := ShiftedByte(value, 0);
      p[at + 1] := ShiftedByte(value, 8);
      p[at + 2] := ShiftedByte(value, 16);
      p[at + 3] := ShiftedByte(value, 24);
    } else {
      p[at + 3] := ShiftedByte(value, 0);
      p[at + 2] := ShiftedByte(value, 8);
      p[at + 1] := ShiftedByte(value, 16);
      p[at + 0] := ShiftedByte(value, 24);
    }
    StoredBytes(old(p[..]), p[..], at, value, 4, order);
  }

  method StoreU64(p: array<Byte>, at: nat, value: nat, order: Order)
    requires at + 8 <= p.Length
    modifies p
    ensures p[..] == Overwrite(old(p[..]), at, NativeBytes(order, value, 8))
  {
    hide ShiftedByte, NativeBytes;
    if order.Little? {
      p[at + 0] := ShiftedByte(value, 0);
      p[at + 1] := ShiftedByte(value, 8);
      p[at + 2] := ShiftedByte(value, 16);
      p[at + 3] := ShiftedByte(value, 24);
      p[at + 4] := ShiftedByte(value, 32);
      p[at + 5] := ShiftedByte(value, 40);
      p[at + 6] := ShiftedByte(value, 48);
      p[at + 7] := ShiftedByte(value, 56);
    } else {
      p[at + 7] := ShiftedByte(value, 0);
      p[at + 6] := ShiftedByte(value, 8);
      p[at + 5] := ShiftedByte(value, 16);
      p[at + 4] := ShiftedByte(value, 24);
      p[at + 3] := ShiftedByte(value, 32);
      p[at + 2] := ShiftedByte(value, 40);
      p[at + 1] := ShiftedByte(value, 48);
      p[at + 0] := ShiftedByte(value, 56);
    }
    StoredBytes(old(p[..]), p[..], at, value, 8, order);
  }

  lemma MappedByte(order: Order, value: nat, n: nat, j: nat)
    requires j < n
    ensures NativeBytes(order, value, n)[j] == ShiftedByte(value, 8 * Index(order, n, j))
  {
    ByteOfShift(value, n, Index(order, n, j));
  }

  /** A buffer whose mapped positions hold the shifted bytes is the overwritten buffer. */
  lemma StoredBytes(s: seq<Byte>, t: seq<Byte>, at: nat, value: nat, n: nat, order: Order)
    requires |s| == |t| && at + n <= |s|
    requires forall j :: 0 <= j < |s| && !(at <= j < at + n) ==> t[j] == s[j]
    requires forall i :: 0 <= i < n ==> t[at + Index(order, n, i)] == ShiftedByte(value, 8 * i)
    ensures t == Overwrite(s, at, NativeBytes(order, value, n))
  {
    hide Overwrite, NativeBytes, ShiftedByte;
    forall j | 0 <= j < n
      ensures t[at + j] == NativeBytes(order, value, n)[j]
    {
      var i := Index(order, n, j);
      assert Index(order, n, i) == j;
      MappedByte(order, value, n, j);
    }
  }

  // ----- store then load; wide stores as narrow ones

  /** What a store of each width leaves is what the load of that width reads back. */
  lemma StoreThenLoad(s: seq<Byte>, at: nat, value: nat, n: nat, order: Order)
    requires n in {2, 4, 8} && at + n <= |s| && value < Pow2(8 * n)
    ensures var t := Overwrite(s, at, NativeBytes(order, value, n))[at..at + n];
            value == if n == 2 then LoadU16(t, order) else if n == 4 then LoadU32(t, order) else LoadU64(t, order)
  {
    var t := Overwrite(s, at, NativeBytes(order, value, n))[at..at + n];
    assert t == NativeBytes(order, value, n);
    NativeRoundTrip(order, value, n);
    if n == 2 { LoadU16Value(t, order); } else if n == 4 { LoadU32Value(t, order); } else { LoadU64Value(t, order); }
  }

  lemma {:induction false} SplitBytes(v: nat, m: nat, n: nat)
    ensures LeBytes(v, m + n) == LeBytes(Wrap(v, 8 * m), m) + LeBytes(Shr(v, 8 * m), n)
  {
    if m > 0 {
      SplitBytes(v / 256, m - 1, n);
      DropByte(v, 8 * (m - 1));
    }
  }

  lemma PermutedConcat(order: Order, s: seq<Byte>, t: seq<Byte>)
    ensures Permuted(order, s + t)
         == if order.Little? then Permuted(order, s) + Permuted(order, t) else Permuted(order, t) + Permuted(order, s)
  {
  }

  /** With the little-endian map a wide store is two stores of half the width, low
      half first; with the mirrored map the halves trade places. */
  lemma WideStoreIsTwoStores(s: seq<Byte>, at: nat, v: nat, n: nat, order: Order)
    requires at + 2 * n <= |s|
    ensures var low, high := Wrap(v, 8 * n), Shr(v, 8 * n);
            var first, second := if order.Little? then low else high, if order.Little? then high else low;
            Overwrite(s, at, NativeBytes(order, v, 2 * n))
              == Overwrite(Overwrite(s, at, NativeBytes(order, first, n)), at + n, NativeBytes(order, second, n))
  {
    var low, high := Wrap(v, 8 * n), Shr(v, 8 * n);
    SplitBytes(v, n, n);
    PermutedConcat(order, LeBytes(low, n), LeBytes(high, n));
    if order.Little? {
      OverwriteTwice(s, at, NativeBytes(order, low, n), NativeBytes(order, high, n));
    } else {
      OverwriteTwice(s, at, NativeBytes(order, high, n), NativeBytes(order, low, n));
    }
  }

  lemma OverwriteTwice(s: seq<Byte>, at: nat, a: seq<Byte>, b: seq<Byte>)
    requires at + |a| + |b| <= |s|
    ensures Overwrite(Overwrite(s, at, a), at + |a|, b) == Overwrite(s, at, a + b)
  {
  }
}
