/**
The serialized form of a tensor.

In the order the code writes them: element type (4 bytes), byte size, data bytes,
rank, dimensions; sizes, rank and dimensions are words in the host's memory order.
*/
module TensorWire {
  import opened Options
  import opened Words
  import opened LittleEndian

  /** The host: its byte order and `sizeof(size_t)`. */
  datatype Host = Host(order: Order, wordBytes: nat) {
    /** Word values are below this. */
    function Limit(): nat { Pow2(8 * wordBytes) }
  }

  /** A tensor as a value: element type, dimensions and bytes. */
  datatype Tensor = Tensor(elementType: nat, dims: seq<nat>, data: seq<Byte>)

  /** The fields have the widths of their C++ types. */
  predicate Representable(h: Host, t: Tensor) {
    && t.elementType < Pow2(32)
    && |t.data| < h.Limit() && |t.dims| < h.Limit()
    && AllBelow(t.dims, h.Limit())
  }

  // ----- printing

  function WordBytes(h: Host, v: nat): (s: seq<Byte>)
    ensures |s| == h.wordBytes
  {
    NativeBytes(h.order, v, h.wordBytes)
  }

  /** The memory image of an array of `n`-byte values. */
  function ArrayBytes(order: Order, n: nat, vs: seq<nat>): seq<Byte> {
    if vs == [] then [] else NativeBytes(order, vs[0], n) + ArrayBytes(order, n, vs[1..])
  }

  function DimBytes(h: Host, dims: seq<nat>): seq<Byte> {
    ArrayBytes(h.order, h.wordBytes, dims)
  }

  /** `IREETensor::serialize`, given the host data. */
  function Serialized(h: Host, t: Tensor): seq<Byte> {
    NativeBytes(h.order, t.elementType, 4)
    + WordBytes(h, |t.data|)
    + t.data
    + WordBytes(h, |t.dims|)
    + DimBytes(h, t.dims)
  }

  // ----- parsing

  /** A value and the bytes after it. */
  datatype Read<+T> = Read(value: T, rest: seq<Byte>)

  /** Copies `n` bytes out of the buffer; `None` where that reads past its end. */
  function ReadBytes(s: seq<Byte>, n: nat): Option<Read<seq<Byte>>> {
    if |s| < n then None else Some(Read(s[..n], s[n..]))
  }

  function ReadValue(order: Order, s: seq<Byte>, n: nat): Option<Read<nat>> {
    var r :- ReadBytes(s, n);
    Some(Read(NativeValue(order, r.value), r.rest))
  }

  function ReadWord(h: Host, s: seq<Byte>): Option<Read<nat>> {
    ReadValue(h.order, s, h.wordBytes)
  }

  function ReadArray(order: Order, s: seq<Byte>, n: nat, count: nat): Option<Read<seq<nat>>>
    decreases count
  {
    if count == 0 then Some(Read([], s))
    else
      var first :- ReadValue(order, s, n);
      var others :- ReadArray(order, first.rest, n, count - 1);
      Some(Read([first.value] + others.value, others.rest))
  }

  function ReadDims(h: Host, s: seq<Byte>, rank: nat): Option<Read<seq<nat>>> {
    ReadArray(h.order, s, h.wordBytes, rank)
  }

  /** The deserializing constructor, and the part of the buffer it does not look at. */
  function Parse(h: Host, s: seq<Byte>): Option<Read<Tensor>> {
    var elementType :- ReadValue(h.order, s, 4);
    var size :- ReadWord(h, elementType.rest);
    var data :- ReadBytes(size.rest, size.value);
    var rank :- ReadWord(h, data.rest);
    var dims :- ReadDims(h, rank.rest, rank.value);
    Some(Read(Tensor(elementType.value, dims.value, data.value), dims.rest))
  }

  // ----- each read undoes one write

  lemma ReadBytesIff(s: seq<Byte>, n: nat, d: seq<Byte>, rest: seq<Byte>)
    ensures ReadBytes(s, n) == Some(Read(d, rest)) <==> |d| == n && s == d + rest
  {
    if |s| >= n { assert s == s[..n] + s[n..]; }
  }

  lemma ReadValueIff(order: Order, s: seq<Byte>, n: nat, v: nat, rest: seq<Byte>)
    ensures ReadValue(order, s, n) == Some(Read(v, rest))
       <==> v < Pow2(8 * n) && s == NativeBytes(order, v, n) + rest
  {
    if |s| >= n {
      ReadBytesIff(s, n, s[..n], s[n..]);
      NativeImage(order, s[..n]);
    }
    if v < Pow2(8 * n) && s == NativeBytes(order, v, n) + rest {
      ReadBytesIff(s, n, NativeBytes(order, v, n), rest);
      NativeRoundTrip(order, v, n);
    }
  }

  predicate AllBelow(vs: seq<nat>, limit: nat) {
    forall i :: 0 <= i < |vs| ==> vs[i] < limit
  }

  lemma {:induction false} ArrayReadBack(order: Order, n: nat, vs: seq<nat>, rest: seq<Byte>)
    requires AllBelow(vs, Pow2(8 * n))
    ensures ReadArray(order, ArrayBytes(order, n, vs) + rest, n, |vs|) == Some(Read(vs, rest))
    decreases |vs|
  {
    if vs == [] {
      assert ArrayBytes(order, n, vs) + rest == rest;
    } else {
      var tail := ArrayBytes(order, n, vs[1..]) + rest;
      assert ArrayBytes(order, n, vs) + rest == NativeBytes(order, vs[0], n) + tail;
      ReadValueIff(order, ArrayBytes(order, n, vs) + rest, n, vs[0], tail);
      ArrayReadBack(order, n, vs[1..], rest);
      assert [vs[0]] + vs[1..] == vs;
    }
  }

  lemma {:induction false} ArrayWriteBack(order: Order, s: seq<Byte>, n: nat, count: nat)
    requires ReadArray(order, s, n, count).Some?
    ensures var r := ReadArray(order, s, n, count).value;
      |r.value| == count && AllBelow(r.value, Pow2(8 * n)) && s == ArrayBytes(order, n, r.value) + r.rest
    decreases count
  {
    hide ReadValue, NativeBytes;
    if count > 0 {
      var first := ReadValue(order, s, n).value;
      ReadValueIff(order, s, n, first.value, first.rest);
      ArrayWriteBack(order, first.rest, n, count - 1);
      var others := ReadArray(order, first.rest, n, count - 1).value;
      assert ([first.value] + others.value)[1..] == others.value;
      assert s == NativeBytes(order, first.value, n) + (ArrayBytes(order, n, others.value) + others.rest);
    }
  }

  // ----- the layout, by offsets

  lemma {:induction false} ImageLength(order: Order, n: nat, vs: seq<nat>)
    ensures |ArrayBytes(order, n, vs)| == |vs| * n
  {
    if vs != [] {
      ImageLength(order, n, vs[1..]);
      assert |vs| * n == n + (|vs| - 1) * n;
    }
  }

  /** Value `i` of an array of `n`-byte values is at offset `i * n`. */
  lemma {:induction false} ArrayElementAt(order: Order, n: nat, vs: seq<nat>, i: nat)
    requires i < |vs|
    ensures 0 <= i * n <= i * n + n <= |ArrayBytes(order, n, vs)| == |vs| * n
    ensures ArrayBytes(order, n, vs)[i * n..i * n + n] == NativeBytes(order, vs[i], n)
    decreases i
  {
    hide NativeBytes;
    var first, others := NativeBytes(order, vs[0], n), ArrayBytes(order, n, vs[1..]);
    ImageLength(order, n, vs);
    ImageLength(order, n, vs[1..]);
    if i == 0 {
      assert (first + others)[..n] == first;
    } else {
      ArrayElementAt(order, n, vs[1..], i - 1);
      SkipFirst(first, others, (i - 1) * n, n);
      OneMore(i - 1, n);
    }
  }

  lemma OneMore(i: nat, n: nat)
    ensures (i + 1) * n == n + i * n
  {
  }

  lemma SkipFirst(first: seq<Byte>, others: seq<Byte>, at: nat, n: nat)
    requires |first| == n && at + n <= |others|
    ensures (first + others)[n + at..n + at + n] == others[at..at + n]
  {
  }

  /** The offset of dimension `i` in a serialization with `size` data bytes. */
  function DimOffset(h: Host, size: nat, i: nat): nat {
    4 + 2 * h.wordBytes + size + i * h.wordBytes
  }

  /**
  Where a serialization holds what: the element type in the first four bytes, the
  byte size in the word after it, then the data, the rank in a word, and one word for
  each dimension.
  */
  predicate HasLayout(h: Host, s: seq<Byte>, t: Tensor) {
    var w, n := h.wordBytes, |t.data|;
    && |s| >= 4 + 2 * w + n
    && NativeValue(h.order, s[..4]) == t.elementType
    && NativeValue(h.order, s[4..4 + w]) == n
    && s[4 + w..4 + w + n] == t.data
    && NativeValue(h.order, s[4 + w + n..4 + 2 * w + n]) == |t.dims|
    && forall i :: 0 <= i < |t.dims| ==>
         && DimOffset(h, n, i) + w <= |s|
         && NativeValue(h.order, s[DimOffset(h, n, i)..DimOffset(h, n, i) + w]) == t.dims[i]
  }

  lemma SerializedLayout(h: Host, t: Tensor)
    requires Representable(h, t)
    ensures |Serialized(h, t)| == 4 + 2 * h.wordBytes + |t.data| + |t.dims| * h.wordBytes
    ensures HasLayout(h, Serialized(h, t), t)
  {
    hide NativeBytes, NativeValue, ArrayBytes, DimOffset;
    var w, n, s := h.wordBytes, |t.data|, Serialized(h, t);
    ImageLength(h.order, w, t.dims);
    NativeRoundTrip(h.order, t.elementType, 4);
    NativeRoundTrip(h.order, n, w);
    NativeRoundTrip(h.order, |t.dims|, w);
    FivePieces(NativeBytes(h.order, t.elementType, 4), WordBytes(h, n), t.data, WordBytes(h, |t.dims|),
               DimBytes(h, t.dims));
    forall i | 0 <= i < |t.dims|
      ensures DimOffset(h, n, i) + w <= |s|
      ensures NativeValue(h.order, s[DimOffset(h, n, i)..DimOffset(h, n, i) + w]) == t.dims[i]
    {
      DimAt(h, t.dims, s, n, i);
    }
  }

  lemma DimAt(h: Host, dims: seq<nat>, s: seq<Byte>, size: nat, i: nat)
    requires var start := 4 + 2 * h.wordBytes + size; start <= |s| && s[start..] == DimBytes(h, dims)
    requires i < |dims| && AllBelow(dims, h.Limit())
    ensures var at := DimOffset(h, size, i);
      at + h.wordBytes <= |s| && NativeValue(h.order, s[at..at + h.wordBytes]) == dims[i]
  {
    hide NativeBytes, NativeValue, ArrayBytes;
    ArrayElementAt(h.order, h.wordBytes, dims, i);
    NativeRoundTrip(h.order, dims[i], h.wordBytes);
    SliceOfSuffix(s, 4 + 2 * h.wordBytes + size, i * h.wordBytes, h.wordBytes);
  }

  lemma SliceOfSuffix(s: seq<Byte>, start: nat, at: nat, n: nat)
    requires start + at + n <= |s|
    ensures s[start..][at..at + n] == s[start + at..start + at + n]
  {
  }

  lemma FivePieces(a: seq<Byte>, b: seq<Byte>, c: seq<Byte>, d: seq<Byte>, e: seq<Byte>)
    ensures var s := a + b + c + d + e;
      && s[..|a|] == a && s[|a|..|a| + |b|] == b && s[|a| + |b|..|a| + |b| + |c|] == c
      && s[|a| + |b| + |c|..|a| + |b| + |c| + |d|] == d && s[|a| + |b| + |c| + |d|..] == e
  {
  }

  // ----- the round trip

  /** Deserializing a serialization, whatever follows it, recovers the tensor and looks
      at no byte of what follows. */
  lemma RoundTrip(h: Host, t: Tensor, suffix: seq<Byte>)
    requires Representable(h, t)
    ensures Parse(h, Serialized(h, t) + suffix) == Some(Read(t, suffix))
  {
    hide ReadValue, ReadBytes, ReadArray, NativeBytes, ArrayBytes;
    var s4 := DimBytes(h, t.dims) + suffix;
    var s3 := WordBytes(h, |t.dims|) + s4;
    var s2 := t.data + s3;
    var s1 := WordBytes(h, |t.data|) + s2;
    var s0 := NativeBytes(h.order, t.elementType, 4) + s1;
    assert Serialized(h, t) + suffix == s0;
    ReadValueIff(h.order, s0, 4, t.elementType, s1);
    ReadValueIff(h.order, s1, h.wordBytes, |t.data|, s2);
    ReadBytesIff(s2, |t.data|, t.data, s3);
    ReadValueIff(h.order, s3, h.wordBytes, |t.dims|, s4);
    ArrayReadBack(h.order, h.wordBytes, t.dims, suffix);
  }

  /** Whatever parses begins with the serialization of the tensor it parses to. */
  lemma ParsedIsSerialized(h: Host, s: seq<Byte>)
    requires Parse(h, s).Some?
    ensures var r := Parse(h, s).value; Representable(h, r.value) && s == Serialized(h, r.value) + r.rest
  {
    var elementType := ReadValue(h.order, s, 4).value;
    var size := ReadWord(h, elementType.rest).value;
    var data := ReadBytes(size.rest, size.value).value;
    var rank := ReadWord(h, data.rest).value;
    var dims := ReadDims(h, rank.rest, rank.value).value;
    ReadValueIff(h.order, s, 4, elementType.value, elementType.rest);
    ReadValueIff(h.order, elementType.rest, h.wordBytes, size.value, size.rest);
    ReadBytesIff(size.rest, size.value, data.value, data.rest);
    ReadValueIff(h.order, data.rest, h.wordBytes, rank.value, rank.rest);
    ArrayWriteBack(h.order, rank.rest, h.wordBytes, rank.value);
    Reassociate(NativeBytes(h.order, elementType.value, 4), WordBytes(h, size.value), data.value,
                WordBytes(h, rank.value), DimBytes(h, dims.value), dims.rest);
  }

  lemma Reassociate(a: seq<Byte>, b: seq<Byte>, c: seq<Byte>, d: seq<Byte>, e: seq<Byte>, rest: seq<Byte>)
    ensures a + (b + (c + (d + (e + rest)))) == a + b + c + d + e + rest
  {
  }

  /** What the parser returns is what the buffer holds at the offsets of the layout. */
  lemma ParsedLayout(h: Host, s: seq<Byte>)
    requires Parse(h, s).Some?
    ensures HasLayout(h, s, Parse(h, s).value.value)
  {
    hide NativeValue, Parse, Serialized;
    var r := Parse(h, s).value;
    ParsedIsSerialized(h, s);
    SerializedLayout(h, r.value);
    LayoutOfPrefix(h, Serialized(h, r.value), r.rest, r.value);
  }

  lemma LayoutOfPrefix(h: Host, s: seq<Byte>, rest: seq<Byte>, t: Tensor)
    requires HasLayout(h, s, t)
    ensures HasLayout(h, s + rest, t)
  {
    hide NativeValue;
    var w, n, u := h.wordBytes, |t.data|, s + rest;
    assert u[..4] == s[..4] && u[4..4 + w] == s[4..4 + w] && u[4 + w..4 + w + n] == s[4 + w..4 + w + n];
    assert u[4 + w + n..4 + 2 * w + n] == s[4 + w + n..4 + 2 * w + n];
    forall i | 0 <= i < |t.dims|
      ensures DimOffset(h, n, i) + w <= |u|
      ensures u[DimOffset(h, n, i)..DimOffset(h, n, i) + w] == s[DimOffset(h, n, i)..DimOffset(h, n, i) + w]
    {
    }
  }

  /** The parser accepts exactly the buffers that begin with a serialization. */
  lemma ParseIffSerialized(h: Host, s: seq<Byte>, t: Tensor, rest: seq<Byte>)
    ensures Parse(h, s) == Some(Read(t, rest)) <==> Representable(h, t) && s == Serialized(h, t) + rest
  {
    if Parse(h, s) == Some(Read(t, rest)) { ParsedIsSerialized(h, s); }
    if Representable(h, t) && s == Serialized(h, t) + rest { RoundTrip(h, t, rest); }
  }

  /** No serialization is a prefix of another; in particular `serialize` is injective. */
  lemma PrefixFree(h: Host, t: Tensor, u: Tensor)
    requires Representable(h, t) && Representable(h, u)
    requires Serialized(h, t) <= Serialized(h, u)
    ensures t == u
  {
    var s := Serialized(h, u);
    var rest := s[|Serialized(h, t)|..];
    assert s == Serialized(h, t) + rest && s == s + [];
    RoundTrip(h, t, rest);
    RoundTrip(h, u, []);
  }
}
