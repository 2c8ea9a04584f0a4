/**
Tensors built from JavaScript typed arrays and read back as such.

An element is an integer in the range of its kind; a floating-point element is
represented by its bit pattern, which the conversions copy.
*/
module TypedArrays {
  import opened Options
  import opened Words
  import opened LittleEndian
  import opened TensorWire
  import opened TensorStates
  import opened Tensors
  import opened ElementTypes

  datatype Kind = Int8 | Uint8 | Int16 | Uint16 | Int32 | Uint32 | BigInt64 | BigUint64 | Float32 | Float64 {
    function Bytes(): (n: nat)
      ensures 1 <= n <= 8
    {
      match this
      case Int8 => 1
      case Uint8 => 1
      case Int16 => 2
      case Uint16 => 2
      case Int32 => 4
      case Uint32 => 4
      case BigInt64 => 8
      case BigUint64 => 8
      case Float32 => 4
      case Float64 => 8
    }

    predicate Signed() {
      Int8? || Int16? || Int32? || BigInt64?
    }
  }

  datatype TypedArray = TypedArray(kind: Kind, elements: seq<int>) {
    function ByteLength(): nat { |elements| * kind.Bytes() }

    predicate InRange() {
      forall i :: 0 <= i < |elements| ==> InKind(kind, elements[i])
    }
  }

  predicate InKind(kind: Kind, x: int) {
    if kind.Signed() then 0 <= x + Pow2(8 * kind.Bytes() - 1) < Pow2(8 * kind.Bytes())
    else 0 <= x < Pow2(8 * kind.Bytes())
  }

  // ----- elements and their bit patterns

  function Pattern(kind: Kind, x: int): nat { Wrap(x, 8 * kind.Bytes()) }

  function Element(kind: Kind, pattern: nat): int {
    if kind.Signed() && pattern >= Pow2(8 * kind.Bytes() - 1) then pattern - Pow2(8 * kind.Bytes()) else pattern
  }

  function Patterns(kind: Kind, xs: seq<int>): (ps: seq<nat>)
    ensures |ps| == |xs| && forall i :: 0 <= i < |xs| ==> ps[i] == Pattern(kind, xs[i])
  {
    seq(|xs|, i requires 0 <= i < |xs| => Pattern(kind, xs[i]))
  }

  function Elements(kind: Kind, ps: seq<nat>): (xs: seq<int>)
    ensures |xs| == |ps| && forall i :: 0 <= i < |ps| ==> xs[i] == Element(kind, ps[i])
  {
    seq(|ps|, i requires 0 <= i < |ps| => Element(kind, ps[i]))
  }

  lemma ElementOfPattern(kind: Kind, x: int)
    requires InKind(kind, x)
    ensures Element(kind, Pattern(kind, x)) == x
  {
    var n := 8 * kind.Bytes();
    var W := Pow2(n);
    assert W == 2 * Pow2(n - 1);
    if x >= 0 { DivModUnique(x, W, 0, x); } else { DivModUnique(x, W, -1, x + W); }
  }

  lemma PatternOfElement(kind: Kind, p: nat)
    requires p < Pow2(8 * kind.Bytes())
    ensures InKind(kind, Element(kind, p)) && Pattern(kind, Element(kind, p)) == p
  {
    var n := 8 * kind.Bytes();
    var W := Pow2(n);
    assert W == 2 * Pow2(n - 1);
    if Element(kind, p) == p { DivModUnique(p, W, 0, p); } else { DivModUnique(p - W, W, -1, p); }
  }

  // ----- the two conversions

  /** The C++ number type that the constructor converts to for an element type. */
  function KindOf(elementType: nat): Option<Kind> {
    if elementType == INT_8 then Some(Int8)
    else if elementType == UINT_8 then Some(Uint8)
    else if elementType == INT_16 then Some(Int16)
    else if elementType == UINT_16 then Some(Uint16)
    else if elementType == INT_32 then Some(Int32)
    else if elementType == UINT_32 then Some(Uint32)
    else if elementType == INT_64 then Some(BigInt64)
    else if elementType == UINT_64 then Some(BigUint64)
    else if elementType == FLOAT_32 then Some(Float32)
    else if elementType == FLOAT_64 then Some(Float64)
    else None
  }

  function ArrayImage(order: Order, a: TypedArray): seq<Byte> {
    ArrayBytes(order, a.kind.Bytes(), Patterns(a.kind, a.elements))
  }

  /** The bytes hold the elements, one after the other, each as its residue modulo the range
      of the kind: two's complement for signed ones. */
  predicate HoldsElements(order: Order, bytes: seq<Byte>, a: TypedArray) {
    var n := a.kind.Bytes();
    && |bytes| >= |a.elements| * n
    && forall i :: 0 <= i < |a.elements| ==>
         && 0 <= i * n <= i * n + n <= |bytes|
         && (NativeValue(order, bytes[i * n..i * n + n]) - a.elements[i]) % Pow2(8 * n) == 0
  }

  /** The byte image of an array holds its elements. */
  lemma ImageHoldsElements(order: Order, a: TypedArray)
    ensures |ArrayImage(order, a)| == |a.elements| * a.kind.Bytes()
    ensures HoldsElements(order, ArrayImage(order, a), a)
  {
    hide NativeValue, NativeBytes;
    var n, ps, bytes := a.kind.Bytes(), Patterns(a.kind, a.elements), ArrayImage(order, a);
    ImageLength(order, n, ps);
    forall i | 0 <= i < |a.elements|
      ensures 0 <= i * n <= i * n + n <= |bytes|
      ensures (NativeValue(order, bytes[i * n..i * n + n]) - a.elements[i]) % Pow2(8 * n) == 0
    {
      ArrayElementAt(order, n, ps, i);
      NativeRoundTrip(order, ps[i], n);
      PatternIsCongruent(a.kind, a.elements[i]);
    }
  }

  lemma PatternIsCongruent(kind: Kind, x: int)
    ensures (Pattern(kind, x) - x) % Pow2(8 * kind.Bytes()) == 0
  {
    var W := Pow2(8 * kind.Bytes());
    assert Pattern(kind, x) - x == -(x / W) * W;
    DivModUnique(Pattern(kind, x) - x, W, -(x / W), 0);
  }

  datatype Built = Tensor(tensor: IreeTensor) | InvalidType | UnsupportedType

  /** The typed-array constructor.  The array must be of the kind that goes with the type:
      the copy takes the array's byte length from a vector of the type's numbers. */
  method Build(input: TypedArray, inDims: seq<int>, typeString: string, h: Host, machine: Machine) returns (r: Built)
    requires Sound(machine.memory)
    requires var k := KindOf(NxTypeToIree(typeString)); k.Some? ==> k.value == input.kind
    modifies machine
    ensures r.InvalidType? <==> NxTypeToIree(typeString) == NONE
    ensures r.UnsupportedType? <==> NxTypeToIree(typeString) != NONE && KindOf(NxTypeToIree(typeString)).None?
    ensures r.Tensor? ==> fresh(r.tensor)
    ensures r.Tensor? ==> r.tensor.data.Some? && HoldsElements(h.order, r.tensor.data.value.bytes, input)
    ensures r.Tensor? ==>
      var t := r.tensor.Fields();
      && t.elementType == NxTypeToIree(typeString) && t.size == input.ByteLength() && t.view.None?
      && t.data == Some(Block(|old(machine.memory).frees|, ArrayImage(h.order, input)))
      && t.dims == seq(|inDims|, i requires 0 <= i < |inDims| => Wrap(inDims[i], 8 * h.wordBytes))
  {
    var elementType := NxTypeToIree(typeString);
    if elementType == NONE { return InvalidType; }
    if KindOf(elementType).None? { return UnsupportedType; }
    ImageHoldsElements(h.order, input);
    var tensor := new IreeTensor.FromHost(ArrayImage(h.order, input), inDims, elementType, h, machine);
    return Built.Tensor(tensor);
  }

  /** `iree_tensor_to_flat_js_array` on a tensor with host data; `None` for a type it
      does not support.  The element count is the size divided by the width, rounded down. */
  function ToFlatArray(order: Order, elementType: nat, data: seq<Byte>): Option<TypedArray> {
    if elementType == INT_8 then Some(FlatArray(order, Int8, data, |data|))
    else if elementType == UINT_8 then Some(FlatArray(order, Uint8, data, |data|))
    else if elementType == INT_16 then Some(FlatArray(order, Int16, data, |data| / 2))
    else if elementType == UINT_16 then Some(FlatArray(order, Uint16, data, |data| / 2))
    else if elementType == INT_32 then Some(FlatArray(order, Int32, data, |data| / 4))
    else if elementType == UINT_32 then Some(FlatArray(order, Uint32, data, |data| / 4))
    else if elementType == INT_64 then Some(FlatArray(order, BigInt64, data, |data| / 8))
    else if elementType == UINT_64 then Some(FlatArray(order, BigUint64, data, |data| / 8))
    else if elementType == FLOAT_32 then Some(FlatArray(order, Float32, data, |data| / 4))
    else if elementType == FLOAT_64 then Some(FlatArray(order, Float64, data, |data| / 8))
    else None
  }

  /** `count` elements of a kind, from the start of the bytes. */
  function FlatArray(order: Order, kind: Kind, data: seq<Byte>, count: nat): TypedArray {
    match ReadArray(order, data, kind.Bytes(), count)
    case None => TypedArray(kind, [])
    case Some(r) => TypedArray(kind, Elements(kind, r.value))
  }

  // ----- sizes

  lemma {:induction false} EnoughToRead(order: Order, s: seq<Byte>, n: nat, count: nat)
    requires count * n <= |s|
    ensures ReadArray(order, s, n, count).Some?
    ensures ReadArray(order, s, n, count).value.rest == s[count * n..]
    decreases count
  {
    if count > 0 {
      var others := (count - 1) * n;
      assert count * n == n + others;
      MulMonotone(0, count - 1, n);
      EnoughToRead(order, s[n..], n, count - 1);
      assert s[n..][others..] == s[n + others..];
    }
  }

  /** The divisor of the flat array is the byte count packed in the element type. */
  lemma DivisorIsDenseByteCount(elementType: nat)
    requires KindOf(elementType).Some?
    ensures KindOf(elementType).value.Bytes() == DenseByteCount(elementType)
  {
    hide Pack, DenseByteCount;
    var kind := KindOf(elementType).value;
    var numericalType :=
      if kind.Float32? || kind.Float64? then FLOAT_IEEE else if kind.Signed() then INTEGER else INTEGER_UNSIGNED;
    assert elementType == Pack(numericalType, 8 * kind.Bytes());
    DenseBytes(numericalType, kind.Bytes());
  }

  /** The kind for an element type has the type's signedness, class and width. */
  lemma KindMatchesType(elementType: nat)
    requires KindOf(elementType).Some?
    ensures var kind := KindOf(elementType).value;
      && BitCount(elementType) == 8 * kind.Bytes()
      && NumericalType(elementType)
         == if kind.Float32? || kind.Float64? then 0x21 else if kind.Signed() then 0x10 else 0x12
  {
    hide Pack, NumericalType, BitCount;
    var kind := KindOf(elementType).value;
    var numericalType :=
      if kind.Float32? || kind.Float64? then FLOAT_IEEE else if kind.Signed() then INTEGER else INTEGER_UNSIGNED;
    assert elementType == Pack(numericalType, 8 * kind.Bytes());
    UnpackPacked(numericalType, 8 * kind.Bytes());
  }

  /** The ranges of the integer kinds; a floating-point element is a bit pattern. */
  lemma KindRanges(x: int)
    ensures InKind(Int8, x) <==> -0x80 <= x < 0x80
    ensures InKind(Uint8, x) <==> 0 <= x < 0x100
    ensures InKind(Int16, x) <==> -0x8000 <= x < 0x8000
    ensures InKind(Uint16, x) <==> 0 <= x < 0x1_0000
    ensures InKind(Int32, x) <==> -0x8000_0000 <= x < 0x8000_0000
    ensures InKind(Uint32, x) <==> 0 <= x < 0x1_0000_0000
    ensures InKind(BigInt64, x) <==> -0x8000_0000_0000_0000 <= x < 0x8000_0000_0000_0000
    ensures InKind(BigUint64, x) <==> 0 <= x < 0x1_0000_0000_0000_0000
    ensures InKind(Float32, x) <==> 0 <= x < 0x1_0000_0000
    ensures InKind(Float64, x) <==> 0 <= x < 0x1_0000_0000_0000_0000
  {
    hide Pow2;
    Powers();
  }

  lemma Powers()
    ensures Pow2(7) == 0x80 && Pow2(8) == 0x100 && Pow2(15) == 0x8000 && Pow2(16) == 0x1_0000
    ensures Pow2(31) == 0x8000_0000 && Pow2(32) == 0x1_0000_0000
    ensures Pow2(63) == 0x8000_0000_0000_0000 && Pow2(64) == 0x1_0000_0000_0000_0000
  {
    assert Pow2(7) == 128;
    Pow2Add(8, 7);
    Pow2Add(8, 8);
    Pow2Add(16, 15);
    Pow2Add(16, 16);
    Pow2Add(32, 31);
    Pow2Add(32, 32);
  }

  lemma ToFlatArrayDivides(order: Order, elementType: nat, data: seq<Byte>)
    ensures ToFlatArray(order, elementType, data)
         == match KindOf(elementType)
            case None => None
            case Some(kind) => Some(FlatArray(order, kind, data, |data| / kind.Bytes()))
  {
    hide Pack, FlatArray;
  }

  // ----- round trips

  lemma ExactQuotient(count: nat, n: nat)
    requires n > 0
    ensures count * n / n == count
  {
    DivModUnique(count * n, n, count, 0);
  }

  /** Building a tensor from a typed array and flattening it gives the array back. */
  lemma ArrayRoundTrip(order: Order, elementType: nat, a: TypedArray)
    requires KindOf(elementType) == Some(a.kind) && a.InRange()
    ensures ToFlatArray(order, elementType, ArrayImage(order, a)) == Some(a)
  {
    hide KindOf, ToFlatArray;
    var n, ps := a.kind.Bytes(), Patterns(a.kind, a.elements);
    var data := ArrayImage(order, a);
    ToFlatArrayDivides(order, elementType, data);
    ImageLength(order, n, ps);
    ExactQuotient(|ps|, n);
    assert data + [] == data;
    ArrayReadBack(order, n, ps, []);
    forall i | 0 <= i < |ps|
      ensures Element(a.kind, ps[i]) == a.elements[i]
    {
      ElementOfPattern(a.kind, a.elements[i]);
    }
    assert Elements(a.kind, ps) == a.elements;
  }

  /** The elements read from a whole number of widths write back as what was read. */
  lemma FlatArrayImage(order: Order, kind: Kind, data: seq<Byte>, count: nat)
    requires count * kind.Bytes() <= |data|
    ensures var a := FlatArray(order, kind, data, count);
      a.InRange() && a.kind == kind && ArrayImage(order, a) == data[..count * kind.Bytes()]
  {
    var n := kind.Bytes();
    EnoughToRead(order, data, n, count);
    ArrayWriteBack(order, data, n, count);
    var r := ReadArray(order, data, n, count).value;
    var xs := Elements(kind, r.value);
    forall i | 0 <= i < count
      ensures InKind(kind, xs[i]) && Pattern(kind, xs[i]) == r.value[i]
    {
      PatternOfElement(kind, r.value[i]);
    }
    assert Patterns(kind, xs) == r.value;
    ImageLength(order, n, r.value);
  }

  lemma WholeElements(size: nat, n: nat)
    requires n > 0
    ensures size / n * n <= size && (size / n * n == size <==> size % n == 0)
  {
  }

  /** What flattening returns: as many elements as fit the bytes, each in the range of the kind
      of the type and held by the bytes at its place. */
  lemma FlatArrayReads(order: Order, elementType: nat, data: seq<Byte>)
    requires KindOf(elementType).Some?
    ensures var a := ToFlatArray(order, elementType, data);
      && a.Some? && a.value.kind == KindOf(elementType).value && a.value.InRange()
      && |a.value.elements| == |data| / a.value.kind.Bytes()
      && HoldsElements(order, data, a.value)
  {
    hide KindOf, ToFlatArray, FlatArray, ArrayImage, InKind, NativeValue;
    var kind := KindOf(elementType).value;
    var n, count := kind.Bytes(), |data| / kind.Bytes();
    WholeElements(|data|, n);
    ToFlatArrayDivides(order, elementType, data);
    FlatArrayImage(order, kind, data, count);
    var a := FlatArray(order, kind, data, count);
    ImageHoldsElements(order, a);
    CancelCount(|a.elements|, count, n);
    HeldByMore(order, data[..count * n], data, a);
  }

  lemma CancelCount(x: nat, y: nat, n: nat)
    requires n > 0 && x * n == y * n
    ensures x == y
  {
    ExactQuotient(x, n);
    ExactQuotient(y, n);
  }

  lemma HeldByMore(order: Order, prefix: seq<Byte>, bytes: seq<Byte>, a: TypedArray)
    requires prefix <= bytes && HoldsElements(order, prefix, a)
    ensures HoldsElements(order, bytes, a)
  {
    hide NativeValue;
    var n := a.kind.Bytes();
    forall i | 0 <= i < |a.elements|
      ensures 0 <= i * n <= i * n + n <= |bytes| && bytes[i * n..i * n + n] == prefix[i * n..i * n + n]
    {
      assert i * n + n <= |prefix|;
    }
  }

  /** Flattening a tensor and building it again gives the bytes back exactly when they
      are a whole number of elements. */
  lemma BytesRoundTripIff(order: Order, elementType: nat, data: seq<Byte>)
    requires KindOf(elementType).Some?
    ensures var a := ToFlatArray(order, elementType, data);
      && a.Some? && a.value.InRange()
      && (ArrayImage(order, a.value) == data <==> |data| % KindOf(elementType).value.Bytes() == 0)
  {
    hide KindOf, ToFlatArray, FlatArray, ArrayImage, InKind;
    var kind := KindOf(elementType).value;
    var count := |data| / kind.Bytes();
    WholeElements(|data|, kind.Bytes());
    ToFlatArrayDivides(order, elementType, data);
    FlatArrayImage(order, kind, data, count);
  }
}
