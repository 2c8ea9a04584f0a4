/**
Element types: a numerical class in the top byte of a 32-bit word and a bit count
in the low byte; and the names Elixir gives them.
*/
module ElementTypes {
  import opened Words

  /** `IREE_HAL_ELEMENT_TYPE_VALUE`. */
  function Pack(numericalType: nat, bitCount: nat): nat {
    Or(bitCount, Shl(numericalType, 24))
  }

  function NumericalType(elementType: nat): nat { Shr(elementType, 24) }

  function BitCount(elementType: nat): nat { And(elementType, 0xFF) }

  function DenseByteCount(elementType: nat): nat { (BitCount(elementType) + 8 - 1) / 8 }

  const INTEGER := 0x10
  const INTEGER_UNSIGNED := 0x12
  const FLOAT_IEEE := 0x21
  const FLOAT_BRAIN := 0x22
  const FLOAT_COMPLEX := 0x23

  const NONE := 0
  const INT_8 := Pack(INTEGER, 8)
  const INT_16 := Pack(INTEGER, 16)
  const INT_32 := Pack(INTEGER, 32)
  const INT_64 := Pack(INTEGER, 64)
  const UINT_8 := Pack(INTEGER_UNSIGNED, 8)
  const UINT_16 := Pack(INTEGER_UNSIGNED, 16)
  const UINT_32 := Pack(INTEGER_UNSIGNED, 32)
  const UINT_64 := Pack(INTEGER_UNSIGNED, 64)
  const FLOAT_16 := Pack(FLOAT_IEEE, 16)
  const FLOAT_32 := Pack(FLOAT_IEEE, 32)
  const FLOAT_64 := Pack(FLOAT_IEEE, 64)
  const BFLOAT_16 := Pack(FLOAT_BRAIN, 16)
  const COMPLEX_FLOAT_64 := Pack(FLOAT_COMPLEX, 64)
  const COMPLEX_FLOAT_128 := Pack(FLOAT_COMPLEX, 128)

  /** Packing loses neither part. */
  lemma UnpackPacked(numericalType: nat, bitCount: nat)
    requires numericalType < 256 && bitCount < 256
    ensures NumericalType(Pack(numericalType, bitCount)) == numericalType
    ensures BitCount(Pack(numericalType, bitCount)) == bitCount
    ensures Pack(numericalType, bitCount) == numericalType * 0x100_0000 + bitCount
  {
    TwentyFour();
    OrDisjoint(bitCount, numericalType, 24);
    LowMask(Pack(numericalType, bitCount), 8);
    assert Pow2(8) == 256;
    ByteOfPair(numericalType, bitCount);
  }

  lemma PacksAreSums()
    ensures forall n, b | 0 <= n < 256 && 0 <= b < 256 :: Pack(n, b) == n * 0x100_0000 + b
  {
    forall n, b | 0 <= n < 256 && 0 <= b < 256
      ensures Pack(n, b) == n * 0x100_0000 + b
    {
      UnpackPacked(n, b);
    }
  }

  lemma TwentyFour()
    ensures Pow2(24) == 0x100_0000
  {
    assert Pow2(8) == 256;
    Pow2Add(8, 8);
    Pow2Add(8, 16);
  }

  lemma ByteOfPair(high: nat, low: nat)
    requires low < 256
    ensures (high * 0x100_0000 + low) % 256 == low && (high * 0x100_0000 + low) / 0x100_0000 == high
  {
  }

  /** A type whose bit count is a whole number of bytes. */
  lemma DenseBytes(numericalType: nat, bytes: nat)
    requires numericalType < 256 && bytes < 32
    ensures DenseByteCount(Pack(numericalType, 8 * bytes)) == bytes
  {
    UnpackPacked(numericalType, 8 * bytes);
  }

  /** The dense byte count is the least number of bytes that holds the bits. */
  lemma DenseIsLeast(elementType: nat)
    ensures BitCount(elementType) <= 8 * DenseByteCount(elementType) < BitCount(elementType) + 8
  {
    hide BitCount;
  }

  // ----- names

  function NxTypeToIree(name: string): nat {
    if name == "s8" then INT_8
    else if name == "s16" then INT_16
    else if name == "s32" then INT_32
    else if name == "s64" then INT_64
    else if name == "u8" then UINT_8
    else if name == "u16" then UINT_16
    else if name == "u32" then UINT_32
    else if name == "u64" then UINT_64
    else if name == "bf16" then BFLOAT_16
    else if name == "f16" then FLOAT_16
    else if name == "f32" then FLOAT_32
    else if name == "f64" then FLOAT_64
    else if name == "c64" then COMPLEX_FLOAT_64
    else if name == "c128" then COMPLEX_FLOAT_128
    else NONE
  }

  function IreeTypeToNx(elementType: nat): string {
    if elementType == INT_8 then "i8"
    else if elementType == INT_16 then "i16"
    else if elementType == INT_32 then "i32"
    else if elementType == INT_64 then "i64"
    else if elementType == UINT_8 then "u8"
    else if elementType == UINT_16 then "u16"
    else if elementType == UINT_32 then "u32"
    else if elementType == UINT_64 then "u64"
    else if elementType == BFLOAT_16 then "bf16"
    else if elementType == FLOAT_16 then "f16"
    else if elementType == FLOAT_32 then "f32"
    else if elementType == FLOAT_64 then "f64"
    else if elementType == COMPLEX_FLOAT_64 then "c64"
    else if elementType == COMPLEX_FLOAT_128 then "c128"
    else "invalid_type"
  }

  /** A known name comes back from its element type exactly when it does not start with
      `s`: signed names come back with an `i`, which is not a name any more. */
  lemma NamesRoundTripIff(name: string)
    requires NxTypeToIree(name) != NONE
    ensures |name| > 0 && (IreeTypeToNx(NxTypeToIree(name)) == name <==> name[0] != 's')
    ensures name[0] == 's' ==>
      IreeTypeToNx(NxTypeToIree(name)) == "i" + name[1..] && NxTypeToIree("i" + name[1..]) == NONE
  {
    hide Pack;
    PacksAreSums();
    if name[0] == 's' {
      assert name[1..] == "8" || name[1..] == "16" || name[1..] == "32" || name[1..] == "64";
      NoSuchName("i" + name[1..]);
    }
  }

  lemma NoSuchName(name: string)
    requires name != "" && name[0] == 'i'
    ensures NxTypeToIree(name) == NONE
  {
  }

  // ----- what a name says

  predicate IsDigit(c: char) { '0' <= c <= '9' }

  /** How many letters a name starts with. */
  function LetterCount(name: string): (k: nat)
    ensures k <= |name|
  {
    if name == "" || IsDigit(name[0]) then 0 else 1 + LetterCount(name[1..])
  }

  /** The number that a string of digits denotes. */
  function Decimal(digits: string): nat {
    if digits == "" then 0
    else
      var last := |digits| - 1;
      10 * Decimal(digits[..last]) + if IsDigit(digits[last]) then digits[last] as int - '0' as int else 0
  }

  /** A known name says what its type packs: its letters the numerical type and its
      digits the bit count. */
  lemma NamesSayTheType(name: string)
    requires NxTypeToIree(name) != NONE
    ensures var k, elementType := LetterCount(name), NxTypeToIree(name);
      && BitCount(elementType) == Decimal(name[k..])
      && name[..k] in {"s", "u", "f", "bf", "c"}
      && (name[..k] == "s" ==> NumericalType(elementType) == 0x10)
      && (name[..k] == "u" ==> NumericalType(elementType) == 0x12)
      && (name[..k] == "f" ==> NumericalType(elementType) == 0x21)
      && (name[..k] == "bf" ==> NumericalType(elementType) == 0x22)
      && (name[..k] == "c" ==> NumericalType(elementType) == 0x23)
  {
    hide Pack, BitCount, NumericalType, LetterCount, Decimal;
    Decimals();
    var letters, digits, numericalType := PartsOf(name);
    LettersThenDigits(letters, digits);
    UnpackPacked(numericalType, Decimal(digits));
  }

  /** The letters, the digits and the numerical type of each known name. */
  lemma PartsOf(name: string) returns (letters: string, digits: string, numericalType: nat)
    requires NxTypeToIree(name) != NONE
    ensures name == letters + digits
    ensures (letters, numericalType) in {("s", 0x10), ("u", 0x12), ("f", 0x21), ("bf", 0x22), ("c", 0x23)}
    ensures digits in {"8", "16", "32", "64", "128"}
    ensures NxTypeToIree(name) == Pack(numericalType, Decimal(digits))
  {
    hide Pack, Decimal;
    Decimals();
    if name[0] == 's' {
      letters, numericalType := "s", 0x10;
    } else if name[0] == 'u' {
      letters, numericalType := "u", 0x12;
    } else if name[0] == 'f' {
      letters, numericalType := "f", 0x21;
    } else if name[0] == 'c' {
      letters, numericalType := "c", 0x23;
    } else {
      letters, numericalType := "bf", 0x22;
    }
    digits := name[|letters|..];
  }

  lemma Decimals()
    ensures Decimal("8") == 8 && Decimal("16") == 16 && Decimal("32") == 32 && Decimal("64") == 64
    ensures Decimal("128") == 128
  {
    assert "8"[..0] == "" && "16"[..1] == "1" && "32"[..1] == "3" && "64"[..1] == "6";
    assert "128"[..2] == "12" && "12"[..1] == "1";
    assert Decimal("1") == 1 && Decimal("12") == 12;
  }

  lemma LettersThenDigits(letters: string, digits: string)
    requires letters in {"s", "u", "f", "bf", "c"} && digits in {"8", "16", "32", "64", "128"}
    ensures LetterCount(letters + digits) == |letters|
    ensures (letters + digits)[..|letters|] == letters && (letters + digits)[|letters|..] == digits
  {
    var name := letters + digits;
    assert name[|letters|..] == digits && LetterCount(digits) == 0;
    assert LetterCount(name[|letters| - 1..]) == 1;
    assert letters == "bf" ==> name[1..] == name[|letters| - 1..];
    assert letters != "bf" ==> name == name[|letters| - 1..];
  }
}
