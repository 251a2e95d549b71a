/** The constants and enumerations of the RawArray header (c/ra.h). */
module RaH {
  import opened Bytes

  /** RA_MAGIC_NUMBER: the first word of every file. */
  const MagicNumber: u64 := 0x7961727261776172

  /** MAGIC_NUMBER of the Python implementation, written in decimal there. */
  const PyMagicNumber: u64 := 8746397786917265778

  /** NFLAGS: the number of flag bits that have a meaning. */
  const NFlags: nat := 2

  /** RA_FLAG_BIG_ENDIAN, RA_FLAG_COMPRESSED and RA_UNKNOWN_FLAGS, with
      the C operators on 64-bit words: -(1 << NFLAGS) is a signed long long
      that the bitwise test against a uint64_t turns into its two's
      complement bit pattern, which bv64 negation computes. */
  const FlagBigEndian: bv64 := 1 << 0
  const FlagCompressed: bv64 := 1 << 1
  const UnknownFlags: bv64 := -(1 << NFlags)

  /** RA_MAX_BYTES, 1 << 31: the most one read or write call transfers. */
  const MaxBytes: nat := 0x8000_0000

  /** RA_TYPE_CODES: one letter per element type, indexed by ordinal. */
  const TypeCodes: string := "siufc"

  /** ra_type. */
  datatype ElType = User | Int | UInt | Float | Complex
  {
    /** The enumerator's value, as written to the eltype word. */
    function Ordinal(): (k: nat)
      ensures k < |TypeCodes|
    {
      match this
      case User => 0
      case Int => 1
      case UInt => 2
      case Float => 3
      case Complex => 4
    }

    /** The type's letter in RA_TYPE_CODES. */
    function Code(): char
    {
      TypeCodes[Ordinal()]
    }
  }

  /** The element type an eltype word names, if any. */
  function ElTypeOf(k: u64): (t: Option<ElType>)
    ensures t.Some? <==> k < |TypeCodes|
    ensures t.Some? ==> t.value.Ordinal() == k
  {
    if k == 0 then Some(User)
    else if k == 1 then Some(Int)
    else if k == 2 then Some(UInt)
    else if k == 3 then Some(Float)
    else if k == 4 then Some(Complex)
    else None
  }

  /** The element type whose letter is c, if any. */
  function ElTypeOfCode(c: char): (t: Option<ElType>)
    ensures t.Some? <==> c in TypeCodes
    ensures t.Some? ==> t.value.Code() == c
  {
    if c == 's' then Some(User)
    else if c == 'i' then Some(Int)
    else if c == 'u' then Some(UInt)
    else if c == 'f' then Some(Float)
    else if c == 'c' then Some(Complex)
    else None
  }

  datatype Option<T> = None | Some(value: T)

  /** The diff modes RA_DIFF_EQ, RA_DIFF_L1, RA_DIFF_L2. */
  datatype DiffMode = DiffEq | DiffL1 | DiffL2
  {
    function Ordinal(): (k: nat)
      ensures k < 3
    {
      match this
      case DiffEq => 0
      case DiffL1 => 1
      case DiffL2 => 2
    }
  }

  /** Whether flag word f has any of the bits of mask set (f & mask in C). */
  predicate HasFlag(f: u64, mask: bv64)
  {
    (f as bv64) & mask != 0
  }

  /** The ordinals of the element types are 0 .. 4, in declaration order,
      and each type's letter sits at its ordinal in RA_TYPE_CODES. */
  lemma ElTypeOrdinals()
    ensures User.Ordinal() == 0 && Int.Ordinal() == 1 && UInt.Ordinal() == 2
    ensures Float.Ordinal() == 3 && Complex.Ordinal() == 4
    ensures User.Code() == 's' && Int.Code() == 'i' && UInt.Code() == 'u'
    ensures Float.Code() == 'f' && Complex.Code() == 'c'
  {
  }

  /** Element types and their ordinals are in one-to-one correspondence,
      and so are element types and their letters. */
  lemma ElTypeRoundTrip(t: ElType)
    ensures ElTypeOf(t.Ordinal()) == Some(t)
    ensures ElTypeOfCode(t.Code()) == Some(t)
  {
  }

  lemma DiffModeOrdinals()
    ensures DiffEq.Ordinal() == 0 && DiffL1.Ordinal() == 1 && DiffL2.Ordinal() == 2
  {
  }

  /** The known flags and RA_UNKNOWN_FLAGS are disjoint and together cover
      the whole 64-bit word. */
  lemma FlagMasksPartition()
    ensures FlagBigEndian == 1 && FlagCompressed == 2
    ensures (FlagBigEndian | FlagCompressed) & UnknownFlags == 0
    ensures FlagBigEndian | FlagCompressed | UnknownFlags == 0xFFFF_FFFF_FFFF_FFFF
  {
  }

  /** A flag word has no unknown bit exactly when it is below 1 << NFLAGS. */
  lemma UnknownFlagsExactly(b: bv64)
    ensures b & UnknownFlags == 0 <==> b < 1 << NFlags
  {
    assert UnknownFlags == 0xFFFF_FFFF_FFFF_FFFC;
  }

  lemma MaxBytesIsBit31()
    ensures MaxBytes == ((1 as bv64) << 31) as int
  {
  }

  /** The C and the Python magic numbers agree, and the word's
      little-endian bytes spell "rawarray". */
  lemma MagicSpellsRawarray()
    ensures MagicNumber == PyMagicNumber
    ensures Word(MagicNumber) == [114, 97, 119, 97, 114, 114, 97, 121]
    ensures forall i :: 0 <= i < 8 ==> Word(MagicNumber)[i] == "rawarray"[i] as int
  {
    var spelled: seq<byte> := [114, 97, 119, 97, 114, 114, 97, 121];
    assert DecodeLE(spelled[7..]) == 0x79;
    assert DecodeLE(spelled[6..]) == 0x7961;
    assert DecodeLE(spelled[5..]) == 0x796172;
    assert DecodeLE(spelled[4..]) == 0x79617272;
    assert DecodeLE(spelled[3..]) == 0x7961727261;
    assert DecodeLE(spelled[2..]) == 0x796172726177;
    assert DecodeLE(spelled[1..]) == 0x79617272617761;
    assert DecodeLE(spelled) == MagicNumber;
    EncodeDecodeLE(spelled);
    assert Word(MagicNumber) == spelled;
  }
}
