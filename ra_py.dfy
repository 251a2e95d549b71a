/** The Python reader and writer of python/ra.py: an implementation of the
    RawArray layout of its own, with every header word packed little-endian
    ('<Q') and the element type derived from, and turned back into, a numpy
    dtype.  A numpy array is its dtype, its shape and the bytes tobytes()
    returns; a file is its sequence of bytes. */
module RaPy {
  import opened Bytes
  import opened RaH
  import opened RaFile

  /** FLAG_BIG_ENDIAN of ra.py. */
  const PyFlagBigEndian: u64 := 1

  /** dtype_kind_to_enum: the numpy kind letters that name an element type. */
  const KindToEnum: map<char, u64> := map['i' := 1, 'u' := 2, 'f' := 3, 'c' := 4]

  /** dtype_enum_to_name: the numpy base name of each element type. */
  const EnumToName: map<u64, string> := map[0 := "user", 1 := "int", 2 := "uint", 3 := "float", 4 := "complex"]

  /** 2^63: numpy sizes and dimensions are signed 64-bit (npy_intp). */
  const TwoTo63: nat := 0x8000_0000_0000_0000

  /** The exceptions ra.py lets escape. */
  datatype PyError =
    | StructError  // struct.unpack('<Q', s) of fewer than eight bytes
    | KeyError     // dtype_enum_to_name[eltype] of an eltype above 4
    | TypeError    // np.dtype(name) of a name numpy does not know
    | ValueError   // fromstring of a partial element, or reshape to other dims
    | OverflowError  // f.read(size) or range(ndims) of a count of 2^63 or more

  datatype Result<T> = Ok(value: T) | Err(error: PyError)

  /** A numpy dtype: the byte-order character dtype.str starts with ('<',
      '>' or '|'), dtype.kind and dtype.itemsize. */
  datatype DType = DType(order: char, kind: char, itemsize: nat)

  /** The kinds that are numbers: signed, unsigned, float and complex. */
  predicate Numeric(kind: char)
  {
    kind in KindToEnum
  }

  /** The item sizes numpy has for each numeric kind, on a 64-bit Linux
      build (int8 .. int64, uint8 .. uint64, float16 .. float128,
      complex64 .. complex256). */
  predicate NumericSize(kind: char, itemsize: nat)
  {
    match kind
    case 'i' => itemsize in {1, 2, 4, 8}
    case 'u' => itemsize in {1, 2, 4, 8}
    case 'f' => itemsize in {2, 4, 8, 16}
    case 'c' => itemsize in {8, 16, 32}
    case _ => false
  }

  /** The byte-order character of a dtype in the host's (little-endian)
      order: single bytes have no order. */
  function NativeOrder(itemsize: nat): char
  {
    if itemsize == 1 then '|' else '<'
  }

  /** A numpy array: dtype, shape and data.tobytes(), the elements in C
      order, each in the dtype's byte order. */
  datatype NdArray = NdArray(dtype: DType, shape: seq<u64>, bytes: seq<byte>)
  {
    /** data.size: the number of elements. */
    function Size(): nat
    {
      Product(shape)
    }

    /** What numpy guarantees of an array: the buffer holds size elements,
        sizes and dimensions fit npy_intp, and a numeric dtype has one of
        numpy's item sizes and a byte order only when it is wider than a
        byte. */
    predicate Valid()
    {
      |bytes| == Size() * dtype.itemsize && |bytes| < TwoTo63 &&
      |shape| < TwoTo63 && dtype.itemsize < TwoTo63 &&
      (forall d :: d in shape ==> d < TwoTo63) &&
      (Numeric(dtype.kind) ==>
        NumericSize(dtype.kind, dtype.itemsize) &&
        (dtype.order == NativeOrder(dtype.itemsize) || (dtype.itemsize > 1 && dtype.order == '>')))
    }
  }

  /** The flags word write stores for a dtype byte order: FLAG_BIG_ENDIAN
      for '>', nothing otherwise. */
  function OrderFlags(order: char): u64
  {
    if order == '>' then PyFlagBigEndian else 0
  }

  /** The eltype word write stores for a dtype kind: its entry in
      dtype_kind_to_enum, or 0 when the lookup raises KeyError. */
  function KindEltype(kind: char): u64
  {
    if kind in KindToEnum then KindToEnum[kind] else 0
  }

  /** The header write derives from an array: the flags of the byte order,
      the eltype of the kind, the item size, the byte size, the rank, the
      shape and the data. */
  function Header(a: NdArray): (v: RaValue)
    requires a.Valid()
    ensures v.WellFormed()
  {
    RaValue(OrderFlags(a.dtype.order), KindEltype(a.dtype.kind),
            a.dtype.itemsize, |a.bytes|, |a.shape|, a.shape, a.bytes)
  }

  /** The flags word sets the big-endian bit exactly for a '>' dtype, and
      no other bit, known or unknown, ever. */
  lemma OrderFlagsMeaning(order: char)
    ensures HasFlag(OrderFlags(order), FlagBigEndian) <==> order == '>'
    ensures !HasFlag(OrderFlags(order), FlagCompressed)
    ensures OrderFlags(order) as bv64 & UnknownFlags == 0
  {
    UnknownFlagsExactly(OrderFlags(order) as bv64);
  }

  /** The eltype word names the element type of the C enum whose letter
      in RA_TYPE_CODES is the numpy kind, for the four numeric kinds, and
      USER for every other kind. */
  lemma KindEltypeMeaning(kind: char)
    ensures Numeric(kind) ==>
      ElTypeOf(KindEltype(kind)).Some? && ElTypeOf(KindEltype(kind)).value.Code() == kind
    ensures !Numeric(kind) <==> KindEltype(kind) == User.Ordinal()
  {
    if kind == 'i' {
      assert KindEltype(kind) == 1;
    } else if kind == 'u' {
      assert KindEltype(kind) == 2;
    } else if kind == 'f' {
      assert KindEltype(kind) == 3;
    } else if kind == 'c' {
      assert KindEltype(kind) == 4;
    }
  }

  /** The size word is elbyte times the element count of the dims. */
  lemma HeaderSize(a: NdArray)
    requires a.Valid()
    ensures Header(a).size == Product(Header(a).dims) * Header(a).elbyte
  {
  }

  /** write(data, filename): the six header words, each packed '<Q', then
      dims.tobytes() (the shape as native, little-endian uint64), then
      data.tobytes().  The file is byte for byte the one ra_write of the C
      library produces for the same header and data. */
  method Write(a: NdArray) returns (f: OutFile)
    requires a.Valid()
    ensures fresh(f)
    ensures f.contents == Encode(Header(a))
  {
    f := new OutFile.Create();
    var flags: u64 := 0;
    if a.dtype.order == '>' {
      flags := PyFlagBigEndian;
    }
    var eltype: u64;
    if a.dtype.kind in KindToEnum {
      eltype := KindToEnum[a.dtype.kind];
    } else {
      eltype := 0;
    }
    assert flags == OrderFlags(a.dtype.order) && eltype == KindEltype(a.dtype.kind);
    var elbyte: u64 := a.dtype.itemsize;
    var size: u64 := |a.bytes|;
    var ndims: u64 := |a.shape|;
    WriteHeaderWords(f, flags, eltype, elbyte, size, ndims, a.shape);
    assert HeaderWords(Header(a)) == HeaderWords(RaValue(flags, eltype, elbyte, size, ndims, a.shape, []));
    f.Write(a.bytes);
  }

  /** The six f.write(struct.pack('<Q', ...)) calls of write, then
      f.write(dims.tobytes()). */
  method WriteHeaderWords(f: OutFile, flags: u64, eltype: u64, elbyte: u64, size: u64, ndims: u64, dims: seq<u64>)
    requires f.contents == []
    modifies f
    ensures f.contents == Pack(HeaderWords(RaValue(flags, eltype, elbyte, size, ndims, dims, [])), 8)
  {
    ghost var ws: seq<nat> := HeaderWords(RaValue(flags, eltype, elbyte, size, ndims, dims, []));
    assert f.contents == Pack(ws[..0], 8);
    WriteWord(f, PyMagicNumber, ws, 0);
    WriteWord(f, flags, ws, 1);
    WriteWord(f, eltype, ws, 2);
    WriteWord(f, elbyte, ws, 3);
    WriteWord(f, size, ws, 4);
    WriteWord(f, ndims, ws, 5);
    f.Write(Pack(dims, 8));
    PackAppend(ws[..6], dims, 8);
    assert ws[..6] + dims == ws;
  }

  /** The dict getheader returns. */
  datatype PyHeader = PyHeader(flags: u64, eltype: u64, elbyte: u64, size: u64, ndims: u64, dims: seq<u64>)

  /** A file opened with open(filename, 'rb'): its bytes and the position. */
  class PyFile {
    const contents: seq<byte>
    var pos: nat

    constructor Open(bytes: seq<byte>)
      ensures contents == bytes && pos == 0
    {
      contents := bytes;
      pos := 0;
    }

    /** f.read(n): the next n bytes, or what is left of the file. */
    method Read(n: nat) returns (s: seq<byte>)
      modifies this
      ensures s == Chunk(contents, old(pos), n)
      ensures pos == old(pos) + |s|
    {
      s := Chunk(contents, pos, n);
      pos := pos + |s|;
    }
  }

  /** struct.unpack('<Q', s)[0]. */
  function UnpackQ(s: seq<byte>): (r: Result<u64>)
    ensures r.Ok? <==> |s| == 8
    ensures r.Ok? ==> Word(r.value) == s
  {
    if |s| != 8 then Err(StructError)
    else
      assert s[0..8] == s;
      WordAtBytes(s, 0);
      Ok(WordAt(s, 0))
  }

  /** struct.unpack('<Q', f.read(8))[0]. */
  method ReadWord(f: PyFile) returns (r: Result<u64>)
    modifies f
    ensures old(f.pos) + 8 <= |f.contents| ==> r == Ok(WordAt(f.contents, old(f.pos))) && f.pos == old(f.pos) + 8
    ensures old(f.pos) + 8 > |f.contents| ==> r == Err(StructError)
  {
    var s := f.Read(8);
    r := UnpackQ(s);
    if old(f.pos) + 8 <= |f.contents| {
      assert s == f.contents[old(f.pos) .. old(f.pos) + 8];
    }
  }

  /** What getheader returns for a file: the header words after the magic
      and ndims dimension words, when the file holds them all; otherwise
      the first short read makes struct.unpack raise.  range(ndims) builds
      its whole list before the first dimension is read, and raises for a
      count of 2^63 or more. */
  function HeaderOf(file: seq<byte>): (r: Result<PyHeader>)
  {
    if |file| < FixedHeaderBytes then Err(StructError)
    else if WordAt(file, 40) >= TwoTo63 then Err(OverflowError)
    else if |file| < DataOffset(WordAt(file, 40)) then Err(StructError)
    else
      var n := WordAt(file, 40);
      Ok(PyHeader(WordAt(file, 8), WordAt(file, 16), WordAt(file, 24), WordAt(file, 32), n,
                  WordsAt(file, FixedHeaderBytes, n)))
  }

  /** getheader(f): the magic is read and dropped, then five words, then
      the dims appended one word at a time. */
  method GetHeader(f: PyFile) returns (r: Result<PyHeader>)
    requires f.pos == 0
    modifies f
    ensures r == HeaderOf(f.contents)
    ensures r.Ok? ==> f.pos == DataOffset(r.value.ndims)
  {
    var _ := f.Read(8);
    var flags := ReadWord(f);
    if flags.Err? { return Err(StructError); }
    var eltype := ReadWord(f);
    if eltype.Err? { return Err(StructError); }
    var elbyte := ReadWord(f);
    if elbyte.Err? { return Err(StructError); }
    var size := ReadWord(f);
    if size.Err? { return Err(StructError); }
    var ndims := ReadWord(f);
    if ndims.Err? { return Err(StructError); }
    if ndims.value >= TwoTo63 { return Err(OverflowError); }
    var dims: seq<u64> := [];
    for d: nat := 0 to ndims.value
      invariant f.pos == DataOffset(d) <= |f.contents|
      invariant dims == WordsAt(f.contents, FixedHeaderBytes, d)
    {
      var x := ReadWord(f);
      if x.Err? { return Err(StructError); }
      dims := dims + [x.value];
    }
    r := Ok(PyHeader(flags.value, eltype.value, elbyte.value, size.value, ndims.value, dims));
  }

  /** What read returns: the raw bytes of a user-typed file, or an array. */
  datatype Loaded = Raw(raw: seq<byte>) | Array(nd: NdArray)

  /** The kind letter of a numpy base name. */
  function KindOfName(name: string): Option<char>
  {
    if name == "int" then Some('i')
    else if name == "uint" then Some('u')
    else if name == "float" then Some('f')
    else if name == "complex" then Some('c')
    else None
  }

  /** np.dtype(base + str(bits)): a dtype in the host's byte order, when
      numpy has one of that name. */
  function NpDType(base: string, bits: nat): (r: Option<DType>)
    ensures r.Some? ==> r.value.itemsize > 0 && r.value.itemsize * 8 == bits
  {
    var kind := KindOfName(base);
    if bits % 8 == 0 && kind.Some? && NumericSize(kind.value, bits / 8)
    then Some(DType(NativeOrder(bits / 8), kind.value, bits / 8))
    else None
  }

  /** The rest of read once the header is in: raw holds what f.read(size)
      returned.  eltype 0 gives the bytes as they are; otherwise the dtype
      is named from dtype_enum_to_name and elbyte * 8, fromstring cuts
      the bytes into elements and reshape gives them the dims.  A size of
      2^63 or more makes f.read raise before it reads; for a typed file
      that comes after the dict lookup of the name and before np.dtype,
      the positional argument of fromstring being evaluated first. */
  function Load(h: PyHeader, raw: seq<byte>): (r: Result<Loaded>)
  {
    if h.eltype == 0 then (if h.size >= TwoTo63 then Err(OverflowError) else Ok(Raw(raw)))
    else if h.eltype !in EnumToName then Err(KeyError)
    else if h.size >= TwoTo63 then Err(OverflowError)
    else match NpDType(EnumToName[h.eltype], h.elbyte * 8)
      case None => Err(TypeError)
      case Some(dt) =>
        if |raw| % dt.itemsize != 0 then Err(ValueError)
        else if (exists d :: d in h.dims && d >= TwoTo63) || Product(h.dims) != |raw| / dt.itemsize then Err(ValueError)
        else Ok(Array(NdArray(dt, h.dims, raw)))
  }

  /** What read(filename) returns or raises for a file. */
  function ReadOf(file: seq<byte>): Result<Loaded>
  {
    match HeaderOf(file)
    case Err(e) => Err(e)
    case Ok(h) => Load(h, Chunk(file, DataOffset(h.ndims), h.size))
  }

  /** read(filename): getheader, then f.read(size), then the conversion. */
  method Read(file: seq<byte>) returns (r: Result<Loaded>)
    ensures r == ReadOf(file)
  {
    var f := new PyFile.Open(file);
    var h := GetHeader(f);
    if h.Err? {
      return Err(h.error);
    }
    var raw := f.Read(h.value.size);
    r := Load(h.value, raw);
  }

  /** getheader and the C reader agree: on a complete file getheader
      returns the header words ra_read decodes, unless range(ndims) refuses
      a count ra_read accepts. */
  lemma HeaderOfComplete(file: seq<byte>)
    requires Complete(file)
    ensures var v := Decode(file);
      v.ndims < TwoTo63 ==>
        HeaderOf(file) == Ok(PyHeader(v.flags, v.eltype, v.elbyte, v.size, v.ndims, v.dims))
    ensures Decode(file).ndims >= TwoTo63 ==> HeaderOf(file) == Err(OverflowError)
  {
  }

  /** getheader raises OverflowError exactly when the six header words are
      there and ndims is 2^63 or more, before any dimension is read. */
  lemma RangeOverflow(file: seq<byte>)
    ensures HeaderOf(file) == Err(OverflowError) <==>
      |file| >= FixedHeaderBytes && WordAt(file, 40) >= TwoTo63
  {
  }

  /** getheader never looks at the magic. */
  lemma HeaderOfIgnoresMagic(f: seq<byte>, g: seq<byte>)
    requires |f| == |g| >= 8 && f[8..] == g[8..]
    ensures HeaderOf(f) == HeaderOf(g)
    ensures ReadOf(f) == ReadOf(g)
  {
    forall off | 8 <= off && off + 8 <= |f|
      ensures WordAt(f, off) == WordAt(g, off)
    {
      assert f[off .. off + 8] == f[8..][off - 8 .. off]
                                == g[8..][off - 8 .. off] == g[off .. off + 8];
    }
    if |f| >= FixedHeaderBytes && |f| >= DataOffset(WordAt(f, 40)) {
      var n := WordAt(f, 40);
      assert WordsAt(f, FixedHeaderBytes, n) == WordsAt(g, FixedHeaderBytes, n);
      var size := WordAt(f, 32);
      assert Chunk(f, DataOffset(n), size) == Chunk(g, DataOffset(n), size);
    }
  }

  /** The bytes after the header of a written file are the data. */
  lemma WrittenHeader(a: NdArray)
    requires a.Valid()
    ensures var v := Header(a);
      HeaderOf(Encode(v)) == Ok(PyHeader(v.flags, v.eltype, v.elbyte, v.size, v.ndims, v.dims)) &&
      Chunk(Encode(v), DataOffset(v.ndims), v.size) == a.bytes
  {
    var v := Header(a);
    DecodeEncode(v, []);
    assert Encode(v) + [] == Encode(v);
    EncodeLayout(v);
  }

  /** The dtype read rebuilds from the eltype and elbyte write stores is
      the array's own, in the host's byte order. */
  lemma DTypeRoundTrip(a: NdArray)
    requires a.Valid() && Numeric(a.dtype.kind)
    ensures var v := Header(a);
      v.eltype in EnumToName &&
      NpDType(EnumToName[v.eltype], v.elbyte * 8) ==
        Some(DType(NativeOrder(a.dtype.itemsize), a.dtype.kind, a.dtype.itemsize))
  {
    var k := a.dtype.kind;
    assert k == 'i' || k == 'u' || k == 'f' || k == 'c';
  }

  /** Writing an array of a numeric kind in the host's byte order and
      reading the file back gives the same array. */
  lemma {:induction false} RoundTrip(a: NdArray)
    requires a.Valid() && Numeric(a.dtype.kind) && a.dtype.order != '>'
    ensures ReadOf(Encode(Header(a))) == Ok(Array(a))
  {
    WrittenHeader(a);
    DTypeRoundTrip(a);
    LoadWhole(a, Header(a));
  }

  /** read ignores the big-endian flag write sets: a '>' array comes back
      with the same bytes, reinterpreted in the host's byte order. */
  lemma {:induction false} BigEndianReadAsNative(a: NdArray)
    requires a.Valid() && Numeric(a.dtype.kind) && a.dtype.order == '>'
    ensures HasFlag(Header(a).flags, FlagBigEndian)
    ensures ReadOf(Encode(Header(a))) ==
      Ok(Array(NdArray(DType('<', a.dtype.kind, a.dtype.itemsize), a.shape, a.bytes)))
  {
    OrderFlagsMeaning(a.dtype.order);
    WrittenHeader(a);
    DTypeRoundTrip(a);
    LoadWhole(a, Header(a));
  }

  /** An array whose kind is not numeric is written as USER data and read
      back as its raw bytes. */
  lemma {:induction false} OtherKindsReadRaw(a: NdArray)
    requires a.Valid() && !Numeric(a.dtype.kind)
    ensures ReadOf(Encode(Header(a))) == Ok(Raw(a.bytes))
  {
    WrittenHeader(a);
  }

  /** read raises OverflowError exactly when the header's size is not a
      signed 64-bit count and the eltype does not fail the name lookup
      first; the bytes behind the header do not matter. */
  lemma OverflowOnHugeSize(file: seq<byte>)
    requires HeaderOf(file).Ok?
    ensures var h := HeaderOf(file).value;
      ReadOf(file) == Err(OverflowError) <==> h.size >= TwoTo63 && h.eltype in EnumToName
  {
  }

  /** The check of python/test.py: whatever array read returns for a file
      (of fewer than 2^63 bytes), write followed by read gives it back. */
  lemma {:induction false} ReadWriteRead(file: seq<byte>)
    requires |file| < TwoTo63
    requires ReadOf(file).Ok? && ReadOf(file).value.Array?
    ensures var a := ReadOf(file).value.nd;
      a.Valid() && ReadOf(Encode(Header(a))) == Ok(Array(a))
  {
    var h := HeaderOf(file).value;
    var raw := Chunk(file, DataOffset(h.ndims), h.size);
    assert ReadOf(file) == Load(h, raw);
    assert |h.dims| < TwoTo63;
    LoadedValid(h, raw);
    RoundTrip(ReadOf(file).value.nd);
  }

  /** An array Load returns from fewer than 2^63 bytes is one write
      accepts, in the host's byte order. */
  lemma {:induction false} LoadedValid(h: PyHeader, raw: seq<byte>)
    requires |raw| < TwoTo63 && |h.dims| < TwoTo63
    requires Load(h, raw).Ok? && Load(h, raw).value.Array?
    ensures var a := Load(h, raw).value.nd;
      a.Valid() && Numeric(a.dtype.kind) && a.dtype.order != '>'
  {
    var a := Load(h, raw).value.nd;
    var dt := NpDType(EnumToName[h.eltype], h.elbyte * 8).value;
    assert a == NdArray(dt, h.dims, raw);
    assert |raw| == Product(h.dims) * dt.itemsize by {
      DivMulExact(Product(h.dims), dt.itemsize);
      assert |raw| == (|raw| / dt.itemsize) * dt.itemsize + |raw| % dt.itemsize;
    }
  }

  /** Load of a written header and its data accepts the element count and
      the shape. */
  lemma LoadWhole(a: NdArray, v: RaValue)
    requires a.Valid() && Numeric(a.dtype.kind) && v == Header(a)
    ensures Load(PyHeader(v.flags, v.eltype, v.elbyte, v.size, v.ndims, v.dims), a.bytes) ==
      Ok(Array(NdArray(DType(NativeOrder(a.dtype.itemsize), a.dtype.kind, a.dtype.itemsize), a.shape, a.bytes)))
  {
    DTypeRoundTrip(a);
    var w := a.dtype.itemsize;
    assert |a.bytes| == a.Size() * w;
    assert |a.bytes| % w == 0 && |a.bytes| / w == a.Size() by {
      DivMulExact(a.Size(), w);
    }
  }

  /** n * w divides back by w > 0 with no remainder. */
  lemma DivMulExact(n: nat, w: nat)
    requires w > 0
    ensures (n * w) % w == 0 && (n * w) / w == n
  {
    DivUnique(n * w, w, n, 0);
  }
}
