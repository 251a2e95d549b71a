/** The element-type converter of c/raconvert.c: validate_types, the copy
    of the unchanged header words, the element count and byte size of the
    destination, and the table of (type, width) pairs with the loop each
    entry runs over the data. */
module RaConvert {
  import opened Bytes
  import opened RaH
  import opened RaFile

  /** EX_OK and EX_USAGE of sysexits.h. */
  const ExOk: int := 0
  const ExUsage: int := 64

  /** The warnings validate_types prints before going on. */
  datatype Warning = LossyComplex | Narrowing

  /** What validate_types decides: exit with a status, or go on, perhaps
      after a warning. */
  datatype Check = Stop(status: int) | Go(warning: Option<Warning>)

  /** The eltype word k names element type t. */
  predicate IsType(k: u64, t: ElType)
  {
    k == t.Ordinal()
  }

  /** A complex source going to a type that is not complex. */
  predicate ComplexToOther(src: RaValue, eltype: u64)
  {
    IsType(src.eltype, Complex) && !IsType(eltype, Complex)
  }

  /** The destination type and width are those of the source. */
  predicate SameType(src: RaValue, eltype: u64, elbyte: u64)
  {
    elbyte == src.elbyte && eltype == src.eltype
  }

  /** validate_types(src, dst) for a destination of type eltype and width
      elbyte.  The tests form one else-if chain, so a complex source going
      to a real type gets only its warning: the same-type exit, the
      compressed-source rejection and the narrowing warning are skipped. */
  function Validate(src: RaValue, eltype: u64, elbyte: u64): (c: Check)
    ensures c == Stop(ExUsage) <==>
      IsType(eltype, User) ||
      (!ComplexToOther(src, eltype) && !SameType(src, eltype, elbyte) && HasFlag(src.flags, FlagCompressed))
    ensures c == Stop(ExOk) <==> !IsType(eltype, User) && SameType(src, eltype, elbyte)
    ensures c == Go(Some(LossyComplex)) <==> !IsType(eltype, User) && ComplexToOther(src, eltype)
    ensures c == Go(Some(Narrowing)) <==>
      !IsType(eltype, User) && !ComplexToOther(src, eltype) && !SameType(src, eltype, elbyte) &&
      !HasFlag(src.flags, FlagCompressed) && elbyte < src.elbyte
    ensures c.Stop? || c.Go?
  {
    if IsType(eltype, User) then Stop(ExUsage)
    else if ComplexToOther(src, eltype) then Go(Some(LossyComplex))
    else if SameType(src, eltype, elbyte) then Stop(ExOk)
    else if HasFlag(src.flags, FlagCompressed) then Stop(ExUsage)
    else if elbyte < src.elbyte then Go(Some(Narrowing))
    else Go(None)
  }

  /** A USER destination is refused even when it is the source's own type:
      that test comes before the same-type exit. */
  lemma UserRefusedFirst(src: RaValue)
    requires IsType(src.eltype, User)
    ensures Validate(src, src.eltype, src.elbyte) == Stop(ExUsage)
  {
  }

  /** A compressed complex source converted to a real type is let through
      with the complex warning only, while the same source converted to
      another complex width is refused. */
  lemma CompressedComplexSlipsThrough(src: RaValue)
    requires IsType(src.eltype, Complex) && src.elbyte == 16
    requires HasFlag(src.flags, FlagCompressed)
    ensures Validate(src, Float.Ordinal(), 8) == Go(Some(LossyComplex))
    ensures Validate(src, Complex.Ordinal(), 8) == Stop(ExUsage)
  {
  }

  /** COMPLEX,16 to FLOAT,4 halves the width but only the complex warning
      is printed. */
  lemma NoNarrowingWarningForComplex(src: RaValue)
    requires IsType(src.eltype, Complex) && src.elbyte == 16
    ensures Validate(src, Float.Ordinal(), 4) == Go(Some(LossyComplex))
  {
  }

  /** How a table entry moves the elements. */
  datatype Kernel =
    | IntCast        // CONVERT between integer types
    | FloatCast      // CONVERT between float and double
    | ComplexCast    // nelem *= 2, then CONVERT between float and double
    | RealToComplex  // dst[2i] = src[i], dst[2i+1] = 0
    | ComplexToReal  // dst[i] = src[2i]

  /** One CASE(TYPE1, BYTE1, TYPE2, BYTE2) of the table and what it runs. */
  datatype Entry = Entry(srcType: ElType, srcBytes: nat, dstType: ElType, dstBytes: nat, kernel: Kernel)
  {
    /** The width of one element of the source's typed view. */
    function SrcWidth(): (w: nat)
      ensures Consistent() ==> w in {1, 2, 4, 8}
    {
      match kernel
      case ComplexCast => srcBytes / 2
      case ComplexToReal => dstBytes
      case _ => srcBytes
    }

    /** The width of one element of the destination's typed view. */
    function DstWidth(): (w: nat)
      ensures Consistent() ==> w in {1, 2, 4, 8}
    {
      match kernel
      case ComplexCast => dstBytes / 2
      case RealToComplex => srcBytes
      case _ => dstBytes
    }

    /** The widths agree with the element types: complex elements hold two
        components of half their width, and the views of both buffers
        are made of whole components. */
    predicate Consistent()
    {
      match kernel
      case IntCast => srcBytes in {1, 2, 4, 8} && dstBytes in {1, 2, 4, 8}
      case FloatCast => (srcBytes, dstBytes) in {(4, 8), (8, 4)}
      case ComplexCast => (srcBytes, dstBytes) in {(16, 8), (8, 16)}
      case RealToComplex => srcBytes in {4, 8} && dstBytes == 2 * srcBytes
      case ComplexToReal => dstBytes in {4, 8} && srcBytes == 2 * dstBytes
    }
  }

  /** The if / else-if chain of main, in source order, in the groups its
      comments mark.  Entries 21 .. 23 repeat entries 9 .. 11. */
  const Table: seq<Entry> := IntToInt + UIntToInt + UIntToUInt + FloatAndComplex

  const IntToInt: seq<Entry> := [
    Entry(Int, 1, Int, 2, IntCast), Entry(Int, 1, Int, 4, IntCast), Entry(Int, 1, Int, 8, IntCast),
    Entry(Int, 2, Int, 1, IntCast), Entry(Int, 2, Int, 4, IntCast), Entry(Int, 2, Int, 8, IntCast),
    Entry(Int, 4, Int, 1, IntCast), Entry(Int, 4, Int, 2, IntCast), Entry(Int, 4, Int, 8, IntCast)
  ]

  const UIntToInt: seq<Entry> := [
    Entry(UInt, 8, Int, 1, IntCast), Entry(UInt, 8, Int, 2, IntCast), Entry(UInt, 8, Int, 4, IntCast),
    Entry(UInt, 1, Int, 2, IntCast), Entry(UInt, 1, Int, 4, IntCast), Entry(UInt, 1, Int, 8, IntCast),
    Entry(UInt, 2, Int, 1, IntCast), Entry(UInt, 2, Int, 4, IntCast), Entry(UInt, 2, Int, 8, IntCast),
    Entry(UInt, 4, Int, 1, IntCast), Entry(UInt, 4, Int, 2, IntCast), Entry(UInt, 4, Int, 8, IntCast),
    Entry(UInt, 8, Int, 1, IntCast), Entry(UInt, 8, Int, 2, IntCast), Entry(UInt, 8, Int, 4, IntCast)
  ]

  const UIntToUInt: seq<Entry> := [
    Entry(UInt, 1, UInt, 2, IntCast), Entry(UInt, 1, UInt, 4, IntCast), Entry(UInt, 1, UInt, 8, IntCast),
    Entry(UInt, 2, UInt, 1, IntCast), Entry(UInt, 2, UInt, 4, IntCast), Entry(UInt, 2, UInt, 8, IntCast),
    Entry(UInt, 4, UInt, 1, IntCast), Entry(UInt, 4, UInt, 2, IntCast), Entry(UInt, 4, UInt, 8, IntCast),
    Entry(UInt, 8, UInt, 1, IntCast), Entry(UInt, 8, UInt, 2, IntCast), Entry(UInt, 8, UInt, 4, IntCast)
  ]

  const FloatAndComplex: seq<Entry> := [
    Entry(Float, 4, Float, 8, FloatCast), Entry(Float, 8, Float, 4, FloatCast),
    Entry(Complex, 16, Complex, 8, ComplexCast), Entry(Complex, 8, Complex, 16, ComplexCast),
    Entry(Float, 4, Complex, 8, RealToComplex), Entry(Float, 8, Complex, 16, RealToComplex),
    Entry(Complex, 8, Float, 4, ComplexToReal), Entry(Complex, 16, Float, 8, ComplexToReal)
  ]

  /** Every entry of the table, and nothing else, is in one of the groups. */
  lemma TableMembers(e: Entry)
    ensures e in Table <==> e in IntToInt || e in UIntToInt || e in UIntToUInt || e in FloatAndComplex
  {
  }

  /** CASE(...) for entry e, source src and destination type and width. */
  predicate Matches(e: Entry, src: RaValue, eltype: u64, elbyte: u64)
  {
    IsType(src.eltype, e.srcType) && src.elbyte == e.srcBytes &&
    IsType(eltype, e.dstType) && elbyte == e.dstBytes
  }

  /** The entry an else-if chain over table t takes, looking from index i
      on: the first that matches, if any. */
  function FirstMatch(t: seq<Entry>, i: nat, src: RaValue, eltype: u64, elbyte: u64): (r: Option<nat>)
    requires i <= |t|
    ensures r.Some? ==> i <= r.value < |t| && Matches(t[r.value], src, eltype, elbyte)
    ensures r.Some? ==> forall j :: i <= j < r.value ==> !Matches(t[j], src, eltype, elbyte)
    ensures r.None? ==> forall j :: i <= j < |t| ==> !Matches(t[j], src, eltype, elbyte)
    decreases |t| - i
  {
    if i == |t| then None
    else if Matches(t[i], src, eltype, elbyte) then Some(i)
    else FirstMatch(t, i + 1, src, eltype, elbyte)
  }

  /** The chain's choice: the first matching entry of the whole table. */
  function Lookup(src: RaValue, eltype: u64, elbyte: u64): (r: Option<nat>)
    ensures r.Some? ==> r.value < |Table| && Matches(Table[r.value], src, eltype, elbyte)
    ensures r.Some? ==> forall j :: 0 <= j < r.value ==> !Matches(Table[j], src, eltype, elbyte)
    ensures r.None? <==> forall j :: 0 <= j < |Table| ==> !Matches(Table[j], src, eltype, elbyte)
    ensures r.Some? ==> Table[r.value].Consistent()
  {
    var r := FirstMatch(Table, 0, src, eltype, elbyte);
    if r.Some? then TableConsistent(r.value); r else r
  }

  /** The UINT8 to INT blocks at the end of the UINT -> INT group repeat
      the ones before UINT1 and are never taken. */
  lemma DuplicateEntriesUnreachable(src: RaValue, eltype: u64, elbyte: u64)
    ensures Table[21] == Table[9] && Table[22] == Table[10] && Table[23] == Table[11]
    ensures Lookup(src, eltype, elbyte) != Some(21)
    ensures Lookup(src, eltype, elbyte) != Some(22)
    ensures Lookup(src, eltype, elbyte) != Some(23)
  {
  }

  /** Every entry's widths fit its kernel. */
  lemma TableConsistent(i: nat)
    requires i < |Table|
    ensures Table[i].Consistent()
  {
    assert forall e | e in IntToInt :: e.Consistent();
    assert forall e | e in UIntToInt :: e.Consistent();
    assert forall e | e in UIntToUInt :: e.Consistent();
    assert forall e | e in FloatAndComplex :: e.Consistent();
    TableMembers(Table[i]);
  }

  /** No entry reads 64-bit signed integers, and none turns a signed
      integer into an unsigned one: both fall through to the final else. */
  lemma NoInt64SourceNoIntToUInt(src: RaValue, eltype: u64, elbyte: u64)
    requires IsType(src.eltype, Int)
    requires src.elbyte == 8 || IsType(eltype, UInt)
    ensures Lookup(src, eltype, elbyte) == None
  {
    forall j | 0 <= j < |Table|
      ensures !Matches(Table[j], src, eltype, elbyte)
    {
      var e := Table[j];
      if Matches(e, src, eltype, elbyte) {
        assert e.srcType == Int;
        IntSources(e);
      }
    }
  }

  /** The entries that read signed integers. */
  lemma IntSources(e: Entry)
    requires e in Table && e.srcType == Int
    ensures e in IntToInt
    ensures e.srcBytes in {1, 2, 4} && e.dstType == Int
  {
    TableMembers(e);
  }

  /** The value of the w-byte pattern p read as a two's complement signed
      integer, or as an unsigned one. */
  function IntValue(signed: bool, w: nat, p: nat): int
  {
    if signed && 2 * p >= Pow256(w) then p - Pow256(w) else p
  }

  /** The dw-byte pattern an integer assignment stores for the sw-byte
      pattern p: the source value reduced modulo 256^dw.  Section 6.3.1.3 of
      the C standard prescribes this for unsigned targets and leaves signed
      ones to the implementation, which reduces the same way. */
  function CastBits(signed: bool, sw: nat, dw: nat, p: nat): (r: nat)
    ensures r < Pow256(dw)
  {
    IntValue(signed, sw, p) % Pow256(dw)
  }

  /** Narrowing reduces the source pattern itself modulo 256^dw: the sign
      of the source plays no part. */
  lemma CastBitsNarrow(signed: bool, sw: nat, dw: nat, p: nat)
    requires p < Pow256(sw) && dw <= sw
    ensures CastBits(signed, sw, dw, p) == p % Pow256(dw)
  {
    Pow256Add(dw, sw - dw);
    SubMultipleMod(p, Pow256(dw), Pow256(sw - dw));
  }

  lemma SubMultipleMod(p: int, m: int, q: int)
    requires m > 0
    ensures (p - m * q) % m == p % m
  {
    MulComm(m, q);
    ModShift(p, -q, m);
  }

  /** Narrowing keeps the low-order dw bytes of the source element. */
  lemma CastKeepsLowBytes(signed: bool, sw: nat, dw: nat, p: nat)
    requires p < Pow256(sw) && dw <= sw
    ensures EncodeLE(CastBits(signed, sw, dw, p), dw) == EncodeLE(p, sw)[..dw]
  {
    CastBitsNarrow(signed, sw, dw, p);
    EncodeLEPrefix(p, sw, dw);
  }

  /** Widening puts above the source pattern either nothing or, for a
      negative source, all ones. */
  lemma CastBitsWiden(signed: bool, sw: nat, dw: nat, p: nat)
    requires p < Pow256(sw) && sw < dw
    ensures CastBits(signed, sw, dw, p) ==
      p + Pow256(sw) * (if IntValue(signed, sw, p) < 0 then Pow256(dw - sw) - 1 else 0)
  {
    Pow256Add(sw, dw - sw);
    if IntValue(signed, sw, p) < 0 {
      NegMod(p, Pow256(sw), Pow256(dw - sw));
    } else {
      MulAtLeast(Pow256(dw - sw), Pow256(sw));
      MulComm(Pow256(dw - sw), Pow256(sw));
      DivUnique(p, Pow256(dw), 0, p);
    }
  }

  lemma NegMod(p: int, m: int, k: int)
    requires 0 <= p < m && k >= 1
    ensures (p - m) % (m * k) == p + m * (k - 1)
  {
    assert p - m == -1 * (m * k) + (p + m * (k - 1));
    assert m * (k - 1) == m * k - m;
    DivUnique(p - m, m * k, -1, p + m * (k - 1));
  }

  /** The byte sign extension repeats: 0xFF above a negative value, zero
      above any other. */
  function SignByte(signed: bool, w: nat, p: nat): byte
  {
    if IntValue(signed, w, p) < 0 then 255 else 0
  }

  /** Widening appends dw - sw copies of the sign byte to the source
      bytes. */
  lemma CastExtends(signed: bool, sw: nat, dw: nat, p: nat)
    requires p < Pow256(sw) && sw < dw
    ensures EncodeLE(CastBits(signed, sw, dw, p), dw) ==
      EncodeLE(p, sw) + Fill(dw - sw, SignByte(signed, sw, p))
  {
    var k := dw - sw;
    var h := if IntValue(signed, sw, p) < 0 then Pow256(k) - 1 else 0;
    CastBitsWiden(signed, sw, dw, p);
    assert CastBits(signed, sw, dw, p) == p + Pow256(sw) * h;
    assert EncodeLE(h, k) == Fill(k, SignByte(signed, sw, p)) by { EncodeLEFill(k); }
    EncodeLESplit(p, h, sw, k);
  }

  /** Widening into a type that can hold every source value keeps the
      value: unsigned to anything, signed to signed. */
  lemma WideningKeepsValue(srcSigned: bool, dstSigned: bool, sw: nat, dw: nat, p: nat)
    requires p < Pow256(sw) && sw < dw
    requires srcSigned ==> dstSigned
    ensures IntValue(dstSigned, dw, CastBits(srcSigned, sw, dw, p)) == IntValue(srcSigned, sw, p)
  {
    var k := dw - sw;
    CastBitsWiden(srcSigned, sw, dw, p);
    Pow256Add(sw, k);
    assert Pow256(k) == 256 * Pow256(k - 1);
    WidenRange(p, Pow256(sw), Pow256(k));
  }

  /** The arithmetic of WideningKeepsValue, with m = 256^sw and
      m * k = 256^dw. */
  lemma WidenRange(p: int, m: int, k: int)
    requires 0 <= p < m && k >= 256
    ensures 2 * p < m * k
    ensures m * (k - 1) == m * k - m
    ensures 2 * p >= m ==> 2 * (p + m * (k - 1)) >= m * k
  {
    MulLe(2, k, m);
    MulComm(2, m);
    MulComm(k, m);
  }

  /** Narrowing back to the source width undoes a widening. */
  lemma NarrowUndoesWiden(srcSigned: bool, dstSigned: bool, sw: nat, dw: nat, p: nat)
    requires p < Pow256(sw) && sw < dw
    ensures CastBits(dstSigned, dw, sw, CastBits(srcSigned, sw, dw, p)) == p
  {
    var c := CastBits(srcSigned, sw, dw, p);
    var fill := Fill(dw - sw, SignByte(srcSigned, sw, p));
    CastExtends(srcSigned, sw, dw, p);
    CastKeepsLowBytes(dstSigned, dw, sw, c);
    assert (EncodeLE(p, sw) + fill)[..sw] == EncodeLE(p, sw);
    DecodeEncodeLE(CastBits(dstSigned, dw, sw, c), sw);
    DecodeEncodeLE(p, sw);
  }

  type u32 = x: int | 0 <= x < 0x1_0000_0000

  /** The float <-> double conversions of the host, on bit patterns: the
      model leaves IEEE 754 arithmetic to these two functions. */
  datatype FloatOps = FloatOps(widen: u32 -> u64, narrow: u64 -> u32)

  /** The kernels that run CONVERT, one assignment per element. */
  predicate Elementwise(k: Kernel)
  {
    k.IntCast? || k.FloatCast? || k.ComplexCast?
  }

  /** tmp_dst[i] = tmp_src[i] for one element of entry e's types. */
  function CastElement(e: Entry, ops: FloatOps, x: nat): (y: nat)
    requires Elementwise(e.kernel) && e.Consistent() && x < Pow256(e.SrcWidth())
    ensures y < Pow256(e.DstWidth())
  {
    Pow256Eight();
    assert Pow256(4) == 0x1_0000_0000;
    if e.kernel.IntCast? then CastBits(e.srcType == Int, e.srcBytes, e.dstBytes, x)
    else if e.SrcWidth() == 4 then ops.widen(x)
    else ops.narrow(x)
  }

  /** The elements a kernel touches lie inside both typed views. */
  predicate InBounds(k: Kernel, count: nat, srcLen: nat, dstLen: nat)
  {
    match k
    case RealToComplex => count <= srcLen && 2 * count <= dstLen
    case ComplexToReal => count <= dstLen && 2 * count <= srcLen + 1
    case _ => count <= srcLen && count <= dstLen
  }

  /** The destination view after CONVERT over count elements; the elements
      past count keep what the allocation left there, here zero. */
  function CastView(e: Entry, ops: FloatOps, xs: seq<nat>, count: nat, len: nat): (ys: seq<nat>)
    requires Elementwise(e.kernel) && e.Consistent() && Fits(xs, e.SrcWidth())
    requires count <= |xs| && count <= len
    ensures |ys| == len
    ensures forall i :: 0 <= i < count ==> ys[i] == CastElement(e, ops, xs[i])
    ensures forall i :: count <= i < len ==> ys[i] == 0
  {
    seq(len, i requires 0 <= i < len => if i < count then CastElement(e, ops, xs[i]) else 0)
  }

  /** The destination view after the real -> complex loop: element i goes
      to slot 2i and slot 2i + 1 is set to zero. */
  function SpreadView(xs: seq<nat>, count: nat, len: nat): (ys: seq<nat>)
    requires count <= |xs| && 2 * count <= len
    ensures |ys| == len
    ensures forall i :: 0 <= i < count ==> ys[2 * i] == xs[i] && ys[2 * i + 1] == 0
    ensures forall i :: 2 * count <= i < len ==> ys[i] == 0
  {
    seq(len, i requires 0 <= i < len => if i < 2 * count && i % 2 == 0 then xs[i / 2] else 0)
  }

  /** The destination view after the complex -> real loop: slot 2i, the
      real part, goes to element i. */
  function GatherView(xs: seq<nat>, count: nat, len: nat): (ys: seq<nat>)
    requires count <= len && 2 * count <= |xs| + 1
    ensures |ys| == len
    ensures forall i :: 0 <= i < count ==> ys[i] == xs[2 * i]
    ensures forall i :: count <= i < len ==> ys[i] == 0
  {
    seq(len, i requires 0 <= i < len => if i < count then xs[2 * i] else 0)
  }

  /** The destination view entry e's loop leaves. */
  function KernelView(e: Entry, ops: FloatOps, xs: seq<nat>, count: nat, len: nat): (ys: seq<nat>)
    requires e.Consistent() && Fits(xs, e.SrcWidth()) && InBounds(e.kernel, count, |xs|, len)
    ensures |ys| == len
  {
    match e.kernel
    case RealToComplex => SpreadView(xs, count, len)
    case ComplexToReal => GatherView(xs, count, len)
    case _ => CastView(e, ops, xs, count, len)
  }

  /** The number of whole w-byte elements in a buffer of size bytes: the
      length of the buffer's typed view. */
  function Slots(size: nat, w: nat): nat
    requires w > 0
  {
    size / w
  }

  /** The destination buffer of size bytes holding the view: the elements
      in order, then the bytes past the last whole element (zero). */
  function Lay(view: seq<nat>, w: nat, size: nat): (data: seq<byte>)
    requires w > 0 && |view| == Slots(size, w)
    ensures |data| == size && |view| * w <= size
    ensures data[..|view| * w] == Pack(view, w)
    ensures forall i :: |view| * w <= i < size ==> data[i] == 0
  {
    PackLength(view, w);
    SlotsSplit(size, w);
    var tail: seq<byte> := seq(size % w, _ => 0);
    assert (Pack(view, w) + tail)[..|view| * w] == Pack(view, w);
    Pack(view, w) + tail
  }

  /** The whole slots and the leftover bytes make up the buffer. */
  lemma SlotsSplit(size: nat, w: nat)
    requires w > 0
    ensures Slots(size, w) * w + size % w == size
  {
  }

  /** CONVERT(TYPE1, TYPE2). */
  method CastLoop(e: Entry, ops: FloatOps, xs: seq<nat>, count: nat, len: nat) returns (view: array<nat>)
    requires Elementwise(e.kernel) && e.Consistent() && Fits(xs, e.SrcWidth())
    requires count <= |xs| && count <= len
    ensures fresh(view) && view[..] == CastView(e, ops, xs, count, len)
  {
    view := new nat[len](_ => 0);
    for i := 0 to count
      invariant forall j :: 0 <= j < len ==> view[j] == (if j < i then CastElement(e, ops, xs[j]) else 0)
    {
      view[i] := CastElement(e, ops, xs[i]);
    }
  }

  /** The FLOAT -> COMPLEX loops. */
  method SpreadLoop(xs: seq<nat>, count: nat, len: nat) returns (view: array<nat>)
    requires count <= |xs| && 2 * count <= len
    ensures fresh(view) && view[..] == SpreadView(xs, count, len)
  {
    view := new nat[len](_ => 0);
    for i := 0 to count
      invariant forall j :: 0 <= j < len ==> view[j] == (if j < 2 * i && j % 2 == 0 then xs[j / 2] else 0)
    {
      view[2 * i] := xs[i];
      view[2 * i + 1] := 0;
    }
  }

  /** The COMPLEX -> FLOAT loops. */
  method GatherLoop(xs: seq<nat>, count: nat, len: nat) returns (view: array<nat>)
    requires count <= len && 2 * count <= |xs| + 1
    ensures fresh(view) && view[..] == GatherView(xs, count, len)
  {
    view := new nat[len](_ => 0);
    for i := 0 to count
      invariant forall j :: 0 <= j < len ==> view[j] == (if j < i then xs[2 * j] else 0)
    {
      view[i] := xs[2 * i];
    }
  }

  /** The loop of entry e. */
  method RunKernel(e: Entry, ops: FloatOps, xs: seq<nat>, count: nat, len: nat) returns (view: array<nat>)
    requires e.Consistent() && Fits(xs, e.SrcWidth()) && InBounds(e.kernel, count, |xs|, len)
    ensures fresh(view) && view[..] == KernelView(e, ops, xs, count, len)
  {
    match e.kernel
    case RealToComplex => view := SpreadLoop(xs, count, len);
    case ComplexToReal => view := GatherLoop(xs, count, len);
    case _ => view := CastLoop(e, ops, xs, count, len);
  }

  /** What running the converter on a source comes to: an exit before any
      file is written, a fault (an integer division by zero, or a loop that
      reaches past one of the two buffers, where C's behaviour is
      undefined), or the destination array ra_write is handed, with the
      warning printed on the way. */
  datatype Outcome = Exit(status: int) | Fault | Converted(dst: RaValue, warning: Option<Warning>)

  /** dst.size: the source's byte count scaled by the width ratio, the
      product taken in uint64_t arithmetic. */
  function DstSize(src: RaValue, elbyte: u64): u64
    requires src.elbyte != 0
  {
    Wrap64(elbyte * src.size) / src.elbyte
  }

  /** Without wrap-around, a source of n elements gives a destination of n
      elements of the new width. */
  lemma DstSizeExact(src: RaValue, elbyte: u64, n: nat)
    requires src.elbyte != 0 && src.size == n * src.elbyte
    requires elbyte * src.size < TwoTo64
    ensures DstSize(src, elbyte) == n * elbyte
  {
    var x := elbyte * src.size;
    WrapSmall(x);
    assert x == (n * elbyte) * src.elbyte by {
      MulAssoc(elbyte, n, src.elbyte);
      MulComm(elbyte, n);
    }
    DivUnique(x, src.elbyte, n * elbyte, 0);
  }

  /** The number of loop iterations of entry e: nelem, doubled in uint64_t
      arithmetic when complex elements are converted component by
      component. */
  function Count(e: Entry, nelem: nat): nat
  {
    if e.kernel.ComplexCast? then Wrap64(2 * nelem) else nelem
  }

  /** The data bytes of the destination: entry e's loop over the typed
      views of the source data and of a size-byte buffer, or None when the
      loop would reach past either. */
  function Transfer(e: Entry, ops: FloatOps, data: seq<byte>, size: nat, count: nat): (r: Option<seq<byte>>)
    requires e.Consistent()
    ensures r.Some? <==> InBounds(e.kernel, count, Slots(|data|, e.SrcWidth()), Slots(size, e.DstWidth()))
    ensures r.Some? ==> |r.value| == size
  {
    var xs := Unpack(data, e.SrcWidth());
    UnpackFits(data, e.SrcWidth());
    UnpackLength(data, e.SrcWidth());
    var len := Slots(size, e.DstWidth());
    if InBounds(e.kernel, count, |xs|, len) then
      Some(Lay(KernelView(e, ops, xs, count, len), e.DstWidth(), size))
    else None
  }

  /** The converter on source src and the destination type and width given
      on the command line. */
  function Plan(src: RaValue, eltype: u64, elbyte: u64, ops: FloatOps): (r: Outcome)
    requires src.WellFormed()
    ensures r.Exit? <==>
      (Validate(src, eltype, elbyte).Stop? || (src.elbyte != 0 && Lookup(src, eltype, elbyte).None?))
    ensures r.Exit? && Validate(src, eltype, elbyte).Go? ==> r.status == ExUsage
    ensures r.Converted? ==>
      r.dst.WellFormed() &&
      r.dst.flags == src.flags && r.dst.ndims == src.ndims && r.dst.dims == src.dims &&
      r.dst.eltype == eltype && r.dst.elbyte == elbyte &&
      r.warning == Validate(src, eltype, elbyte).warning
  {
    var c := Validate(src, eltype, elbyte);
    if c.Stop? then Exit(c.status)
    else if src.elbyte == 0 then Fault
    else
      var size := DstSize(src, elbyte);
      match Lookup(src, eltype, elbyte)
      case None => Exit(ExUsage)
      case Some(k) =>
        TableConsistent(k);
        var e := Table[k];
        match Transfer(e, ops, src.data, size, Count(e, Wrap64(Product(src.dims))))
        case None => Fault
        case Some(data) =>
          Converted(RaValue(src.flags, eltype, elbyte, size, src.ndims, src.dims, data), c.warning)
  }

  /** The dimension loop of main: a copy of the dimensions, and their
      product in uint64_t arithmetic. */
  method CopyDims(src: RaArray) returns (dims: array<u64>, nelem: u64)
    requires src.Valid()
    ensures fresh(dims) && dims[..] == src.dims[..]
    ensures nelem == Wrap64(Product(src.dims[..]))
  {
    dims := new u64[src.ndims];
    nelem := 1;
    for j := 0 to src.ndims
      invariant dims[..j] == src.dims[..j]
      invariant nelem == Wrap64(Product(src.dims[..j]))
    {
      dims[j] := src.dims[j];
      assert src.dims[..j + 1][..j] == src.dims[..j];
      MulWrap(Product(src.dims[..j]), src.dims[j]);
      nelem := Wrap64(nelem * src.dims[j]);
    }
    assert src.dims[..src.ndims] == src.dims[..];
  }

  /** The typed-view loop of entry e writing a fresh size-byte buffer. */
  method RunTransfer(e: Entry, ops: FloatOps, data: seq<byte>, size: u64, count: nat) returns (r: Option<array<byte>>)
    requires e.Consistent()
    ensures r.None? <==> Transfer(e, ops, data, size, count).None?
    ensures r.Some? ==> fresh(r.value) && r.value[..] == Transfer(e, ops, data, size, count).value
  {
    var xs := Unpack(data, e.SrcWidth());
    UnpackFits(data, e.SrcWidth());
    var len := Slots(size, e.DstWidth());
    if !InBounds(e.kernel, count, |xs|, len) {
      return None;
    }
    var view := RunKernel(e, ops, xs, count, len);
    var bytes := Lay(view[..], e.DstWidth(), size);
    assert Transfer(e, ops, data, size, count) == Some(bytes);
    var buf := new byte[size](i requires 0 <= i < size => bytes[i]);
    assert buf[..] == bytes;
    return Some(buf);
  }

  /** The assignments of main that fill in dst before ra_write. */
  method Assemble(flags: u64, eltype: u64, elbyte: u64, size: u64, ndims: u64,
                  dims: array<u64>, data: array<byte>) returns (dst: RaArray)
    requires dims.Length == ndims && data.Length == size
    ensures fresh(dst) && dst.Valid()
    ensures dst.Value() == RaValue(flags, eltype, elbyte, size, ndims, dims[..], data[..])
  {
    dst := new RaArray.Empty();
    dst.flags, dst.eltype, dst.elbyte, dst.size, dst.ndims := flags, eltype, elbyte, size, ndims;
    dst.dims, dst.data := dims, data;
  }

  /** main from the type check to ra_write: the destination file's bytes
      when one is written. */
  method Convert(src: RaArray, eltype: u64, elbyte: u64, ops: FloatOps) returns (out: Outcome, written: seq<byte>)
    requires src.Valid()
    ensures out == Plan(src.Value(), eltype, elbyte, ops)
    ensures out.Converted? ==> written == Encode(out.dst)
    ensures !out.Converted? ==> written == []
  {
    var v := src.Value();
    var c := Validate(v, eltype, elbyte);
    if c.Stop? {
      return Exit(c.status), [];
    }
    var dims, nelem := CopyDims(src);
    if src.elbyte == 0 {
      return Fault, [];
    }
    var size := DstSize(v, elbyte);
    var k := Lookup(v, eltype, elbyte);
    if k.None? {
      return Exit(ExUsage), [];
    }
    TableConsistent(k.value);
    var e := Table[k.value];
    var data := RunTransfer(e, ops, v.data, size, Count(e, nelem));
    if data.None? {
      return Fault, [];
    }
    ghost var w := RaValue(v.flags, eltype, elbyte, size, v.ndims, v.dims, data.value[..]);
    assert Plan(v, eltype, elbyte, ops) == Converted(w, c.warning);
    var dst := Assemble(v.flags, eltype, elbyte, size, v.ndims, dims, data.value);
    assert dst.Value() == w;
    assert src.Value() == v;
    var f := RaWrite(dst);
    out, written := Converted(dst.Value(), c.warning), f.contents;
  }

  /** The element types of an entry decide its kernel. */
  lemma EntryKernel(e: Entry)
    requires e in Table
    ensures e.kernel.IntCast? <==> e.srcType in {Int, UInt}
    ensures e.kernel.IntCast? ==> e.dstType in {Int, UInt}
    ensures e.kernel.FloatCast? <==> e.srcType == Float && e.dstType == Float
    ensures e.kernel.ComplexCast? <==> e.srcType == Complex && e.dstType == Complex
    ensures e.kernel.RealToComplex? <==> e.srcType == Float && e.dstType == Complex
    ensures e.kernel.ComplexToReal? <==> e.srcType == Complex && e.dstType == Float
  {
    TableMembers(e);
  }

  /** The entry the chain picks for a real source and a complex
      destination, or the other way round, and its element widths. */
  lemma LookupKernel(src: RaValue, eltype: u64, elbyte: u64)
    requires Lookup(src, eltype, elbyte).Some?
    ensures var e := Table[Lookup(src, eltype, elbyte).value];
      (IsType(src.eltype, Float) && IsType(eltype, Complex) ==>
        e.kernel.RealToComplex? && e.SrcWidth() == src.elbyte && e.DstWidth() == src.elbyte) &&
      (IsType(src.eltype, Complex) && IsType(eltype, Float) ==>
        e.kernel.ComplexToReal? && e.SrcWidth() == elbyte && e.DstWidth() == elbyte)
  {
    var e := Table[Lookup(src, eltype, elbyte).value];
    assert IsType(src.eltype, e.srcType) && IsType(eltype, e.dstType);
    EntryKernel(e);
  }

  /** n elements of w bytes make n slots of w bytes. */
  lemma SlotsOf(n: nat, w: nat)
    requires w > 0
    ensures Slots(n * w, w) == n && (n * w) % w == 0
  {
    DivUnique(n * w, w, n, 0);
  }

  /** For a source of n elements, the typed views hold n or 2n elements:
      2n where they count complex components. */
  lemma ViewLengths(e: Entry, n: nat)
    requires e.Consistent()
    ensures Slots(n * e.srcBytes, e.SrcWidth()) ==
      if e.kernel.ComplexCast? || e.kernel.ComplexToReal? then 2 * n else n
    ensures Slots(n * e.dstBytes, e.DstWidth()) ==
      if e.kernel.ComplexCast? || e.kernel.RealToComplex? then 2 * n else n
    ensures (n * e.dstBytes) % e.DstWidth() == 0
  {
    var sw, dw := e.SrcWidth(), e.DstWidth();
    if e.kernel.ComplexCast? || e.kernel.ComplexToReal? {
      assert n * e.srcBytes == (2 * n) * sw by { MulAssoc(n, 2, sw); MulComm(n, 2); }
      SlotsOf(2 * n, sw);
    } else {
      SlotsOf(n, sw);
    }
    if e.kernel.ComplexCast? || e.kernel.RealToComplex? {
      assert n * e.dstBytes == (2 * n) * dw by { MulAssoc(n, 2, dw); MulComm(n, 2); }
      SlotsOf(2 * n, dw);
    } else {
      SlotsOf(n, dw);
    }
  }

  /** The source's size agrees with its dimensions and no uint64_t
      product wraps. */
  predicate SizesAgree(src: RaValue, elbyte: u64)
  {
    src.size == Product(src.dims) * src.elbyte && elbyte * src.size < TwoTo64
  }

  /** When the source's size agrees with its dimensions, every supported
      conversion runs without a fault, and the destination holds as many
      elements as the source, so that its size agrees with its dimensions
      too. */
  lemma AgreeingSizesConvert(src: RaValue, eltype: u64, elbyte: u64, ops: FloatOps)
    requires src.WellFormed() && SizesAgree(src, elbyte)
    requires Validate(src, eltype, elbyte).Go? && Lookup(src, eltype, elbyte).Some?
    ensures var r := Plan(src, eltype, elbyte, ops);
      var e := Table[Lookup(src, eltype, elbyte).value];
      var n := Product(src.dims);
      r.Converted? && r.dst.size == n * elbyte &&
      Transfer(e, ops, src.data, n * elbyte, Count(e, n)) == Some(r.dst.data)
  {
    WrapSmall(Product(src.dims)) by { MulAtLeast1(Product(src.dims), src.elbyte); }
    var k := Lookup(src, eltype, elbyte).value;
    TableConsistent(k);
    AgreeingSizesFit(src, elbyte, Table[k], ops);
  }

  /** The loop of kernel k over count iterations visits every element of
      a source view of srcLen and a destination view of dstLen, each once. */
  predicate Covers(k: Kernel, count: nat, srcLen: nat, dstLen: nat)
  {
    match k
    case RealToComplex => count == srcLen && 2 * count == dstLen
    case ComplexToReal => count == dstLen && 2 * count == srcLen
    case _ => count == srcLen && count == dstLen
  }

  /** For n elements, entry e's loop runs over all of both typed views,
      except when the complex-to-complex doubling of nelem wraps in
      uint64_t; then it stops short of the end. */
  lemma CountCovers(e: Entry, n: nat)
    requires e.Consistent()
    ensures Covers(e.kernel, Count(e, n), Slots(n * e.srcBytes, e.SrcWidth()), Slots(n * e.dstBytes, e.DstWidth()))
      <==> !e.kernel.ComplexCast? || 2 * n < TwoTo64
  {
    ViewLengths(e, n);
    if e.kernel.ComplexCast? {
      if 2 * n < TwoTo64 {
        WrapSmall(2 * n);
      } else {
        assert Count(e, n) < TwoTo64 <= 2 * n;
      }
    }
  }

  /** The arithmetic of AgreeingSizesConvert, for the entry e the table
      picks. */
  lemma AgreeingSizesFit(src: RaValue, elbyte: u64, e: Entry, ops: FloatOps)
    requires src.WellFormed() && SizesAgree(src, elbyte) && e.Consistent()
    requires src.elbyte == e.srcBytes && elbyte == e.dstBytes
    ensures src.elbyte != 0 && DstSize(src, elbyte) == Product(src.dims) * elbyte
    ensures Transfer(e, ops, src.data, DstSize(src, elbyte), Count(e, Wrap64(Product(src.dims)))).Some?
  {
    var n := Product(src.dims);
    assert n <= src.size by { MulAtLeast1(n, src.elbyte); }
    WrapSmall(n);
    if e.kernel.ComplexCast? {
      assert 2 * n <= src.size by { MulLe(2, src.elbyte, n); MulComm(n, src.elbyte); }
      WrapSmall(2 * n);
    }
    DstSizeExact(src, elbyte, n);
    ViewLengths(e, n);
  }

  lemma MulAtLeast1(n: nat, b: nat)
    requires b >= 1
    ensures n <= n * b
  {
  }

  /** Taking the real parts of the interleaved view gives back the real
      elements, and the view's values fit wherever the source's do. */
  lemma SpreadGather(xs: seq<nat>, w: nat)
    requires Fits(xs, w)
    ensures Fits(SpreadView(xs, |xs|, 2 * |xs|), w)
    ensures GatherView(SpreadView(xs, |xs|, 2 * |xs|), |xs|, |xs|) == xs
  {
    var n := |xs|;
    var ys := SpreadView(xs, n, 2 * n);
    forall j | 0 <= j < |ys|
      ensures ys[j] < Pow256(w)
    {
      if j % 2 == 0 {
        assert ys[j] == ys[2 * (j / 2)] == xs[j / 2];
      } else {
        assert ys[j] == ys[2 * (j / 2) + 1] == 0;
      }
    }
    var zs := GatherView(ys, n, n);
    assert forall i :: 0 <= i < n ==> zs[i] == ys[2 * i] == xs[i];
  }

  /** FLOAT,w to COMPLEX,2w: each element becomes a complex number with a
      zero imaginary part. */
  lemma ToComplex(src: RaValue, ops: FloatOps, xs: seq<nat>)
    requires src.WellFormed() && IsType(src.eltype, Float) && src.elbyte in {4, 8}
    requires !HasFlag(src.flags, FlagCompressed) && SizesAgree(src, 2 * src.elbyte)
    requires xs == Unpack(src.data, src.elbyte) && |xs| == Product(src.dims)
    ensures var r := Plan(src, Complex.Ordinal(), 2 * src.elbyte, ops);
      r.Converted? && r.warning.None? && r.dst.size == Product(src.dims) * (2 * src.elbyte) &&
      r.dst.data == Pack(SpreadView(xs, |xs|, 2 * |xs|), src.elbyte)
  {
    var w, n := src.elbyte, Product(src.dims);
    assert Validate(src, Complex.Ordinal(), 2 * w) == Go(None);
    assert Matches(Table[if w == 4 then 40 else 41], src, Complex.Ordinal(), 2 * w);
    var k := Lookup(src, Complex.Ordinal(), 2 * w).value;
    var e := Table[k];
    LookupKernel(src, Complex.Ordinal(), 2 * w);
    AgreeingSizesConvert(src, Complex.Ordinal(), 2 * w, ops);
    assert n * (2 * w) == (2 * n) * w by { MulAssoc(n, 2, w); MulComm(n, 2); }
    SlotsOf(2 * n, w);
    var view := SpreadView(xs, n, 2 * n);
    assert Transfer(e, ops, src.data, n * (2 * w), n) == Some(Lay(view, w, n * (2 * w)));
    assert Lay(view, w, n * (2 * w)) == Pack(view, w);
  }

  /** COMPLEX,2w to FLOAT,w: the real parts, the even slots of the source's
      view. */
  lemma FromComplex(c: RaValue, ops: FloatOps, w: u64, ys: seq<nat>)
    requires c.WellFormed() && IsType(c.eltype, Complex) && w in {4, 8} && c.elbyte == 2 * w
    requires SizesAgree(c, w)
    requires ys == Unpack(c.data, w) && |ys| == 2 * Product(c.dims)
    ensures var r := Plan(c, Float.Ordinal(), w, ops);
      r.Converted? && r.warning == Some(LossyComplex) && r.dst.size == Product(c.dims) * w &&
      r.dst.data == Pack(GatherView(ys, Product(c.dims), Product(c.dims)), w)
  {
    var n := Product(c.dims);
    assert Validate(c, Float.Ordinal(), w) == Go(Some(LossyComplex));
    assert Matches(Table[if w == 4 then 42 else 43], c, Float.Ordinal(), w);
    var k := Lookup(c, Float.Ordinal(), w).value;
    var e := Table[k];
    LookupKernel(c, Float.Ordinal(), w);
    AgreeingSizesConvert(c, Float.Ordinal(), w, ops);
    SlotsOf(n, w);
    var view := GatherView(ys, n, n);
    assert Transfer(e, ops, c.data, n * w, n) == Some(Lay(view, w, n * w));
    assert Lay(view, w, n * w) == Pack(view, w);
  }

  /** Converting a FLOAT array to COMPLEX of twice the width and back
      gives the original array, header and data. */
  lemma RealComplexRoundTrip(src: RaValue, ops: FloatOps)
    requires src.WellFormed() && IsType(src.eltype, Float) && src.elbyte in {4, 8}
    requires !HasFlag(src.flags, FlagCompressed) && SizesAgree(src, 2 * src.elbyte)
    ensures var up := Plan(src, Complex.Ordinal(), 2 * src.elbyte, ops);
      up.Converted? && up.dst.WellFormed() &&
      Plan(up.dst, Float.Ordinal(), src.elbyte, ops) == Converted(src, Some(LossyComplex))
  {
    var w, n := src.elbyte, Product(src.dims);
    var xs := Unpack(src.data, w);
    UnpackLength(src.data, w);
    SlotsOf(n, w);
    UnpackFits(src.data, w);
    ToComplex(src, ops, xs);
    var up := Plan(src, Complex.Ordinal(), 2 * w, ops).dst;
    var view := SpreadView(xs, n, 2 * n);
    SpreadGather(xs, w);
    UnpackPack(view, w);
    PackLength(view, w);
    assert SizesAgree(up, w) by {
      assert w * (n * (2 * w)) == (2 * w) * (n * w) by { Reassoc(w, n); }
    }
    FromComplex(up, ops, w, view);
    PackUnpack(src.data, w);
  }

  lemma Reassoc(w: int, n: int)
    ensures w * (n * (2 * w)) == (2 * w) * (n * w)
  {
  }
}
