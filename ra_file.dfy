/** The RawArray file codec of c/ra.c: ra_read fills an ra_t from a file,
    ra_write emits one.  A file is its sequence of bytes; an open file
    descriptor is that sequence with a file offset. */
module RaFile {
  import opened Bytes
  import opened RaH

  /** Bytes before the dimensions: magic, flags, eltype, elbyte, size, ndims. */
  const FixedHeaderBytes: nat := 48

  /** Byte offset of the data region of a file with ndims dimensions. */
  function DataOffset(ndims: nat): nat
  {
    FixedHeaderBytes + 8 * ndims
  }

  /** What an ra_t holds, apart from its magic word: the header words, the
      dimensions and the data bytes. */
  datatype RaValue = RaValue(flags: u64, eltype: u64, elbyte: u64, size: u64,
                             ndims: u64, dims: seq<u64>, data: seq<byte>)
  {
    /** The dims and data buffers are as long as ndims and size say. */
    predicate WellFormed()
    {
      |dims| == ndims && |data| == size
    }
  }

  /** The number of elements an array with these dimensions holds: their
      product, without wrap-around. */
  function Product(dims: seq<u64>): nat
  {
    if dims == [] then 1 else Product(dims[..|dims| - 1]) * dims[|dims| - 1]
  }

  /** The words ra_write emits before the data: RA_MAGIC_NUMBER (never the
      struct's own magic field), flags, eltype, elbyte, size, ndims, then
      the ndims dimensions. */
  function HeaderWords(v: RaValue): (ws: seq<u64>)
  {
    [MagicNumber, v.flags, v.eltype, v.elbyte, v.size, v.ndims] + v.dims
  }

  /** The file ra_write produces for v: each header word as eight bytes,
      then the data. */
  function Encode(v: RaValue): (f: seq<byte>)
    requires v.WellFormed()
  {
    Pack(HeaderWords(v), 8) + v.data
  }

  /** The header words of f promise no more bytes than f holds. */
  predicate Complete(f: seq<byte>)
  {
    |f| >= FixedHeaderBytes && |f| >= DataOffset(WordAt(f, 40)) + WordAt(f, 32)
  }

  /** The ndims words starting at byte offset off. */
  function WordsAt(f: seq<byte>, off: nat, n: nat): (ws: seq<u64>)
    requires off + 8 * n <= |f|
    ensures |ws| == n
  {
    seq(n, k requires 0 <= k < n => WordAt(f, off + 8 * k))
  }

  /** The array a complete file describes.  The magic word is not looked at. */
  function Decode(f: seq<byte>): (v: RaValue)
    requires Complete(f)
    ensures v.WellFormed()
  {
    var n := WordAt(f, 40);
    var size := WordAt(f, 32);
    RaValue(WordAt(f, 8), WordAt(f, 16), WordAt(f, 24), size, n,
            WordsAt(f, FixedHeaderBytes, n), f[DataOffset(n) .. DataOffset(n) + size])
  }

  /** ra_write lays the file out as six header words, ndims dimension words
      and the data, so the data starts at 48 + 8 * ndims. */
  lemma EncodeLayout(v: RaValue)
    requires v.WellFormed()
    ensures |Encode(v)| == DataOffset(v.ndims) + v.size
    ensures Encode(v)[DataOffset(v.ndims)..] == v.data
  {
    PackLength(HeaderWords(v), 8);
  }

  /** Word k of a file written by ra_write is the k-th header word, whatever
      follows the data region. */
  lemma {:induction false} EncodeWordAt(v: RaValue, extra: seq<byte>, k: nat)
    requires v.WellFormed() && k < 6 + v.ndims
    ensures 8 * k + 8 <= |Encode(v) + extra|
    ensures WordAt(Encode(v) + extra, 8 * k) == HeaderWords(v)[k]
  {
    var ws := HeaderWords(v);
    PackWordAt(ws, v.data + extra, k);
    assert Encode(v) + extra == Pack(ws, 8) + (v.data + extra);
  }

  /** Reading back what ra_write wrote reproduces every field, whatever
      follows the data region. */
  lemma {:induction false} DecodeEncode(v: RaValue, extra: seq<byte>)
    requires v.WellFormed()
    ensures Complete(Encode(v) + extra)
    ensures Decode(Encode(v) + extra) == v
  {
    var e := Encode(v);
    var f := e + extra;
    EncodeLayout(v);
    EncodeWordAt(v, extra, 1);
    EncodeWordAt(v, extra, 2);
    EncodeWordAt(v, extra, 3);
    EncodeWordAt(v, extra, 4);
    EncodeWordAt(v, extra, 5);
    EncodeDims(v, extra);
    assert f[DataOffset(v.ndims) .. DataOffset(v.ndims) + v.size] == e[DataOffset(v.ndims)..];
  }

  /** The dimension words of a file written by ra_write are the dims. */
  lemma EncodeDims(v: RaValue, extra: seq<byte>)
    requires v.WellFormed()
    ensures DataOffset(v.ndims) <= |Encode(v) + extra|
    ensures WordsAt(Encode(v) + extra, FixedHeaderBytes, v.ndims) == v.dims
  {
    EncodeLayout(v);
    var f := Encode(v) + extra;
    var ws := WordsAt(f, FixedHeaderBytes, v.ndims);
    forall k | 0 <= k < v.ndims
      ensures ws[k] == v.dims[k]
    {
      EncodeWordAt(v, extra, 6 + k);
      assert HeaderWords(v)[6 + k] == v.dims[k];
      assert 8 * (6 + k) == FixedHeaderBytes + 8 * k;
    }
  }

  /** ra_read never compares the magic word: any eight leading bytes give
      the same array. */
  lemma DecodeIgnoresMagic(f: seq<byte>, m: seq<byte>)
    requires Complete(f) && |m| == 8
    ensures Complete(m + f[8..])
    ensures Decode(m + f[8..]) == Decode(f)
  {
    var g := m + f[8..];
    assert g[8..] == f[8..];
    forall off: nat | 8 <= off && off + 8 <= |f|
      ensures WordAt(g, off) == WordAt(f, off)
    {
      assert g[off..off + 8] == f[off..off + 8];
    }
    var n := WordAt(f, 40);
    assert WordsAt(g, FixedHeaderBytes, n) == WordsAt(f, FixedHeaderBytes, n);
    assert g[DataOffset(n) .. DataOffset(n) + WordAt(f, 32)]
        == f[DataOffset(n) .. DataOffset(n) + WordAt(f, 32)];
  }

  /** The number of bytes a read of n bytes at offset off of f delivers. */
  function Avail(f: seq<byte>, off: nat, n: nat): (r: nat)
    ensures r <= n
    ensures off + r <= |f| || r == 0
    ensures off + n <= |f| ==> r == n
  {
    if off >= |f| then 0 else if off + n <= |f| then n else |f| - off
  }

  /** The bytes a read of n bytes at offset off of f delivers. */
  function Chunk(f: seq<byte>, off: nat, n: nat): (r: seq<byte>)
    ensures |r| == Avail(f, off, n)
    ensures forall i :: 0 <= i < |r| ==> r[i] == f[off + i]
  {
    if off >= |f| then [] else f[off .. off + Avail(f, off, n)]
  }

  /** The 64-bit field read(fd, &field, 8) leaves at offset off of f: the
      bytes that arrive overwrite the field's low-order end, the high-order
      bytes beyond them keep what the field held before (prev). */
  function FieldAt(f: seq<byte>, off: nat, prev: u64): int
  {
    var keep := Pow256(Avail(f, off, 8));
    DecodeLE(Chunk(f, off, 8)) + keep * (prev / keep)
  }

  /** When all eight bytes are there the field is the word at off. */
  lemma FieldAtWhole(f: seq<byte>, off: nat, prev: u64)
    requires off + 8 <= |f|
    ensures FieldAt(f, off, prev) == WordAt(f, off)
  {
    Pow256Eight();
    assert Chunk(f, off, 8) == f[off .. off + 8];
  }

  /** Sum of a sequence of chunk sizes. */
  function Sum(s: seq<nat>): nat
  {
    if s == [] then 0 else Sum(s[..|s| - 1]) + s[|s| - 1]
  }

  /** Every chunk moves at least one and at most RA_MAX_BYTES bytes. */
  predicate Capped(chunks: seq<nat>)
  {
    forall c :: c in chunks ==> 0 < c <= MaxBytes
  }

  /** An open file descriptor for reading. */
  class InFile {
    const contents: seq<byte>
    var offset: nat

    /** open(path, O_RDONLY) of a file holding bytes. */
    constructor Open(bytes: seq<byte>)
      ensures contents == bytes && offset == 0
    {
      contents := bytes;
      offset := 0;
    }

    /** read(fd, buf + start, count): copies what the file still holds, up
        to count bytes, and returns how many that was. */
    method Read(buf: array<byte>, start: nat, count: nat) returns (got: nat)
      requires start + count <= buf.Length
      modifies this, buf
      ensures got == Avail(contents, old(offset), count)
      ensures offset == old(offset) + got
      ensures forall i :: 0 <= i < buf.Length ==>
        buf[i] == if start <= i < start + got then contents[old(offset) + (i - start)] else old(buf[i])
    {
      got := Avail(contents, offset, count);
      forall i | start <= i < start + got {
        buf[i] := contents[offset + (i - start)];
      }
      offset := offset + got;
    }
  }

  /** A file descriptor opened with O_WRONLY | O_TRUNC | O_CREAT. */
  class OutFile {
    var contents: seq<byte>

    constructor Create()
      ensures contents == []
    {
      contents := [];
    }

    /** write(fd, bytes, |bytes|), transferring everything. */
    method Write(bytes: seq<byte>)
      modifies this
      ensures contents == old(contents) + bytes
    {
      contents := contents + bytes;
    }
  }

  /** ra_t: the header words, the dims buffer and the data buffer. */
  class RaArray {
    var magic: u64
    var flags: u64
    var eltype: u64
    var elbyte: u64
    var size: u64
    var ndims: u64
    var dims: array<u64>
    var data: array<byte>

    /** A zeroed ra_t with empty buffers. */
    constructor Empty()
      ensures Valid() && Value() == RaValue(0, 0, 0, 0, 0, [], [])
    {
      magic, flags, eltype, elbyte, size, ndims := 0, 0, 0, 0, 0, 0;
      dims := new u64[0];
      data := new byte[0];
    }

    /** The buffers are as long as the header words say. */
    predicate Valid()
      reads this
    {
      dims.Length == ndims && data.Length == size
    }

    function Value(): (v: RaValue)
      reads this, dims, data
      ensures Valid() ==> v.WellFormed()
    {
      RaValue(flags, eltype, elbyte, size, ndims, dims[..], data[..])
    }
  }

  /** read(fd, &field, 8) into a field whose storage held prev. */
  method ReadField(fd: InFile, prev: u64) returns (w: u64)
    modifies fd
    ensures w == FieldAt(fd.contents, old(fd.offset), prev)
    ensures fd.offset == old(fd.offset) + Avail(fd.contents, old(fd.offset), 8)
  {
    var buf := new byte[8](i requires 0 <= i < 8 => Word(prev)[i]);
    var got := fd.Read(buf, 0, 8);
    var chunk := Chunk(fd.contents, old(fd.offset), 8);
    assert buf[..] == chunk + Word(prev)[got..];
    DecodeLEAppend(chunk, Word(prev)[got..]);
    DecodeLEDrop(Word(prev), got);
    Pow256Eight();
    w := DecodeLE(buf[..]);
  }

  /** ra_read's data loop, for data at nominal offset off: chunks of at
      most RA_MAX_BYTES until size bytes have been asked for.  The return
      values of read are ignored, so the cursor moves by the amount asked
      for even when less arrived, and the bytes past the end of the file
      keep what the buffer held. */
  method ReadData(fd: InFile, data: array<byte>, size: u64, ghost off: nat)
    returns (cursor: nat, ghost chunks: seq<nat>)
    requires data.Length == size
    requires fd.offset == Clamp(fd.contents, off)
    modifies fd, data
    ensures cursor == size && Sum(chunks) == size && Capped(chunks)
    ensures fd.offset == Clamp(fd.contents, off + size)
    ensures forall i :: 0 <= i < size ==>
      data[i] == if off + i < |fd.contents| then fd.contents[off + i] else old(data[i])
  {
    var bytesleft: u64 := size;
    cursor := 0;
    chunks := [];
    while bytesleft > 0
      invariant cursor + bytesleft == size
      invariant Sum(chunks) == cursor && Capped(chunks)
      invariant fd.offset == Clamp(fd.contents, off + cursor)
      invariant data[..] == Filled(old(data[..]), fd.contents, off, cursor)
      decreases bytesleft
    {
      var bytestoread := if bytesleft < MaxBytes then bytesleft else MaxBytes;
      ReadChunk(fd, data, cursor, bytestoread, off, old(data[..]));
      ghost var before := chunks;
      chunks := chunks + [bytestoread];
      assert chunks[..|chunks| - 1] == before;
      assert Sum(chunks) == cursor + bytestoread;
      cursor := cursor + bytestoread;
      bytesleft := bytesleft - bytestoread;
    }
    forall i | 0 <= i < size
      ensures data[i] == if off + i < |fd.contents| then fd.contents[off + i] else old(data[i])
    {
      assert data[i] == Filled(old(data[..]), fd.contents, off, size)[i];
    }
  }

  /** One pass of ra_read's data loop: read(fd, data + cursor, n), whose
      return value is dropped. */
  method ReadChunk(fd: InFile, data: array<byte>, cursor: nat, n: nat, ghost off: nat, ghost orig: seq<byte>)
    requires cursor + n <= data.Length == |orig|
    requires fd.offset == Clamp(fd.contents, off + cursor)
    requires data[..] == Filled(orig, fd.contents, off, cursor)
    modifies fd, data
    ensures fd.offset == Clamp(fd.contents, off + cursor + n)
    ensures data[..] == Filled(orig, fd.contents, off, cursor + n)
  {
    var _ := fd.Read(data, cursor, n);
    ReadStep(orig, fd.contents, off, cursor, n, data[..]);
    ClampStep(fd.contents, off + cursor, n);
  }

  /** The buffer ra_read's data loop has filled up to upto, starting from
      orig: file bytes where the file has them, orig elsewhere. */
  function Filled(orig: seq<byte>, f: seq<byte>, off: nat, upto: nat): (r: seq<byte>)
    ensures |r| == |orig|
    ensures forall i :: 0 <= i < |r| && i < upto && off + i < |f| ==> r[i] == f[off + i]
    ensures forall i :: 0 <= i < |r| && !(i < upto && off + i < |f|) ==> r[i] == orig[i]
  {
    seq(|orig|, i requires 0 <= i < |orig| => if i < upto && off + i < |f| then f[off + i] else orig[i])
  }

  /** One read of n bytes at the clamped cursor extends the filled region
      by n. */
  lemma ReadStep(orig: seq<byte>, f: seq<byte>, off: nat, cursor: nat, n: nat, now: seq<byte>)
    requires cursor + n <= |orig| == |now|
    requires forall i :: 0 <= i < |now| ==>
      now[i] == (if cursor <= i < cursor + Avail(f, Clamp(f, off + cursor), n)
                 then f[Clamp(f, off + cursor) + (i - cursor)]
                 else Filled(orig, f, off, cursor)[i])
    ensures now == Filled(orig, f, off, cursor + n)
  {
  }

  /** ra_read(a, path) on a file holding the bytes file.  Every header
      word is read at its fixed offset, whether or not the file is long
      enough: a read that comes up short leaves the rest of the field as it
      was.  The magic word goes to a local and is never compared, and the
      struct's own magic field is left alone. */
  method RaRead(a: RaArray, file: seq<byte>)
    modifies a
    ensures a.Valid() && fresh(a.dims) && fresh(a.data)
    ensures a.magic == old(a.magic)
    ensures a.flags == FieldAt(file, 8, old(a.flags))
    ensures a.eltype == FieldAt(file, 16, old(a.eltype))
    ensures a.elbyte == FieldAt(file, 24, old(a.elbyte))
    ensures a.size == FieldAt(file, 32, old(a.size))
    ensures a.ndims == FieldAt(file, 40, old(a.ndims))
    ensures forall k :: 0 <= k < a.ndims && DataOffset(k + 1) <= |file| ==>
      a.dims[k] == WordAt(file, DataOffset(k))
    ensures forall i :: 0 <= i < a.size && DataOffset(a.ndims) + i < |file| ==>
      a.data[i] == file[DataOffset(a.ndims) + i]
    ensures Complete(file) ==> a.Value() == Decode(file)
  {
    var fd := new InFile.Open(file);
    ReadHeader(fd, a);
    ReadBody(fd, a);
    if Complete(file) {
      ReadIsDecode(file, old(a.flags), old(a.eltype), old(a.elbyte), old(a.size), old(a.ndims), a.Value());
    }
  }

  /** The dims and data part of ra_read: fresh buffers of the sizes the
      header words give, filled from the file. */
  method ReadBody(fd: InFile, a: RaArray)
    requires fd.offset == Clamp(fd.contents, FixedHeaderBytes)
    modifies fd, a
    ensures a.Valid() && fresh(a.dims) && fresh(a.data)
    ensures a.magic == old(a.magic) && a.flags == old(a.flags) && a.eltype == old(a.eltype)
    ensures a.elbyte == old(a.elbyte) && a.size == old(a.size) && a.ndims == old(a.ndims)
    ensures forall k :: 0 <= k < a.ndims && DataOffset(k + 1) <= |fd.contents| ==>
      a.dims[k] == WordAt(fd.contents, DataOffset(k))
    ensures forall i :: 0 <= i < a.size && DataOffset(a.ndims) + i < |fd.contents| ==>
      a.data[i] == fd.contents[DataOffset(a.ndims) + i]
  {
    a.dims := ReadDims(fd, a.ndims);
    a.data := new byte[a.size];
    var cursor, chunks := ReadData(fd, a.data, a.size, DataOffset(a.ndims));
  }

  /** The header part of ra_read: the magic word into a local, then the
      five words after it into the struct's fields. */
  method ReadHeader(fd: InFile, a: RaArray)
    requires fd.offset == 0
    modifies fd, a
    ensures fd.offset == Clamp(fd.contents, FixedHeaderBytes)
    ensures a.magic == old(a.magic) && a.dims == old(a.dims) && a.data == old(a.data)
    ensures a.flags == FieldAt(fd.contents, 8, old(a.flags))
    ensures a.eltype == FieldAt(fd.contents, 16, old(a.eltype))
    ensures a.elbyte == FieldAt(fd.contents, 24, old(a.elbyte))
    ensures a.size == FieldAt(fd.contents, 32, old(a.size))
    ensures a.ndims == FieldAt(fd.contents, 40, old(a.ndims))
  {
    var magic := ReadFieldAt(fd, 0, 0);
    a.flags := ReadFieldAt(fd, a.flags, 8);
    a.eltype := ReadFieldAt(fd, a.eltype, 16);
    a.elbyte := ReadFieldAt(fd, a.elbyte, 24);
    a.size := ReadFieldAt(fd, a.size, 32);
    a.ndims := ReadFieldAt(fd, a.ndims, 40);
  }

  /** What ra_read leaves in the struct is the decoded file once the file
      holds everything its header announces. */
  lemma ReadIsDecode(file: seq<byte>, flags: u64, eltype: u64, elbyte: u64, size: u64, ndims: u64, v: RaValue)
    requires Complete(file)
    requires v.flags == FieldAt(file, 8, flags) && v.eltype == FieldAt(file, 16, eltype)
    requires v.elbyte == FieldAt(file, 24, elbyte) && v.size == FieldAt(file, 32, size)
    requires v.ndims == FieldAt(file, 40, ndims)
    requires |v.dims| == v.ndims && |v.data| == v.size
    requires forall k :: 0 <= k < v.ndims && DataOffset(k + 1) <= |file| ==>
      v.dims[k] == WordAt(file, DataOffset(k))
    requires forall i :: 0 <= i < v.size && DataOffset(v.ndims) + i < |file| ==>
      v.data[i] == file[DataOffset(v.ndims) + i]
    ensures v == Decode(file)
  {
    FieldAtWhole(file, 8, flags);
    FieldAtWhole(file, 16, eltype);
    FieldAtWhole(file, 24, elbyte);
    FieldAtWhole(file, 32, size);
    FieldAtWhole(file, 40, ndims);
    DimsAreWords(file, v.ndims, v.dims);
    assert v.data == file[DataOffset(v.ndims) .. DataOffset(v.ndims) + v.size];
  }

  /** The dims ra_read takes from a complete file are the words after the
      fixed header. */
  lemma DimsAreWords(file: seq<byte>, n: nat, dims: seq<u64>)
    requires |dims| == n && DataOffset(n) <= |file|
    requires forall k :: 0 <= k < n && DataOffset(k + 1) <= |file| ==>
      dims[k] == WordAt(file, DataOffset(k))
    ensures dims == WordsAt(file, FixedHeaderBytes, n)
  {
    forall k | 0 <= k < n
      ensures dims[k] == WordAt(file, FixedHeaderBytes + 8 * k)
    {
      assert DataOffset(k + 1) <= DataOffset(n);
    }
  }

  /** read(fd, &field, 8) for the field at nominal offset off: once a read
      has come up short, the file offset stays at the end of the file. */
  method ReadFieldAt(fd: InFile, prev: u64, ghost off: nat) returns (w: u64)
    requires fd.offset == Clamp(fd.contents, off)
    modifies fd
    ensures w == FieldAt(fd.contents, off, prev)
    ensures fd.offset == Clamp(fd.contents, off + 8)
  {
    w := ReadField(fd, prev);
    assert Avail(fd.contents, old(fd.offset), 8) == Avail(fd.contents, off, 8);
    assert Chunk(fd.contents, old(fd.offset), 8) == Chunk(fd.contents, off, 8);
  }

  /** The dims part of ra_read: a buffer of ndims words filled by a single
      read of 8 * ndims bytes. */
  method ReadDims(fd: InFile, n: u64) returns (dims: array<u64>)
    requires fd.offset == Clamp(fd.contents, FixedHeaderBytes)
    modifies fd
    ensures fresh(dims) && dims.Length == n
    ensures fd.offset == Clamp(fd.contents, DataOffset(n))
    ensures forall k :: 0 <= k < n && DataOffset(k + 1) <= |fd.contents| ==>
      dims[k] == WordAt(fd.contents, DataOffset(k))
  {
    var dimbuf := new byte[8 * n];
    var _ := fd.Read(dimbuf, 0, 8 * n);
    var dimbytes := dimbuf[..];
    dims := new u64[n](k requires 0 <= k < n => WordAt(dimbytes, 8 * k));
    forall k | 0 <= k < n && DataOffset(k + 1) <= |fd.contents|
      ensures dims[k] == WordAt(fd.contents, DataOffset(k))
    {
      assert dimbytes[8 * k .. 8 * k + 8] == fd.contents[DataOffset(k) .. DataOffset(k) + 8];
    }
  }

  /** The file offset a read at nominal offset off starts from once the
      reads before it have consumed what the file holds. */
  function Clamp(f: seq<byte>, off: nat): nat
  {
    if off <= |f| then off else |f|
  }

  /** Reading n more bytes from a clamped offset lands on the clamped
      offset n further on. */
  lemma ClampStep(f: seq<byte>, off: nat, n: nat)
    ensures Clamp(f, off) + Avail(f, Clamp(f, off), n) == Clamp(f, off + n)
  {
  }

  /** ra_write(a, path): opens a fresh file and emits the header words, the
      dims buffer and the data.  The data goes out through WriteData, the
      chunked loop in its corrected form (see WriteDataAsWritten). */
  method RaWrite(a: RaArray) returns (f: OutFile)
    requires a.Valid()
    ensures fresh(f)
    ensures f.contents == Encode(a.Value())
  {
    f := new OutFile.Create();
    WriteHeader(f, a);
    var cursor, chunks := WriteData(f, a.data, a.size);
  }

  /** The header part of ra_write: the six header words, then the dims. */
  method WriteHeader(f: OutFile, a: RaArray)
    requires a.Valid() && f.contents == []
    modifies f
    ensures f.contents == Pack(HeaderWords(a.Value()), 8)
  {
    ghost var ws: seq<nat> := HeaderWords(a.Value());
    assert f.contents == Pack(ws[..0], 8);
    WriteWord(f, MagicNumber, ws, 0);
    WriteWord(f, a.flags, ws, 1);
    WriteWord(f, a.eltype, ws, 2);
    WriteWord(f, a.elbyte, ws, 3);
    WriteWord(f, a.size, ws, 4);
    WriteWord(f, a.ndims, ws, 5);
    f.Write(Pack(a.dims[..], 8));
    PackAppend(ws[..6], a.dims[..], 8);
    assert ws[..6] + a.dims[..] == ws;
  }

  /** write(fd, &field, 8) of the k-th header word: the eight bytes of the
      field's storage. */
  method WriteWord(f: OutFile, x: u64, ghost ws: seq<nat>, ghost k: nat)
    requires k < |ws| && ws[k] == x
    requires f.contents == Pack(ws[..k], 8)
    modifies f
    ensures f.contents == Pack(ws[..k + 1], 8)
  {
    f.Write(Word(x));
    PackSnoc(ws[..k], x, 8);
    assert ws[..k] + [x] == ws[..k + 1];
  }

  /** The data loop of ra_write with the chunk size recomputed on every
      pass, as ra_read does: it terminates for every size and writes
      exactly the data, in chunks of at most RA_MAX_BYTES. */
  method WriteData(f: OutFile, data: array<byte>, size: u64) returns (cursor: nat, ghost chunks: seq<nat>)
    requires data.Length == size
    modifies f
    ensures cursor == size && Sum(chunks) == size && Capped(chunks)
    ensures f.contents == old(f.contents) + data[..]
  {
    var bytesleft: u64 := size;
    cursor := 0;
    chunks := [];
    while bytesleft > 0
      invariant cursor + bytesleft == size
      invariant Sum(chunks) == cursor && Capped(chunks)
      invariant f.contents == old(f.contents) + data[..cursor]
      decreases bytesleft
    {
      var bufsize := if bytesleft < MaxBytes then bytesleft else MaxBytes;
      var chunk := data[cursor .. cursor + bufsize];
      f.Write(chunk);
      assert data[..cursor + bufsize] == data[..cursor] + chunk;
      assert f.contents == old(f.contents) + data[..cursor + bufsize];
      ghost var before := chunks;
      chunks := chunks + [bufsize];
      assert chunks[..|chunks| - 1] == before;
      assert Sum(chunks) == cursor + bufsize;
      cursor := cursor + bufsize;
      bytesleft := bytesleft - bufsize;
    }
    assert data[..cursor] == data[..];
  }

  /** The chunk ra_write fixes once, before its loop: min(size, RA_MAX_BYTES). */
  function AsWrittenBufsize(size: u64): (b: u64)
    ensures b <= MaxBytes && b <= size
  {
    if size < MaxBytes then size else MaxBytes
  }

  /** bytesleft after k passes of ra_write's loop, in uint64_t arithmetic. */
  function AsWrittenLeft(size: u64, k: nat): u64
  {
    if k == 0 then size else Wrap64(AsWrittenLeft(size, k - 1) - AsWrittenBufsize(size))
  }

  /** The data loop of ra_write as written: bufsize is fixed before the
      loop and subtracted from the unsigned bytesleft on every pass.  It
      writes exactly the data, and stops, only when size is at most
      RA_MAX_BYTES or a multiple of it. */
  method WriteDataAsWritten(f: OutFile, data: array<byte>, size: u64) returns (cursor: nat)
    requires data.Length == size
    requires size <= MaxBytes || size % MaxBytes == 0
    modifies f
    ensures cursor == size
    ensures f.contents == old(f.contents) + data[..]
  {
    var bytesleft: u64 := size;
    cursor := 0;
    var bufsize: u64 := if bytesleft < MaxBytes then bytesleft else MaxBytes;
    ghost var passes := 0;
    while bytesleft > 0
      invariant cursor + bytesleft == size
      invariant bytesleft == AsWrittenLeft(size, passes)
      invariant bufsize == AsWrittenBufsize(size)
      invariant size <= MaxBytes ==> bytesleft == size || bytesleft == 0
      invariant size > MaxBytes ==> bytesleft % MaxBytes == 0
      invariant f.contents == old(f.contents) + data[..cursor]
      decreases bytesleft
    {
      AsWrittenStep(size, bytesleft);
      f.Write(data[cursor .. cursor + bufsize]);
      assert data[..cursor + bufsize] == data[..cursor] + data[cursor .. cursor + bufsize];
      cursor := cursor + bufsize;
      bytesleft := Wrap64(bytesleft - bufsize);
      passes := passes + 1;
    }
    assert data[..cursor] == data[..];
  }

  /** One pass of ra_write's loop when size is at most RA_MAX_BYTES or a
      multiple of it: the subtraction does not wrap and keeps bytesleft a
      multiple of RA_MAX_BYTES. */
  lemma AsWrittenStep(size: u64, left: u64)
    requires left > 0
    requires size <= MaxBytes ==> left == size
    requires size > MaxBytes ==> left % MaxBytes == 0
    ensures left >= AsWrittenBufsize(size)
    ensures Wrap64(left - AsWrittenBufsize(size)) == left - AsWrittenBufsize(size)
    ensures size > MaxBytes ==> (left - AsWrittenBufsize(size)) % MaxBytes == 0
  {
    if size > MaxBytes {
      DivSub(left, MaxBytes);
    }
  }

  /** When size exceeds RA_MAX_BYTES and is not a multiple of it, bytesleft
      keeps its remainder modulo RA_MAX_BYTES through every wrap-around, so
      it never reaches zero and ra_write's loop never ends. */
  lemma {:induction false} AsWrittenLoopNeverEnds(size: u64, k: nat)
    requires size > MaxBytes && size % MaxBytes != 0
    ensures AsWrittenLeft(size, k) % MaxBytes == size % MaxBytes
    ensures AsWrittenLeft(size, k) != 0
  {
    if k > 0 {
      AsWrittenLoopNeverEnds(size, k - 1);
      var x := AsWrittenLeft(size, k - 1);
      var y := Wrap64(x - MaxBytes);
      var j := (x - MaxBytes - y) / TwoTo64;
      assert y == x + (-1 - j * 0x2_0000_0000) * MaxBytes;
      ModShift(x, -1 - j * 0x2_0000_0000, MaxBytes);
    }
  }

  /** The smallest failing size, RA_MAX_BYTES + 1: one pass leaves a single
      byte, the next asks write for RA_MAX_BYTES bytes starting at offset
      RA_MAX_BYTES of a buffer one byte past it, and bytesleft wraps. */
  lemma AsWrittenOverrun()
    ensures AsWrittenBufsize(MaxBytes + 1) == MaxBytes
    ensures AsWrittenLeft(MaxBytes + 1, 1) == 1
    ensures AsWrittenLeft(MaxBytes + 1, 2) == TwoTo64 - MaxBytes + 1
    ensures MaxBytes + AsWrittenBufsize(MaxBytes + 1) > MaxBytes + 1
  {
  }

  /** When size is at most RA_MAX_BYTES or a multiple of it, bytesleft
      counts down by bufsize without wrapping and is zero after
      size / bufsize passes. */
  lemma {:induction false} AsWrittenLoopEnds(size: u64, k: nat)
    requires 0 < size && (size <= MaxBytes || size % MaxBytes == 0)
    requires k <= size / AsWrittenBufsize(size)
    ensures AsWrittenLeft(size, k) == size - k * AsWrittenBufsize(size)
  {
    if size < MaxBytes {
      assert size / size == 1;
      if k == 1 {
        assert AsWrittenLeft(size, 0) == size;
      }
    } else if k > 0 {
      AsWrittenLoopEnds(size, k - 1);
      var x := AsWrittenLeft(size, k - 1);
      assert x == size - (k - 1) * MaxBytes;
      assert k * MaxBytes <= size by {
        MulLe(k, size / MaxBytes, MaxBytes);
      }
      assert Wrap64(x - MaxBytes) == x - MaxBytes;
    }
  }

  /** The check of c/test.c: read a file, write the result, read that back;
      the two arrays agree in flags, eltype, elbyte, size, ndims, dims and
      data (ra_diff returns 0).  This holds for every input file, even a
      truncated one, because ra_read always allocates buffers as long as
      the header words it ended up with. */
  method ReadWriteRead(file: seq<byte>) returns (r: RaArray, r2: RaArray)
    ensures r.Valid() && r2.Valid()
    ensures r2.Value() == r.Value()
  {
    r := new RaArray.Empty();
    RaRead(r, file);
    r2 := WriteThenRead(r);
  }

  /** ra_write of a followed by ra_read of what it wrote into a new struct. */
  method WriteThenRead(a: RaArray) returns (b: RaArray)
    requires a.Valid()
    ensures fresh(b) && b.Valid()
    ensures b.Value() == a.Value()
  {
    var f := RaWrite(a);
    ghost var v := a.Value();
    DecodeEncode(v, []);
    assert f.contents + [] == f.contents;
    b := new RaArray.Empty();
    RaRead(b, f.contents);
    assert b.Value() == v;
  }
}
