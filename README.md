# RawArray (.ra) in Dafny

A model of the RawArray container and the code that reads, writes and
converts it. A `.ra` file is six 64-bit little-endian header words (magic,
flags, eltype, elbyte, size, ndims), then `ndims` 64-bit dimensions, then
`size` bytes of data. The model covers:

- `bytes.dfy` (module `Bytes`): 64-bit words as eight little-endian bytes,
  and sequences of `w`-byte elements packed into bytes and unpacked again.
  These are the typed views that C pointer casts give of a byte buffer.
- `ra_h.dfy` (module `RaH`): the constants of `c/ra.h`. These are the magic
  word, the flag bits and the unknown-flag mask, `RA_MAX_BYTES`, the element
  type enum with its letters, and the diff modes.
- `ra_file.dfy` (module `RaFile`): `ra_read` and `ra_write` of `c/ra.c`.
  - A file is a byte sequence behind an `InFile` or `OutFile` object with a
    file offset.
  - `ra_t` is the class `RaArray`, whose fields the operations update in
    place.
  - `RaValue` with `Encode`/`Decode` is the layout both operations are
    proved against.
- `ra_convert.dfy` (module `RaConvert`): the converter of `c/raconvert.c`.
  - `validate_types`, modelled as the function `Validate`.
  - The copy of the unchanged header words and the element count.
  - The destination byte size.
  - The ordered table of `CASE`s, each with the loop it runs over the typed
    views of the data.
- `ra_py.dfy` (module `RaPy`): the Python reader and writer of
  `python/ra.py`. It is an independent implementation of the same layout,
  proved to write the same bytes as the C writer and to read back what it
  wrote.
- `mosaic.dfy` (module `Mosaic`): `mosaic` of `python/mosaic.py`. It picks
  the grid, with and without padding, and places the images into a zeroed
  2-D array.

The host is taken to be little-endian, as the Python side's explicit `'<Q'`
packing and the C side's raw `write` of `uint64_t` fields agree on such a
host. Floating-point conversions between `float` and `double` are function
parameters (`FloatOps`). The model fixes only which elements go where.

## Model

| member | source | states |
|---|---|---|
| RaH.ElType.Ordinal | c/ra.h:66-75 | every element type's enumerator value indexes RA_TYPE_CODES |
| RaH.ElTypeOf | c/ra.h:66-75 | an eltype word names a type exactly when it is below 5, and then the type with that value |
| RaH.ElTypeOfCode | c/ra.h:80 | a letter names a type exactly when it occurs in "siufc", and then the type with that letter |
| RaH.ElTypeOrdinals | c/ra.h:66-80 | USER=0, INT=1, UINT=2, FLOAT=3, COMPLEX=4, and each type's letter sits at its value in "siufc" |
| RaH.ElTypeRoundTrip | c/ra.h:66-80 | types and their values, and types and their letters, are in one-to-one correspondence |
| RaH.DiffMode.Ordinal | c/ra.h:78 | the diff modes have values below 3 |
| RaH.DiffModeOrdinals | c/ra.h:78 | RA_DIFF_EQ=0, RA_DIFF_L1=1, RA_DIFF_L2=2 |
| RaH.FlagMasksPartition | c/ra.h:56-60 | big-endian is bit 0 and compressed bit 1; the known flags and RA_UNKNOWN_FLAGS are disjoint and cover all 64 bits |
| RaH.UnknownFlagsExactly | c/ra.h:56-60 | a flags word has no unknown bit exactly when it is below 1 << NFLAGS |
| RaH.MaxBytesIsBit31 | c/ra.h:63 | RA_MAX_BYTES is 2^31 |
| RaH.MagicSpellsRawarray | c/ra.h:53 | RA_MAGIC_NUMBER equals the Python MAGIC_NUMBER and its little-endian bytes spell "rawarray" |
| Bytes.Word | c/ra.c:102-108 | the eight bytes a 64-bit field is written as decode back to the field |
| Bytes.DecodeEncodeLE | c/ra.c:102-108 | decoding the n little-endian bytes of x < 256^n gives x |
| Bytes.EncodeDecodeLE | c/ra.c:66-73 | encoding the value of a byte string gives the byte string back |
| Bytes.WordAtBytes | c/ra.c:66-73 | the word read at an offset is the one whose bytes are there |
| Bytes.UnpackPack | c/raconvert.c:55-58 | viewing packed w-byte elements as w-byte elements gives them back |
| Bytes.PackUnpack | c/raconvert.c:55-58 | packing the w-byte view of a buffer of whole elements gives the buffer back |
| Bytes.PackAt | c/raconvert.c:55-58 | element k of a packed view occupies bytes k*w .. k*w+w |
| Bytes.PackWordAt | c/ra.c:102-108 | word k of packed 64-bit words is the k-th word, whatever follows |
| Bytes.UnpackPrefix | c/raconvert.c:55-58 | the typed view of a buffer ignores the bytes past its last whole element |
| Bytes.UnpackFits | c/raconvert.c:55-58 | every element of a w-byte view fits in w bytes |
| Bytes.EncodeLEPrefix | c/raconvert.c:93-175 | the low k bytes of an encoding encode the value modulo 256^k |
| RaFile.WordsAt | c/ra.c:73 | the dimension words read from an offset number ndims |
| RaFile.Decode | c/ra.c:66-85 | the array a complete file describes is well formed: ndims dims and size data bytes |
| RaFile.EncodeLayout | c/ra.c:102-118 | a written file is 48 + 8*ndims header bytes followed by exactly the data |
| RaFile.EncodeWordAt | c/ra.c:102-108 | word k of a written file is the k-th header word (RA_MAGIC_NUMBER first, never the struct's magic), whatever follows the data |
| RaFile.DecodeEncode | c/ra.c:66-85 | decoding what ra_write produced, with anything appended, gives every field back |
| RaFile.EncodeDims | c/ra.c:108 | the dimension words of a written file are the dims |
| RaFile.DecodeIgnoresMagic | c/ra.c:66 | ra_read never compares the magic: any eight leading bytes give the same array |
| RaFile.Avail | c/ra.c:66-73 | a read delivers at most what was asked, and all of it when the file holds it (no per-call cap, see Left out) |
| RaFile.Chunk | c/ra.c:66-73 | the bytes a read delivers are the file's bytes from the offset on |
| RaFile.FieldAtWhole | c/ra.c:67-71 | a field read whole is the word at its offset |
| RaFile.InFile.Open | c/ra.c:63 | a freshly opened file is read from offset 0 |
| RaFile.InFile.Read | c/ra.c:66-73 | read copies what the file still holds, up to count bytes, and advances the offset by what it copied (all of it in one call, see Left out) |
| RaFile.OutFile.Create | c/ra.c:98 | a file opened with O_TRUNC is empty |
| RaFile.OutFile.Write | c/ra.c:102-118 | write appends its bytes |
| RaFile.RaArray.Empty | c/ra.h:38-50 | a zeroed ra_t with empty buffers is valid |
| RaFile.RaArray.Value | c/ra.h:38-50 | a valid ra_t holds a well-formed array |
| RaFile.ReadField | c/ra.c:67-71 | a field read holds the bytes that arrived in its low-order end and its old bytes above them |
| RaFile.ReadFieldAt | c/ra.c:67-71 | after a short read, later reads start at the end of the file |
| RaFile.ReadData | c/ra.c:79-85 | the loop ends with the cursor at data+size; the chunks sum to size, each of 1 .. RA_MAX_BYTES (none when size is 0); each byte is the file's byte where the file has one and otherwise keeps its old value |
| RaFile.ReadChunk | c/ra.c:81-84 | one pass extends the filled part of the buffer by the amount asked for, whatever arrived |
| RaFile.Filled | c/ra.c:79-85 | the partly filled buffer keeps its length; byte i is file byte off + i when i is below upto and the file has that byte, and the buffer's own byte i otherwise |
| RaFile.ReadStep | c/ra.c:82-83 | one read at the clamped cursor followed by the cursor step leaves the buffer filled up to the new cursor |
| RaFile.ClampStep | c/ra.c:82-83 | the file offset after a read of n bytes is the clamped nominal offset n further on |
| RaFile.ReadHeader | c/ra.c:66-71 | the magic goes to a local; the five fields after it are read at offsets 8..40, short reads keeping old bytes |
| RaFile.ReadDims | c/ra.c:72-73 | dims has ndims entries, each the word at its offset when the file holds it |
| RaFile.ReadBody | c/ra.c:72-85 | fresh dims and data buffers as long as ndims and size say, filled from the file |
| RaFile.RaRead | c/ra.c:58-88 | every field is read at its fixed offset; the magic field is untouched; buffers match the header words; on a complete file the struct holds Decode(file) |
| RaFile.ReadIsDecode | c/ra.c:66-85 | on a complete file, what ra_read leaves is exactly the decoded array |
| RaFile.DimsAreWords | c/ra.c:73 | the dims read from a complete file are the words after the fixed header |
| RaFile.WriteWord | c/ra.c:102-107 | each header write appends the next word's eight bytes |
| RaFile.WriteHeader | c/ra.c:102-108 | the header part of a written file is the six header words and the dims, packed |
| RaFile.WriteData | c/ra.c:110-118 | the corrected write loop always ends with the cursor at size, has written exactly the data, and used chunks of 1 .. RA_MAX_BYTES bytes summing to size |
| RaFile.RaWrite | c/ra.c:92-122 | the written file is Encode of the array: header words, dims, data; the data go through the corrected loop of the Findings row |
| RaFile.AsWrittenBufsize | c/ra.c:113 | the fixed chunk is at most RA_MAX_BYTES and at most size |
| RaFile.WriteDataAsWritten | c/ra.c:110-118 | the loop as written, when size <= RA_MAX_BYTES or is a multiple of it, ends and writes exactly the data |
| RaFile.AsWrittenStep | c/ra.c:113-117 | under that condition one pass does not wrap bytesleft and keeps it a multiple of RA_MAX_BYTES |
| RaFile.AsWrittenLoopEnds | c/ra.c:113-117 | under that condition bytesleft is size - k*bufsize after k passes, and so reaches zero |
| RaFile.AsWrittenLoopNeverEnds | c/ra.c:113-117 | otherwise bytesleft keeps size mod RA_MAX_BYTES through every wrap-around and is never zero |
| RaFile.AsWrittenOverrun | c/ra.c:113-117 | for size 2^31+1 the second pass writes 2^31 bytes from one byte before the end of the data, and bytesleft wraps |
| RaFile.WriteThenRead | c/test.c:13-23 | ra_read of what RaWrite wrote gives the same array (for the source's ra_write only when its loop ends, see Left out) |
| RaFile.ReadWriteRead | c/test.c:13-23 | read, write and read again: the two structs agree in every field, dims and data, for any input file (for the source's ra_write only when its loop ends, see Left out) |
| RaConvert.Validate | c/raconvert.c:32-48 | the five outcomes: USER refused first; complex to non-complex only warns, skipping the later tests; the same type exits OK; compressed is refused; narrowing warns |
| RaConvert.UserRefusedFirst | c/raconvert.c:35-42 | a USER destination is refused even when it is the source's own type |
| RaConvert.CompressedComplexSlipsThrough | c/raconvert.c:38-45 | a compressed complex source going to a real type passes with the warning; going to complex it is refused |
| RaConvert.NoNarrowingWarningForComplex | c/raconvert.c:38-47 | COMPLEX,16 to FLOAT,4 only gets the complex warning |
| RaConvert.Entry.SrcWidth | c/raconvert.c:55-58 | the source view's elements are 1, 2, 4 or 8 bytes wide |
| RaConvert.Entry.DstWidth | c/raconvert.c:55-58 | the destination view's elements are 1, 2, 4 or 8 bytes wide |
| RaConvert.FirstMatch | c/raconvert.c:93-216 | an else-if chain takes the first matching entry, and none if none matches |
| RaConvert.Lookup | c/raconvert.c:93-216 | the entry taken matches, no earlier one does, no match means the final else, and the entry's widths are consistent |
| RaConvert.DuplicateEntriesUnreachable | c/raconvert.c:142-147 | the repeated UINT8 to INT entries equal earlier ones and are never taken |
| RaConvert.TableConsistent | c/raconvert.c:93-212 | every entry's widths fit its loop |
| RaConvert.NoInt64SourceNoIntToUInt | c/raconvert.c:93-216 | INT64 sources and INT to UINT match no entry, so they reach the else and EX_USAGE |
| RaConvert.IntSources | c/raconvert.c:93-112 | the entries reading signed integers are INT 1, 2 or 4 to INT |
| RaConvert.CastBits | c/raconvert.c:93-175 | an integer assignment stores a pattern that fits the destination |
| RaConvert.CastBitsNarrow | c/raconvert.c:93-175 | narrowing reduces the pattern modulo 256^dw, whatever the sign |
| RaConvert.CastKeepsLowBytes | c/raconvert.c:93-175 | narrowing keeps the low-order bytes of the source element |
| RaConvert.CastBitsWiden | c/raconvert.c:93-175 | widening adds all-ones above a negative source and nothing above others |
| RaConvert.CastExtends | c/raconvert.c:93-175 | widening appends copies of the sign byte (sign extension, or zero extension for unsigned) |
| RaConvert.WideningKeepsValue | c/raconvert.c:93-175 | widening unsigned to anything, or signed to signed, keeps the value |
| RaConvert.NarrowUndoesWiden | c/raconvert.c:93-175 | narrowing back to the source width undoes a widening |
| RaConvert.CastElement | c/raconvert.c:55-58 | one converted element fits the destination width |
| RaConvert.CastView | c/raconvert.c:55-58 | CONVERT's destination view has the buffer's length; element i is CastElement of source element i below the count and the allocated value (zero) from the count on |
| RaConvert.SpreadView | c/raconvert.c:187-200 | the real to complex destination view has the buffer's length; below the count, slot 2i is source element i and slot 2i + 1 is zero, and the slots past 2 * count are zero |
| RaConvert.GatherView | c/raconvert.c:201-212 | the complex to real destination view has the buffer's length; element i is source slot 2i, the real part, below the count and zero from the count on |
| RaConvert.KernelView | c/raconvert.c:93-212 | the view an entry's loop leaves has the buffer's length; it is SpreadView, GatherView or CastView as the entry's kernel says |
| RaConvert.Lay | c/raconvert.c:91 | the destination buffer holds size bytes: the view's elements packed little-endian in order, then zero in the bytes past the last whole element |
| RaConvert.CastLoop | c/raconvert.c:55-58 | the CONVERT loop leaves exactly CastView: elements below nelem converted, the rest as allocated |
| RaConvert.SpreadLoop | c/raconvert.c:187-200 | the real to complex loop sets dst[2i] = src[i] and dst[2i+1] = 0 |
| RaConvert.GatherLoop | c/raconvert.c:201-212 | the complex to real loop sets dst[i] = src[2i] |
| RaConvert.RunKernel | c/raconvert.c:93-212 | the loop of the chosen entry leaves that entry's view |
| RaConvert.DstSizeExact | c/raconvert.c:90 | without wrap-around, dst.size = elbyte * src.size / src.elbyte is n elements of the new width |
| RaConvert.CountCovers | c/raconvert.c:181-212 | the chosen loop (with nelem doubled in uint64_t for complex to complex) runs over both typed views of n elements to their ends, exactly unless the doubling wraps |
| RaConvert.Transfer | c/raconvert.c:91-212 | the loop runs exactly when it stays inside both buffers, and yields size bytes |
| RaConvert.Plan | c/raconvert.c:61-219 | exits exactly on a validate_types stop or a missing entry; a conversion keeps flags, ndims and dims, sets the new type and width and carries the warning |
| RaConvert.CopyDims | c/raconvert.c:82-87 | the dims are copied and nelem is their product modulo 2^64 |
| RaConvert.RunTransfer | c/raconvert.c:91-212 | the malloc'd buffer ends up holding Transfer's bytes |
| RaConvert.Assemble | c/raconvert.c:79-91 | dst holds the copied header words, dims and converted data |
| RaConvert.Convert | c/raconvert.c:61-224 | main's outcome is Plan's, and the written file is Encode of the destination (written by RaWrite, see Left out) |
| RaConvert.EntryKernel | c/raconvert.c:93-212 | an entry's element types decide which loop it runs |
| RaConvert.LookupKernel | c/raconvert.c:187-212 | FLOAT to COMPLEX picks the spreading loop, COMPLEX to FLOAT the gathering one, with the matching widths |
| RaConvert.SlotsOf | c/raconvert.c:55-58 | n elements of w bytes make a view of n elements |
| RaConvert.ViewLengths | c/raconvert.c:181-212 | the views of n elements hold 2n components where complex values are split, n otherwise |
| RaConvert.AgreeingSizesConvert | c/raconvert.c:83-212 | when size agrees with the dims, every supported pair converts without a fault into nelem elements of the new width |
| RaConvert.AgreeingSizesFit | c/raconvert.c:90-212 | under that agreement dst.size is nelem*elbyte and the loop stays inside both buffers |
| RaConvert.SpreadGather | c/raconvert.c:187-212 | taking the real parts of a spread view gives the elements back |
| RaConvert.ToComplex | c/raconvert.c:187-200 | FLOAT,w to COMPLEX,2w gives each element a zero imaginary part, with no warning |
| RaConvert.FromComplex | c/raconvert.c:201-212 | COMPLEX,2w to FLOAT,w keeps the real parts, with the complex warning |
| RaConvert.RealComplexRoundTrip | c/raconvert.c:187-212 | FLOAT to COMPLEX and back gives the original array, header and data |
| RaPy.Header | python/ra.py:57-68 | the derived header is well formed |
| RaPy.OrderFlagsMeaning | python/ra.py:57-59 | the flags word sets the big-endian bit exactly for a '>' dtype, and no other bit |
| RaPy.KindEltypeMeaning | python/ra.py:60-63 | a numeric kind becomes the C type whose letter it is; every other kind becomes USER |
| RaPy.HeaderSize | python/ra.py:64-68 | size is the element count of the dims times elbyte |
| RaPy.WriteHeaderWords | python/ra.py:69-75 | the six packed words and the dims are the C header words, packed |
| RaPy.Write | python/ra.py:55-77 | the file written is byte for byte Encode of the header and data, the file RaWrite produces (the source's ra_write only when its loop ends, see Left out) |
| RaPy.PyFile.Open | python/ra.py:10 | a freshly opened file is read from position 0 |
| RaPy.PyFile.Read | python/ra.py:21-30 | f.read(n) returns the next n bytes or what is left |
| RaPy.UnpackQ | python/ra.py:23-27 | unpacking succeeds exactly on eight bytes, giving the word they encode |
| RaPy.ReadWord | python/ra.py:23-30 | reading a word gives the word at the position, or StructError when fewer than eight bytes are left |
| RaPy.GetHeader | python/ra.py:20-31 | getheader reads the five words after the magic and then exactly ndims dims, or raises: struct.error on a short read, OverflowError from range for ndims of 2^63 or more |
| RaPy.NpDType | python/ra.py:16-17 | a dtype named by base and bit count has itemsize bits/8 |
| RaPy.Read | python/ra.py:9-18 | read returns or raises what ReadOf says: raw bytes for eltype 0, else an array of the named dtype and the dims; OverflowError for a size of 2^63 or more |
| RaPy.HeaderOfComplete | python/ra.py:20-31 | on a complete file getheader returns the words ra_read decodes when ndims is below 2^63, and raises OverflowError otherwise |
| RaPy.RangeOverflow | python/ra.py:28-29 | getheader raises OverflowError exactly when the six words are there and ndims is 2^63 or more |
| RaPy.HeaderOfIgnoresMagic | python/ra.py:21 | getheader and read never look at the magic |
| RaPy.WrittenHeader | python/ra.py:69-76 | getheader of a written file gives the derived header, and the bytes after it are the data |
| RaPy.DTypeRoundTrip | python/ra.py:16 | the dtype read names from eltype and elbyte is the written array's own, in host order |
| RaPy.RoundTrip | python/ra.py:9-77 | write then read of a numeric array in host byte order gives the same array |
| RaPy.BigEndianReadAsNative | python/ra.py:12-18 | a '>' array gets the flag, but read ignores it and gives back the bytes reinterpreted in host order |
| RaPy.OtherKindsReadRaw | python/ra.py:12-14 | a non-numeric array is written as USER data and read back as its raw bytes |
| RaPy.LoadWhole | python/ra.py:16-18 | the element count and shape of a written array are accepted by fromstring and reshape |
| RaPy.ReadWriteRead | python/test.py:10-17 | every array read returns, written and read again, comes back equal |
| RaPy.LoadedValid | python/ra.py:16-18 | an array read builds from fewer than 2^63 bytes is one write accepts, numeric and in host order |
| RaPy.OverflowOnHugeSize | python/ra.py:12-17 | read raises OverflowError exactly when the size is 2^63 or more and the eltype passes the name lookup, whatever the data |
| Mosaic.CountSplit | python/mosaic.py:22-24 | an array's elements number nz*nr*nc after lumping |
| Mosaic.LumpRow | python/mosaic.py:24 | a lumped row has nc elements |
| Mosaic.LumpTile | python/mosaic.py:24 | a lumped image has nr rows of nc elements |
| Mosaic.Lump | python/mosaic.py:22-26 | reshape((-1, nr, nc)) gives nz images of nr x nc |
| Mosaic.LumpElements | python/mosaic.py:24 | element (k, r, c) of the lumped stack is element (k*nr + r)*nc + c in C order |
| Mosaic.RowElement | python/mosaic.py:24 | element c of a lumped row is the element at that C-order index |
| Mosaic.FloorSqrt | python/mosaic.py:40 | int(floor(sqrt(n))) is the s with s*s <= n < (s+1)*(s+1) |
| Mosaic.CeilSqrt | python/mosaic.py:29 | int(ceil(sqrt(n))) is the smallest s with s*s >= n |
| Mosaic.Divisors | python/mosaic.py:43-44 | x is in the list exactly when 1 <= x <= n and x divides nz, and the last element is the largest |
| Mosaic.PaddedGrid | python/mosaic.py:28-30 | with pad the grid is the smallest square with room for all nz images |
| Mosaic.ExactGridNeedsImages | python/mosaic.py:43-44 | without pad and no images, m[-1] raises IndexError |
| Mosaic.ExactGrid | python/mosaic.py:40-48 | without pad, n2*n1 = nz, n2 <= n1, and no factorisation of nz has a larger smaller factor |
| Mosaic.BlockOf | python/mosaic.py:35-36 | row i is in block b exactly when i / nr = b, and is then row i - nr*b of that block |
| Mosaic.TilePlaced | python/mosaic.py:31-37 | image k sits at block (k / across, k % across), copied whole |
| Mosaic.TileInGrid | python/mosaic.py:49-53 | every image of a grid with room for it lands inside the output |
| Mosaic.PlaceTile | python/mosaic.py:35-37 | the ix_ assignment sets the block to the image and leaves the rest as it was |
| Mosaic.PlaceBlock | python/mosaic.py:35-37 | placing the next block in row-major order extends the filled part by that block |
| Mosaic.Blank | python/mosaic.py:30 | the zero array has no block filled |
| Mosaic.RowDone | python/mosaic.py:32-34 | a block row is finished when its blocks run out or the break is taken |
| Mosaic.AllDone | python/mosaic.py:31-38 | once every block row is finished the output is the expected mosaic |
| Mosaic.PlacePadded | python/mosaic.py:28-38 | with pad the (nr*n) x (nc*n) output holds image k at block (k / n, k % n) and zero where no image is left |
| Mosaic.PlaceExact | python/mosaic.py:48-54 | without pad the (nr*n2) x (nc*n1) output holds image k at block (k / n1, k % n1) |
| Mosaic.Mosaic | python/mosaic.py:1-54 | rank <= 2 comes back unchanged; ReshapeError when nr*nc = 0; IndexError when there is no divisor; otherwise the tiled array of the chosen grid |

## Left out

- ra_free (c/ra.c:130-135) and close: deallocation and descriptor release have no counterpart once files are byte sequences.
- The `top` field of ra_t is not read or written by any modelled code and is not modelled.
- open and malloc failures (the err calls in c/ra.c), and writes that transfer fewer bytes than asked, are not modelled: OutFile.Write always appends everything.
- RaFile.RaRead: `ndims * sizeof(uint64_t)` is not wrapped at 64 bits; the dims buffer is taken to hold ndims words.
- RaFile.RaWrite: runs the corrected data loop of the Findings row (RaFile.WriteData), not the loop of c/ra.c:113-117, which never ends when size is above RA_MAX_BYTES and not a multiple of it. RaFile.WriteThenRead, RaFile.ReadWriteRead, RaConvert.Convert and RaPy.Write therefore describe the source's ra_write only when size <= RA_MAX_BYTES or size % RA_MAX_BYTES == 0 (RaFile.AsWrittenLoopEnds, RaFile.WriteDataAsWritten).
- RaFile.InFile.Read: a read is taken to deliver everything the file still holds up to count, in one call, with no per-call cap and no EINTR. Linux transfers at most 0x7ffff000 bytes per read, and ra_read asks for 2^31-byte chunks and ignores the count returned. So for a size above 0x7ffff000 the last 4096 bytes of each full chunk of the buffer would stay unfilled, each later chunk would be filled from a file offset 4096 bytes further behind its place in the data, and the file's last bytes would never be read. RaFile.Avail, RaFile.ReadData, RaFile.RaRead, RaFile.WriteThenRead and RaFile.ReadWriteRead do not capture that.
- Bytes that malloc leaves uninitialised are modelled as zero (RaConvert.Lay, RaConvert.CastView, and the buffers ra_read allocates).
- C pointer-cast views of a byte buffer are modelled as Unpack and Pack of little-endian elements; aliasing between the views is not modelled.
- The host is taken to be little-endian; big-endian hosts and the big-endian flag's meaning for C readers are not modelled.
- ra_query (c/ra.c:29-56) and python query (python/ra.py:34-52) format text only.
- Compression (LZ4) and the declared but bodiless routines of c/ra.h:88-108 (ra_diff, ra_reshape, ra_compress and others) are not modelled; the round-trip lemmas state field equality where c/test.c calls ra_diff.
- RaConvert.CastElement: float to double and double to float are the `FloatOps` parameters, with no IEEE 754 semantics; float16 is not modelled.
- Signed narrowing stores the value modulo 256^width, the GCC choice for the implementation-defined case of the C standard.
- The command-line front ends (argument parsing, usage text, printf of the warnings) are not modelled; RaConvert.Validate returns the warning instead of printing it.
- RaPy: numpy dtypes are modelled by order, kind and item size, with the item sizes of a 64-bit Linux build; other numpy aliases and platform types are not modelled.
- RaPy.Read: running out of memory (MemoryError when f.read or fromstring cannot allocate) is not modelled; sizes below 2^63 are taken to be allocatable.
- RaPy.GetHeader: python/ra.py is Python 2 code (the print statement at python/ra.py:13), and the model follows Python 2: print prints, range(ndims) builds its whole list before the first dimension is read (OverflowError for ndims of 2^63 or more; the MemoryError of a smaller count too large to allocate is not modelled), and file.read and struct.unpack behave as in Python 2. python/test.py and python/mosaic.py are Python 3 code, and `import ra` in python/test.py cannot load the Python 2 module as shipped; RaPy.ReadWriteRead states the check of python/test.py:10-17 as if both ran under one interpreter.
- RaPy.NdArray.Valid assumes numpy's bounds (sizes and dimensions below 2^63); a dimension of 2^63 or more in a file makes reshape fail and is modelled as ValueError (numpy may raise OverflowError).
- print statements of ra.py and mosaic.py, and mosaic.main (python/mosaic.py:57-67), are left out.
- Mosaic.FloorSqrt, Mosaic.CeilSqrt: math.sqrt on floats is replaced by exact integer square roots; floating-point rounding for very large image counts is not modelled.
- Mosaic: the element type is generic and `zero` is the value numpy's zeros gives for it.

## Findings

| source | as written | input that shows it | evidently intended | confidence | as-written member | corrected member |
|---|---|---|---|---|---|---|
| c/ra.c:113-117 | bufsize is min(size, RA_MAX_BYTES) once, before the loop, and is subtracted from the unsigned bytesleft on every pass | size = 2^31 + 1: after one pass bytesleft is 1, the next pass writes 2^31 bytes from a cursor one byte before the end of the data, and bytesleft wraps to 2^64 - 2^31 + 1 and never reaches 0 | recompute the chunk as min(bytesleft, RA_MAX_BYTES) on every pass, as ra_read's loop does | not executed | RaFile.AsWrittenLoopNeverEnds | RaFile.WriteData |
