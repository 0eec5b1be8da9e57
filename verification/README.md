# mxarr: a verified model of a small multidimensional array library

The library keeps an array as a C record:
- `dimno`, the rank;
- `type`, an element tag;
- `dims[MAX_DIMS]`, fixed-capacity axis sizes;
- `elno`, the element count;
- `data`, an owned byte buffer.

It provides these operations:
- `create_array` and `newarray` construct a record.
- `inflate` and `flatten` reshape the record in place.
- `endswap` reverses bytes.
- `readarray` and `writearray` move a record to and from a binary stream. The stream holds a 4-byte header whose two zero bytes mark its layout, then `dimno` 32-bit axis sizes, then the raw element bytes.

The library exists in two versions:
- `mxarr.c` is the finished version.
- `A1/mxarr.c` is an earlier one in which `endswap` and `flatten` are empty stubs and there is no `writearray`.

The model covers both versions:
- Everything they share is modelled once.
- The two stubs are separate members, `EndSwap.EndSwapStub` and `MxArr.MxArray.FlattenStub`.
- The `Variant` parameter of the decoder picks the `endswap` that `readarray` calls.

The model has five modules:
- `Bytes` holds bytes, `uint32_t` with explicit wrap-around, byte reversal, and the memory image of a `uint32_t` under a host byte order.
- `EndSwap` holds `endswap`: the in-place swap loop and the reversed-copy loop, on arrays with offsets.
- `Shapes` holds the shape part of a record as a value. It defines the literal effect of `inflate` and `flatten` (`InflateStep`, `FlattenStep`) and proves lemmas about what these formulas do and do not achieve.
- `MxArr` holds the `ERROR_CODE` cell and the `MxArray` class.
  - Its constructors are `create_array` and `newarray`.
  - Its methods `Inflate` and `Flatten` update the fields in place.
  - Each is proved against the `Shapes` functions.
- `Codec` holds `FILE*` as `InFile` (bytes plus a cursor) and `OutFile` (bytes written plus the room left).
  - `readarray` is modelled step by step as `ReadArray`, which is proved against the function `Decode`.
  - `writearray` is modelled as `WriteArray`, which is proved against the function `Encode`.
  - Lemmas relate `Decode` to `Encode`.

What the proofs show about the code as written:
- `writearray` stores the dims in host order. The finished `readarray` byte-swaps every dim it loads, whatever the header says. So a 1-D record comes back exactly as written if and only if its size reads the same byte-swapped (`Codec.FinishedRoundTripOneAxis`). For example, a six-element record is read as `0x0600_0000` elements (`Codec.SixElementsDoNotReadBack`).
- The earlier version has no `writearray`. Its reader, with the no-op swap, does give back every 1-D record written by the finished `writearray` (`Codec.StubbedRoundTripOneAxis`).
- `readarray` rebuilds a record of rank 2 or more with `newarray(dims[0])` and `inflate`.
  - `inflate` replaces the last axis by `dim`, appends `elno / dim` and multiplies `elno` by that appended size.
  - With the earlier version's reader, `[a, b]` is refused unless `b` divides `a` and is undefined when `b == 0`. Any record it returns has axes `[b, a / b]` (`Codec.ReadBackTwoAxes`). Even then, a stream shorter than the data gives NULL, and data that overrun the buffer are undefined (`Codec.TwelveByFourOverruns`).
  - The finished reader works on the byte-swapped sizes `a'` and `b'`, so any record it returns has axes `[b', a' / b']` (`Codec.ReadBackTwoAxesFinished`).
  - Whenever the split leaves an outer size `d / dim` of at least 2 and nothing wraps, the element count of `[d]` after `inflate` is no longer the product of the axes (`Shapes.InflateBreaksCount`).
  - `inflate` never grows the buffer, so the data read can run past it (`Codec.TwelveByFourOverruns`).
- A rank-0 header makes `readarray` use the never-written `dims[0]` (`Codec.RankZeroIsUndefined`).
- `flatten` divides the count by the dropped last axis and multiplies every remaining axis by it, so a consistent `[a, b]` whose product `a * b` fits in 32 bits stays consistent only when `a == 0` or `b == 1` (`Shapes.FlattenTwoAxes`).
- `flatten` undoes `inflate` on every non-zero 1-D record whose inflated count does not wrap (`Shapes.FlattenUndoesInflateOneAxis`). On more axes it does not in general: `[2, 6]` inflated by 2 and flattened gives `[12, 12]` (`Shapes.FlattenDoesNotUndoInflate`).

Error codes: the core sets only `ERR_VALUE`, on every refused or failed operation, and `ERR_MEMORY`, on a failed allocation. A successful operation leaves `ERROR_CODE` as it was.

Stated without the C header:
- `MAX_DIMS` is taken to be 8.
- `ELEMENT_SIZE` is a parameter `size` mapping each tag to a positive width.
- `elno` is taken to be a `uint32_t`, and every update of it wraps modulo 2^32.
- Allocation sizes are exact products.

## Model

| member | source | states |
|---|---|---|
| EndSwap.EndSwap | mxarr.c:26-43 | the `bits` bytes written at `output` are the input bytes in reverse order, whether `input` and `output` are the same address (in place) or not; every other byte of the output buffer is unchanged |
| EndSwap.SwapInPlace | mxarr.c:30-36 | swapping `in[i]` with `in[bits-1-i]` for `i < bits/2` leaves the window reversed and nothing outside it changed |
| EndSwap.CopyReversed | mxarr.c:37-42 | writing `out[i] = in[bits-1-i]` for `i < bits` leaves the output window equal to the reversed input window, and nothing else in the output changes |
| Bytes.ReversedTwice | mxarr.c:26-43 | reversing twice gives the original bytes back, so two `endswap` calls restore a buffer |
| EndSwap.EndSwapStub | A1/mxarr.c:72-75 | the earlier `endswap` leaves the output buffer exactly as it was |
| MxArr.ErrorState.constructor | mxarr.c:46 | the error cell starts as `ERR_NONE` |
| MxArr.MxArray.Create | mxarr.c:49-83 | `create_array` copies `dims[0..dimno)`, sets `dimno` and `type`, sets `elno` to the 32-bit product of the copied dims (so the record is consistent) and allocates `elno * ELEMENT_SIZE(type)` bytes; the earlier version's `create_array` (A1/mxarr.c:28-62) is the same code |
| MxArr.MxArray.NewArray | mxarr.c:96-121 | `newarray` gives rank 1, `dims[0] == dim0`, `elno == dim0`, the given type, and a buffer of `dim0 * ELEMENT_SIZE(type)` bytes; the earlier version (A1/mxarr.c:77-102) is the same code |
| MxArr.MxArray.Inflate | mxarr.c:123-147 | returns 0 exactly when `dimno >= MAX_DIMS` or the last axis is not a multiple of `dim`, and then sets `ERR_VALUE` and changes no field; otherwise it returns 1, the last axis becomes `dim`, `elno / dim` is appended, `dimno` grows by one, `elno` becomes `elno * (elno / dim)` modulo 2^32, other axes, type, buffer and error cell are unchanged; the new shape is `InflateStep` of the old; the earlier version (A1/mxarr.c:104-126) is the same code |
| MxArr.MxArray.Flatten | mxarr.c:149-165 | rank 0: `ERR_VALUE` and nothing changes; otherwise `elno` is divided by the last axis, `dimno` drops by one, every remaining axis is multiplied by the dropped size modulo 2^32, the rest of `dims[]`, type, buffer and error cell are unchanged; the new shape is `FlattenStep` of the old |
| MxArr.MxArray.FlattenStub | A1/mxarr.c:128-131 | the earlier `flatten` changes neither the shape nor the error cell |
| Bytes.Mul32 | mxarr.c:144 | `uint32_t` multiplication: the exact product whenever it is below 2^32 |
| Bytes.Div32 | mxarr.c:158 | `uint32_t` division: the largest `r` with `r * b <= a`, hence at most `a` |
| Shapes.Product | mxarr.c:68-71 | the exact product of the axis sizes, which is zero exactly when some axis is zero |
| Shapes.InflateStep | mxarr.c:126-146 | `inflate` on a shape: refused exactly at capacity or when `dim` does not divide the last axis, undefined below capacity on rank 0 or `dim == 0`; otherwise one more axis, still within `MAX_DIMS`, with the type and the outer axes kept, the last axis `dim`, and after it the quotient `q` of `elno` by `dim` (`q * dim <= elno < q * dim + dim`), and the count `elno * q` modulo 2^32 |
| Shapes.FlattenStep | mxarr.c:151-164 | `flatten` on a shape: refused exactly at rank 0, undefined exactly on a zero last axis; otherwise one axis fewer, type kept, each remaining axis the 32-bit product with the dropped one, and the count the quotient of `elno` by it |
| Shapes.InflateOneAxis | mxarr.c:141-144 | on a fresh 1-D record `[d]`, `inflate(dim)` yields axes `[dim, d / dim]`, whose product is `d`, with count `d * (d / dim)` modulo 2^32 |
| Shapes.InflateBreaksCount | mxarr.c:141-144 | whenever the outer size `d / dim` is at least 2 and nothing wraps, the count after `inflate` is not the product of the axes |
| Shapes.FlattenUndoesInflateOneAxis | mxarr.c:141-164 | on a 1-D record with a non-zero size whose inflated count does not wrap, `flatten` after `inflate` restores the record |
| Shapes.FlattenDoesNotUndoInflate | mxarr.c:141-164 | `[2, 6]` inflated by 2 becomes `[2, 2, 6]` with count 72, and flattening that gives `[12, 12]` with count 12 |
| Shapes.FlattenTwoAxes | mxarr.c:158-164 | flattening a consistent `[a, b]` with `b != 0` and `a * b` below 2^32 gives `[a * b]` with count `a`, which is consistent exactly when `a == 0` or `b == 1` |
| Shapes.DemoInflateRefused | mxarr.c:293-311 | the demonstration record `[2, 3, 4, 5]` has count 120, and `inflate(arr, 6)` on it is refused |
| Codec.InFile.Read | mxarr.c:231 | `fread` copies the next `min(n, bytes left)` bytes into the buffer, advances the cursor by that many and leaves the rest of the buffer alone |
| Codec.OutFile.Write | mxarr.c:261 | `fwrite` appends as much of the chunk as the device has room for |
| Codec.Classify | mxarr.c:180-192 | a header is rejected exactly when neither its first nor its last two bytes are both zero; every accepted header, big- or little-endian, is exactly the header `writearray` writes for the type and rank it is read as |
| Codec.HeaderBytes | mxarr.c:248-258 | the header `writearray` writes is four bytes with the zero pair first for big-endian and last for little-endian; `Codec.HeaderRoundTrip` is its round trip with `Classify` |
| Codec.HeaderRoundTrip | mxarr.c:248-258 | every header `writearray` writes is accepted with the same type and rank, as big-endian when so written and also when the little-endian header is all zeros |
| Codec.ReadHeader | mxarr.c:171-192 | reading the header advances by up to 4 bytes; it succeeds exactly when 4 bytes are there and they are not rejected, giving their type and rank |
| Codec.ReadDims | mxarr.c:202-212 | reading the dims succeeds exactly when `4 * dimno` bytes remain; each dim left in the buffer is the value `WireDims` gives for the bytes read |
| Codec.SwapWords | mxarr.c:210-212 | the swap loop leaves each of the first `n` words reversed (or unchanged, with the stub) and later bytes untouched |
| Codec.SwappedLoad | mxarr.c:210-212 | a host-order load of a word after the finished in-place swap is a load in the other byte order; with the stub it is a host-order load |
| Bytes.LoadStore | mxarr.c:268 | a `uint32_t` stored and loaded on the same host keeps its value |
| Bytes.LoadReversed | mxarr.c:210-212 | loading the reversed bytes of a stored word gives its byte swap on either host |
| Codec.DimBytes | mxarr.c:268 | the dims `writearray` writes are four bytes per axis (`Codec.DimBytesChunk`: word `j` is the memory image of `dims[j]`) |
| Codec.WireDims | mxarr.c:203-212 | one axis size per 4-byte word read; `Codec.DimsReadBack` says what they are for dims `writearray` wrote |
| Codec.DimsReadBack | mxarr.c:203-212 | the dims `writearray` wrote are read back byte-swapped by the finished reader and unchanged by the earlier one |
| Codec.ParsePrefix | mxarr.c:171-207 | the header and dims part gets through only with a rank of at most `MAX_DIMS` and the whole dims section present (`Codec.PrefixHeader`: with a well-formed header of that type and rank) |
| Codec.ReadPrefix | mxarr.c:171-207 | header, rank check and dims read fail exactly where `ParsePrefix` stops, with the cursor where C leaves it; otherwise the cursor is past the dims and the loaded dims are `WireDims` of the bytes read |
| Codec.BuildArray | mxarr.c:215-228 | `newarray(dims[0])` followed by `inflate` for each later dim returns NULL with `ERR_VALUE` exactly when the inflate loop is refused, and otherwise a fresh record with the shape `InflateAll` gives and a `dims[0] * ELEMENT_SIZE` buffer |
| Codec.InflateAllStops | mxarr.c:222-228 | once an `inflate` of the loop has failed, the later dims change nothing |
| Codec.InflateAll | mxarr.c:222-228 | the inflate loop of `readarray`, stopping at the first failure; when it succeeds the type is kept, each size adds one axis, and a non-empty loop ends within `MAX_DIMS` |
| Codec.DecodeData | mxarr.c:215-236 | after the dims, NULL comes either right there (a refused `inflate`) or at the end of the file (a short data read), and a record consumes no more than the file holds |
| Codec.Decode | mxarr.c:167-239 | `readarray` on a stream never consumes more than the stream holds; `Codec.DecodedFacts`, `Codec.HeaderFailures` and `Codec.RankZeroIsUndefined` state its outcomes |
| Codec.ReadBody | mxarr.c:215-236 | after the dims, building the record and reading `elno * ELEMENT_SIZE` bytes into its buffer matches `Decode`: NULL with `ERR_VALUE` on a refused inflate or a short read, otherwise the decoded shape with the data at the front of the buffer |
| Codec.ReadArray | mxarr.c:167-239 | `readarray` returns NULL exactly when `Decode` fails, and then `ERR_VALUE` is set; otherwise it returns a fresh record with the decoded shape, a buffer of `dims[0] * ELEMENT_SIZE(type)` bytes that starts with the data read, and an unchanged error cell; the cursor moves by the bytes consumed; with `Variant` set to the stub `endswap` this is the earlier version (A1/mxarr.c:133-204) |
| Codec.HeaderFailures | mxarr.c:171-207 | NULL after a short header, after the header `[1,2,3,4]`, after a rank above `MAX_DIMS` in either layout, and at the end of the file when the dims are short |
| Codec.RankZeroIsUndefined | mxarr.c:202-215 | a rank-0 header makes `readarray` pass the never-written `dims[0]` to `newarray` |
| Codec.DecodedDataFacts | mxarr.c:215-236 | a record built and filled keeps the header's type and rank; its data are the next `elno * ELEMENT_SIZE` bytes and fit the allocated buffer |
| Codec.DecodedFacts | mxarr.c:167-239 | a record `readarray` returns has the type and rank of a valid header of rank 1 to `MAX_DIMS`; its data are the `elno * ELEMENT_SIZE` bytes right after the dims, and they fit the buffer |
| Codec.Encode | mxarr.c:241-279 | the image `writearray` produces is exactly `4 + 4 * dimno` bytes of header and dims followed by the data bytes; `Codec.DecodeOfEncode` and the read-back lemmas relate it to `Decode` |
| Codec.WriteParts | mxarr.c:261-279 | the three writes put header, dims and data on the device up to its room; the result is 1 exactly when all fitted, and otherwise `ERR_VALUE` is set |
| Codec.WriteArray | mxarr.c:241-282 | `writearray` appends the image `Encode` gives (header for the requested layout, dims in host order, first `elno * ELEMENT_SIZE` data bytes) as far as it fits, and returns 1 exactly when all of it fits, otherwise 0 with `ERR_VALUE` |
| Codec.EncodeParsed | mxarr.c:180-207 | the header and dims `writearray` writes for rank 1 to `MAX_DIMS` pass `readarray`'s checks, with the dims and data where the reader looks for them |
| Codec.DecodeOfEncode | mxarr.c:241-279 | reading what `writearray` wrote reaches the data stage with the type written and the dims as the reader loads them |
| Codec.ReadBackOneAxis | mxarr.c:203-236 | a 1-D record of `d` elements comes back with size `s` (the byte swap of `d`, or `d` with the stub) and the first `s * ELEMENT_SIZE` data bytes, or NULL if the stream has fewer |
| Codec.FinishedRoundTripOneAxis | mxarr.c:210-212 | with the finished `endswap` a 1-D record comes back exactly as written if and only if its size is its own byte swap |
| Codec.StubbedRoundTripOneAxis | A1/mxarr.c:166-201 | with the stub `endswap` a 1-D record comes back exactly as written |
| Codec.SixElementsDoNotReadBack | mxarr.c:210-236 | six 4-byte elements written by `writearray` are read as `0x0600_0000` elements and the read returns NULL |
| Codec.InflateTwoAxes | mxarr.c:222-228 | the data stage on the sizes `[a, b]` is undefined when `b == 0` and NULL when `b` does not divide `a`; any record it does return has axes `[b, a / b]` (a stream shorter than the data still gives NULL, and an overrun is undefined) |
| Codec.ReadBackTwoAxes | A1/mxarr.c:179-193 | a 2-D record `[a, b]` read back by the earlier version is undefined when `b == 0` and NULL when `b` does not divide `a`; any record it does return has axes `[b, a / b]` (a stream shorter than the data still gives NULL, and an overrun is undefined) |
| Codec.ReadBackTwoAxesFinished | mxarr.c:203-228 | with the finished reader the same holds of the byte swaps `a'` and `b'`: undefined when `b' == 0`, NULL when `b'` does not divide `a'`, and any record returned has axes `[b', a' / b']` |
| Codec.TwelveByFourOverruns | A1/mxarr.c:179-201 | a consistent 12 x 4 record makes `readarray` allocate 12 elements but read 36 into the buffer |

## Left out

- `main` in both files is not modelled: it is a demonstration driver made of `printf`, `fopen` and `fclose`. The one reshape it performs is `Shapes.DemoInflateRefused`.
- `destroy_array` and `freearray` are not modelled, because the heap is garbage-collected. For the same reason the release of a partial record on `readarray`'s failure paths is not modelled.
- Allocation failure is not modelled. No `malloc` can fail, so no path sets `ERR_MEMORY`, although the code exists in `ErrorCode`.
- The text of `ERROR_STRING` is not modelled. Only `ERROR_CODE` is kept.
- `mxarr.h` is not part of this model. `MAX_DIMS` is the constant 8, `ELEMENT_SIZE` is the parameter `size`, the element type is a byte, and `elno` and the dims are `uint32_t`.
- The operating system's byte order is the parameter `host`. Which version's `readarray` runs is the parameter `Variant`.
- `FILE*` is modelled as `InFile` and `OutFile`. Short reads and writes are counted in bytes, not in elements of `ELEMENT_SIZE`, so after a short data read the cursor is past every byte that was there.
- C behaviour that is undefined is excluded by `requires`, not given a meaning:
  - `inflate` with `dimno == 0` or `dim == 0` below capacity;
  - `flatten` with a zero last axis;
  - `create_array` with more dims than supplied or than fit;
  - `writearray` on a record whose `elno * ELEMENT_SIZE` exceeds its buffer.
- Codec.ReadArray: streams on which `readarray` is undefined are excluded by its precondition. These are a rank-0 header, a zero dim passed to `inflate`, and a data read past the buffer. `Decode` names them as `Unsafe`, and the lemmas above exhibit each one.
- Codec.ReadArray: the contents of the buffer beyond the bytes read are left unstated. C leaves them uninitialised.
- EndSwap.EndSwap: only whole buffers with offsets are modelled. C addresses into the middle of an arbitrary object, and `void*` aliasing between different objects, are not. Partly overlapping windows are not modelled either: C's copy loop then gives something other than a reversal, and no caller passes them.
