/** The on-disk format: a 4-byte header whose two zero bytes mark the
    layout, `dimno` raw `uint32_t` axis sizes, then the raw element bytes.
    `FILE*` is an `InFile` (the file's bytes and a read cursor) or an
    `OutFile` (the bytes written so far and the room left on the device).
    Host byte order is a parameter. */
module Codec {
  import opened Bytes
  import opened EndSwap
  import opened Shapes
  import opened MxArr

  /** Which source version's `readarray` runs: the finished one, whose
      `endswap` reverses bytes, or the earlier one, whose `endswap` is a stub. */
  datatype Variant = Finished | Stubbed

  // ---------------------------------------------------------------- streams

  /** A file opened for reading. */
  class InFile {
    const bytes: seq<byte>
    var pos: nat

    ghost predicate Valid()
      reads this
    {
      pos <= |bytes|
    }

    ghost function Remaining(): seq<byte>
      reads this
      requires Valid()
    {
      bytes[pos..]
    }

    constructor (contents: seq<byte>)
      ensures Valid() && bytes == contents && pos == 0
    {
      bytes := contents;
      pos := 0;
    }

    /** `fread` of `n` bytes into `buf`: copies what is left, up to `n`
        bytes, and advances the cursor past them. */
    method Read(buf: array<byte>, n: nat) returns (got: nat)
      requires Valid() && Min(n, |bytes| - pos) <= buf.Length
      modifies this, buf
      ensures Valid() && got == Min(n, |old(Remaining())|) && pos == old(pos) + got
      ensures buf[..got] == old(Remaining())[..got]
      ensures forall k :: got <= k < buf.Length ==> buf[k] == old(buf[k])
    {
      got := Min(n, |bytes| - pos);
      var i := 0;
      while i < got
        modifies buf
        invariant 0 <= i <= got
        invariant forall k :: 0 <= k < i ==> buf[k] == bytes[pos + k]
        invariant forall k :: i <= k < buf.Length ==> buf[k] == old(buf[k])
      {
        buf[i] := bytes[pos + i];
        i := i + 1;
      }
      pos := pos + got;
    }
  }

  /** A file opened for writing on a device with `room` bytes left. */
  class OutFile {
    var bytes: seq<byte>
    var room: nat

    constructor (room: nat)
      ensures bytes == [] && this.room == room
    {
      bytes := [];
      this.room := room;
    }

    /** `fwrite`: appends as much of `chunk` as fits. */
    method Write(chunk: seq<byte>) returns (put: nat)
      modifies this
      ensures put == Min(|chunk|, old(room))
      ensures bytes == old(bytes) + chunk[..put] && room == old(room) - put
    {
      put := Min(|chunk|, room);
      bytes := bytes + chunk[..put];
      room := room - put;
    }
  }

  // ----------------------------------------------------------------- header

  /** The three ways `readarray` reads a header. */
  datatype HeaderKind =
    | BigEndianHeader(typ: byte, rank: byte)
    | LittleEndianHeader(typ: byte, rank: byte)
    | BadHeader

  /** `[0, 0, type, dimno]` is big-endian; otherwise `[dimno, type, 0, 0]`
      is little-endian; anything else is a format violation. Every header
      accepted is exactly the one `writearray` writes for the fields it
      decodes to. */
  function Classify(h: seq<byte>): (k: HeaderKind)
    requires |h| == 4
    ensures k.BadHeader? <==> !(h[0] == 0 && h[1] == 0) && !(h[2] == 0 && h[3] == 0)
    ensures k.BigEndianHeader? ==> h == HeaderBytes(true, k.typ, k.rank)
    ensures k.LittleEndianHeader? ==> h == HeaderBytes(false, k.typ, k.rank)
  {
    if h[0] == 0 && h[1] == 0 then BigEndianHeader(h[2], h[3])
    else if h[2] == 0 && h[3] == 0 then LittleEndianHeader(h[1], h[0])
    else BadHeader
  }

  /** The header `writearray` writes for the requested layout: four bytes,
      the zero pair first for big-endian and last for little-endian. */
  function HeaderBytes(bigendian: bool, typ: byte, rank: byte): (h: seq<byte>)
    ensures |h| == 4
    ensures bigendian ==> h[..2] == [0, 0]
    ensures !bigendian ==> h[2..] == [0, 0]
  {
    if bigendian then [0, 0, typ, rank] else [rank, typ, 0, 0]
  }

  /** Every header `writearray` writes is accepted by `readarray` and gives
      back the same type and rank. It is read as big-endian when it was
      written so, and also in the one case where the little-endian header
      is all zeros. */
  lemma HeaderRoundTrip(bigendian: bool, typ: byte, rank: byte)
    ensures Classify(HeaderBytes(bigendian, typ, rank)) ==
      if bigendian || (typ == 0 && rank == 0) then BigEndianHeader(typ, rank)
      else LittleEndianHeader(typ, rank)
  {
  }

  // ------------------------------------------------------------------- dims

  /** The in-memory bytes of `dims[0..n)`, as `fwrite` sends them. */
  function DimBytes(ds: seq<u32>, host: Order): (b: seq<byte>)
    ensures |b| == 4 * |ds|
  {
    if ds == [] then [] else DimBytes(ds[..|ds| - 1], host) + ToBytes(ds[|ds| - 1], host)
  }

  /** Word `j` of the written dims is the memory image of `ds[j]`. */
  lemma {:induction false} DimBytesChunk(ds: seq<u32>, host: Order, j: nat)
    requires j < |ds|
    ensures Word(DimBytes(ds, host), j) == ToBytes(ds[j], host)
  {
    var n := |ds| - 1;
    var front, word := DimBytes(ds[..n], host), ToBytes(ds[n], host);
    assert DimBytes(ds, host) == front + word;
    if j < n {
      DimBytesChunk(ds[..n], host, j);
      assert ds[..n][j] == ds[j];
      SliceOfAppend(front, word, 4 * j);
      assert Word(front + word, j) == Word(front, j);
    } else {
      assert 4 * j == |front| && 4 * j + 4 == |front + word|;
      assert (front + word)[4 * j..4 * j + 4] == word;
    }
  }

  /** A 4-byte window inside the left operand of a concatenation. */
  lemma SliceOfAppend(a: seq<byte>, b: seq<byte>, i: nat)
    requires i + 4 <= |a|
    ensures (a + b)[i..i + 4] == a[i..i + 4]
  {
  }

  /** The value `readarray` ends up with for one 4-byte word of the file:
      the finished version's in-place swap makes its host-order load a load
      in the other byte order (`SwappedLoad`). */
  function WireDim(word: seq<byte>, host: Order, v: Variant): (d: u32)
    requires |word| == 4
  {
    FromBytes(word, if v == Finished then Flip(host) else host)
  }

  /** `WireDim` is the host-order load of the word as the variant's
      `endswap` leaves it. */
  lemma SwappedLoad(word: seq<byte>, host: Order, v: Variant)
    requires |word| == 4
    ensures WireDim(word, host, v) == FromBytes(SwapIf(v, word), host)
  {
    if v == Finished {
      LoadOfReversed(word, host);
    }
  }

  /** The `n` axis sizes `readarray` obtains from the dims bytes `raw`. */
  function WireDims(raw: seq<byte>, n: nat, host: Order, v: Variant): (ds: seq<u32>)
    requires |raw| == 4 * n
    ensures |ds| == n
  {
    seq(n, j requires 0 <= j < n => WireDim(Word(raw, j), host, v))
  }

  /** What the reader makes of the dims the writer wrote: the finished
      version's swap turns every axis size into its byte swap, on either
      host; the earlier version's no-op swap gives the sizes back. */
  lemma {:induction false} DimsReadBack(ds: seq<u32>, host: Order)
    ensures WireDims(DimBytes(ds, host), |ds|, host, Finished) == seq(|ds|, j requires 0 <= j < |ds| => ByteSwap32(ds[j]))
    ensures WireDims(DimBytes(ds, host), |ds|, host, Stubbed) == ds
  {
    var raw := DimBytes(ds, host);
    forall j | 0 <= j < |ds|
      ensures WireDim(Word(raw, j), host, Finished) == ByteSwap32(ds[j])
      ensures WireDim(Word(raw, j), host, Stubbed) == ds[j]
    {
      DimBytesChunk(ds, host, j);
      SwappedLoad(Word(raw, j), host, Finished);
      SwappedLoad(Word(raw, j), host, Stubbed);
      LoadReversed(ds[j], host);
      LoadStore(ds[j], host);
    }
  }

  // --------------------------------------------------------------- decoding

  /** The inflate loop of `readarray`: apply `inflate` for each size in turn,
      stopping at the first failure. Each successful step adds one axis
      below the capacity and keeps the type tag. */
  function InflateAll(sh: Shape, ds: seq<u32>): (r: Step)
    ensures r.Ok? ==> r.shape.typ == sh.typ && |r.shape.dims| == |sh.dims| + |ds|
    ensures r.Ok? && ds != [] ==> |r.shape.dims| <= MAX_DIMS
  {
    if ds == [] then Ok(sh)
    else match InflateAll(sh, ds[..|ds| - 1])
      case Ok(s) => InflateStep(s, ds[|ds| - 1])
      case stuck => stuck
  }

  /** Once the inflate loop has stopped, the later sizes change nothing. */
  lemma {:induction false} InflateAllStops(sh: Shape, ds: seq<u32>, k: nat)
    requires k <= |ds|
    ensures !InflateAll(sh, ds[..k]).Ok? ==> InflateAll(sh, ds) == InflateAll(sh, ds[..k])
    decreases |ds| - k
  {
    if k < |ds| {
      assert ds[..k + 1][..k] == ds[..k];
      InflateAllStops(sh, ds, k + 1);
    } else {
      assert ds[..k] == ds;
    }
  }

  /** Where C's behaviour is undefined on the way. */
  datatype Hazard =
    | UninitialisedDim   // rank 0: `dims[0]` is read without being set
    | ZeroDim            // `inflate` takes `% 0`
    | BufferOverrun      // the data read writes past the buffer `newarray` allocated

  /** What `readarray` does with a stream: a record, NULL with `ERR_VALUE`,
      or undefined behaviour. `consumed` is how far the read got. */
  datatype Decoding =
    | Decoded(shape: Shape, capacity: nat, payload: seq<byte>, consumed: nat)
    | Failed(consumed: nat)
    | Unsafe(hazard: Hazard)

  /** How far the header and dims part of `readarray` gets: it stops with
      NULL after `consumed` bytes, or it has the type and rank and the whole
      dims section is there. */
  datatype Prefix = Stop(consumed: nat) | Body(typ: byte, rank: nat)

  /** Read and classify the header, refuse a rank above `MAX_DIMS`, and
      check that `rank` dims words follow. */
  function ParsePrefix(input: seq<byte>): (p: Prefix)
    ensures p.Body? ==> p.rank <= MAX_DIMS && 4 + 4 * p.rank <= |input|
  {
    if |input| < 4 then Stop(|input|)
    else
      var header := Classify(input[..4]);
      if header.BadHeader? then Stop(4)
      else if header.rank > MAX_DIMS then Stop(4)
      else if |input| - 4 < 4 * header.rank then Stop(|input|)
      else Body(header.typ, header.rank)
  }

  /** A prefix that gets through has a well-formed header of that type and
      rank. */
  lemma PrefixHeader(input: seq<byte>)
    requires ParsePrefix(input).Body?
    ensures 4 <= |input| && !Classify(input[..4]).BadHeader?
    ensures ParsePrefix(input) == Body(Classify(input[..4]).typ, Classify(input[..4]).rank)
  {
  }

  /** `readarray` on the bytes `input`, as the code does it: read and
      classify the header, check the rank, read the dims and swap them,
      build the record with `newarray(dims[0])` and one `inflate` per later
      size, then read `elno * ELEMENT_SIZE(type)` bytes into its buffer. */
  function Decode(input: seq<byte>, host: Order, v: Variant, size: SizeTable): (d: Decoding)
    ensures (d.Failed? || d.Decoded?) ==> d.consumed <= |input|
  {
    DecodeAfter(input, ParsePrefix(input), host, v, size)
  }

  /** The rest of `Decode` once the header and dims part has ended with
      `p`: a stop is a NULL return; rank 0 is undefined; otherwise the data
      stage starts at the end of the dims. */
  function DecodeAfter(input: seq<byte>, p: Prefix, host: Order, v: Variant, size: SizeTable): (d: Decoding)
    requires p.Body? ==> 4 + 4 * p.rank <= |input|
    requires p.Stop? ==> p.consumed <= |input|
    ensures (d.Failed? || d.Decoded?) ==> d.consumed <= |input|
  {
    match p
    case Stop(consumed) => Failed(consumed)
    case Body(typ, rank) =>
      if rank == 0 then Unsafe(UninitialisedDim)
      else
        var pos := 4 + 4 * rank;
        DecodeData(input[pos..], pos, typ, WireDims(input[4..pos], rank, host, v), size)
  }

  /** `Decode` once the header and dims have been read with rank 0: C
      reads the uninitialised `dims[0]`. */
  lemma DecodeAtRankZero(input: seq<byte>, typ: byte, host: Order, v: Variant, size: SizeTable)
    requires ParsePrefix(input) == Body(typ, 0)
    ensures Decode(input, host, v, size) == Unsafe(UninitialisedDim)
  {
  }

  /** `Decode` once the header and dims have been read with a non-zero
      rank: the data stage follows. */
  lemma DecodeAt(input: seq<byte>, typ: byte, rank: nat, host: Order, v: Variant, size: SizeTable)
    requires ParsePrefix(input) == Body(typ, rank) && rank != 0
    ensures Decode(input, host, v, size) ==
      DecodeData(input[4 + 4 * rank..], 4 + 4 * rank, typ, WireDims(input[4..4 + 4 * rank], rank, host, v), size)
  {
  }

  /** `Decode` when the header and dims part stops: NULL after the bytes
      it consumed. */
  lemma DecodeStop(input: seq<byte>, host: Order, v: Variant, size: SizeTable)
    requires ParsePrefix(input).Stop?
    ensures Decode(input, host, v, size) == Failed(ParsePrefix(input).consumed)
  {
  }

  /** The record-building and data-reading part of `Decode`, on the bytes
      `rest` that follow the dims `ds`, which end at offset `pos`. */
  function DecodeData(rest: seq<byte>, pos: nat, typ: byte, ds: seq<u32>, size: SizeTable): (d: Decoding)
    requires |ds| >= 1
    ensures d.Failed? ==> d.consumed == pos || d.consumed == pos + |rest|
    ensures d.Decoded? ==> pos <= d.consumed <= pos + |rest|
  {
    var capacity := ds[0] * size(typ);
    match InflateAll(Shape(typ, [ds[0]], ds[0]), ds[1..])
    case Refused => Failed(pos)
    case Undefined => Unsafe(ZeroDim)
    case Ok(sh) =>
      var want := sh.elno * size(typ);
      var got := Min(want, |rest|);
      if got > capacity then Unsafe(BufferOverrun)
      else if got < want then Failed(pos + |rest|)
      else Decoded(sh, capacity, rest[..want], pos + want)
  }

  /** `readarray(fp)`. On NULL, `ERROR_CODE` is `ERR_VALUE`; on success it
      is unchanged and the new record has the decoded shape and a buffer of
      `dims[0] * ELEMENT_SIZE(type)` bytes that starts with the data read.
      Streams on which C's behaviour is undefined are excluded. */
  method ReadArray(fp: InFile, host: Order, v: Variant, size: SizeTable, err: ErrorState) returns (arr: MxArray?)
    requires fp.Valid()
    requires !Decode(fp.Remaining(), host, v, size).Unsafe?
    modifies fp, err
    ensures fp.Valid()
    ensures var o := Decode(old(fp.Remaining()), host, v, size);
      && fp.pos == old(fp.pos) + o.consumed
      && (arr == null <==> o.Failed?)
      && (arr == null ==> err.code == ErrValue)
      && (arr != null ==>
            && fresh(arr) && fresh(arr.dims) && fresh(arr.data) && arr.Valid()
            && arr.View() == o.shape
            && arr.data.Length == o.capacity
            && o.payload <= arr.data[..]
            && err.code == old(err.code))
  {
    ghost var input := fp.Remaining();
    ghost var start := fp.pos;
    var typ, dimno, raw, ok := ReadPrefix(fp, host, v);
    if !ok {
      DecodeStop(input, host, v, size);
      err.code := ErrValue;
      return null;
    }
    arr := ReadBody(fp, raw, typ, dimno, host, v, size, err, input, start);
  }

  /** The header and dims part of `readarray`: `ReadHeader`, the rank check
      and `ReadDims`, as `ParsePrefix` describes them. A false `ok` is a NULL
      return of `readarray`; a true one leaves the reader just past the dims
      with their host values in `raw`. */
  method ReadPrefix(fp: InFile, host: Order, v: Variant) returns (typ: byte, dimno: nat, raw: array<byte>, ok: bool)
    requires fp.Valid()
    modifies fp
    ensures fp.Valid() && fresh(raw)
    ensures var input := old(fp.Remaining());
      var p := ParsePrefix(input);
      && (!ok ==> p.Stop? && fp.pos == old(fp.pos) + p.consumed)
      && (ok ==> && p == Body(typ, dimno) && 4 * dimno <= raw.Length
                 && fp.pos == old(fp.pos) + 4 + 4 * dimno
                 && fp.Remaining() == input[4 + 4 * dimno..]
                 && (forall j :: 0 <= j < dimno ==>
                       HostDim(raw, j, host) == WireDims(input[4..4 + 4 * dimno], dimno, host, v)[j]))
  {
    ghost var input := fp.Remaining();
    ghost var start := fp.pos;
    var rank: byte;
    dimno := 0;
    typ, rank, ok := ReadHeader(fp);
    if !ok {
      raw := new byte[0];
      assert ParsePrefix(input) == Stop(fp.pos - start);
      return;
    }
    if rank > MAX_DIMS {
      raw := new byte[0];
      ok := false;
      assert ParsePrefix(input) == Stop(4);
      return;
    }
    dimno := rank;
    raw, ok := ReadDims(fp, rank, host, v);
    if !ok {
      assert ParsePrefix(input) == Stop(|input|);
      return;
    }
    assert ParsePrefix(input) == Body(typ, dimno);
    assert input[4..][..4 * dimno] == input[4..4 + 4 * dimno];
    assert fp.Remaining() == input[4 + 4 * dimno..];
  }

  /** The rest of `readarray` once the header and dims of `input` are read
      and the dims are in `raw`: build the record (`BuildArray`), then
      `fread` `elno * ELEMENT_SIZE(type)` bytes into its buffer, setting
      `ERR_VALUE` on a short read. */
  method ReadBody(fp: InFile, raw: array<byte>, typ: byte, dimno: nat, host: Order, ghost v: Variant,
                  size: SizeTable, err: ErrorState, ghost input: seq<byte>, ghost start: nat) returns (arr: MxArray?)
    requires fp.Valid() && ParsePrefix(input) == Body(typ, dimno) && 4 * dimno <= raw.Length
    requires forall j :: 0 <= j < dimno ==>
      HostDim(raw, j, host) == WireDims(input[4..4 + 4 * dimno], dimno, host, v)[j]
    requires fp.pos == start + 4 + 4 * dimno && fp.Remaining() == input[4 + 4 * dimno..]
    requires !Decode(input, host, v, size).Unsafe?
    modifies fp, err
    ensures fp.Valid()
    ensures var o := Decode(input, host, v, size);
      && fp.pos == start + o.consumed
      && (arr == null <==> o.Failed?)
      && (arr == null ==> err.code == ErrValue)
      && (arr != null ==>
            && fresh(arr) && fresh(arr.dims) && fresh(arr.data) && arr.Valid()
            && arr.View() == o.shape
            && arr.data.Length == o.capacity
            && o.payload <= arr.data[..]
            && err.code == old(err.code))
  {
    if dimno == 0 {
      DecodeAtRankZero(input, typ, host, v, size);
      assert false;
    }
    DecodeAt(input, typ, dimno, host, v, size);
    ghost var ds := WireDims(input[4..4 + 4 * dimno], dimno, host, v);
    arr := BuildArray(raw, dimno, typ, host, size, err, ds);
    if arr == null {
      return null;
    }
    var want := arr.elno * size(typ);
    var got := fp.Read(arr.data, want);
    if got != want {
      err.code := ErrValue;
      return null;
    }
  }

  /** The header part of `readarray`: `fread` four bytes and classify them. */
  method ReadHeader(fp: InFile) returns (typ: byte, dimno: byte, ok: bool)
    requires fp.Valid()
    modifies fp
    ensures fp.Valid() && fp.pos == old(fp.pos) + Min(4, |old(fp.Remaining())|)
    ensures ok == (4 <= |old(fp.Remaining())| && !Classify(old(fp.Remaining())[..4]).BadHeader?)
    ensures ok ==> typ == Classify(old(fp.Remaining())[..4]).typ
                   && dimno == Classify(old(fp.Remaining())[..4]).rank
  {
    ghost var input := fp.Remaining();
    var magic := new byte[4];
    var got := fp.Read(magic, 4);
    if got != 4 {
      return 0, 0, false;
    }
    assert magic[..] == input[..4];
    if magic[0] == 0 && magic[1] == 0 {
      typ, dimno := magic[2], magic[3];
    } else if magic[2] == 0 && magic[3] == 0 {
      typ, dimno := magic[1], magic[0];
    } else {
      return 0, 0, false;
    }
    ok := true;
  }

  /** The record-building part of `readarray`: `newarray(dims[0], type)`,
      then `inflate(arr, dims[i])` for each later axis, giving up (with
      `ERR_VALUE` from `inflate`) at the first refusal. `ds` are the values
      of the words in `raw`. A zero axis reaching `inflate` is excluded. */
  method BuildArray(raw: array<byte>, dimno: nat, typ: byte, host: Order, size: SizeTable, err: ErrorState,
                    ghost ds: seq<u32>) returns (arr: MxArray?)
    requires 1 <= dimno <= MAX_DIMS && 4 * dimno <= raw.Length && |ds| == dimno
    requires forall j :: 0 <= j < dimno ==> HostDim(raw, j, host) == ds[j]
    requires !InflateAll(Shape(typ, [ds[0]], ds[0]), ds[1..]).Undefined?
    modifies err
    ensures var r := InflateAll(Shape(typ, [ds[0]], ds[0]), ds[1..]);
      && (arr == null <==> r.Refused?)
      && (arr == null ==> err.code == ErrValue)
      && (arr != null ==>
            && fresh(arr) && fresh(arr.dims) && fresh(arr.data) && arr.Valid()
            && arr.View() == r.shape && arr.data.Length == ds[0] * size(typ)
            && err.code == old(err.code))
  {
    ghost var first := Shape(typ, [ds[0]], ds[0]);
    ghost var tail := ds[1..];
    arr := new MxArray.NewArray(HostDim(raw, 0, host), typ, size);
    var i := 1;
    while i < dimno
      modifies arr, arr.dims, err
      invariant 1 <= i <= dimno
      invariant arr.Valid() && arr.typ == typ && arr.data.Length == ds[0] * size(typ)
      invariant fresh(arr.dims) && fresh(arr.data)
      invariant InflateAll(first, tail[..i - 1]) == Ok(arr.View())
      invariant err.code == old(err.code)
    {
      assert tail[..i] == tail[..i - 1] + [ds[i]];
      InflateAllStops(first, tail, i);
      var inflated := arr.Inflate(HostDim(raw, i, host), err);
      if !inflated {
        return null;
      }
      i := i + 1;
    }
    assert tail[..i - 1] == tail;
  }

  /** Axis `j` as `readarray` loads it from its `dims[]` buffer, in host order. */
  function HostDim(raw: array<byte>, j: nat, host: Order): (d: u32)
    requires 4 * j + 4 <= raw.Length
    reads raw
  {
    FromBytes(Word(raw[..], j), host)
  }

  /** The dims part of `readarray`: `fread` of `dimno` words into the local
      `dims[MAX_DIMS]` buffer, then one `endswap` per word, in place. */
  method ReadDims(fp: InFile, dimno: byte, host: Order, v: Variant) returns (raw: array<byte>, ok: bool)
    requires fp.Valid() && dimno <= MAX_DIMS
    modifies fp
    ensures fp.Valid() && fresh(raw) && raw.Length == 4 * MAX_DIMS
    ensures ok == (4 * dimno <= |old(fp.Remaining())|)
    ensures fp.pos == old(fp.pos) + Min(4 * dimno, |old(fp.Remaining())|)
    ensures ok ==> forall j :: 0 <= j < dimno ==>
      HostDim(raw, j, host) == WireDims(old(fp.Remaining())[..4 * dimno], dimno, host, v)[j]
  {
    ghost var input := fp.Remaining();
    raw := new byte[4 * MAX_DIMS];
    var got := fp.Read(raw, 4 * dimno);
    if got != 4 * dimno {
      return raw, false;
    }
    ghost var wire := raw[..];
    assert wire[..4 * dimno] == input[..4 * dimno];
    SwapWords(raw, dimno, v);
    forall j | 0 <= j < dimno
      ensures HostDim(raw, j, host) == WireDims(input[..4 * dimno], dimno, host, v)[j]
    {
      assert Word(wire, j) == Word(input[..4 * dimno], j);
      SwappedLoad(Word(wire, j), host, v);
    }
    return raw, true;
  }

  /** Bytes `4 * j .. 4 * j + 4` of `s`: the `j`-th `uint32_t`. */
  function Word(s: seq<byte>, j: nat): (w: seq<byte>)
    requires 4 * j + 4 <= |s|
    ensures |w| == 4
  {
    s[4 * j..4 * j + 4]
  }

  /** What the variant's `endswap` does to one word in place. */
  function SwapIf(v: Variant, w: seq<byte>): (r: seq<byte>)
    ensures |r| == |w|
  {
    if v == Finished then Reversed(w) else w
  }

  /** The swap loop of `readarray`: `endswap(4, &dims[i], &dims[i])` for each
      of the first `n` words of `raw`, in place. */
  method SwapWords(raw: array<byte>, n: nat, v: Variant)
    requires 4 * n <= raw.Length
    modifies raw
    ensures forall j :: 0 <= j < n ==> Word(raw[..], j) == SwapIf(v, Word(old(raw[..]), j))
    ensures forall k :: 4 * n <= k < raw.Length ==> raw[k] == old(raw[k])
  {
    ghost var wire := raw[..];
    var i := 0;
    while i < n
      invariant 0 <= i <= n
      invariant forall j :: 0 <= j < i ==> Word(raw[..], j) == SwapIf(v, Word(wire, j))
      invariant forall k :: 4 * i <= k < raw.Length ==> raw[k] == wire[k]
    {
      ghost var before := raw[..];
      if v == Finished {
        EndSwap.EndSwap(4, raw, 4 * i, raw, 4 * i);
      } else {
        EndSwapStub(4, raw, 4 * i, raw, 4 * i);
      }
      SwapStep(before, raw[..], wire, i, v);
      i := i + 1;
    }
  }

  /** One turn of the swap loop keeps the words before the cursor swapped
      and the bytes after it as read. */
  lemma SwapStep(before: seq<byte>, after: seq<byte>, wire: seq<byte>, i: nat, v: Variant)
    requires |before| == |after| == |wire| && 4 * i + 4 <= |wire|
    requires forall j :: 0 <= j < i ==> Word(before, j) == SwapIf(v, Word(wire, j))
    requires forall k :: 4 * i <= k < |before| ==> before[k] == wire[k]
    requires after[4 * i..4 * i + 4] == SwapIf(v, before[4 * i..4 * i + 4])
    requires forall k :: 0 <= k < |after| && !(4 * i <= k < 4 * i + 4) ==> after[k] == before[k]
    ensures forall j :: 0 <= j < i + 1 ==> Word(after, j) == SwapIf(v, Word(wire, j))
    ensures forall k :: 4 * (i + 1) <= k < |after| ==> after[k] == wire[k]
  {
    assert before[4 * i..4 * i + 4] == Word(wire, i);
    assert Word(after, i) == SwapIf(v, Word(wire, i));
    forall j | 0 <= j < i
      ensures Word(after, j) == SwapIf(v, Word(wire, j))
    {
      assert forall m :: 0 <= m < 4 ==> Word(after, j)[m] == after[4 * j + m];
      assert Word(after, j) == Word(before, j);
    }
  }

  // --------------------------------------------------------------- encoding

  /** The bytes `writearray` produces for a record of shape `sh` whose
      first `elno * ELEMENT_SIZE(type)` buffer bytes are `payload`. */
  function Encode(bigendian: bool, sh: Shape, host: Order, payload: seq<byte>): (image: seq<byte>)
    requires |sh.dims| < 0x100
    ensures |image| == 4 + 4 * |sh.dims| + |payload|
    ensures image[4 + 4 * |sh.dims|..] == payload
  {
    HeaderBytes(bigendian, sh.typ, |sh.dims|) + DimBytes(sh.dims, host) + payload
  }

  /** `writearray(fp, bigendian, arr)`: header, dims in host order, data.
      The first short write returns 0 with `ERR_VALUE`, leaving whatever
      part of the image fitted on the device. Reading `elno` elements out of
      the buffer needs a buffer that large. */
  method WriteArray(fp: OutFile, bigendian: bool, arr: MxArray, host: Order, size: SizeTable, err: ErrorState)
    returns (ok: bool)
    requires arr.Valid() && arr.elno * size(arr.typ) <= arr.data.Length
    modifies fp, err
    ensures var image := old(Encode(bigendian, arr.View(), host, arr.data[..arr.elno * size(arr.typ)]));
      && ok == (|image| <= old(fp.room))
      && fp.bytes == old(fp.bytes) + image[..Min(|image|, old(fp.room))]
      && fp.room == old(fp.room) - Min(|image|, old(fp.room))
      && err.code == if ok then old(err.code) else ErrValue
  {
    var magic := HeaderBytes(bigendian, arr.typ, arr.dimno);
    var dimBytes := DimBytes(arr.dims[..arr.dimno], host);
    var payload := arr.data[..arr.elno * size(arr.typ)];
    ok := WriteParts(fp, magic, dimBytes, payload, err);
  }

  /** The three checked `fwrite` calls of `writearray`: header, dims, data.
      The first short write sets `ERR_VALUE` and stops. */
  method WriteParts(fp: OutFile, magic: seq<byte>, dimBytes: seq<byte>, payload: seq<byte>, err: ErrorState)
    returns (ok: bool)
    modifies fp, err
    ensures var image := magic + dimBytes + payload;
      && ok == (|image| <= old(fp.room))
      && fp.bytes == old(fp.bytes) + image[..Min(|image|, old(fp.room))]
      && fp.room == old(fp.room) - Min(|image|, old(fp.room))
      && err.code == if ok then old(err.code) else ErrValue
  {
    ghost var room := fp.room;
    var put := fp.Write(magic);
    ok := put == |magic|;
    ghost var written := magic[..put];
    if ok {
      put := fp.Write(dimBytes);
      ok := put == |dimBytes|;
      written := magic + dimBytes[..put];
      if ok {
        put := fp.Write(payload);
        ok := put == |payload|;
        written := magic + dimBytes + payload[..put];
      }
    }
    Written(magic + dimBytes + payload, magic, dimBytes, payload, room, written);
    if !ok {
      err.code := ErrValue;
    }
  }

  /** What three successive `fwrite` calls leave on a device with `room`
      bytes, stopping at the first short one. */
  lemma Written(image: seq<byte>, a: seq<byte>, b: seq<byte>, c: seq<byte>, room: nat, written: seq<byte>)
    requires image == a + b + c
    requires written == if room < |a| then a[..room]
                        else if room < |a| + |b| then a + b[..room - |a|]
                        else a + b + c[..Min(|c|, room - |a| - |b|)]
    ensures written == image[..Min(|image|, room)]
  {
  }

  // ------------------------------------------------------------ properties

  /** A record the data stage returns has the type and rank it was built
      from; its data is the first `elno * ELEMENT_SIZE(type)` bytes after
      the dims, and they fit in the buffer `newarray` allocated. */
  lemma DecodedDataFacts(rest: seq<byte>, pos: nat, typ: byte, ds: seq<u32>, size: SizeTable)
    requires |ds| >= 1 && DecodeData(rest, pos, typ, ds, size).Decoded?
    ensures var o := DecodeData(rest, pos, typ, ds, size);
      && o.shape.typ == typ && |o.shape.dims| == |ds|
      && |o.payload| == o.shape.elno * size(typ) <= o.capacity
      && o.consumed == pos + |o.payload| <= pos + |rest|
      && o.payload == rest[..|o.payload|]
  {
  }

  /** A record `readarray` returns has the type tag and the rank of its
      header; its data is the `elno * ELEMENT_SIZE(type)` bytes right after
      the dims, and they fit in the buffer `newarray` allocated. */
  lemma DecodedFacts(input: seq<byte>, host: Order, v: Variant, size: SizeTable)
    requires Decode(input, host, v, size).Decoded?
    ensures 4 <= |input| && !Classify(input[..4]).BadHeader?
    ensures var o, h := Decode(input, host, v, size), Classify(input[..4]);
      && 1 <= h.rank <= MAX_DIMS
      && o.shape.typ == h.typ && |o.shape.dims| == h.rank
      && |o.payload| == o.shape.elno * size(h.typ) <= o.capacity
      && o.consumed == 4 + 4 * h.rank + |o.payload| <= |input|
      && o.payload == input[4 + 4 * h.rank..o.consumed]
  {
    if ParsePrefix(input).Stop? {
      DecodeStop(input, host, v, size);
      assert false;
    }
    PrefixHeader(input);
    DecodedAfterPrefix(input, ParsePrefix(input).typ, ParsePrefix(input).rank, host, v, size);
  }

  /** `DecodedFacts` in terms of the type and rank the prefix was parsed to. */
  lemma DecodedAfterPrefix(input: seq<byte>, typ: byte, rank: nat, host: Order, v: Variant, size: SizeTable)
    requires ParsePrefix(input) == Body(typ, rank) && Decode(input, host, v, size).Decoded?
    ensures var o := Decode(input, host, v, size);
      && 1 <= rank <= MAX_DIMS
      && o.shape.typ == typ && |o.shape.dims| == rank
      && |o.payload| == o.shape.elno * size(typ) <= o.capacity
      && o.consumed == 4 + 4 * rank + |o.payload| <= |input|
      && o.payload == input[4 + 4 * rank..o.consumed]
  {
    if rank == 0 {
      assert false;
    }
    DecodeAt(input, typ, rank, host, v, size);
    DecodedDataFacts(input[4 + 4 * rank..], 4 + 4 * rank, typ, WireDims(input[4..4 + 4 * rank], rank, host, v), size);
    SliceOfSuffix(input, 4 + 4 * rank, |Decode(input, host, v, size).payload|);
  }

  /** A prefix of a suffix is a slice. */
  lemma SliceOfSuffix(s: seq<byte>, i: nat, n: nat)
    requires i + n <= |s|
    ensures s[i..][..n] == s[i..i + n]
  {
  }

  /** `readarray` returns NULL after a short header, after a header with
      neither pair of zero bytes, and after a header whose rank exceeds
      `MAX_DIMS`; a short dims section stops it at the end of the file. */
  lemma HeaderFailures(input: seq<byte>, t: byte, r: byte, host: Order, v: Variant, size: SizeTable)
    ensures |input| < 4 ==> Decode(input, host, v, size) == Failed(|input|)
    ensures Decode([1, 2, 3, 4] + input, host, v, size) == Failed(4)
    ensures r > MAX_DIMS ==> Decode([0, 0, t, r] + input, host, v, size) == Failed(4)
    ensures r > MAX_DIMS ==> Decode([r, t, 0, 0] + input, host, v, size) == Failed(4)
    ensures r <= MAX_DIMS && |input| < 4 * r ==> Decode([0, 0, t, r] + input, host, v, size) == Failed(4 + |input|)
  {
    assert ([1, 2, 3, 4] + input)[..4] == [1, 2, 3, 4];
    assert ([0, 0, t, r] + input)[..4] == [0, 0, t, r];
    assert ([r, t, 0, 0] + input)[..4] == [r, t, 0, 0];
  }

  /** A header of rank 0 gets through the checks, and `readarray` then
      passes the never-written `dims[0]` to `newarray`. */
  lemma RankZeroIsUndefined(input: seq<byte>, t: byte, host: Order, v: Variant, size: SizeTable)
    ensures Decode([0, 0, t, 0] + input, host, v, size) == Unsafe(UninitialisedDim)
  {
    var s := [0, 0, t, 0] + input;
    assert s[..4] == [0, 0, t, 0];
    DecodeAtRankZero(s, t, host, v, size);
  }

  /** The header and dims `writearray` writes for a record of rank 1 to
      `MAX_DIMS` pass the header and rank checks of `readarray`, and the
      dims and data sit where it looks for them. */
  lemma EncodeParsed(bigendian: bool, sh: Shape, host: Order, payload: seq<byte>)
    requires 1 <= |sh.dims| <= MAX_DIMS
    ensures var input, n := Encode(bigendian, sh, host, payload), |sh.dims|;
      && ParsePrefix(input) == Body(sh.typ, n)
      && input[4..4 + 4 * n] == DimBytes(sh.dims, host)
      && input[4 + 4 * n..] == payload
  {
    var n := |sh.dims|;
    var input := Encode(bigendian, sh, host, payload);
    HeaderRoundTrip(bigendian, sh.typ, n);
    assert input[..4] == HeaderBytes(bigendian, sh.typ, n);
    assert input[4..4 + 4 * n] == DimBytes(sh.dims, host);
    assert input[4 + 4 * n..] == payload;
  }

  /** What `readarray` makes of the bytes `writearray` produced for a
      record of rank 1 to `MAX_DIMS`: the header and dims are accepted,
      and the data stage starts right after them with the axis sizes the
      reader loads from the dims bytes. */
  lemma DecodeOfEncode(bigendian: bool, sh: Shape, host: Order, payload: seq<byte>, v: Variant, size: SizeTable)
    requires 1 <= |sh.dims| <= MAX_DIMS
    ensures Decode(Encode(bigendian, sh, host, payload), host, v, size) ==
      DecodeData(payload, 4 + 4 * |sh.dims|, sh.typ, WireDims(DimBytes(sh.dims, host), |sh.dims|, host, v), size)
  {
    EncodeParsed(bigendian, sh, host, payload);
  }

  /** Reading back what `writearray` wrote for a 1-D record of `d` elements
      followed by the bytes `data`: the reader sees the axis size `s` its
      variant makes of `d` and reads `s` elements if the stream has them. */
  lemma ReadBackOneAxis(bigendian: bool, t: byte, d: u32, host: Order, v: Variant, size: SizeTable, data: seq<byte>)
    ensures var s := if v == Finished then ByteSwap32(d) else d;
      Decode(Encode(bigendian, Shape(t, [d], d), host, data), host, v, size) ==
        if s * size(t) <= |data| then Decoded(Shape(t, [s], s), s * size(t), data[..s * size(t)], 8 + s * size(t))
        else Failed(8 + |data|)
  {
    var s := if v == Finished then ByteSwap32(d) else d;
    DimsReadBack([d], host);
    assert WireDims(DimBytes([d], host), 1, host, v) == [s];
    assert [s][1..] == [];
    DecodeOfEncode(bigendian, Shape(t, [d], d), host, data, v, size);
  }

  /** With the stub `endswap`, a 1-D record comes back exactly as written. */
  lemma StubbedRoundTripOneAxis(bigendian: bool, t: byte, d: u32, host: Order, size: SizeTable, payload: seq<byte>)
    requires |payload| == d * size(t)
    ensures Decode(Encode(bigendian, Shape(t, [d], d), host, payload), host, Stubbed, size) ==
      Decoded(Shape(t, [d], d), |payload|, payload, |Encode(bigendian, Shape(t, [d], d), host, payload)|)
  {
    ReadBackOneAxis(bigendian, t, d, host, Stubbed, size, payload);
  }

  /** With the finished `endswap`, a 1-D record comes back as written if and
      only if its size reads the same byte-swapped: on any host the reader
      swaps what it has just loaded in host order. */
  lemma FinishedRoundTripOneAxis(bigendian: bool, t: byte, d: u32, host: Order, size: SizeTable, payload: seq<byte>)
    requires |payload| == d * size(t)
    ensures Decode(Encode(bigendian, Shape(t, [d], d), host, payload), host, Finished, size) ==
      Decoded(Shape(t, [d], d), |payload|, payload, |Encode(bigendian, Shape(t, [d], d), host, payload)|)
      <==> ByteSwap32(d) == d
  {
    ReadBackOneAxis(bigendian, t, d, host, Finished, size, payload);
  }

  /** A 1-D record of six 4-byte elements written by `writearray` does not
      come back through the finished `readarray`: the reader takes the size
      as `0x0600_0000` and runs out of data. */
  lemma SixElementsDoNotReadBack(bigendian: bool, t: byte, host: Order, size: SizeTable, payload: seq<byte>)
    requires size(t) == 4 && |payload| == 24
    ensures Decode(Encode(bigendian, Shape(t, [6], 6), host, payload), host, Finished, size) == Failed(32)
  {
    assert ToBytes(6, LittleEndian) == [6, 0, 0, 0];
    assert Reversed([6, 0, 0, 0]) == [0, 0, 0, 6];
    assert ByteSwap32(6) == 0x0600_0000;
    ReadBackOneAxis(bigendian, t, 6, host, Finished, size, payload);
  }

  /** The data stage on the axis sizes `[a, b]` inflates `[a]` by `b`: it
      refuses unless `b` divides `a`, and any record it returns has axes
      `[b, a / b]`. */
  lemma InflateTwoAxes(rest: seq<byte>, pos: nat, t: byte, a: u32, b: u32, size: SizeTable)
    ensures var o := DecodeData(rest, pos, t, [a, b], size);
      && (b == 0 ==> o == Unsafe(ZeroDim))
      && (b != 0 && a % b != 0 ==> o == Failed(pos))
      && (o.Decoded? ==> o.shape.dims == [b, a / b])
  {
    var first := Shape(t, [a], a);
    assert [a, b][1..] == [b] && [b][..0] == [];
    assert InflateAll(first, [b]) == InflateStep(first, b);
    if b != 0 && a % b == 0 {
      assert [a][..0] + [b, Div32(a, b)] == [b, a / b];
    }
  }

  /** Reading back a 2-D record `[a, b]` with the stub `endswap`: the reader
      inflates `[a]` by `b`, so it refuses unless `b` divides `a`, and any
      record it returns has axes `[b, a / b]` rather than `[a, b]`. */
  lemma ReadBackTwoAxes(bigendian: bool, t: byte, a: u32, b: u32, e: u32, host: Order, size: SizeTable, data: seq<byte>)
    ensures var o := Decode(Encode(bigendian, Shape(t, [a, b], e), host, data), host, Stubbed, size);
      && (b == 0 ==> o == Unsafe(ZeroDim))
      && (b != 0 && a % b != 0 ==> o == Failed(12))
      && (o.Decoded? ==> o.shape.dims == [b, a / b])
  {
    DimsReadBack([a, b], host);
    DecodeOfEncode(bigendian, Shape(t, [a, b], e), host, data, Stubbed, size);
    InflateTwoAxes(data, 12, t, a, b, size);
  }

  /** The same with the finished `endswap`: the reader sees the byte swaps
      `a'` and `b'` of the sizes written, so it refuses unless `b'` divides
      `a'`, and any record it returns has axes `[b', a' / b']`. */
  lemma ReadBackTwoAxesFinished(bigendian: bool, t: byte, a: u32, b: u32, e: u32, host: Order, size: SizeTable, data: seq<byte>)
    ensures var o := Decode(Encode(bigendian, Shape(t, [a, b], e), host, data), host, Finished, size);
      var a', b' := ByteSwap32(a), ByteSwap32(b);
      && (b' == 0 ==> o == Unsafe(ZeroDim))
      && (b' != 0 && a' % b' != 0 ==> o == Failed(12))
      && (o.Decoded? ==> o.shape.dims == [b', a' / b'])
  {
    DimsReadBack([a, b], host);
    assert WireDims(DimBytes([a, b], host), 2, host, Finished) == [ByteSwap32(a), ByteSwap32(b)];
    DecodeOfEncode(bigendian, Shape(t, [a, b], e), host, data, Finished, size);
    InflateTwoAxes(data, 12, t, ByteSwap32(a), ByteSwap32(b), size);
  }

  /** A consistent 12 x 4 record written by `writearray` makes the earlier
      version's `readarray` write past its buffer: it allocates 12 elements,
      inflates `[12]` by 4 to `[4, 3]` with a count of 36, and reads 36. */
  lemma TwelveByFourOverruns(bigendian: bool, t: byte, host: Order, size: SizeTable, payload: seq<byte>)
    requires |payload| == 48 * size(t)
    ensures Decode(Encode(bigendian, Shape(t, [12, 4], 48), host, payload), host, Stubbed, size) == Unsafe(BufferOverrun)
  {
    var first := Shape(t, [12], 12);
    InflateOneAxis(t, 12, 4);
    assert InflateStep(first, 4) == Ok(Shape(t, [4, 3], 36));
    assert [12, 4][1..] == [4] && [4][..0] == [];
    assert InflateAll(first, [4]) == InflateStep(first, 4);
    var w := size(t);
    assert 12 * w < 36 * w <= 48 * w;
    assert DecodeData(payload, 12, t, [12, 4], size) == Unsafe(BufferOverrun);
    DimsReadBack([12, 4], host);
    DecodeOfEncode(bigendian, Shape(t, [12, 4], 48), host, payload, Stubbed, size);
  }
}
