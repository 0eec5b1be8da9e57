/** The array record and the operations that build it or change its shape
    in place. Both versions of the source share this module: `Inflate` is
    identical in the two, and the earlier version's `flatten` is the empty
    `FlattenStub`. */
module MxArr {
  import opened Bytes
  import opened Shapes

  /** `ERROR_CODES`. Only the codes the core sets are listed. */
  datatype ErrorCode = ErrNone | ErrMemory | ErrValue

  /** The process-wide `ERROR_CODE` cell. A failing operation overwrites it;
      a successful one leaves it alone. */
  class ErrorState {
    var code: ErrorCode

    constructor ()
      ensures code == ErrNone
    {
      code := ErrNone;
    }
  }

  /** The `Array` record. `dims` is the fixed `dims[MAX_DIMS]` member, so the
      array object never changes; `data` is the owned element buffer. */
  class MxArray {
    var dimno: nat
    var typ: byte
    const dims: array<u32>
    var elno: u32
    var data: array<byte>

    ghost predicate Valid()
      reads this
    {
      dims.Length == MAX_DIMS && dimno <= MAX_DIMS
    }

    /** The shape the record currently describes. */
    ghost function View(): Shape
      reads this, dims
      requires Valid()
    {
      Shape(typ, dims[..dimno], elno)
    }

    /** `create_array(dimno, type, dims)`: copy the axes, multiply them into
        `elno` on 32 bits, and allocate `elno * ELEMENT_SIZE(type)` bytes.
        Copying more axes than the record holds, or than the caller
        supplied, would overrun a C buffer. */
    constructor Create(rank: byte, t: byte, src: array<u32>, size: SizeTable)
      requires rank <= MAX_DIMS && rank <= src.Length
      ensures Valid() && fresh(dims) && fresh(data)
      ensures dimno == rank && typ == t
      ensures dims[..rank] == src[..rank]
      ensures elno == Wrap32(Product(src[..rank]))
      ensures Consistent(View())
      ensures data.Length == elno * size(t)
    {
      var n: u32 := 1;
      for i := 0 to rank
        invariant n == Wrap32(Product(src[..i]))
      {
        assert src[..i + 1] == src[..i] + [src[i]];
        ProductSnoc(src[..i], src[i]);
        WrapMul(Product(src[..i]), src[i]);
        n := Mul32(n, src[i]);
      }
      var d := new u32[MAX_DIMS];
      for i := 0 to rank
        invariant d[..i] == src[..i]
      {
        d[i] := src[i];
      }
      dimno := rank;
      typ := t;
      dims := d;
      elno := n;
      data := new byte[n * size(t)];
    }

    /** `newarray(dim0, type)`: a 1-D record of `dim0` elements with a buffer
        of `dim0 * ELEMENT_SIZE(type)` bytes. */
    constructor NewArray(dim0: u32, t: byte, size: SizeTable)
      ensures Valid() && fresh(dims) && fresh(data)
      ensures dimno == 1 && dims[0] == dim0 && elno == dim0 && typ == t
      ensures View() == Shape(t, [dim0], dim0) && Consistent(View())
      ensures data.Length == dim0 * size(t)
    {
      data := new byte[dim0 * size(t)];
      dimno := 1;
      typ := t;
      var d := new u32[MAX_DIMS];
      d[0] := dim0;
      dims := d;
      elno := dim0;
      new;
      assert dims[..1] == [dim0];
      assert [dim0][..0] == [];
    }

    /** `inflate(arr, dim)`. At capacity, or when the last axis is not a
        multiple of `dim`, it returns 0, sets `ERR_VALUE` and changes
        nothing. Otherwise the last axis becomes `dim`, `elno / dim` is
        appended and `elno` is multiplied by it; the type and the buffer are
        untouched. Below capacity C reads `dims[dimno - 1]` and takes
        `% dim`, so the caller must supply a non-empty record and `dim != 0`. */
    method Inflate(dim: u32, err: ErrorState) returns (ok: bool)
      requires Valid()
      requires dimno < MAX_DIMS ==> dimno >= 1 && dim != 0
      modifies this, dims, err
      ensures Valid() && typ == old(typ) && data == old(data)
      ensures ok == (old(dimno) < MAX_DIMS && old(dims[dimno - 1]) % dim == 0)
      ensures !ok ==> dimno == old(dimno) && elno == old(elno) && dims[..] == old(dims[..])
                      && err.code == ErrValue
      ensures ok ==> && dimno == old(dimno) + 1
                     && dims[old(dimno) - 1] == dim
                     && dims[old(dimno)] == old(elno) / dim
                     && elno == Wrap32(old(elno) * (old(elno) / dim))
                     && (forall k :: 0 <= k < MAX_DIMS && k != old(dimno) - 1 && k != old(dimno) ==>
                           dims[k] == old(dims[k]))
                     && err.code == old(err.code)
      ensures ok <==> InflateStep(old(View()), dim).Ok?
      ensures ok ==> View() == InflateStep(old(View()), dim).shape
    {
      if dimno >= MAX_DIMS {
        err.code := ErrValue;
        return false;
      }
      if dims[dimno - 1] % dim != 0 {
        err.code := ErrValue;
        return false;
      }
      ghost var before := View();
      dims[dimno - 1] := dim;
      dims[dimno] := Div32(elno, dim);
      dimno := dimno + 1;
      elno := Mul32(elno, dims[dimno - 1]);
      assert dims[..dimno] == before.dims[..dimno - 2] + [dim, Div32(before.elno, dim)];
      return true;
    }

    /** `flatten(arr)` as written. A rank-0 record sets `ERR_VALUE` and is
        left as it is. Otherwise `elno` is divided by the last axis, the
        last axis is dropped and every remaining axis is multiplied by it;
        the dropped value stays behind in `dims[dimno]`, and the type and
        the buffer are untouched. The division needs a non-zero last axis. */
    method Flatten(err: ErrorState)
      requires Valid()
      requires dimno >= 1 ==> dims[dimno - 1] != 0
      modifies this, dims, err
      ensures Valid() && typ == old(typ) && data == old(data)
      ensures old(dimno) == 0 ==> dimno == 0 && elno == old(elno) && dims[..] == old(dims[..])
                                  && err.code == ErrValue
      ensures old(dimno) >= 1 ==>
                && dimno == old(dimno) - 1
                && elno == old(elno) / old(dims[dimno - 1])
                && (forall i :: 0 <= i < dimno ==> dims[i] == Wrap32((old(dims[i]) as int) * (old(dims[dimno - 1]) as int)))
                && (forall k :: dimno <= k < MAX_DIMS ==> dims[k] == old(dims[k]))
                && err.code == old(err.code)
      ensures FlattenStep(old(View())) == if old(dimno) == 0 then Refused else Ok(View())
    {
      if dimno < 1 {
        err.code := ErrValue;
        return;
      }
      ghost var before := View();
      elno := Div32(elno, dims[dimno - 1]);
      dimno := dimno - 1;
      ghost var n, last := dimno, dims[dimno];
      for i := 0 to dimno
        modifies dims
        invariant forall k :: 0 <= k < i ==> dims[k] == Mul32(old(dims[k]), last)
        invariant forall k :: i <= k < MAX_DIMS ==> dims[k] == old(dims[k])
      {
        dims[i] := Mul32(dims[i], dims[dimno]);
      }
      assert dims[..n] == seq(n, i requires 0 <= i < n => Mul32(before.dims[i], last));
    }

    /** The earlier version's `flatten` is an empty stub. */
    method FlattenStub(err: ErrorState)
      requires Valid()
      ensures View() == old(View()) && err.code == old(err.code)
    {
    }
  }
}
