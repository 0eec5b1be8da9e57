/** The shape part of an array record (element tag, axis sizes, element
    count) as a value, and the literal effect of `inflate` and `flatten` on
    it. The class in module MxArr is proved against these functions; the
    lemmas below say what the formulas do and do not achieve. */
module Shapes {
  import opened Bytes

  /** Capacity of the record's `dims[]` buffer. */
  const MAX_DIMS: nat := 8

  /** A positive element width in bytes. */
  type Width = w: int | w >= 1 witness 1

  /** `ELEMENT_SIZE`: the width of an element of each type tag. */
  type SizeTable = byte -> Width

  /** `dimno` is `|dims|`. */
  datatype Shape = Shape(typ: byte, dims: seq<u32>, elno: u32)

  /** Exact product of the axis sizes; it is zero exactly when some axis is. */
  function Product(ds: seq<u32>): (p: nat)
    ensures p == 0 <==> 0 in ds
  {
    if ds == [] then 1
    else
      assert ds == ds[..|ds| - 1] + [ds[|ds| - 1]];
      Product(ds[..|ds| - 1]) * ds[|ds| - 1]
  }

  /** The element count is what `create_array` computes from the axes. */
  ghost predicate Consistent(sh: Shape) {
    sh.elno == Wrap32(Product(sh.dims))
  }

  /** Outcome of one shape operation: the new shape, the failure return
      (which also sets `ERR_VALUE`), or a step that C leaves undefined. */
  datatype Step = Ok(shape: Shape) | Refused | Undefined

  /** `inflate(arr, dim)` as written: refuse at capacity or when the last
      axis is not a multiple of `dim`; otherwise overwrite the last axis with
      `dim`, append `elno / dim` and multiply `elno` by that appended size.
      Indexing `dims[-1]` or taking `% 0` is undefined. */
  function InflateStep(sh: Shape, dim: u32): (r: Step)
    ensures r.Refused? <==> |sh.dims| >= MAX_DIMS || (1 <= |sh.dims| && dim != 0 && sh.dims[|sh.dims| - 1] % dim != 0)
    ensures r.Undefined? <==> |sh.dims| < MAX_DIMS && (|sh.dims| == 0 || dim == 0)
    ensures r.Ok? ==> && 1 <= |sh.dims| < MAX_DIMS && dim != 0
                      && r.shape.typ == sh.typ
                      && |r.shape.dims| == |sh.dims| + 1
                      && r.shape.dims[..|sh.dims| - 1] == sh.dims[..|sh.dims| - 1]
                      && r.shape.dims[|sh.dims| - 1] == dim
                      && r.shape.dims[|sh.dims|] * dim <= sh.elno < r.shape.dims[|sh.dims|] * dim + dim
                      && r.shape.elno == Mul32(sh.elno, r.shape.dims[|sh.dims|])
  {
    var n := |sh.dims|;
    if n >= MAX_DIMS then Refused
    else if n == 0 || dim == 0 then Undefined
    else if sh.dims[n - 1] % dim != 0 then Refused
    else
      var added := Div32(sh.elno, dim);
      Ok(Shape(sh.typ, sh.dims[..n - 1] + [dim, added], Mul32(sh.elno, added)))
  }

  /** `flatten(arr)` as written: refuse a rank-0 record; otherwise divide
      `elno` by the last axis, drop it, and multiply every remaining axis by
      it. Dividing by a zero last axis is undefined. */
  function FlattenStep(sh: Shape): (r: Step)
    ensures r.Refused? <==> |sh.dims| == 0
    ensures r.Undefined? <==> |sh.dims| >= 1 && sh.dims[|sh.dims| - 1] == 0
    ensures r.Ok? ==> var last := sh.dims[|sh.dims| - 1];
                      && r.shape.typ == sh.typ
                      && |r.shape.dims| == |sh.dims| - 1
                      && (forall i :: 0 <= i < |r.shape.dims| ==> r.shape.dims[i] == Mul32(sh.dims[i], last))
                      && r.shape.elno * last <= sh.elno < r.shape.elno * last + last
  {
    var n := |sh.dims|;
    if n == 0 then Refused
    else if sh.dims[n - 1] == 0 then Undefined
    else
      var last := sh.dims[n - 1];
      var merged := seq(n - 1, i requires 0 <= i < n - 1 => Mul32(sh.dims[i], last));
      var count := Div32(sh.elno, last);
      Ok(Shape(sh.typ, merged, count))
  }

  /** On a fresh 1-D array `[d]`, `inflate(dim)` yields axes `[dim, d / dim]`,
      whose product is still `d`, but sets the count to `d * (d / dim)`. */
  lemma {:induction false} InflateOneAxis(typ: byte, d: u32, dim: u32)
    requires dim != 0 && d % dim == 0
    ensures InflateStep(Shape(typ, [d], d), dim) == Ok(Shape(typ, [dim, d / dim], Wrap32(d * (d / dim))))
    ensures Product([dim, d / dim]) == d
  {
    var q := d / dim;
    assert Div32(d, dim) == q;
    assert [d][..0] + [dim, q] == [dim, q];
    assert Product([dim, q]) == dim * q by {
      assert [dim][..0] == [];
      assert Product([dim]) == dim;
      assert [dim, q][..1] == [dim];
    }
    DivMod(d, dim);
  }

  /** Hence `inflate` breaks the record's own invariant: whenever the split
      leaves an outer size of at least 2 (and nothing wraps), the count no
      longer equals the product of the axes. */
  lemma {:induction false} InflateBreaksCount(typ: byte, d: u32, dim: u32)
    requires dim != 0 && d % dim == 0 && d / dim >= 2
    requires d * (d / dim) < 0x1_0000_0000
    ensures InflateStep(Shape(typ, [d], d), dim).Ok?
    ensures !Consistent(InflateStep(Shape(typ, [d], d), dim).shape)
  {
    InflateOneAxis(typ, d, dim);
    var q := d / dim;
    DivMod(d, dim);
    assert d == dim * q;
    MulMonotone(dim, 1, q);
    MulMonotone(d, 2, q);
    assert Product([dim, q]) == d;
  }

  /** On a 1-D array, `flatten` undoes `inflate`, provided the inflated
      count did not wrap around. */
  lemma {:induction false} FlattenUndoesInflateOneAxis(typ: byte, d: u32, dim: u32)
    requires dim != 0 && d % dim == 0 && d != 0
    requires d * (d / dim) < 0x1_0000_0000
    ensures InflateStep(Shape(typ, [d], d), dim).Ok?
    ensures FlattenStep(InflateStep(Shape(typ, [d], d), dim).shape) == Ok(Shape(typ, [d], d))
  {
    InflateOneAxis(typ, d, dim);
    var q := d / dim;
    assert q != 0 by {
      assert d == dim * q;
    }
    var inflated := Shape(typ, [dim, q], d * q);
    assert (d * q) / q == d by {
      DivCancel(d, q);
    }
    assert dim * q == d;
    assert FlattenStep(inflated) == Ok(Shape(typ, [Wrap32(dim * q)], (d * q) / q));
  }

  /** On more than one axis it does not: `[2, 6]` inflated by 2 and then
      flattened comes back as `[12, 12]`. */
  lemma FlattenDoesNotUndoInflate()
    ensures InflateStep(Shape(0, [2, 6], 12), 2) == Ok(Shape(0, [2, 2, 6], 72))
    ensures FlattenStep(Shape(0, [2, 2, 6], 72)) == Ok(Shape(0, [12, 12], 12))
  {
    assert [2, 6][..1] + [2, 6] == [2, 2, 6];
    var merged := seq(2, i requires 0 <= i < 2 => Wrap32(([2, 2, 6][i] as int) * 6));
    assert merged == [12, 12];
  }

  /** Merging a 2-D array `[a, b]` multiplies the surviving axis by `b` but
      divides the count by `b`, so the result is consistent only in the
      degenerate cases `a == 0` or `b == 1`. */
  lemma {:induction false} FlattenTwoAxes(typ: byte, a: u32, b: u32)
    requires b != 0 && a * b < 0x1_0000_0000
    ensures FlattenStep(Shape(typ, [a, b], a * b)) == Ok(Shape(typ, [a * b], a))
    ensures Consistent(FlattenStep(Shape(typ, [a, b], a * b)).shape) <==> a == 0 || b == 1
  {
    var merged := seq(1, i requires 0 <= i < 1 => Wrap32(([a, b][i] as int) * (b as int)));
    assert merged == [a * b];
    DivCancel(a, b);
    assert Product([a * b]) == a * b by {
      assert [a * b][..0] == [];
    }
    if a != 0 && b != 1 {
      assert a * b >= a * 2 by {
        MulMonotone(a, 2, b);
      }
    }
  }

  /** The demonstration driver builds `[2, 3, 4, 5]` (120 elements) and asks
      to inflate it by 6; the last axis 5 is not a multiple of 6, so the
      request is refused and the record is left as built. */
  lemma {:induction false} DemoInflateRefused(typ: byte)
    ensures Consistent(Shape(typ, [2, 3, 4, 5], 120))
    ensures InflateStep(Shape(typ, [2, 3, 4, 5], 120), 6) == Refused
  {
    ProductSnoc([], 2);
    assert [] + [2 as u32] == [2];
    ProductSnoc([2], 3);
    assert [2 as u32] + [3] == [2, 3];
    ProductSnoc([2, 3], 4);
    assert [2 as u32, 3] + [4] == [2, 3, 4];
    ProductSnoc([2, 3, 4], 5);
    assert [2 as u32, 3, 4] + [5] == [2, 3, 4, 5];
  }

  /** Appending an axis multiplies the exact product by its size. */
  lemma ProductSnoc(ds: seq<u32>, d: u32)
    ensures Product(ds + [d]) == Product(ds) * d
  {
    assert (ds + [d])[..|ds|] == ds;
  }
}
