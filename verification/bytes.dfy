/** Machine-level vocabulary shared by the whole model: bytes, unsigned
    32-bit words with C's wrap-around, byte reversal, and the layout of a
    `uint32_t` in memory under a given host byte order. */
module Bytes {

  /** `unsigned char` */
  type byte = x: int | 0 <= x < 0x100

  /** `uint32_t` */
  type u32 = x: int | 0 <= x < 0x1_0000_0000

  /** Unsigned 32-bit arithmetic keeps the value modulo 2^32. */
  function Wrap32(x: int): (r: u32)
    ensures 0 <= x < 0x1_0000_0000 ==> r == x
  {
    x % 0x1_0000_0000
  }

  /** `a * b` on `uint32_t` operands: the exact product when it fits. */
  function Mul32(a: u32, b: u32): (r: u32)
    ensures a * b < 0x1_0000_0000 ==> r == a * b
  {
    Wrap32(a * b)
  }

  /** `a / b` on `uint32_t` operands (truncating, as both are non-negative):
      the largest `r` with `r * b <= a`. */
  function Div32(a: u32, b: u32): (r: u32)
    requires b != 0
    ensures r <= a && r * b <= a < r * b + b
  {
    DivBound(a, b);
    DivMod(a, b);
    a / b
  }

  lemma DivBound(a: nat, b: nat)
    requires b != 0
    ensures a / b <= a
  {
    DivMod(a, b);
    MulMonotone(a / b, 1, b);
  }

  lemma DivMod(x: nat, y: nat)
    requires y != 0
    ensures x == y * (x / y) + x % y && 0 <= x % y < y
  {
  }

  lemma MulMonotone(a: nat, b: nat, c: nat)
    requires b <= c
    ensures a * b <= a * c
  {
  }

  lemma MulAddOne(a: int, b: int)
    ensures a * (b + 1) == a * b + a
  {
  }

  /** Multiplying and then dividing by the same non-zero number is exact. */
  lemma DivCancel(a: nat, b: nat)
    requires b != 0
    ensures (a * b) / b == a
  {
    var c := (a * b) / b;
    DivMod(a * b, b);
    if c < a {
      MulMonotone(b, c + 1, a);
      MulAddOne(b, c);
    } else if c > a {
      MulMonotone(b, a + 1, c);
      MulAddOne(b, a);
    }
  }

  function Min(a: nat, b: nat): (m: nat)
    ensures m <= a && m <= b && (m == a || m == b)
  {
    if a <= b then a else b
  }

  /** Multiplying after a wrap is the same as wrapping the exact product. */
  lemma {:induction false} WrapMul(x: nat, y: nat)
    ensures Wrap32(Wrap32(x) * y) == Wrap32(x * y)
  {
    var m := 0x1_0000_0000;
    var q, r := x / m, x % m;
    assert x == q * m + r;
    assert x * y == r * y + (q * y) * m by {
      assert x * y == (q * m + r) * y;
    }
    AddMultipleMod(r * y, q * y);
  }

  lemma AddMultipleMod(a: nat, k: nat)
    ensures (a + k * 0x1_0000_0000) % 0x1_0000_0000 == a % 0x1_0000_0000
  {
  }

  /** The bytes of `s` in the opposite order. */
  function Reversed<T>(s: seq<T>): (r: seq<T>)
    ensures |r| == |s|
    ensures forall i :: 0 <= i < |s| ==> r[i] == s[|s| - 1 - i]
  {
    if s == [] then [] else Reversed(s[1..]) + [s[0]]
  }

  /** Reversing twice gives back the original sequence. */
  lemma ReversedTwice<T>(s: seq<T>)
    ensures Reversed(Reversed(s)) == s
  {
    var r := Reversed(Reversed(s));
    assert forall i :: 0 <= i < |s| ==> r[i] == s[i];
  }

  /** Byte order of the machine that runs the code. */
  datatype Order = LittleEndian | BigEndian

  /** The other byte order. */
  function Flip(order: Order): (o: Order)
    ensures o != order
  {
    if order == LittleEndian then BigEndian else LittleEndian
  }

  /** The four bytes a `uint32_t` with value `v` occupies in memory. */
  function ToBytes(v: u32, order: Order): (b: seq<byte>)
    ensures |b| == 4
  {
    var v1 := v / 0x100;
    var v2 := v1 / 0x100;
    var b0, b1, b2, b3 := v % 0x100, v1 % 0x100, v2 % 0x100, v2 / 0x100;
    if order == LittleEndian then [b0, b1, b2, b3] else [b3, b2, b1, b0]
  }

  /** The value of the `uint32_t` whose four bytes in memory are `b`. */
  function FromBytes(b: seq<byte>, order: Order): (v: u32)
    requires |b| == 4
  {
    var b0, b1, b2, b3: int := b[0], b[1], b[2], b[3];
    if order == LittleEndian then b0 + 0x100 * b1 + 0x1_0000 * b2 + 0x100_0000 * b3
    else b3 + 0x100 * b2 + 0x1_0000 * b1 + 0x100_0000 * b0
  }

  /** Storing a word and loading it back on the same host gives the word. */
  lemma LoadStore(v: u32, order: Order)
    ensures FromBytes(ToBytes(v, order), order) == v
  {
    var v1 := v / 0x100;
    var v2 := v1 / 0x100;
    assert v == v % 0x100 + 0x100 * v1;
    assert v1 == v1 % 0x100 + 0x100 * v2;
    assert v2 == v2 % 0x100 + 0x100 * (v2 / 0x100);
  }

  /** Loading reversed bytes is loading the bytes in the other order. */
  lemma LoadOfReversed(b: seq<byte>, order: Order)
    requires |b| == 4
    ensures FromBytes(Reversed(b), order) == FromBytes(b, Flip(order))
  {
    var r := Reversed(b);
    assert r[0] == b[3] && r[1] == b[2] && r[2] == b[1] && r[3] == b[0];
  }

  /** The word whose bytes are those of `v` in the opposite order. */
  function ByteSwap32(v: u32): (s: u32) {
    FromBytes(Reversed(ToBytes(v, LittleEndian)), LittleEndian)
  }

  /** Loading a word from the reversed bytes of a stored word gives its byte
      swap, whatever the host byte order. */
  lemma {:induction false} LoadReversed(v: u32, order: Order)
    ensures FromBytes(Reversed(ToBytes(v, order)), order) == ByteSwap32(v)
  {
    LoadOfReversed(ToBytes(v, order), order);
    LoadOfReversed(ToBytes(v, LittleEndian), LittleEndian);
  }
}
