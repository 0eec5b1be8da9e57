/** `endswap(bits, input, output)`: reverse the first `bits` bytes at
    `input` into `output`. A C address inside a byte buffer is modelled as an
    array together with an offset; two addresses are equal exactly when
    both the arrays and the offsets are. */
module EndSwap {
  import opened Bytes

  /** The finished version: an in-place swap loop when the two addresses are
      equal, a reversed copy otherwise. The bytes of `output` outside the
      `bits` written are left alone. The copy loop is only a reversal when
      the two regions do not partly overlap, so the caller must not pass
      such regions. */
  method EndSwap(bits: byte, input: array<byte>, inOff: nat, output: array<byte>, outOff: nat)
    requires inOff + bits <= input.Length && outOff + bits <= output.Length
    requires input == output && inOff != outOff ==> inOff + bits <= outOff || outOff + bits <= inOff
    modifies output
    ensures output[outOff..outOff + bits] == Reversed(old(input[inOff..inOff + bits]))
    ensures forall k :: 0 <= k < output.Length && !(outOff <= k < outOff + bits) ==> output[k] == old(output[k])
  {
    if input == output && inOff == outOff {
      SwapInPlace(bits, output, outOff);
    } else {
      CopyReversed(bits, input, inOff, output, outOff);
    }
  }

  /** The in-place branch: swap the two halves of the window pairwise. */
  method SwapInPlace(bits: byte, buf: array<byte>, off: nat)
    requires off + bits <= buf.Length
    modifies buf
    ensures buf[off..off + bits] == Reversed(old(buf[off..off + bits]))
    ensures forall k :: 0 <= k < buf.Length && !(off <= k < off + bits) ==> buf[k] == old(buf[k])
  {
    ghost var src := buf[off..off + bits];
    var i := 0;
    while i < bits / 2
      invariant 0 <= i <= bits / 2
      invariant PartlySwapped(buf[..], off, src, i)
      invariant forall k :: 0 <= k < buf.Length && !(off <= k < off + bits) ==> buf[k] == old(buf[k])
    {
      ghost var before := buf[..];
      var temp := buf[off + i];
      buf[off + i] := buf[off + bits - 1 - i];
      buf[off + bits - 1 - i] := temp;
      assert buf[..] == before[off + i := before[off + bits - 1 - i]][off + bits - 1 - i := before[off + i]];
      SwapKeepsPartlySwapped(before, off, src, i);
      i := i + 1;
    }
    SwappedToMiddle(buf[..], off, src, i);
    WindowReversed(buf[..], off, src);
  }

  /** After `i` swaps the first and last `i` bytes of the window hold `src`
      back to front and the middle still holds `src`. */
  ghost predicate PartlySwapped(s: seq<byte>, off: nat, src: seq<byte>, i: nat)
    requires off + |src| <= |s| && 2 * i <= |src|
  {
    forall j :: off <= j < off + |src| ==>
      s[j] == if j - off < i || |src| - i <= j - off then src[off + |src| - 1 - j] else src[j - off]
  }

  lemma SwapKeepsPartlySwapped(s: seq<byte>, off: nat, src: seq<byte>, i: nat)
    requires off + |src| <= |s| && 2 * i + 2 <= |src|
    requires PartlySwapped(s, off, src, i)
    ensures PartlySwapped(s[off + i := s[off + |src| - 1 - i]][off + |src| - 1 - i := s[off + i]], off, src, i + 1)
  {
  }

  lemma SwappedToMiddle(s: seq<byte>, off: nat, src: seq<byte>, i: nat)
    requires off + |src| <= |s| && 2 * i <= |src| && i == |src| / 2
    requires PartlySwapped(s, off, src, i)
    ensures forall j :: off <= j < off + |src| ==> s[j] == src[off + |src| - 1 - j]
  {
  }

  /** The other branch: copy the input window into the output back to front. */
  method CopyReversed(bits: byte, input: array<byte>, inOff: nat, output: array<byte>, outOff: nat)
    requires inOff + bits <= input.Length && outOff + bits <= output.Length
    requires input == output ==> inOff + bits <= outOff || outOff + bits <= inOff
    modifies output
    ensures output[outOff..outOff + bits] == Reversed(old(input[inOff..inOff + bits]))
    ensures forall k :: 0 <= k < output.Length && !(outOff <= k < outOff + bits) ==> output[k] == old(output[k])
  {
    ghost var src := input[inOff..inOff + bits];
    var i := 0;
    while i < bits
      invariant 0 <= i <= bits
      invariant forall j :: outOff <= j < outOff + i ==> output[j] == src[outOff + bits - 1 - j]
      invariant forall k :: 0 <= k < output.Length && !(outOff <= k < outOff + i) ==> output[k] == old(output[k])
      invariant forall j :: inOff <= j < inOff + bits ==> input[j] == src[j - inOff]
    {
      output[outOff + i] := input[inOff + bits - 1 - i];
      i := i + 1;
    }
    WindowReversed(output[..], outOff, src);
  }

  /** A window of `s` holding `src` back to front is `Reversed(src)`. */
  lemma WindowReversed(s: seq<byte>, off: nat, src: seq<byte>)
    requires off + |src| <= |s|
    requires forall j :: off <= j < off + |src| ==> s[j] == src[off + |src| - 1 - j]
    ensures s[off..off + |src|] == Reversed(src)
  {
    var w := s[off..off + |src|];
    assert forall k :: 0 <= k < |src| ==> w[k] == s[off + k];
  }

  /** The earlier version's `endswap` is an empty stub: nothing is written. */
  method EndSwapStub(bits: byte, input: array<byte>, inOff: nat, output: array<byte>, outOff: nat)
    ensures output[..] == old(output[..])
  {
  }
}
