/** Bit packing and unpacking of the payload (file_compressor.py lines 81-83 and 114-116). */
module Packing {
  import opened Common
  import opened BigEndian

  /** A bit count that fills whole bytes. */
  predicate WholeBytes(n: nat)
  {
    n % 8 == 0
  }

  /** Line 81: the number of zero bits that completes the last byte of `n` code bits;
      it is the least such number. */
  function Padding(n: nat): (p: nat)
    ensures p < 8
    ensures WholeBytes(n + p)
    ensures forall m :: n <= m < n + p ==> !WholeBytes(m)
  {
    (8 - n % 8) % 8
  }

  /** Line 82: the code bits followed by `'0' * Padding(|bits|)`, a whole number of bytes
      that begins with the code bits and continues with zeros only. */
  function Padded(bits: Bits): (r: Bits)
    ensures WholeBytes(|r|)
    ensures |r| == |bits| + Padding(|bits|)
    ensures r[..|bits|] == bits
    ensures forall k :: |bits| <= k < |r| ==> !r[k]
  {
    bits + seq(Padding(|bits|), _ => false)
  }

  /** Line 83: each group of 8 bits, read as a binary number, becomes one byte. */
  function Pack(bits: Bits): (bytes: seq<Byte>)
    requires WholeBytes(|bits|)
    ensures 8 * |bytes| == |bits|
    ensures Unpack(bytes) == bits
    decreases |bits|
  {
    if |bits| == 0 then []
    else
      var group := bits[..8];
      ValueBitsOfBitsValue(group);
      assert bits == group + bits[8..];
      [BitsValue(group)] + Pack(bits[8..])
  }

  /** Line 114: every byte becomes its 8 binary digits, `f"{byte:08b}"`. */
  function Unpack(bytes: seq<Byte>): (bits: Bits)
    ensures |bits| == 8 * |bytes|
  {
    if |bytes| == 0 then [] else ValueBits(bytes[0], 8) + Unpack(bytes[1..])
  }

  /** Lines 115-116: `bits[:-padding]` when `padding > 0`; a padding longer than the
      bits leaves nothing, as Python's slice does. */
  function DropPadding(bits: Bits, padding: nat): (r: Bits)
    ensures |r| == if padding <= |bits| then |bits| - padding else 0
    ensures r == bits[..|r|]
  {
    if padding > 0 then bits[..if padding <= |bits| then |bits| - padding else 0] else bits
  }

  /** Padding, packing, unpacking and dropping the padding again gives back the code bits. */
  lemma PackRoundTrip(bits: Bits)
    ensures DropPadding(Unpack(Pack(Padded(bits))), Padding(|bits|)) == bits
  {
  }
}
