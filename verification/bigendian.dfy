/** Big-endian positional notation, in base 2 (bit strings) and base 256 (byte strings). */
module BigEndian {
  import opened Common

  /** 2^e, the number of distinct bit strings of length `e`. */
  function Pow2(e: nat): nat
  {
    if e == 0 then 1 else 2 * Pow2(e - 1)
  }

  /** 256^e, the number of distinct byte strings of length `e`. */
  function Pow256(e: nat): nat
  {
    if e == 0 then 1 else 256 * Pow256(e - 1)
  }

  /** `int(bits, 2)`: the value of a string of binary digits, most significant first. */
  function BitsValue(bits: Bits): (v: nat)
    ensures v < Pow2(|bits|)
  {
    if |bits| == 0 then 0
    else 2 * BitsValue(bits[..|bits| - 1]) + (if bits[|bits| - 1] then 1 else 0)
  }

  /** `format(n, '0<width>b')` for an `n` below 2^width: exactly `width` binary digits. */
  function ValueBits(n: nat, width: nat): (bits: Bits)
    requires n < Pow2(width)
    ensures |bits| == width
    ensures BitsValue(bits) == n
  {
    if width == 0 then []
    else
      var high := ValueBits(n / 2, width - 1);
      assert (high + [n % 2 == 1])[..width - 1] == high;
      high + [n % 2 == 1]
  }

  /** Formatting the value of a bit string to its own width gives the string back. */
  lemma {:induction false} ValueBitsOfBitsValue(bits: Bits)
    ensures ValueBits(BitsValue(bits), |bits|) == bits
  {
    if |bits| > 0 {
      var init, last := bits[..|bits| - 1], bits[|bits| - 1];
      var w := BitsValue(init);
      assert BitsValue(bits) == 2 * w + (if last then 1 else 0);
      calc {
        ValueBits(BitsValue(bits), |bits|);
        { AppendDigit(w, |init|, last); }
        ValueBits(w, |init|) + [last];
        { ValueBitsOfBitsValue(init); }
        init + [last];
        bits;
      }
    }
  }

  /** Appending a binary digit to the value doubles it and adds the digit. */
  lemma AppendDigit(w: nat, width: nat, last: bool)
    requires w < Pow2(width)
    ensures 2 * w + (if last then 1 else 0) < Pow2(width + 1)
    ensures ValueBits(2 * w + (if last then 1 else 0), width + 1) == ValueBits(w, width) + [last]
  {
    var d := if last then 1 else 0;
    HalveDigit(w, d);
  }

  /** Halving `2w + d`, for a binary digit `d`, gives back `w` with remainder `d`. */
  lemma HalveDigit(w: nat, d: nat)
    requires d < 2
    ensures (2 * w + d) / 2 == w && (2 * w + d) % 2 == d
  {
  }

  /** `int.from_bytes(bs, 'big')`, for a byte string of any length (the empty one reads as 0). */
  function BytesValue(bs: seq<Byte>): (v: nat)
    ensures v < Pow256(|bs|)
  {
    if |bs| == 0 then 0 else BytesValue(bs[..|bs| - 1]) * 256 + bs[|bs| - 1]
  }

  /** `n.to_bytes(width, 'big')` for an `n` that fits in `width` bytes. */
  function ValueBytes(n: nat, width: nat): (bs: seq<Byte>)
    requires n < Pow256(width)
    ensures |bs| == width
    ensures BytesValue(bs) == n
  {
    if width == 0 then []
    else
      var high := ValueBytes(n / 256, width - 1);
      assert (high + [n % 256])[..width - 1] == high;
      high + [n % 256]
  }
}
