/**
  The bit-level input and output streams the Huffman processor talks to.

  The streams themselves are not part of this model: an input stream is a
  finite sequence of bits together with a cursor, an output stream is the
  sequence of bits written so far.  Multi-bit values travel most significant
  bit first.
 */
module BitStream {

  /** 2 to the power n. */
  function Pow2(n: nat): (p: nat)
    ensures p >= 1
  {
    if n == 0 then 1 else 2 * Pow2(n - 1)
  }

  lemma {:induction false} Pow2Add(a: nat, b: nat)
    ensures Pow2(a + b) == Pow2(a) * Pow2(b)
  {
    if a > 0 {
      Pow2Add(a - 1, b);
    }
  }

  /** The unsigned value of a bit sequence read most significant bit first. */
  function BitsValue(bits: seq<bool>): (v: nat)
    ensures v < Pow2(|bits|)
  {
    if |bits| == 0 then 0
    else 2 * BitsValue(bits[..|bits| - 1]) + (if bits[|bits| - 1] then 1 else 0)
  }

  /**
    `writeBits(n, v)`: the n low-order bits of v, most significant first (of
    the two's-complement form when v is negative).
   */
  function WriteBits(n: nat, v: int): (bits: seq<bool>)
    ensures |bits| == n
  {
    if n == 0 then [] else WriteBits(n - 1, v / 2) + [v % 2 == 1]
  }

  /** Writing a value that fits in n bits and reading it back yields the value. */
  lemma {:induction false} ValueOfBits(v: int, n: nat)
    requires 0 <= v < Pow2(n)
    ensures BitsValue(WriteBits(n, v)) == v
  {
    if n > 0 {
      var bits := WriteBits(n, v);
      assert bits[..n - 1] == WriteBits(n - 1, v / 2);
      ValueOfBits(v / 2, n - 1);
    }
  }

  /** Reading a bit sequence and writing its value back yields the bits. */
  lemma {:induction false} BitsOfValue(bits: seq<bool>)
    ensures WriteBits(|bits|, BitsValue(bits)) == bits
  {
    if |bits| > 0 {
      var init := bits[..|bits| - 1];
      BitsOfValue(init);
      var v := BitsValue(bits);
      assert v / 2 == BitsValue(init);
      assert bits == init + [bits[|bits| - 1]];
    }
  }

  /** The outcome of `readBits`: the value read (or -1) and the new cursor. */
  datatype Read = Read(value: int, pos: nat)

  /**
    `readBits(n)` at cursor pos: the next n bits as an unsigned number, or -1
    when fewer than n bits remain, in which case the remaining bits are
    consumed.
   */
  function ReadBits(input: seq<bool>, pos: nat, n: nat): (r: Read)
    requires pos <= |input|
    ensures pos <= r.pos <= |input|
    ensures r.value == -1 <==> pos + n > |input|
    ensures r.value == -1 ==> r.pos == |input|
    ensures r.value != -1 ==> r.pos == pos + n && 0 <= r.value < Pow2(n)
  {
    if pos + n <= |input| then Read(BitsValue(input[pos..pos + n]), pos + n) else Read(-1, |input|)
  }

  /** The value readBits returns, written back in n bits, is the bits it consumed. */
  lemma ReadBitsRoundTrip(input: seq<bool>, pos: nat, n: nat)
    requires pos + n <= |input|
    ensures WriteBits(n, ReadBits(input, pos, n).value) == input[pos..pos + n]
  {
    BitsOfValue(input[pos..pos + n]);
  }

  /** readBits(1) returns the next bit as 0 or 1. */
  lemma ReadOneBit(input: seq<bool>, pos: nat)
    requires pos < |input|
    ensures ReadBits(input, pos, 1) == Read(if input[pos] then 1 else 0, pos + 1)
  {
    assert input[pos..pos + 1] == [input[pos]];
  }
}
