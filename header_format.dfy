/**
  The tree-header format read by ReadTreeHeader: a preorder walk of the tree,
  0 for an internal node (followed by its left and then its right subtree), 1
  for a leaf followed by its value in leafBits bits.

  Preorder is the specification of that format, against which the reader is
  proved in both directions; the processor itself has no header writer.
 */
module HeaderFormat {
  import opened BitStream
  import opened HuffTree
  import opened HuffProcessor

  /**
    The header describing t: each leaf value is written in leafBits bits as
    writeBits would write it, so only trees whose values fit are described
    faithfully.
   */
  ghost function Preorder(t: HuffNode, leafBits: nat): seq<bool>
  {
    match t
    case Leaf(v) => [true] + WriteBits(leafBits, v)
    case Node(l, r) => [false] + Preorder(l, leafBits) + Preorder(r, leafBits)
  }

  /**
    Header size law: one bit per internal node and 1 + leafBits bits per leaf;
    with L leaves, L * (1 + leafBits) + (L - 1) bits.
   */
  lemma {:induction false} HeaderSize(t: HuffNode, leafBits: nat)
    ensures |Preorder(t, leafBits)| == Internal(t) + Leaves(t) * (1 + leafBits)
    ensures |Preorder(t, leafBits)| == Leaves(t) * (1 + leafBits) + (Leaves(t) - 1)
  {
    LeavesOutnumberInternal(t);
    match t
    case Leaf(_) =>
    case Node(l, r) =>
      HeaderSize(l, leafBits);
      HeaderSize(r, leafBits);
      var width := 1 + leafBits;
      MulDistributes(Leaves(l), Leaves(r), width);
  }

  lemma MulDistributes(a: nat, b: nat, k: nat)
    ensures (a + b) * k == a * k + b * k
  {
  }

  /** bits lie in input starting at pos. */
  predicate At(input: seq<bool>, pos: nat, bits: seq<bool>)
  {
    pos + |bits| <= |input| && forall i :: 0 <= i < |bits| ==> input[pos + i] == bits[i]
  }

  /** At is the slice of input starting at pos. */
  lemma AtSlice(input: seq<bool>, pos: nat, bits: seq<bool>)
    requires pos + |bits| <= |input|
    ensures At(input, pos, bits) <==> input[pos..pos + |bits|] == bits
  {
    if At(input, pos, bits) {
      assert forall i :: 0 <= i < |bits| ==> input[pos..pos + |bits|][i] == bits[i];
    }
  }

  /**
    The reader accepts the header of every tree: reading at pos, where the
    header of t starts, yields t and leaves the cursor just after the header.
   */
  lemma {:induction false} ReadsPreorder(t: HuffNode, leafBits: nat, input: seq<bool>, pos: nat)
    requires ValuesIn(t, 0, Pow2(leafBits))
    requires At(input, pos, Preorder(t, leafBits))
    ensures ReadTreeHeader(input, pos, leafBits) == Header(t, pos + |Preorder(t, leafBits)|)
    decreases t, 1
  {
    match t
    case Leaf(v) => ReadsLeaf(v, leafBits, input, pos);
    case Node(l, r) => ReadsPreorderNode(l, r, leafBits, input, pos);
  }

  /** The internal-node case of ReadsPreorder. */
  lemma {:induction false} ReadsPreorderNode(l: HuffNode, r: HuffNode, leafBits: nat, input: seq<bool>, pos: nat)
    requires ValuesIn(l, 0, Pow2(leafBits)) && ValuesIn(r, 0, Pow2(leafBits))
    requires At(input, pos, [false] + Preorder(l, leafBits) + Preorder(r, leafBits))
    ensures ReadTreeHeader(input, pos, leafBits)
         == Header(Node(l, r), pos + 1 + |Preorder(l, leafBits)| + |Preorder(r, leafBits)|)
    decreases Node(l, r), 0
  {
    var left, right := Preorder(l, leafBits), Preorder(r, leafBits);
    var mid := pos + 1 + |left|;
    NodeSlices(input, pos, left, right);
    ReadsPreorder(l, leafBits, input, pos + 1);
    ReadsPreorder(r, leafBits, input, mid);
    ReadsNode(input, pos, leafBits, l, r, mid, mid + |right|);
  }

  /** Where the tag and the two subtree headers of an internal node's header lie. */
  lemma NodeSlices(input: seq<bool>, pos: nat, left: seq<bool>, right: seq<bool>)
    requires At(input, pos, [false] + left + right)
    ensures pos < |input| && !input[pos]
    ensures At(input, pos + 1, left)
    ensures At(input, pos + 1 + |left|, right)
  {
    var all := [false] + left + right;
    assert input[pos] == all[0];
    forall i | 0 <= i < |left|
      ensures input[pos + 1 + i] == left[i]
    {
      assert input[pos + (1 + i)] == all[1 + i];
    }
    forall i | 0 <= i < |right|
      ensures input[pos + 1 + |left| + i] == right[i]
    {
      assert input[pos + (1 + |left| + i)] == all[1 + |left| + i];
    }
  }

  /** A 0 tag followed by two readable subtrees is read as an internal node. */
  lemma ReadsNode(input: seq<bool>, pos: nat, leafBits: nat, l: HuffNode, r: HuffNode, mid: nat, end: nat)
    requires pos < |input| && !input[pos]
    requires ReadTreeHeader(input, pos + 1, leafBits) == Header(l, mid)
    requires mid <= |input| && ReadTreeHeader(input, mid, leafBits) == Header(r, end)
    ensures ReadTreeHeader(input, pos, leafBits) == Header(Node(l, r), end)
  {
    ReadOneBit(input, pos);
  }

  /** A 1 tag followed by a value that fits in leafBits bits is read as a leaf. */
  lemma ReadsLeaf(v: int, leafBits: nat, input: seq<bool>, pos: nat)
    requires 0 <= v < Pow2(leafBits)
    requires At(input, pos, [true] + WriteBits(leafBits, v))
    ensures ReadTreeHeader(input, pos, leafBits) == Header(Leaf(v), pos + 1 + leafBits)
  {
    LeafSlices(input, pos, WriteBits(leafBits, v));
    ReadOneBit(input, pos);
    ValueOfBits(v, leafBits);
  }

  /** Where the tag and the value of a leaf's header lie. */
  lemma LeafSlices(input: seq<bool>, pos: nat, value: seq<bool>)
    requires At(input, pos, [true] + value)
    ensures pos < |input| && input[pos]
    ensures pos + 1 + |value| <= |input| && input[pos + 1..pos + 1 + |value|] == value
  {
    var all := [true] + value;
    assert input[pos] == all[0];
    forall i | 0 <= i < |value|
      ensures input[pos + 1..pos + 1 + |value|][i] == value[i]
    {
      assert input[pos + (1 + i)] == all[1 + i];
    }
  }

  /**
    Conversely, a tree the reader returns without a truncated leaf is exactly
    the one whose header lies between the old and the new cursor.
   */
  lemma {:induction false} HeaderIsPreorder(input: seq<bool>, pos: nat, leafBits: nat)
    requires pos <= |input|
    requires ReadTreeHeader(input, pos, leafBits).Header?
    requires ValuesIn(ReadTreeHeader(input, pos, leafBits).root, 0, Pow2(leafBits))
    ensures var h := ReadTreeHeader(input, pos, leafBits);
      h.pos == pos + |Preorder(h.root, leafBits)| && input[pos..h.pos] == Preorder(h.root, leafBits)
    decreases |input| - pos
  {
    var h := ReadTreeHeader(input, pos, leafBits);
    HeaderParts(input, pos, leafBits);
    match h.root
    case Leaf(v) =>
      LeafIsPreorder(input, pos, leafBits, v, h.pos);
    case Node(l, r) =>
      var left := ReadTreeHeader(input, pos + 1, leafBits);
      HeaderIsPreorder(input, pos + 1, leafBits);
      HeaderIsPreorder(input, left.pos, leafBits);
      NodeIsPreorder(input, pos, left.pos, h.pos, Preorder(l, leafBits), Preorder(r, leafBits));
  }

  lemma LeafIsPreorder(input: seq<bool>, pos: nat, leafBits: nat, v: int, end: nat)
    requires pos < |input| && input[pos] && 0 <= v
    requires ReadBits(input, pos + 1, leafBits) == Read(v, end)
    ensures end == pos + 1 + leafBits && input[pos..end] == [true] + WriteBits(leafBits, v)
  {
    ReadBitsRoundTrip(input, pos + 1, leafBits);
    assert input[pos..end] == [input[pos]] + input[pos + 1..end];
  }

  lemma NodeIsPreorder(input: seq<bool>, pos: nat, mid: nat, end: nat, left: seq<bool>, right: seq<bool>)
    requires pos < mid <= end <= |input| && !input[pos]
    requires mid == pos + 1 + |left| && input[pos + 1..mid] == left
    requires end == mid + |right| && input[mid..end] == right
    ensures input[pos..end] == [false] + left + right
  {
    assert input[pos..end] == [input[pos]] + input[pos + 1..mid] + input[mid..end];
  }

  /** What a successful read of a header is made of. */
  lemma HeaderParts(input: seq<bool>, pos: nat, leafBits: nat)
    requires pos <= |input|
    requires ReadTreeHeader(input, pos, leafBits).Header?
    ensures pos < |input|
    ensures var h := ReadTreeHeader(input, pos, leafBits);
      match h.root
      case Leaf(v) =>
        var leaf := ReadBits(input, pos + 1, leafBits);
        input[pos] && v == leaf.value && h.pos == leaf.pos
      case Node(l, r) =>
        var left := ReadTreeHeader(input, pos + 1, leafBits);
        && !input[pos]
        && left.Header?
        && ReadTreeHeader(input, left.pos, leafBits) == Header(r, h.pos)
        && l == left.root
  {
    ReadOneBit(input, pos);
  }

  /**
    Bits consumed by a parsed tree without a truncated leaf: one per internal
    node and 1 + leafBits per leaf.
   */
  lemma HeaderConsumption(input: seq<bool>, pos: nat, leafBits: nat)
    requires pos <= |input|
    requires ReadTreeHeader(input, pos, leafBits).Header?
    requires ValuesIn(ReadTreeHeader(input, pos, leafBits).root, 0, Pow2(leafBits))
    ensures var h := ReadTreeHeader(input, pos, leafBits);
      h.pos - pos == Internal(h.root) + Leaves(h.root) * (1 + leafBits)
  {
    var h := ReadTreeHeader(input, pos, leafBits);
    HeaderIsPreorder(input, pos, leafBits);
    HeaderSize(h.root, leafBits);
  }

  /**
    A leaf whose value cannot be read becomes a leaf with value -1 and the
    input is used up.
   */
  lemma TruncatedLeaf(input: seq<bool>, pos: nat, leafBits: nat)
    requires pos < |input| && input[pos]
    requires pos + 1 + leafBits > |input|
    ensures ReadTreeHeader(input, pos, leafBits) == Header(Leaf(-1), |input|)
  {
    ReadOneBit(input, pos);
  }

  /**
    So a truncated leaf can only be the last thing read: a parse that stops
    before the end of the input has no leaf of value -1.
   */
  lemma {:induction false} TruncatedLeafIsLast(input: seq<bool>, pos: nat, leafBits: nat)
    requires pos <= |input|
    requires ReadTreeHeader(input, pos, leafBits).Header?
    requires ReadTreeHeader(input, pos, leafBits).pos < |input|
    ensures ValuesIn(ReadTreeHeader(input, pos, leafBits).root, 0, Pow2(leafBits))
    decreases |input| - pos
  {
    var h := ReadTreeHeader(input, pos, leafBits);
    ReadOneBit(input, pos);
    match h.root
    case Leaf(v) =>
    case Node(l, r) =>
      var left := ReadTreeHeader(input, pos + 1, leafBits);
      TruncatedLeafIsLast(input, pos + 1, leafBits);
      TruncatedLeafIsLast(input, left.pos, leafBits);
  }
}
