/**
  The Huffman processor: a pass-through compressor and a decompressor that
  checks the magic number, rebuilds the code tree from its preorder header and
  walks the tree bit by bit over the body.

  The leaf values of the tree header are read with a fixed width.  The
  processor reads BITS_PER_WORD (8) bits per leaf; the format it belongs to
  writes 9 so that PSEUDO_EOF (256) fits.  The tree reader and the
  decompressor take that width as a parameter so that both can be stated:
  LEAF_BITS_AS_WRITTEN is what the processor does, LEAF_BITS_INTENDED what the
  format needs.
 */
module HuffProcessor {
  import opened BitStream
  import opened HuffTree

  const BITS_PER_WORD: nat := 8
  const BITS_PER_INT: nat := 32
  const ALPH_SIZE: int := 256  // 1 << BITS_PER_WORD
  const PSEUDO_EOF: int := ALPH_SIZE
  const HUFF_NUMBER: bv32 := 0xface8200
  const HUFF_TREE: int := (HUFF_NUMBER | 1) as int

  /** Width of a leaf value in the tree header, as the processor reads it. */
  const LEAF_BITS_AS_WRITTEN: nat := BITS_PER_WORD
  /** Width of a leaf value wide enough for every byte value and PSEUDO_EOF. */
  const LEAF_BITS_INTENDED: nat := BITS_PER_WORD + 1

  /** The exceptions the processor throws (their messages are not modelled). */
  datatype HuffError =
    | IllegalHeader(firstBits: int)  // the first 32 bits are not HUFF_TREE
    | TagBitMissing                  // input ends where a tree-header tag bit is due
    | NoPseudoEof                    // input ends before a PSEUDO_EOF leaf is reached
    | NullDereference                // the walk steps below a leaf (root is a leaf)

  datatype Status = Done | Threw(error: HuffError)

  /**
    What a decompression run leaves behind: the values written so far (they
    stay written when an exception is thrown), the input cursor and how it
    ended.
   */
  datatype Run = Run(out: seq<int>, pos: nat, status: Status)

  /** The outcome of reading a tree header. */
  datatype Header = Header(root: HuffNode, pos: nat) | HeaderError(error: HuffError)

  /** The outcome of walking from a node to the next leaf. */
  datatype Step = Reached(value: int, pos: nat) | Failed(error: HuffError, pos: nat)

  lemma AlphabetConstants()
    ensures ALPH_SIZE == Pow2(BITS_PER_WORD) && PSEUDO_EOF == 256
  {
    assert Pow2(8) == 256;
  }

  lemma MagicConstants()
    ensures HUFF_TREE == 0xface8201
  {
  }

  lemma IntConstants()
    ensures Pow2(BITS_PER_INT) == 0x1_0000_0000
  {
    assert Pow2(8) == 0x100;
    Pow2Add(8, 8);
    Pow2Add(16, 16);
  }

  /**
    Pass-through compression: copies every 8-bit unit of the input to the
    output, in order, until readBits reports the end of the input.  A trailing
    group of fewer than 8 bits is not a unit and is not copied.
   */
  method Compress(input: seq<bool>) returns (out: seq<bool>)
    ensures out == input[..|input| / BITS_PER_WORD * BITS_PER_WORD]
  {
    out := [];
    var pos: nat := 0;
    ghost var units: nat := 0;
    while true
      invariant pos == units * BITS_PER_WORD <= |input|
      invariant out == input[..pos]
      decreases |input| - pos
    {
      var unit := ReadBits(input, pos, BITS_PER_WORD);
      if unit.value == -1 {
        break;
      }
      CopiesUnit(input, pos);
      out := out + WriteBits(BITS_PER_WORD, unit.value);
      pos := unit.pos;
      units := units + 1;
    }
    assert |input| / BITS_PER_WORD == units;
  }

  /** Writing back a unit that was read extends the copy by exactly that unit. */
  lemma CopiesUnit(input: seq<bool>, pos: nat)
    requires pos + BITS_PER_WORD <= |input|
    ensures input[..pos] + WriteBits(BITS_PER_WORD, ReadBits(input, pos, BITS_PER_WORD).value)
         == input[..pos + BITS_PER_WORD]
  {
    var unit := ReadBits(input, pos, BITS_PER_WORD);
    ReadBitsRoundTrip(input, pos, BITS_PER_WORD);
    assert input[..pos + BITS_PER_WORD] == input[..pos] + input[pos..pos + BITS_PER_WORD];
  }

  /**
    readTreeHeader: one tag bit; 0 is an internal node whose left subtree is
    read next and whose right subtree follows it, 1 is a leaf whose value is
    the next leafBits bits.  A leaf value that cannot be read is kept as -1;
    only a missing tag bit is an error.
   */
  function ReadTreeHeader(input: seq<bool>, pos: nat, leafBits: nat): (r: Header)
    requires pos <= |input|
    ensures r.Header? ==> pos < r.pos <= |input|
    ensures r.HeaderError? ==> r.error == TagBitMissing
    ensures pos == |input| ==> r == HeaderError(TagBitMissing)
    decreases |input| - pos
  {
    var tag := ReadBits(input, pos, 1);
    if tag.value == -1 then
      HeaderError(TagBitMissing)
    else if tag.value == 0 then
      match ReadTreeHeader(input, tag.pos, leafBits)
      case HeaderError(e) => HeaderError(e)
      case Header(left, afterLeft) =>
        match ReadTreeHeader(input, afterLeft, leafBits)
        case HeaderError(e) => HeaderError(e)
        case Header(right, afterRight) => Header(Node(left, right), afterRight)
    else
      var leaf := ReadBits(input, tag.pos, leafBits);
      Header(Leaf(leaf.value), leaf.pos)
  }

  /** Every leaf value read is a leafBits-bit value or the -1 of a truncated leaf. */
  lemma {:induction false} HeaderValues(input: seq<bool>, pos: nat, leafBits: nat)
    requires pos <= |input|
    requires ReadTreeHeader(input, pos, leafBits).Header?
    ensures ValuesIn(ReadTreeHeader(input, pos, leafBits).root, -1, Pow2(leafBits))
    decreases |input| - pos
  {
    var tag := ReadBits(input, pos, 1);
    if tag.value == 0 {
      var left := ReadTreeHeader(input, tag.pos, leafBits);
      HeaderValues(input, tag.pos, leafBits);
      HeaderValues(input, left.pos, leafBits);
    }
  }

  /**
    One symbol of the body: starting at cur, read a bit and move to the left
    (0) or right (1) child until a leaf is reached.  Running out of input is
    NoPseudoEof; stepping below a leaf (only possible when cur is itself a
    leaf) dereferences null.
   */
  function DecodeSymbol(cur: HuffNode, input: seq<bool>, pos: nat): (r: Step)
    requires pos <= |input|
    ensures r.Reached? ==> pos < r.pos <= |input| && HasLeaf(cur, r.value)
    ensures r.Failed? ==>
      || r == Failed(NoPseudoEof, |input|)
      || (r == Failed(NullDereference, pos + 1) && cur.Leaf?)
    ensures cur.Leaf? && pos < |input| ==> r == Failed(NullDereference, pos + 1)
    ensures pos == |input| ==> r == Failed(NoPseudoEof, |input|)
    decreases |input| - pos
  {
    var bit := ReadBits(input, pos, 1);
    if bit.value == -1 then
      Failed(NoPseudoEof, bit.pos)
    else if cur.Leaf? then
      Failed(NullDereference, bit.pos)
    else
      var child := if bit.value == 0 then cur.left else cur.right;
      if child.Leaf? then Reached(child.value, bit.pos)
      else DecodeSymbol(child, input, bit.pos)
  }

  /**
    The body decoder from node cur onwards: decode a symbol; stop on
    PSEUDO_EOF, otherwise write its value and continue from the root.
   */
  function DecodeFrom(root: HuffNode, cur: HuffNode, input: seq<bool>, pos: nat): (r: Run)
    requires pos <= |input|
    ensures pos <= r.pos <= |input|
    ensures r.status == Threw(NoPseudoEof) || r.status == Threw(NullDereference) || r.status == Done
    ensures r.status == Threw(NoPseudoEof) ==> r.pos == |input|
    ensures r.status == Threw(NullDereference) ==> cur.Leaf? || root.Leaf?
    decreases |input| - pos
  {
    match DecodeSymbol(cur, input, pos)
    case Failed(e, p) => Run([], p, Threw(e))
    case Reached(v, p) =>
      if v == PSEUDO_EOF then Run([], p, Done)
      else
        var rest := DecodeFrom(root, root, input, p);
        Run([v] + rest.out, rest.pos, rest.status)
  }

  /** The values already written, followed by those of a run. */
  function Prepend(out: seq<int>, run: Run): Run
  {
    Run(out + run.out, run.pos, run.status)
  }

  /**
    decompressBits: the state machine that keeps the current node, moves it
    one bit at a time, and on a leaf either stops (PSEUDO_EOF) or writes the
    leaf's value and goes back to the root.
   */
  method DecompressBits(input: seq<bool>, start: nat, root: HuffNode) returns (r: Run)
    requires start <= |input|
    ensures r == DecodeFrom(root, root, input, start)
  {
    var current := root;
    var pos := start;
    var out: seq<int> := [];
    while true
      invariant pos <= |input|
      invariant Prepend(out, DecodeFrom(root, current, input, pos)) == DecodeFrom(root, root, input, start)
      decreases |input| - pos
    {
      var bit := ReadBits(input, pos, 1);
      if bit.value == -1 {
        return Run(out, bit.pos, Threw(NoPseudoEof));
      }
      pos := bit.pos;
      if current.Leaf? {
        return Run(out, pos, Threw(NullDereference));
      }
      ghost var parent := current;
      if bit.value == 0 {
        current := current.left;
      } else {
        current := current.right;
      }
      if current.Leaf? {
        if current.value == PSEUDO_EOF {
          return Run(out, pos, Done);
        }
        StepToLeaf(root, parent, input, pos - 1);
        PrependTwice(out, [current.value], DecodeFrom(root, root, input, pos));
        out := out + [current.value];
        current := root;
      } else {
        StepToNode(root, parent, input, pos - 1);
      }
    }
  }

  /** Moving to an internal child consumes one bit and changes nothing else. */
  lemma StepToNode(root: HuffNode, cur: HuffNode, input: seq<bool>, pos: nat)
    requires pos < |input| && cur.Node?
    requires (if input[pos] then cur.right else cur.left).Node?
    ensures DecodeFrom(root, cur, input, pos)
         == DecodeFrom(root, if input[pos] then cur.right else cur.left, input, pos + 1)
  {
    assert input[pos..pos + 1] == [input[pos]];
  }

  /** Reaching a leaf other than PSEUDO_EOF writes its value and restarts at the root. */
  lemma StepToLeaf(root: HuffNode, cur: HuffNode, input: seq<bool>, pos: nat)
    requires pos < |input| && cur.Node?
    requires (if input[pos] then cur.right else cur.left).Leaf?
    requires (if input[pos] then cur.right else cur.left).value != PSEUDO_EOF
    ensures DecodeFrom(root, cur, input, pos)
         == Prepend([(if input[pos] then cur.right else cur.left).value], DecodeFrom(root, root, input, pos + 1))
  {
    assert input[pos..pos + 1] == [input[pos]];
  }

  lemma PrependTwice(a: seq<int>, b: seq<int>, run: Run)
    ensures Prepend(a, Prepend(b, run)) == Prepend(a + b, run)
  {
    assert a + (b + run.out) == (a + b) + run.out;
  }

  /** decompress: magic number, tree header, then the body. */
  function Decompression(input: seq<bool>, leafBits: nat): Run
  {
    var magic := ReadBits(input, 0, BITS_PER_INT);
    if magic.value != HUFF_TREE then
      Run([], magic.pos, Threw(IllegalHeader(magic.value)))
    else
      match ReadTreeHeader(input, magic.pos, leafBits)
      case HeaderError(e) => Run([], |input|, Threw(e))
      case Header(root, p) => DecodeFrom(root, root, input, p)
  }

  method Decompress(input: seq<bool>, leafBits: nat) returns (r: Run)
    ensures r == Decompression(input, leafBits)
    ensures r.status.Threw? && r.status.error.IllegalHeader? ==> r.out == [] && r.pos <= BITS_PER_INT
  {
    var magic := ReadBits(input, 0, BITS_PER_INT);
    if magic.value != HUFF_TREE {
      return Run([], magic.pos, Threw(IllegalHeader(magic.value)));
    }
    var header := ReadTreeHeader(input, magic.pos, leafBits);
    if header.HeaderError? {
      return Run([], |input|, Threw(header.error));
    }
    r := DecompressBits(input, header.pos, header.root);
  }
}
