/**
  Properties of a whole decompression: the magic number check, and what the
  width of the header's leaf values does to the outcome.
 */
module DecompressProperties {
  import opened BitStream
  import opened HuffTree
  import opened HuffProcessor
  import opened HeaderFormat
  import opened DecoderProperties

  /** The Java int that holds a value returned by readBits(32) (-1 stays -1). */
  function AsJavaInt(v: int): int
    requires -1 <= v < 0x1_0000_0000
  {
    if v >= 0x8000_0000 then v - 0x1_0000_0000 else v
  }

  /**
    Comparing the unsigned value with HUFF_TREE decides exactly as Java's
    comparison of the two signed ints does, and end of input never passes.
   */
  lemma MagicComparisonMatchesJava(v: int)
    requires -1 <= v < 0x1_0000_0000
    ensures AsJavaInt(v) == AsJavaInt(HUFF_TREE) <==> v == HUFF_TREE
    ensures AsJavaInt(HUFF_TREE) != -1
  {
    MagicConstants();
    IntConstants();
  }

  /** The 32 bits of HUFF_TREE, most significant first. */
  function MagicBits(): (bits: seq<bool>)
    ensures |bits| == BITS_PER_INT
  {
    WriteBits(BITS_PER_INT, HUFF_TREE)
  }

  /**
    A stream whose first 32 bits are not HUFF_TREE is rejected with nothing
    written and before any tree bit is read, whatever follows.
   */
  lemma BadMagicRejected(first: seq<bool>, rest: seq<bool>, leafBits: nat)
    requires |first| == BITS_PER_INT
    requires BitsValue(first) != HUFF_TREE
    ensures Decompression(first + rest, leafBits) == Run([], BITS_PER_INT, Threw(IllegalHeader(BitsValue(first))))
  {
    assert (first + rest)[0..BITS_PER_INT] == first;
  }

  /** A stream shorter than the magic number is rejected as the header -1. */
  lemma ShortStreamRejected(input: seq<bool>, leafBits: nat)
    requires |input| < BITS_PER_INT
    ensures Decompression(input, leafBits) == Run([], |input|, Threw(IllegalHeader(-1)))
  {
    MagicConstants();
  }

  /**
    With the header's leaves read in LEAF_BITS_AS_WRITTEN (8) bits no leaf can
    be PSEUDO_EOF, so decompression never completes: every stream ends in an
    exception, and a null dereference only when the parsed root is a leaf.
   */
  lemma AsWrittenNeverCompletes(input: seq<bool>)
    ensures var r := Decompression(input, LEAF_BITS_AS_WRITTEN);
      && r.status.Threw?
      && (r.status.error == NullDereference ==>
            && BITS_PER_INT <= |input|
            && ReadTreeHeader(input, BITS_PER_INT, LEAF_BITS_AS_WRITTEN).Header?
            && ReadTreeHeader(input, BITS_PER_INT, LEAF_BITS_AS_WRITTEN).root.Leaf?)
  {
    var magic := ReadBits(input, 0, BITS_PER_INT);
    if magic.value == HUFF_TREE {
      var header := ReadTreeHeader(input, magic.pos, LEAF_BITS_AS_WRITTEN);
      if header.Header? {
        AlphabetConstants();
        HeaderValues(input, magic.pos, LEAF_BITS_AS_WRITTEN);
        if HasLeaf(header.root, PSEUDO_EOF) {
          ValuesInHasLeaf(header.root, -1, Pow2(LEAF_BITS_AS_WRITTEN), PSEUDO_EOF);
        }
        NoEofLeafNeverStops(header.root, input, header.pos);
      }
    }
  }

  /**
    With leaf values read in LEAF_BITS_INTENDED (9) bits the format round-trips:
    the magic number, the header of a tree and the codes of vals followed by the
    code of PSEUDO_EOF decompress to exactly vals, and nothing after the
    PSEUDO_EOF code is read.
   */
  lemma {:induction false} IntendedRoundTrip(t: HuffNode, codes: seq<seq<bool>>, vals: seq<int>, eof: seq<bool>, rest: seq<bool>)
    requires ValuesIn(t, 0, Pow2(LEAF_BITS_INTENDED))
    requires |codes| == |vals|
    requires forall i :: 0 <= i < |codes| ==> LeadsTo(t, codes[i], vals[i]) && vals[i] != PSEUDO_EOF
    requires LeadsTo(t, eof, PSEUDO_EOF)
    ensures
      var header, body := Preorder(t, LEAF_BITS_INTENDED), Concat(codes) + eof;
      Decompression(MagicBits() + header + body + rest, LEAF_BITS_INTENDED)
        == Run(vals, BITS_PER_INT + |header| + |body|, Done)
  {
    var header, body := Preorder(t, LEAF_BITS_INTENDED), Concat(codes) + eof;
    var input := MagicBits() + header + body + rest;
    Parts(MagicBits(), header, body, rest);
    CodesOfEach(t, codes, vals);
    RoundTrip(input, t, LEAF_BITS_INTENDED, codes, vals, eof);
  }

  /**
    The round trip for any leaf width wide enough for the tree's values: the
    input holds the magic number, the header and the body one after another.
   */
  lemma {:induction false} RoundTrip(input: seq<bool>, t: HuffNode, leafBits: nat, codes: seq<seq<bool>>, vals: seq<int>, eof: seq<bool>)
    requires ValuesIn(t, 0, Pow2(leafBits))
    requires CodesOf(t, codes, vals) && LeadsTo(t, eof, PSEUDO_EOF)
    requires At(input, 0, MagicBits())
    requires At(input, BITS_PER_INT, Preorder(t, leafBits))
    requires At(input, BITS_PER_INT + |Preorder(t, leafBits)|, Concat(codes) + eof)
    ensures Decompression(input, leafBits)
         == Run(vals, BITS_PER_INT + |Preorder(t, leafBits)| + |Concat(codes) + eof|, Done)
  {
    var header, body := Preorder(t, leafBits), Concat(codes) + eof;
    var start := BITS_PER_INT + |header|;
    assert ReadBits(input, 0, BITS_PER_INT) == Read(HUFF_TREE, BITS_PER_INT) by {
      ReadsMagic(input);
    }
    assert ReadTreeHeader(input, BITS_PER_INT, leafBits) == Header(t, start) by {
      ReadsPreorder(t, leafBits, input, BITS_PER_INT);
    }
    assert DecodeFrom(t, t, input, start) == Run(vals, start + |body|, Done) by {
      AtSlice(input, start, body);
      DecodesCodes(t, codes, vals, eof, input, start);
    }
    DecompressionOfBody(input, leafBits, t, start);
  }

  /** Where each part of a + b + c + d lies. */
  lemma Parts(a: seq<bool>, b: seq<bool>, c: seq<bool>, d: seq<bool>)
    ensures var s := a + b + c + d;
      At(s, 0, a) && At(s, |a|, b) && At(s, |a| + |b|, c)
  {
  }

  /** The magic number at the front of the input is accepted. */
  lemma ReadsMagic(input: seq<bool>)
    requires At(input, 0, MagicBits())
    ensures ReadBits(input, 0, BITS_PER_INT) == Read(HUFF_TREE, BITS_PER_INT)
  {
    MagicConstants();
    IntConstants();
    AtSlice(input, 0, MagicBits());
    ValueOfBits(HUFF_TREE, BITS_PER_INT);
  }

  /** Past an accepted magic number and tree header, decompression is the body decoder. */
  lemma DecompressionOfBody(input: seq<bool>, leafBits: nat, root: HuffNode, start: nat)
    requires ReadBits(input, 0, BITS_PER_INT) == Read(HUFF_TREE, BITS_PER_INT)
    requires ReadTreeHeader(input, BITS_PER_INT, leafBits) == Header(root, start)
    ensures Decompression(input, leafBits) == DecodeFrom(root, root, input, start)
  {
  }

  /**
    One stream in the intended format: magic number; header 0, 1 97, 1 256
    (leaves 'a' and PSEUDO_EOF in 9 bits each); body 0 1 ('a', then
    PSEUDO_EOF).  With 9-bit leaves it decompresses to [97]; as written it
    throws.
   */
  lemma OneSymbolStream()
    ensures
      var input := MagicBits() + OneSymbolHeader() + [false, true];
      && Decompression(input, LEAF_BITS_INTENDED) == Run([97], |input|, Done)
      && Decompression(input, LEAF_BITS_AS_WRITTEN).status.Threw?
  {
    AlphabetConstants();
    var t := Node(Leaf(97), Leaf(PSEUDO_EOF));
    OneSymbolHeaderIsPreorder();
    assert LeadsTo(t, [false], 97);
    assert LeadsTo(t, [true], PSEUDO_EOF);
    assert Concat([[false]]) + [true] == [false, true];
    IntendedRoundTrip(t, [[false]], [97], [true], []);
    var input := MagicBits() + OneSymbolHeader() + [false, true];
    assert input + [] == input;
    AsWrittenNeverCompletes(input);
  }

  /** Header 0, 1 97, 1 256, with 9-bit leaf values. */
  function OneSymbolHeader(): seq<bool>
  {
    [false]
      + [true] + [false, false, true, true, false, false, false, false, true]
      + [true] + [true, false, false, false, false, false, false, false, false]
  }

  lemma OneSymbolHeaderIsPreorder()
    ensures Pow2(LEAF_BITS_INTENDED) == 512
    ensures Preorder(Node(Leaf(97), Leaf(PSEUDO_EOF)), LEAF_BITS_INTENDED) == OneSymbolHeader()
  {
    AlphabetConstants();
    assert Pow2(9) == 2 * Pow2(8);
    SmallBits();
  }

  lemma SmallBits()
    ensures WriteBits(9, 97) == [false, false, true, true, false, false, false, false, true]
    ensures WriteBits(9, 256) == [true, false, false, false, false, false, false, false, false]
  {
    assert Pow2(9) == 512;
    ZeroBits(8);
    assert WriteBits(2, 0) == [false, false];
    assert WriteBits(3, 1) == [false, false, true];
    assert WriteBits(4, 3) == [false, false, true, true];
    assert WriteBits(5, 6) == [false, false, true, true, false];
    assert WriteBits(6, 12) == [false, false, true, true, false, false];
    assert WriteBits(7, 24) == [false, false, true, true, false, false, false];
    assert WriteBits(8, 48) == [false, false, true, true, false, false, false, false];
  }

  lemma {:induction false} ZeroBits(n: nat)
    ensures WriteBits(n, 0) == seq(n, _ => false)
  {
    if n > 0 {
      ZeroBits(n - 1);
    }
  }
}
