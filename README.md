# Huffman processor: decompression core

This project models `HuffProcessor`, the decompression half of a Huffman
codec. It has four parts.

**Magic-number check.** `decompress` reads a 32-bit value and rejects any
stream that does not start with `HUFF_TREE` (`0xface8200 | 1`).

**Tree-header parser.** `readTreeHeader` rebuilds the code tree from a
preorder header:
- tag bit 0 starts an internal node, whose left subtree comes next and whose right subtree follows it;
- tag bit 1 starts a leaf, whose value is the next `BITS_PER_WORD` bits.

**Body decoder.** `decompressBits` walks the tree one bit at a time, left
on 0 and right on 1. On a leaf it either stops (the leaf is `PSEUDO_EOF`,
256) or writes the leaf's value and starts again at the root.

**Pass-through compressor.** `compress` copies every 8-bit unit of its
input to its output.

## How the streams are modelled

Streams are values.
- An input stream is a `seq<bool>` plus a cursor.
- `readBits(n)` (`BitStream.ReadBits`) returns the next `n` bits as an unsigned number, most significant bit first. When fewer than `n` bits remain it returns -1 and the rest of the input is consumed.
- `writeBits(n, v)` (`BitStream.WriteBits`) produces the `n` low-order bits of `v`.

Exceptions are the `HuffError` values:
- `IllegalHeader` carries the first 32-bit value read.
- `TagBitMissing` is the "Bit is -1" exception.
- `NoPseudoEof` is "bad input, no PSEUDO_EOF".
- `NullDereference` is the `NullPointerException` that Java raises when the root is a leaf and the walk steps below it.

A decompression run is a `Run` with three fields:
- the values passed to `out.write`, which stay written when an exception follows;
- the final cursor;
- whether the run completed or which exception ended it.

The code is modelled in the form it has in Java:
- `readTreeHeader` is recursive and builds a fresh tree. It is the pure function `HuffProcessor.ReadTreeHeader`, which returns the tree and the new cursor, or an error.
- `compress` and `decompressBits` are `while (true)` loops. They are the methods `HuffProcessor.Compress` and `HuffProcessor.DecompressBits`, with loop invariants.
  - `Compress` is proved against an explicit postcondition.
  - `DecompressBits` is proved equal to the recursive specification `HuffProcessor.DecodeFrom`. The properties of the decoder are proved about `DecodeFrom`.

The width of a leaf value in the header is a parameter of the parser and of
the decompressor.
- `LEAF_BITS_AS_WRITTEN` (8 = `BITS_PER_WORD`) is what line 97 of the source does.
- `LEAF_BITS_INTENDED` (9) is what the format needs (see Findings).

The source has no header writer. `HeaderFormat.Preorder` is a ghost
specification of the header format. The parser is proved against it in both
directions: it reads the header of every tree whose leaf values fit in
leafBits bits, and every header it reads without a truncated leaf is one.

Two places where the class differs from the Huffman format it belongs to;
the model follows the class:
- The format is produced by a Huffman encoder (frequency counting, tree building, code table, header writer). The class contains no encoder: its `compress` only copies the input.
- The format treats a truncated header as an error. The class keeps the -1 that `readBits` returns as the leaf's value; see `HeaderFormat.TruncatedLeaf`.

## Model

| member | source | states |
|---|---|---|
| HuffProcessor.AlphabetConstants | src/HuffProcessor.java:15-16 | `ALPH_SIZE` is `1 << BITS_PER_WORD` = 2^8, and `PSEUDO_EOF` is 256 |
| HuffProcessor.MagicConstants | src/HuffProcessor.java:17-18 | `HUFF_TREE` = `0xface8200 \| 1` = 0xface8201 |
| BitStream.BitsValue | src/HuffProcessor.java:41 | the value `readBits(n)` assembles from n bits, most significant first, is below 2^n |
| BitStream.ReadBits | src/HuffProcessor.java:41-44 | `readBits(n)` returns -1 exactly when fewer than n bits remain; otherwise it returns a value below 2^n and advances the cursor by n; the cursor never passes the end |
| BitStream.ReadOneBit | src/HuffProcessor.java:84-91 | `readBits(1)` returns 0 for a 0 bit and 1 for a 1 bit, and advances the cursor by one |
| BitStream.WriteBits | src/HuffProcessor.java:47 | `writeBits(n, v)` writes exactly n bits |
| BitStream.ValueOfBits | src/HuffProcessor.java:41-47 | reading back what `writeBits(n, v)` wrote yields v for every v in 0 .. 2^n - 1 |
| BitStream.BitsOfValue | src/HuffProcessor.java:41-47 | writing back the value of any bit sequence reproduces the sequence |
| BitStream.ReadBitsRoundTrip | src/HuffProcessor.java:41-47 | `writeBits(n, readBits(n))` reproduces the n bits that were read |
| HuffProcessor.Compress | src/HuffProcessor.java:39-51 | the output is the input up to its last whole 8-bit unit: every unit is copied, in order, and a trailing group of fewer than 8 bits is dropped |
| HuffProcessor.CopiesUnit | src/HuffProcessor.java:41-47 | one loop iteration of `compress` extends the copy by exactly the unit it read |
| HuffProcessor.ReadTreeHeader | src/HuffProcessor.java:82-100 | a parsed header consumes at least one bit and ends within the input; the only error is a missing tag bit, and a parse that starts at the end of the input is that error |
| HuffProcessor.HeaderValues | src/HuffProcessor.java:92-98 | every leaf of a parsed tree holds a value in -1 .. 2^leafBits - 1; with 8-bit leaves that is -1 .. 255, so no leaf is `PSEUDO_EOF` |
| HuffTree.LeavesOutnumberInternal | src/HuffProcessor.java:91-98 | every node the parser builds has zero or two children, so a tree has one more leaf than internal nodes |
| HeaderFormat.ReadsPreorder | src/HuffProcessor.java:82-100 | given the preorder header of any tree whose values fit in leafBits bits, the parser returns exactly that tree and stops right after the header |
| HeaderFormat.ReadsPreorderNode | src/HuffProcessor.java:91-94 | a 0 tag followed by the left and then the right subtree's header yields the internal node |
| HeaderFormat.ReadsNode | src/HuffProcessor.java:91-94 | after a 0 tag, the left subtree is read from the next bit and the right subtree from where the left one ended |
| HeaderFormat.ReadsLeaf | src/HuffProcessor.java:95-98 | a 1 tag followed by the leafBits-bit value v yields `Leaf(v)` |
| HeaderFormat.HeaderIsPreorder | src/HuffProcessor.java:82-100 | conversely, every tree the parser returns without a truncated leaf is described exactly by the bits it consumed |
| HeaderFormat.LeafIsPreorder | src/HuffProcessor.java:95-98 | the bits consumed for a leaf are its tag 1 and its value |
| HeaderFormat.NodeIsPreorder | src/HuffProcessor.java:91-94 | the bits consumed for an internal node are its tag 0, then the left and the right subtree's bits |
| HeaderFormat.HeaderParts | src/HuffProcessor.java:84-98 | a successful parse is either a 1 tag and a leaf value, or a 0 tag followed by two successful sub-parses |
| HeaderFormat.HeaderSize | src/HuffProcessor.java:91-98 | a header is Internal + Leaves × (1 + leafBits) bits long, which is Leaves × (1 + leafBits) + (Leaves - 1) |
| HeaderFormat.HeaderConsumption | src/HuffProcessor.java:91-98 | a parse without a truncated leaf consumes internal nodes × 1 + leaves × (1 + leafBits) bits |
| HeaderFormat.TruncatedLeaf | src/HuffProcessor.java:95-98 | a 1 tag with fewer than leafBits bits after it yields `Leaf(-1)` and uses up the input, with no exception |
| HeaderFormat.TruncatedLeafIsLast | src/HuffProcessor.java:95-98 | a parse that stops before the end of the input holds no -1 leaf: every leaf value is in 0 .. 2^leafBits - 1 |
| HuffProcessor.DecodeSymbol | src/HuffProcessor.java:111-125 | the walk from a node reaches a leaf of that node after at least one bit; otherwise it fails, with either end of input or a null dereference when the start node is a leaf |
| HuffProcessor.DecodeFrom | src/HuffProcessor.java:108-136 | the decoder ends in exactly one of three ways: it stops normally, it throws "no PSEUDO_EOF" with the input used up, or it dereferences null, which happens only when the start node or the root is a leaf (so never from an internal root) |
| HuffProcessor.DecompressBits | src/HuffProcessor.java:108-136 | the `while (true)` state machine computes exactly the decoder specification `DecodeFrom` from the root |
| HuffProcessor.StepToNode | src/HuffProcessor.java:118-125 | bit 0 moves `current` to the left child and bit 1 to the right child, consuming one bit |
| HuffProcessor.StepToLeaf | src/HuffProcessor.java:125-132 | reaching a leaf other than `PSEUDO_EOF` writes its value and restarts at the root |
| HuffProcessor.Decompress | src/HuffProcessor.java:60-74 | `decompress` equals the function `Decompression` (magic check, then header, then body), about which the `DecompressProperties` lemmas are proved; a rejected magic number writes nothing and reads at most 32 bits |
| HuffTree.LeadsToLeaf | src/HuffProcessor.java:118-126 | following a code from a node always ends on a leaf of that node |
| DecoderProperties.DecodesCode | src/HuffProcessor.java:111-125 | following the code of a leaf reaches that leaf after exactly the code's bits |
| DecoderProperties.WalkIsCode | src/HuffProcessor.java:111-125 | conversely, the bits one walk consumes are the code of the leaf it reaches |
| DecoderProperties.DecodesCodes | src/HuffProcessor.java:108-136 | the codes of values other than `PSEUDO_EOF`, followed by the code of `PSEUDO_EOF`, decode to exactly those values in order; the decoder stops right after the `PSEUDO_EOF` code |
| DecoderProperties.WritesThenContinues | src/HuffProcessor.java:125-132 | after a leaf other than `PSEUDO_EOF`, the output is that value followed by what decoding from the root produces |
| DecoderProperties.WritesLeafValues | src/HuffProcessor.java:125-132 | every value written is a leaf value of the tree and not `PSEUDO_EOF`; a normal stop needs a `PSEUDO_EOF` leaf |
| DecoderProperties.NoEofLeafNeverStops | src/HuffProcessor.java:111-127 | a tree without a `PSEUDO_EOF` leaf can only end the body with an exception |
| DecoderProperties.LeafRootDereferencesNull | src/HuffProcessor.java:118-125 | with a leaf root, the first body bit read leads to a null dereference and nothing is written |
| DecompressProperties.MagicComparisonMatchesJava | src/HuffProcessor.java:62-63 | comparing the unsigned value with `HUFF_TREE` decides exactly as Java's signed `int` comparison does; end of input (-1) never passes |
| DecompressProperties.MagicBits | src/HuffProcessor.java:62 | the magic number occupies `BITS_PER_INT` (32) bits |
| DecompressProperties.ReadsMagic | src/HuffProcessor.java:62-63 | a stream that starts with the 32 bits of `HUFF_TREE` passes the check with the cursor at 32 |
| DecompressProperties.BadMagicRejected | src/HuffProcessor.java:62-65 | a stream whose first 32 bits are not `HUFF_TREE` throws `IllegalHeader` with that value, whatever follows; nothing is written and no tree bit is read |
| DecompressProperties.ShortStreamRejected | src/HuffProcessor.java:62-65 | a stream shorter than 32 bits throws `IllegalHeader(-1)` |
| DecompressProperties.DecompressionOfBody | src/HuffProcessor.java:67-71 | past an accepted magic number and header, decompression is the body decoder from the parsed root |
| DecompressProperties.RoundTrip | src/HuffProcessor.java:60-74 | for any leaf width that fits the tree's values: magic, then the tree's header, then the codes of the values and of `PSEUDO_EOF`, decompress to exactly those values |
| DecompressProperties.AsWrittenNeverCompletes | src/HuffProcessor.java:95-98 | with 8-bit leaf values, as the code reads them, every stream ends in an exception, and in a null dereference only when the parsed root is a leaf |
| DecompressProperties.IntendedRoundTrip | src/HuffProcessor.java:60-74 | with 9-bit leaf values the format round-trips, and nothing after the `PSEUDO_EOF` code is read |
| DecompressProperties.OneSymbolStream | src/HuffProcessor.java:60-74 | one concrete stream decompresses to `[97]` with 9-bit leaves but throws as written |

## Left out

- The `BitInputStream` and `BitOutputStream` classes are not part of this model.
  - Buffering, `close()` and flushing are not modelled.
  - `out.close()` at lines 50 and 73, and any padding of the last byte, are not modelled.
  - The input is a bit sequence with a cursor.
  - The output of `compress` is the bit sequence written; the output of `decompress` is the sequence of values passed to `out.write`.
- Reading an exhausted input consumes the bits that remain. This is the model's reading of `BitInputStream.readBits`; that class is outside this model.
- The `HuffNode` class is not part of this model. Its weight is always 0 where the processor builds nodes (lines 94, 98), so a node is `Leaf(value)` or `Node(left, right)`.
- The debug level field, `DEBUG_HIGH`, `DEBUG_LOW` and the constructors (lines 20-31) are not modelled; nothing in the core uses them.
- Exception messages are not modelled, only which exception is thrown.
- The recursion depth of `readTreeHeader` is not modelled. In Java a long enough run of 0 tags overflows the stack (`StackOverflowError`); the model has no depth limit and parses a header of any depth (a run of 0 tags that reaches the end of the input gives `TagBitMissing`).
- The Java `NullPointerException` when the root is a leaf is modelled as the explicit error `NullDereference`. It is raised after the first body bit has been read.
- The Huffman encoder (frequency counting, tree building, code table, header writer, sentinel emission) is not modelled, because the code does not contain it. `HeaderFormat.Preorder` exists only as a ghost specification of the header format.
- BitStream.WriteBits: only its length is stated in its own contract. The value it writes is proved through `ValueOfBits` for values that fit in n bits (the only ones the processor writes). The low-order-bits reading for negative or oversized values is not proved.
- HeaderFormat.HeaderConsumption: the bit count is stated only for trees without a truncated leaf. A truncated leaf consumes whatever bits remained; see `HeaderFormat.TruncatedLeaf`.
- HuffProcessor.Decompression: the magic number is compared as the unsigned value `readBits` returns, rather than as a Java `int`. `DecompressProperties.MagicComparisonMatchesJava` proves that this decides the same way.
- `IllegalHeader` carries the unsigned value read rather than the signed `int` that the exception message prints.

## Findings

| source | as written | input that shows it | evidently intended | confidence | as-written member | corrected member |
|---|---|---|---|---|---|---|
| src/HuffProcessor.java:95-98 | the leaf value is read with `BITS_PER_WORD` (8) bits, although the comment says nine, so no parsed leaf can be `PSEUDO_EOF` (256) and every decompression ends in an exception | magic 0xface8201, header `0 1 001100001 1 100000000` (leaves 97 and 256 in 9 bits), body `0 1`: with 8-bit leaves the parser reads the wrong tree and the run throws | read `BITS_PER_WORD + 1` (9) bits per leaf, so that 257 symbol values fit and the stream above decompresses to `[97]` | not executed | DecompressProperties.AsWrittenNeverCompletes | DecompressProperties.IntendedRoundTrip |
