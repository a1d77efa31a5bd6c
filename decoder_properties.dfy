/**
  What the body decoder computes: the values of the leaves its walk reaches,
  in order, up to the first PSEUDO_EOF leaf.
 */
module DecoderProperties {
  import opened BitStream
  import opened HuffTree
  import opened HuffProcessor

  /** The codes of a sequence of symbols, one after the other. */
  function Concat(codes: seq<seq<bool>>): (bits: seq<bool>)
  {
    if |codes| == 0 then [] else codes[0] + Concat(codes[1..])
  }

  /** Following the code of a leaf from cur reaches that leaf, after exactly the code's bits. */
  lemma {:induction false} DecodesCode(cur: HuffNode, path: seq<bool>, v: int, input: seq<bool>, pos: nat)
    requires LeadsTo(cur, path, v)
    requires pos + |path| <= |input| && input[pos..pos + |path|] == path
    ensures DecodeSymbol(cur, input, pos) == Reached(v, pos + |path|)
    decreases |path|
  {
    assert input[pos] == path[0];
    ReadOneBit(input, pos);
    if |path| > 1 {
      var child := if path[0] then cur.right else cur.left;
      assert input[pos + 1..pos + |path|] == path[1..];
      DecodesCode(child, path[1..], v, input, pos + 1);
    }
  }

  /** Conversely, the bits a symbol walk consumes are the code of the leaf it reaches. */
  lemma {:induction false} WalkIsCode(cur: HuffNode, input: seq<bool>, pos: nat)
    requires pos <= |input|
    requires DecodeSymbol(cur, input, pos).Reached?
    ensures var s := DecodeSymbol(cur, input, pos);
      LeadsTo(cur, input[pos..s.pos], s.value)
    decreases |input| - pos
  {
    var s := DecodeSymbol(cur, input, pos);
    ReadOneBit(input, pos);
    var child := if input[pos] then cur.right else cur.left;
    if child.Node? {
      WalkIsCode(child, input, pos + 1);
      assert input[pos..s.pos][1..] == input[pos + 1..s.pos];
    }
  }

  /**
    codes[i] is the code of vals[i] below root for every i, and no val is
    PSEUDO_EOF.
   */
  predicate CodesOf(root: HuffNode, codes: seq<seq<bool>>, vals: seq<int>)
    decreases |codes|
  {
    && |codes| == |vals|
    && (|codes| > 0 ==>
      && LeadsTo(root, codes[0], vals[0])
      && vals[0] != PSEUDO_EOF
      && CodesOf(root, codes[1..], vals[1..]))
  }

  /** CodesOf holds exactly when every code leads to its value. */
  lemma {:induction false} CodesOfEach(root: HuffNode, codes: seq<seq<bool>>, vals: seq<int>)
    requires |codes| == |vals|
    ensures CodesOf(root, codes, vals)
        <==> forall i :: 0 <= i < |codes| ==> LeadsTo(root, codes[i], vals[i]) && vals[i] != PSEUDO_EOF
    decreases |codes|
  {
    if |codes| > 0 {
      CodesOfEach(root, codes[1..], vals[1..]);
      assert forall i :: 0 < i < |codes| ==> codes[1..][i - 1] == codes[i] && vals[1..][i - 1] == vals[i];
    }
  }

  /**
    Decoding the codes of vals followed by the code of PSEUDO_EOF writes
    exactly vals and stops just after the PSEUDO_EOF code.
   */
  lemma {:induction false} DecodesCodes(root: HuffNode, codes: seq<seq<bool>>, vals: seq<int>,
                                        eof: seq<bool>, input: seq<bool>, pos: nat)
    requires CodesOf(root, codes, vals)
    requires LeadsTo(root, eof, PSEUDO_EOF)
    requires pos + |Concat(codes) + eof| <= |input|
    requires input[pos..pos + |Concat(codes) + eof|] == Concat(codes) + eof
    ensures DecodeFrom(root, root, input, pos) == Run(vals, pos + |Concat(codes) + eof|, Done)
    decreases |codes|
  {
    if |codes| == 0 {
      assert Concat(codes) + eof == eof;
      DecodesCode(root, eof, PSEUDO_EOF, input, pos);
    } else {
      var next := DecodesFirstCode(root, codes, vals, eof, input, pos);
      DecodesCodes(root, codes[1..], vals[1..], eof, input, next);
      WritesThenContinues(root, input, pos);
      assert vals == [vals[0]] + vals[1..];
    }
  }

  /** The first code of a non-empty sequence decodes to the first value; the rest follows. */
  lemma DecodesFirstCode(root: HuffNode, codes: seq<seq<bool>>, vals: seq<int>,
                         eof: seq<bool>, input: seq<bool>, pos: nat) returns (next: nat)
    requires |codes| > 0 && CodesOf(root, codes, vals)
    requires pos + |Concat(codes) + eof| <= |input|
    requires input[pos..pos + |Concat(codes) + eof|] == Concat(codes) + eof
    ensures next == pos + |codes[0]|
    ensures DecodeSymbol(root, input, pos) == Reached(vals[0], next)
    ensures next + |Concat(codes[1..]) + eof| == pos + |Concat(codes) + eof|
    ensures input[next..next + |Concat(codes[1..]) + eof|] == Concat(codes[1..]) + eof
  {
    var code, rest := codes[0], Concat(codes[1..]) + eof;
    assert Concat(codes) + eof == code + rest;
    SplitSlice(input, pos, code, rest);
    DecodesCode(root, code, vals[0], input, pos);
    next := pos + |code|;
  }

  /** A slice holding a + b holds a and then b. */
  lemma SplitSlice(input: seq<bool>, pos: nat, a: seq<bool>, b: seq<bool>)
    requires pos + |a + b| <= |input| && input[pos..pos + |a + b|] == a + b
    ensures input[pos..pos + |a|] == a
    ensures input[pos + |a|..pos + |a| + |b|] == b
  {
    var slice := input[pos..pos + |a + b|];
    assert input[pos..pos + |a|] == slice[..|a|];
    assert input[pos + |a|..pos + |a| + |b|] == slice[|a|..];
  }

  /** Reaching a leaf other than PSEUDO_EOF from the root writes it and restarts. */
  lemma WritesThenContinues(root: HuffNode, input: seq<bool>, pos: nat)
    requires pos <= |input|
    requires DecodeSymbol(root, input, pos).Reached?
    requires DecodeSymbol(root, input, pos).value != PSEUDO_EOF
    ensures var s := DecodeSymbol(root, input, pos);
      DecodeFrom(root, root, input, pos) == Prepend([s.value], DecodeFrom(root, root, input, s.pos))
  {
  }

  /**
    Every value the decoder writes is a leaf value of the tree other than
    PSEUDO_EOF, and it only stops normally on a PSEUDO_EOF leaf.
   */
  lemma {:induction false} WritesLeafValues(root: HuffNode, input: seq<bool>, pos: nat)
    requires pos <= |input|
    ensures var r := DecodeFrom(root, root, input, pos);
      && (forall i :: 0 <= i < |r.out| ==> HasLeaf(root, r.out[i]) && r.out[i] != PSEUDO_EOF)
      && (r.status == Done ==> HasLeaf(root, PSEUDO_EOF))
    decreases |input| - pos
  {
    match DecodeSymbol(root, input, pos)
    case Failed(_, _) =>
    case Reached(v, p) =>
      if v != PSEUDO_EOF {
        WritesLeafValues(root, input, p);
      }
  }

  /** A tree without a PSEUDO_EOF leaf can only end the body in an exception. */
  lemma NoEofLeafNeverStops(root: HuffNode, input: seq<bool>, pos: nat)
    requires pos <= |input|
    requires !HasLeaf(root, PSEUDO_EOF)
    ensures DecodeFrom(root, root, input, pos).status.Threw?
  {
    WritesLeafValues(root, input, pos);
  }

  /** A leaf root is dereferenced below as soon as one body bit is read. */
  lemma LeafRootDereferencesNull(v: int, input: seq<bool>, pos: nat)
    requires pos < |input|
    ensures DecodeFrom(Leaf(v), Leaf(v), input, pos) == Run([], pos + 1, Threw(NullDereference))
  {
  }
}
