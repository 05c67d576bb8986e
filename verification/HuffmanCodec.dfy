/**
  The code table of src/Core/HuffmanCodec.cc: the depth-first search over the shared bit set, and
  what its codes are worth. The bit-packing loop of the source is unfinished; `Encode` below is the
  bit string such a loop has to write, and `Decode` shows that it can be read back.
*/
module HuffmanCodec {
  import opened Bytes
  import opened HuffmanTree
  import opened Options

  const HUFFMAN_MAX_BITS := 255

  datatype BitCode = BitCode(numBits: nat, bits: seq<bool>)

  // ---------- paths ----------

  predicate Has(t: Node, s: byte)
  {
    match t
    case Leaf(_, symbol) => symbol == s
    case Inner(_, l, r) => Has(l, s) || Has(r, s)
  }

  /** No symbol labels two leaves. */
  ghost predicate Distinct(t: Node)
  {
    match t
    case Leaf(_, _) => true
    case Inner(_, l, r) => Distinct(l) && Distinct(r) && forall s: byte :: !(Has(l, s) && Has(r, s))
  }

  /** The way from the root to the leaf of `s`: false to the left, true to the right. */
  function Path(t: Node, s: byte): (p: seq<bool>)
    requires Has(t, s)
    ensures |p| <= TreeHeight(t)
  {
    match t
    case Leaf(_, _) => []
    case Inner(_, l, r) => if Has(l, s) then [false] + Path(l, s) else [true] + Path(r, s)
  }

  /** The code of a symbol: its path and one more zero bit, as num_bits is the depth plus one. */
  function Codeword(t: Node, s: byte): seq<bool>
    requires Has(t, s)
  {
    Path(t, s) + [false]
  }

  /** The bits the table entry stands for. */
  function Bits(code: BitCode): seq<bool>
    requires code.numBits <= |code.bits|
  {
    code.bits[..code.numBits]
  }

  function Zeros(n: nat): seq<bool> { seq(n, _ => false) }

  /** A bit set that starts with `prefix` and is clear from there on. */
  function BitSet(prefix: seq<bool>): (b: seq<bool>)
    requires |prefix| <= HUFFMAN_MAX_BITS
    ensures |b| == HUFFMAN_MAX_BITS
  {
    prefix + Zeros(HUFFMAN_MAX_BITS - |prefix|)
  }

  // ---------- the depth-first search ----------

  /**
    Fills the entries of the symbols below `node` and leaves all others alone. The bit set is
    shared by the whole recursion: it is given back as it was found.
   */
  method GenerateCodeTable(out: array<BitCode>, node: Node, depth: nat, current: array<bool>)
    requires out.Length == ALPHABET_SIZE && current.Length == HUFFMAN_MAX_BITS
    requires depth + TreeHeight(node) <= HUFFMAN_MAX_BITS
    requires forall k :: depth <= k < HUFFMAN_MAX_BITS ==> !current[k]
    requires Distinct(node)
    modifies out, current
    ensures current[..] == old(current[..])
    ensures forall s: byte :: out[s] == if Has(node, s)
      then BitCode(depth + |Path(node, s)| + 1, BitSet(old(current[..depth]) + Path(node, s)))
      else old(out[s])
    decreases node
  {
    ghost var prefix := current[..depth];
    match node
    case Leaf(_, symbol) =>
      out[symbol] := BitCode(depth + 1, current[..]);
      assert current[..] == BitSet(prefix + []);
    case Inner(_, l, r) =>
      ghost var before := current[..];
      GenerateCodeTable(out, l, depth + 1, current);
      assert current[..depth + 1] == prefix + [false];
      assert forall s: byte :: Has(l, s) ==> (prefix + [false]) + Path(l, s) == prefix + Path(node, s);
      current[depth] := true;
      assert current[..depth + 1] == prefix + [true];
      GenerateCodeTable(out, r, depth + 1, current);
      assert forall s: byte :: Has(r, s) && !Has(l, s) ==> (prefix + [true]) + Path(r, s) == prefix + Path(node, s);
      current[depth] := false;
      assert current[..] == before;
  }

  // ---------- the tree of an input labels each leaf once ----------

  ghost function Labels(t: Node, s: byte): nat
  {
    match t
    case Leaf(_, symbol) => if symbol == s then 1 else 0
    case Inner(_, l, r) => Labels(l, s) + Labels(r, s)
  }

  lemma {:induction false} HasIsLabelled(t: Node, s: byte)
    ensures Has(t, s) <==> Labels(t, s) > 0
  {
    if t.Inner? {
      HasIsLabelled(t.left, s);
      HasIsLabelled(t.right, s);
    }
  }

  lemma {:induction false} SingleLabelsAreDistinct(t: Node)
    requires forall s: byte :: Labels(t, s) <= 1
    ensures Distinct(t)
  {
    if t.Inner? {
      forall s: byte ensures Labels(t.left, s) <= 1 && Labels(t.right, s) <= 1 && !(Has(t.left, s) && Has(t.right, s)) {
        assert Labels(t, s) <= 1;
        HasIsLabelled(t.left, s);
        HasIsLabelled(t.right, s);
      }
      SingleLabelsAreDistinct(t.left);
      SingleLabelsAreDistinct(t.right);
    }
  }

  lemma {:induction false} LabelsAreLeaves(t: Node, s: byte, f: nat)
    requires forall g: nat :: (s, g) in Leaves(t) ==> g == f
    ensures Labels(t, s) == Leaves(t)[(s, f)]
  {
    match t
    case Leaf(g, symbol) => assert (symbol, g) in Leaves(t);
    case Inner(_, l, r) =>
      assert forall g: nat :: (s, g) in Leaves(l) ==> (s, g) in Leaves(t);
      assert forall g: nat :: (s, g) in Leaves(r) ==> (s, g) in Leaves(t);
      LabelsAreLeaves(l, s, f);
      LabelsAreLeaves(r, s, f);
  }

  lemma {:induction false} SymbolLeavesOf(input: seq<byte>, n: nat, s: byte, f: nat)
    requires n <= ALPHABET_SIZE
    ensures SymbolLeaves(input, n)[(s, f)] == if s < n && f == Count(input, s) > 0 then 1 else 0
  {
    if n > 0 { SymbolLeavesOf(input, n - 1, s, f); }
  }

  /** Every leaf counts how often its symbol occurs. */
  ghost predicate CountsInput(t: Node, input: seq<byte>)
  {
    match t
    case Leaf(f, s) => f == Count(input, s)
    case Inner(_, l, r) => CountsInput(l, input) && CountsInput(r, input)
  }

  lemma {:induction false} LeavesCountInput(t: Node, input: seq<byte>)
    requires forall s: byte, f: nat :: (s, f) in Leaves(t) ==> f == Count(input, s)
    ensures CountsInput(t, input)
  {
    match t
    case Leaf(f, s) => assert (s, f) in Leaves(t);
    case Inner(_, l, r) =>
      assert forall s: byte, f: nat :: (s, f) in Leaves(l) ==> (s, f) in Leaves(t);
      assert forall s: byte, f: nat :: (s, f) in Leaves(r) ==> (s, f) in Leaves(t);
      LeavesCountInput(l, input);
      LeavesCountInput(r, input);
  }

  lemma TreeOfInput(t: Node, input: seq<byte>)
    requires Leaves(t) == InputLeaves(input)
    ensures Distinct(t) && CountsInput(t, input)
    ensures forall s: byte :: Has(t, s) <==> Count(input, s) > 0
  {
    forall s: byte, f: nat
      ensures Leaves(t)[(s, f)] == if f == Count(input, s) > 0 then 1 else 0
    {
      SymbolLeavesOf(input, ALPHABET_SIZE, s, f);
    }
    forall s: byte ensures Labels(t, s) <= 1 && (Has(t, s) <==> Count(input, s) > 0) {
      LabelsAreLeaves(t, s, Count(input, s));
      HasIsLabelled(t, s);
    }
    SingleLabelsAreDistinct(t);
    LeavesCountInput(t, input);
  }

  // ---------- encoding and decoding ----------

  /** The codes of all bytes of the input, one after the other. */
  function Encode(t: Node, input: seq<byte>): seq<bool>
    requires forall s :: s in input ==> Has(t, s)
  {
    if input == [] then [] else Codeword(t, input[0]) + Encode(t, input[1..])
  }

  /** Walks down to a leaf and takes the trailing zero; yields the symbol and the number of bits taken. */
  function DecodeOne(t: Node, bits: seq<bool>): (r: Option<(byte, nat)>)
    ensures r.Some? ==> 0 < r.value.1 <= |bits|
  {
    if bits == [] then None
    else match t
      case Leaf(_, s) => if bits[0] then None else Some((s, 1))
      case Inner(_, l, r) =>
        var rest := DecodeOne(if bits[0] then r else l, bits[1..]);
        if rest.None? then None else Some((rest.value.0, rest.value.1 + 1))
  }

  function Decode(t: Node, bits: seq<bool>): Option<seq<byte>>
    decreases |bits|
  {
    if bits == [] then Some([])
    else
      var one := DecodeOne(t, bits);
      if one.None? then None
      else
        var rest := Decode(t, bits[one.value.1..]);
        if rest.None? then None else Some([one.value.0] + rest.value)
  }

  lemma {:induction false} DecodeOneCodeword(t: Node, s: byte, tail: seq<bool>)
    requires Has(t, s)
    ensures DecodeOne(t, Codeword(t, s) + tail) == Some((s, |Codeword(t, s)|))
  {
    if t.Inner? {
      var child := if Has(t.left, s) then t.left else t.right;
      DecodeOneCodeword(child, s, tail);
      assert (Codeword(t, s) + tail)[1..] == Codeword(child, s) + tail;
    }
  }

  /** Decoding undoes encoding. */
  lemma {:induction false} DecodeEncode(t: Node, input: seq<byte>)
    requires forall s :: s in input ==> Has(t, s)
    ensures Decode(t, Encode(t, input)) == Some(input)
  {
    if input != [] {
      var code, tail := Codeword(t, input[0]), Encode(t, input[1..]);
      DecodeOneCodeword(t, input[0], tail);
      assert (code + tail)[|code|..] == tail;
      DecodeEncode(t, input[1..]);
      assert [input[0]] + input[1..] == input;
    }
  }

  /** Hence the code is uniquely decodable. */
  lemma EncodeIsInjective(t: Node, input: seq<byte>, other: seq<byte>)
    requires forall s :: s in input ==> Has(t, s)
    requires forall s :: s in other ==> Has(t, s)
    requires Encode(t, input) == Encode(t, other)
    ensures input == other
  {
    DecodeEncode(t, input);
    DecodeEncode(t, other);
  }

  /** No code is a prefix of another one. */
  lemma CodesArePrefixFree(t: Node, s: byte, u: byte)
    requires Has(t, s) && Has(t, u) && s != u
    ensures !(Codeword(t, s) <= Codeword(t, u))
  {
    var c, d := Codeword(t, s), Codeword(t, u);
    if c <= d {
      assert c + d[|c|..] == d && d + [] == d;
      DecodeOneCodeword(t, s, d[|c|..]);
      DecodeOneCodeword(t, u, []);
    }
  }

  // ---------- the length of the encoded input ----------

  /** Total depth of the leaves of the bytes of the input, with `depth` added to each. */
  ghost function CountCost(t: Node, input: seq<byte>, depth: nat): nat
  {
    match t
    case Leaf(_, s) => Count(input, s) * depth
    case Inner(_, l, r) => CountCost(l, input, depth + 1) + CountCost(r, input, depth + 1)
  }

  lemma {:induction false} CountCostOfTree(t: Node, input: seq<byte>, depth: nat)
    requires CountsInput(t, input)
    ensures CountCost(t, input, depth) == HuffmanOptimality.Cost(ShapeOf(t), depth)
  {
    if t.Inner? {
      CountCostOfTree(t.left, input, depth + 1);
      CountCostOfTree(t.right, input, depth + 1);
    }
  }

  lemma {:induction false} CountCostWithout(t: Node, input: seq<byte>, depth: nat)
    requires input != [] && !Has(t, input[|input| - 1])
    ensures CountCost(t, input, depth) == CountCost(t, input[..|input| - 1], depth)
  {
    if t.Inner? {
      CountCostWithout(t.left, input, depth + 1);
      CountCostWithout(t.right, input, depth + 1);
    }
  }

  lemma {:induction false} CountCostStep(t: Node, input: seq<byte>, depth: nat)
    requires input != [] && Distinct(t) && Has(t, input[|input| - 1])
    ensures CountCost(t, input, depth)
      == CountCost(t, input[..|input| - 1], depth) + depth + |Path(t, input[|input| - 1])|
  {
    var front, c := input[..|input| - 1], input[|input| - 1];
    if t.Leaf? {
      assert Count(input, c) == Count(front, c) + 1;
      assert (Count(front, c) + 1) * depth == Count(front, c) * depth + depth;
    } else if Has(t.left, c) {
      CountCostStep(t.left, input, depth + 1);
      CountCostWithout(t.right, input, depth + 1);
    } else {
      CountCostStep(t.right, input, depth + 1);
      CountCostWithout(t.left, input, depth + 1);
    }
  }

  lemma {:induction false} CountCostOfNothing(t: Node, depth: nat)
    ensures CountCost(t, [], depth) == 0
  {
    if t.Inner? {
      CountCostOfNothing(t.left, depth + 1);
      CountCostOfNothing(t.right, depth + 1);
    }
  }

  lemma {:induction false} EncodeAppend(t: Node, input: seq<byte>, s: byte)
    requires Has(t, s) && forall u :: u in input ==> Has(t, u)
    ensures forall u :: u in input + [s] ==> Has(t, u)
    ensures |Encode(t, input + [s])| == |Encode(t, input)| + |Codeword(t, s)|
  {
    if input == [] {
      assert input + [s] == [s] && [s][1..] == [];
    } else {
      EncodeAppend(t, input[1..], s);
      assert (input + [s])[1..] == input[1..] + [s];
    }
  }

  lemma {:induction false} EncodedLength(t: Node, input: seq<byte>)
    requires Distinct(t) && forall s :: s in input ==> Has(t, s)
    ensures |Encode(t, input)| == CountCost(t, input, 0) + |input|
  {
    if input == [] {
      CountCostOfNothing(t, 0);
    } else {
      var front, c := input[..|input| - 1], input[|input| - 1];
      EncodedLength(t, front);
      CountCostStep(t, input, 0);
      EncodeAppend(t, front, c);
      assert front + [c] == input;
    }
  }

  lemma {:induction false} CountIsPresence(input: seq<byte>, s: byte)
    ensures Count(input, s) > 0 <==> s in input
  {
    if input != [] {
      CountIsPresence(input[..|input| - 1], s);
      assert input == input[..|input| - 1] + [input[|input| - 1]];
    }
  }

  /**
    The size of the output: what an optimal tree costs, plus one bit per byte for the trailing
    zeros. Any other tree over the same symbols costs at least as much.
   */
  lemma EncodedLengthIsLeast(t: Node, rival: Node, input: seq<byte>)
    requires Leaves(t) == InputLeaves(input) && IsOptimal(t)
    requires Leaves(rival) == InputLeaves(input)
    ensures forall s :: s in input ==> Has(t, s) && Has(rival, s)
    ensures |Encode(t, input)| == TreeCost(t) + |input|
    ensures |Encode(t, input)| <= |Encode(rival, input)|
  {
    TreeOfInput(t, input);
    TreeOfInput(rival, input);
    forall s | s in input ensures Has(t, s) && Has(rival, s) { CountIsPresence(input, s); }
    EncodedLength(t, input);
    EncodedLength(rival, input);
    CountCostOfTree(t, input, 0);
    CountCostOfTree(rival, input, 0);
  }

  // ---------- which way is zero ----------

  /** How many bytes of the input have a code that starts with `p`, among the symbols below `n`. */
  ghost function Weight(t: Node, input: seq<byte>, p: seq<bool>, n: nat): nat
    requires n <= ALPHABET_SIZE
  {
    if n == 0 then 0
    else Weight(t, input, p, n - 1) + if Has(t, n - 1) && p <= Codeword(t, n - 1) then Count(input, n - 1) else 0
  }

  lemma {:induction false} WeightOfLeaf(t: Node, input: seq<byte>, n: nat)
    requires n <= ALPHABET_SIZE && t.Leaf?
    ensures Weight(t, input, [], n) == if t.symbol < n then Count(input, t.symbol) else 0
  {
    if n > 0 { WeightOfLeaf(t, input, n - 1); }
  }

  lemma {:induction false} WeightOfSum(t: Node, input: seq<byte>, n: nat)
    requires n <= ALPHABET_SIZE && t.Inner? && Distinct(t)
    ensures Weight(t, input, [], n) == Weight(t.left, input, [], n) + Weight(t.right, input, [], n)
  {
    if n > 0 { WeightOfSum(t, input, n - 1); }
  }

  /** All codes of a tree together stand for as many bytes as its root counts. */
  lemma {:induction false} WeightOfTree(t: Node, input: seq<byte>)
    requires Distinct(t) && CountsInput(t, input) && Consistent(t)
    ensures Weight(t, input, [], ALPHABET_SIZE) == t.freq
  {
    match t
    case Leaf(_, _) => WeightOfLeaf(t, input, ALPHABET_SIZE);
    case Inner(_, l, r) =>
      WeightOfSum(t, input, ALPHABET_SIZE);
      WeightOfTree(l, input);
      WeightOfTree(r, input);
  }

  lemma {:induction false} WeightBelow(t: Node, input: seq<byte>, bit: bool, p: seq<bool>, n: nat)
    requires n <= ALPHABET_SIZE && t.Inner? && Distinct(t)
    ensures Weight(t, input, [bit] + p, n) == Weight(if bit then t.right else t.left, input, p, n)
  {
    if n > 0 {
      WeightBelow(t, input, bit, p, n - 1);
      PrefixBelow(t, n - 1, bit, p);
    }
  }

  lemma PrefixBelow(t: Node, s: byte, bit: bool, p: seq<bool>)
    requires t.Inner? && Distinct(t)
    ensures var child := if bit then t.right else t.left;
      (Has(t, s) && [bit] + p <= Codeword(t, s)) <==> (Has(child, s) && p <= Codeword(child, s))
  {
    if Has(t, s) {
      var below := if Has(t.left, s) then t.left else t.right;
      var code := Codeword(t, s);
      assert code == [!Has(t.left, s)] + Codeword(below, s);
      assert code[1..] == Codeword(below, s);
      if [bit] + p <= code { assert ([bit] + p)[0] == code[0] && ([bit] + p)[1..] == p; }
    }
  }

  /**
    Zero is the lighter side: where codes branch, those that go on with a zero stand for no more
    bytes of the input than those that go on with a one.
   */
  lemma {:induction false} ZerosAreLighter(t: Node, input: seq<byte>, p: seq<bool>, s: byte)
    requires Distinct(t) && CountsInput(t, input) && Consistent(t) && LightLeft(t)
    requires Has(t, s) && p + [true] <= Codeword(t, s)
    ensures Weight(t, input, p + [false], ALPHABET_SIZE) <= Weight(t, input, p + [true], ALPHABET_SIZE)
    decreases |p|
  {
    assert Codeword(t, s)[|p|] == (p + [true])[|p|] == true;
    assert t.Inner?;
    if p == [] {
      WeightBelow(t, input, false, [], ALPHABET_SIZE);
      WeightBelow(t, input, true, [], ALPHABET_SIZE);
      WeightOfTree(t.left, input);
      WeightOfTree(t.right, input);
      assert p + [false] == [false] + [] && p + [true] == [true] + [];
    } else {
      var child := if p[0] then t.right else t.left;
      forall bit: bool ensures p + [bit] == [p[0]] + (p[1..] + [bit]) {}
      WeightBelow(t, input, p[0], p[1..] + [false], ALPHABET_SIZE);
      WeightBelow(t, input, p[0], p[1..] + [true], ALPHABET_SIZE);
      PrefixBelow(t, s, p[0], p[1..] + [true]);
      ZerosAreLighter(child, input, p[1..], s);
    }
  }

  // ---------- the whole ----------

  /** The table entries of the symbols of `t` are their codes, and fit the bit set. */
  ghost predicate IsTableOf(table: seq<BitCode>, t: Node)
  {
    && |table| == ALPHABET_SIZE
    && forall s: byte :: Has(t, s) ==>
      table[s].numBits <= |table[s].bits| == HUFFMAN_MAX_BITS && Bits(table[s]) == Codeword(t, s)
  }

  /**
    Everything HuffmanEncode does before it packs bits. The counters are C++ ints, so the input is
    bounded by INT_MAX; no code then needs more than 45 of the 255 bits.
   */
  method BuildCodes(input: seq<byte>) returns (root: Node, table: array<BitCode>)
    requires input != [] && |input| <= INT_MAX
    ensures Leaves(root) == InputLeaves(input) && IsOptimal(root) && Consistent(root) && LightLeft(root)
    ensures IsTableOf(table[..], root)
    ensures forall s :: s in input ==> Has(root, s) && table[s].numBits <= MAX_HEIGHT + 1
  {
    root := BuildTree(input);
    TreeOfInput(root, input);
    CountersBoundHeight(root);
    table := new BitCode[ALPHABET_SIZE](_ => BitCode(0, []));
    var current := new bool[HUFFMAN_MAX_BITS](_ => false);
    GenerateCodeTable(table, root, 0, current);
    forall s: byte | Has(root, s)
      ensures table[s].numBits <= |table[s].bits| == HUFFMAN_MAX_BITS && Bits(table[s]) == Codeword(root, s)
    {
      assert table[s] == BitCode(|Path(root, s)| + 1, BitSet([] + Path(root, s)));
      BitSetHoldsCodeword(root, s);
    }
    forall s | s in input ensures Has(root, s) { CountIsPresence(input, s); }
  }

  lemma BitSetHoldsCodeword(t: Node, s: byte)
    requires Has(t, s) && TreeHeight(t) < HUFFMAN_MAX_BITS
    ensures BitSet([] + Path(t, s))[..|Path(t, s)| + 1] == Codeword(t, s)
  {
    assert [] + Path(t, s) == Path(t, s);
    assert Zeros(HUFFMAN_MAX_BITS - |Path(t, s)|)[..1] == [false];
  }
}
