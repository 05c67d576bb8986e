/**
  The Huffman tree of src/Core/HuffmanCodec.cc: counting symbols, merging the queue, and the
  proof that the tree that remains is optimal and shallow, however the queue breaks ties.
*/
module HuffmanTree {
  import opened Bytes
  import opened HuffmanOptimality
  import opened Options

  /** A node of the tree; the counter of a leaf grows while symbols are counted. */
  datatype Node =
    | Leaf(freq: nat, symbol: byte)
    | Inner(freq: nat, left: Node, right: Node)

  const ALPHABET_SIZE := 256

  // ---------- trees ----------

  /** The leaves of a tree, each with its frequency. */
  ghost function Leaves(t: Node): multiset<(byte, nat)>
  {
    match t
    case Leaf(f, s) => multiset{(s, f)}
    case Inner(_, l, r) => Leaves(l) + Leaves(r)
  }

  ghost function ShapeOf(t: Node): Shape
  {
    match t
    case Leaf(f, _) => Tip(f)
    case Inner(_, l, r) => Fork(ShapeOf(l), ShapeOf(r))
  }

  /** Total frequency times depth: what Huffman's algorithm minimises. */
  ghost function TreeCost(t: Node): nat { Cost(ShapeOf(t), 0) }

  /** The depth of the deepest leaf. */
  function TreeHeight(t: Node): nat
  {
    match t
    case Leaf(_, _) => 0
    case Inner(_, l, r) => 1 + if TreeHeight(l) < TreeHeight(r) then TreeHeight(r) else TreeHeight(l)
  }

  /** Every inner node carries the sum of its children, and no leaf is empty. */
  ghost predicate Consistent(t: Node)
  {
    match t
    case Leaf(f, _) => f >= 1
    case Inner(f, l, r) => f == l.freq + r.freq && Consistent(l) && Consistent(r)
  }

  // ---------- the input ----------

  function Count(input: seq<byte>, s: byte): nat
  {
    if input == [] then 0
    else Count(input[..|input| - 1], s) + if input[|input| - 1] == s then 1 else 0
  }

  /** Exactly one leaf for each symbol below `n` that occurs, with the number of its occurrences. */
  ghost function SymbolLeaves(input: seq<byte>, n: nat): multiset<(byte, nat)>
    requires n <= ALPHABET_SIZE
  {
    if n == 0 then multiset{}
    else if Count(input, n - 1) == 0 then SymbolLeaves(input, n - 1)
    else SymbolLeaves(input, n - 1) + multiset{(n - 1 as byte, Count(input, n - 1))}
  }

  /** The leaves every tree for this input must have. */
  ghost function InputLeaves(input: seq<byte>): multiset<(byte, nat)> { SymbolLeaves(input, ALPHABET_SIZE) }

  // ---------- the queue ----------

  ghost function QueueLeaves(q: seq<Node>): multiset<(byte, nat)>
  {
    if q == [] then multiset{} else Leaves(q[0]) + QueueLeaves(q[1..])
  }

  ghost function QueueFreq(q: seq<Node>): nat
  {
    if q == [] then 0 else q[0].freq + QueueFreq(q[1..])
  }

  ghost function QueueCost(q: seq<Node>): nat
  {
    if q == [] then 0 else TreeCost(q[0]) + QueueCost(q[1..])
  }

  /** How many queued trees weigh `w`. */
  ghost function Weighing(q: seq<Node>, w: nat): nat
  {
    if q == [] then 0 else Is(q[0].freq, w) + Weighing(q[1..], w)
  }

  function Without(q: seq<Node>, i: nat): seq<Node>
    requires i < |q|
  { q[..i] + q[i + 1..] }

  lemma WithoutLater(q: seq<Node>, i: nat)
    requires 0 < i < |q|
    ensures Without(q, i)[0] == q[0] && Without(q, i)[1..] == Without(q[1..], i - 1)
    ensures q[i] == q[1..][i - 1]
  {
  }

  lemma {:induction false} Taking(q: seq<Node>, i: nat)
    requires i < |q|
    ensures QueueLeaves(q) == Leaves(q[i]) + QueueLeaves(Without(q, i))
    ensures QueueFreq(q) == q[i].freq + QueueFreq(Without(q, i))
    ensures QueueCost(q) == TreeCost(q[i]) + QueueCost(Without(q, i))
  {
    hide Leaves, TreeCost;
    if i == 0 {
      assert Without(q, 0) == q[1..];
    } else {
      Taking(q[1..], i - 1);
      WithoutLater(q, i);
    }
  }

  lemma {:induction false} TakingWeight(q: seq<Node>, i: nat, w: nat)
    requires i < |q|
    ensures Weighing(q, w) == Is(q[i].freq, w) + Weighing(Without(q, i), w)
  {
    if i == 0 {
      assert Without(q, 0) == q[1..];
    } else {
      TakingWeight(q[1..], i - 1, w);
      WithoutLater(q, i);
    }
  }

  lemma {:induction false} WeighingIsPresent(q: seq<Node>, w: nat) returns (i: nat)
    requires Weighing(q, w) > 0
    ensures i < |q| && q[i].freq == w
  {
    if q[0].freq == w {
      i := 0;
    } else {
      i := WeighingIsPresent(q[1..], w);
      i := i + 1;
    }
  }

  ghost predicate IsLeast(q: seq<Node>, i: int)
    requires 0 <= i < |q|
  {
    forall j :: 0 <= j < |q| ==> q[i].freq <= q[j].freq
  }

  lemma {:induction false} LeastExists(q: seq<Node>) returns (i: nat)
    requires q != []
    ensures i < |q| && IsLeast(q, i)
  {
    if |q| == 1 {
      i := 0;
    } else {
      var j := LeastExists(q[1..]);
      assert forall k :: 0 < k < |q| ==> q[k] == q[1..][k - 1];
      i := if q[0].freq <= q[j + 1].freq then 0 else j + 1;
    }
  }

  /**
    std::priority_queue::top and pop: some tree of least frequency leaves the queue. Which one is
    not specified, and neither is the order in which the others are kept.
   */
  method Pop(q: seq<Node>) returns (top: Node, rest: seq<Node>, ghost at: nat)
    requires q != []
    ensures at < |q| && IsLeast(q, at) && top == q[at] && rest == Without(q, at)
    ensures top in q && forall t :: t in q ==> top.freq <= t.freq
  {
    ghost var least := LeastExists(q);
    var i :| 0 <= i < |q| && forall j :: 0 <= j < |q| ==> q[i].freq <= q[j].freq;
    top, rest, at := q[i], Without(q, i), i;
  }

  // ---------- counting ----------

  lemma QueueOfLonger(queue: seq<Node>, node: Node)
    ensures QueueLeaves(queue + [node]) == QueueLeaves(queue) + Leaves(node)
    ensures QueueFreq(queue + [node]) == QueueFreq(queue) + node.freq
  {
    assert Without(queue + [node], |queue|) == queue;
    Taking(queue + [node], |queue|);
  }

  /** Counts the occurrences of every symbol; a symbol that does not occur has no node. */
  method CountSymbols(input: seq<byte>) returns (table: array<Option<Node>>)
    ensures fresh(table) && table.Length == ALPHABET_SIZE
    ensures forall s: byte :: table[s] == Counted(input, s)
  {
    table := new Option<Node>[ALPHABET_SIZE](_ => None);
    for i := 0 to |input|
      invariant forall s: byte :: table[s] == Counted(input[..i], s)
    {
      var s := input[i];
      assert input[..i + 1][..i] == input[..i];
      if table[s] == None {
        table[s] := Some(Leaf(1, s));
      } else {
        var node := table[s].value;
        table[s] := Some(Leaf(node.freq + 1, node.symbol));
      }
    }
    assert input[..|input|] == input;
  }

  /** The queue holds the leaves of the symbols below `n`. */
  ghost predicate Enqueued(queue: seq<Node>, input: seq<byte>, n: nat)
    requires n <= ALPHABET_SIZE
  {
    && QueueLeaves(queue) == SymbolLeaves(input, n)
    && (forall k :: 0 <= k < |queue| ==> queue[k].Leaf? && queue[k].freq >= 1)
    && QueueFreq(queue) == CountBelow(input, n)
  }

  lemma EnqueuedStep(queue: seq<Node>, input: seq<byte>, n: byte)
    requires Enqueued(queue, input, n)
    ensures match Counted(input, n)
      case None => Enqueued(queue, input, n + 1)
      case Some(node) => Enqueued(queue + [node], input, n + 1)
  {
    var occurs, m := Count(input, n), n as nat;
    assert SymbolLeaves(input, m + 1) ==
      if occurs == 0 then SymbolLeaves(input, m) else SymbolLeaves(input, m) + Leaves(Leaf(occurs, n));
    assert CountBelow(input, m + 1) == CountBelow(input, m) + occurs;
    hide SymbolLeaves, CountBelow, Count, QueueLeaves, QueueFreq, Leaves;
    if occurs > 0 { QueueOfLonger(queue, Leaf(occurs, n)); }
  }

  /** One leaf per symbol of the input. */
  method ComputeSymbolFrequencies(input: seq<byte>) returns (queue: seq<Node>)
    ensures Enqueued(queue, input, ALPHABET_SIZE)
  {
    var table := CountSymbols(input);
    queue := [];
    for n := 0 to ALPHABET_SIZE
      invariant forall s: byte :: table[s] == Counted(input, s)
      invariant Enqueued(queue, input, n)
    {
      var slot := table[n];
      assert slot == Counted(input, n as byte);
      EnqueuedStep(queue, input, n);
      if slot.Some? {
        queue := queue + [slot.value];
      }
    }
  }

  function Counted(input: seq<byte>, s: byte): Option<Node>
  {
    if Count(input, s) == 0 then None else Some(Leaf(Count(input, s), s))
  }

  ghost function CountBelow(input: seq<byte>, n: nat): nat
    requires n <= ALPHABET_SIZE
  {
    if n == 0 then 0 else CountBelow(input, n - 1) + Count(input, n - 1)
  }

  lemma {:induction false} CountBelowStep(input: seq<byte>, n: nat)
    requires n <= ALPHABET_SIZE && input != []
    ensures CountBelow(input, n) ==
      CountBelow(input[..|input| - 1], n) + if input[|input| - 1] < n then 1 else 0
  {
    if n > 0 { CountBelowStep(input, n - 1); }
  }

  lemma {:induction false} CountBelowNothing(n: nat)
    requires n <= ALPHABET_SIZE
    ensures CountBelow([], n) == 0
  {
    if n > 0 { CountBelowNothing(n - 1); }
  }

  lemma {:induction false} CountBelowAll(input: seq<byte>)
    ensures CountBelow(input, ALPHABET_SIZE) == |input|
  {
    if input == [] {
      CountBelowNothing(ALPHABET_SIZE);
    } else {
      CountBelowStep(input, ALPHABET_SIZE);
      CountBelowAll(input[..|input| - 1]);
    }
  }

  // ---------- merging ----------

  /** No tree in the queue is lighter than a child of another tree in the queue. */
  ghost predicate NoneBelowChildren(q: seq<Node>)
  {
    forall i, j :: 0 <= i < |q| && 0 <= j < |q| && i != j && q[i].Inner? ==>
      q[i].left.freq <= q[j].freq && q[i].right.freq <= q[j].freq
  }

  /** In every pair of siblings, neither is lighter than a child of the other. */
  ghost predicate Even(t: Node)
  {
    t.Inner? ==>
      && Even(t.left) && Even(t.right)
      && (t.left.Inner? ==> t.left.left.freq <= t.right.freq && t.left.right.freq <= t.right.freq)
      && (t.right.Inner? ==> t.right.left.freq <= t.left.freq && t.right.right.freq <= t.left.freq)
  }

  /** At every inner node the left child is not heavier than the right one. */
  ghost predicate LightLeft(t: Node)
  {
    t.Inner? ==> t.left.freq <= t.right.freq && LightLeft(t.left) && LightLeft(t.right)
  }

  /** The trees over the weights in the queue are at least QueueCost(q) cheaper than the rival. */
  ghost predicate Beats(q: seq<Node>, rival: Shape)
  {
    exists s: Shape :: (forall w: nat :: Tips(s, w) == Weighing(q, w)) && Cost(s, 0) + QueueCost(q) <= Cost(rival, 0)
  }

  /** What the merge loop keeps, for any rival tree over the same symbols. */
  ghost predicate MergeInvariant(q: seq<Node>, leaves: multiset<(byte, nat)>, total: nat)
  {
    && q != []
    && QueueLeaves(q) == leaves
    && QueueFreq(q) == total
    && (forall k :: 0 <= k < |q| ==> Consistent(q[k]) && Even(q[k]) && LightLeft(q[k]))
    && NoneBelowChildren(q)
    && (forall rival: Node :: Leaves(rival) == leaves ==> Beats(q, ShapeOf(rival)))
  }

  lemma {:induction false} CostShifts(s: Node, depth: nat)
    requires Consistent(s)
    ensures Cost(ShapeOf(s), depth + 1) == Cost(ShapeOf(s), depth) + s.freq
  {
    match s
    case Leaf(f, _) => assert f * (depth + 1) == f * depth + f;
    case Inner(_, l, r) => CostShifts(l, depth + 1); CostShifts(r, depth + 1);
  }

  lemma MergedCost(node: Node)
    requires node.Inner? && Consistent(node)
    ensures TreeCost(node) == TreeCost(node.left) + TreeCost(node.right) + node.freq
  {
    CostShifts(node.left, 0);
    CostShifts(node.right, 0);
  }

  /** The weights of the two trees that are popped are the two least among all queued weights. */
  lemma PoppedAreLeastTwo(q: seq<Node>, i: nat, j: nat, s: Shape)
    requires i < |q| && j < |q| - 1 && IsLeast(q, i) && IsLeast(Without(q, i), j)
    requires forall w: nat :: Tips(s, w) == Weighing(q, w)
    ensures AreLeastTwo(q[i].freq, Without(q, i)[j].freq, s)
  {
    var q1 := Without(q, i);
    var a, b := q[i].freq, q1[j].freq;
    TakingWeight(q, i, a);
    TakingWeight(q, i, b);
    TakingWeight(q1, j, b);
    forall w: nat | Tips(s, w) > 0 ensures a <= w {
      var k := WeighingIsPresent(q, w);
    }
    forall w: nat | Tips(s, w) > Is(a, w) ensures b <= w {
      TakingWeight(q, i, w);
      var k := WeighingIsPresent(q1, w);
    }
  }

  /** The queue after one iteration of the merge loop. */
  ghost function Merged(q: seq<Node>, i: nat, j: nat): seq<Node>
    requires i < |q| && j < |q| - 1
  {
    var r, l := q[i], Without(q, i)[j];
    [Inner(r.freq + l.freq, r, l)] + Without(Without(q, i), j)
  }

  lemma MergedTotals(q: seq<Node>, i: nat, j: nat)
    requires i < |q| && j < |q| - 1
    requires forall k :: 0 <= k < |q| ==> Consistent(q[k])
    ensures QueueLeaves(Merged(q, i, j)) == QueueLeaves(q)
    ensures QueueFreq(Merged(q, i, j)) == QueueFreq(q)
    ensures QueueCost(Merged(q, i, j)) == QueueCost(q) + q[i].freq + Without(q, i)[j].freq
  {
    var q1 := Without(q, i);
    var r, l, q2 := q[i], q1[j], Without(q1, j);
    var node := Inner(r.freq + l.freq, r, l);
    assert Merged(q, i, j)[0] == node && Merged(q, i, j)[1..] == q2;
    Taking(q, i);
    Taking(q1, j);
    assert l == q[if j < i then j else j + 1];
    MergedCost(node);
  }

  lemma MergedWeights(q: seq<Node>, i: nat, j: nat, w: nat)
    requires i < |q| && j < |q| - 1
    ensures var a, b := q[i].freq, Without(q, i)[j].freq;
      Weighing(Merged(q, i, j), w) + Is(a, w) + Is(b, w) == Weighing(q, w) + Is(a + b, w)
  {
    TakingWeight(q, i, w);
    TakingWeight(Without(q, i), j, w);
    assert Merged(q, i, j)[1..] == Without(Without(q, i), j);
  }

  /** One merge keeps every rival beaten: this is where the exchange argument enters. */
  lemma MergeBeats(q: seq<Node>, i: nat, j: nat, rival: Shape)
    requires i < |q| && j < |q| - 1 && IsLeast(q, i) && IsLeast(Without(q, i), j)
    requires forall k :: 0 <= k < |q| ==> Consistent(q[k])
    requires Beats(q, rival)
    ensures Beats(Merged(q, i, j), rival)
  {
    var s :| (forall w: nat :: Tips(s, w) == Weighing(q, w)) && Cost(s, 0) + QueueCost(q) <= Cost(rival, 0);
    PoppedAreLeastTwo(q, i, j, s);
    var s' := FuseLeastTwo(s, q[i].freq, Without(q, i)[j].freq);
    forall w: nat ensures Tips(s', w) == Weighing(Merged(q, i, j), w) {
      MergedWeights(q, i, j, w);
    }
    MergedTotals(q, i, j);
  }

  lemma WithoutKeepsOrder(q: seq<Node>, i: nat)
    requires i < |q| && NoneBelowChildren(q)
    ensures NoneBelowChildren(Without(q, i))
    ensures forall k :: 0 <= k < |q| - 1 ==> Without(q, i)[k] == q[if k < i then k else k + 1]
  {
    var rest := Without(q, i);
    forall k, m | 0 <= k < |rest| && 0 <= m < |rest| && k != m && rest[k].Inner?
      ensures rest[k].left.freq <= rest[m].freq && rest[k].right.freq <= rest[m].freq
    {
      var k', m' := if k < i then k else k + 1, if m < i then m else m + 1;
      assert rest[k] == q[k'] && rest[m] == q[m'];
    }
  }

  lemma MergeKeepsOrder(q: seq<Node>, i: nat, j: nat)
    requires i < |q| && j < |q| - 1 && IsLeast(q, i) && IsLeast(Without(q, i), j)
    requires NoneBelowChildren(q)
    ensures NoneBelowChildren(Merged(q, i, j))
  {
    var q1 := Without(q, i);
    WithoutKeepsOrder(q, i);
    WithoutKeepsOrder(q1, j);
    var q2, q' := Without(q1, j), Merged(q, i, j);
    var r, l := q[i], q1[j];
    forall k, m | 0 <= k < |q'| && 0 <= m < |q'| && k != m && q'[k].Inner?
      ensures q'[k].left.freq <= q'[m].freq && q'[k].right.freq <= q'[m].freq
    {
      if k == 0 {
        var m1 := if m - 1 < j then m - 1 else m;
        assert q'[m] == q2[m - 1] == q1[m1];
      } else if m == 0 {
        var k1 := if k - 1 < j then k - 1 else k;
        assert q'[k] == q2[k - 1] == q1[k1];
      } else {
        assert q'[k] == q2[k - 1] && q'[m] == q2[m - 1];
      }
    }
  }

  lemma MergedTrees(q: seq<Node>, i: nat, j: nat)
    requires i < |q| && j < |q| - 1 && NoneBelowChildren(q)
    requires forall k :: 0 <= k < |q| ==> Consistent(q[k]) && Even(q[k])
    ensures forall k :: 0 <= k < |Merged(q, i, j)| ==> Consistent(Merged(q, i, j)[k]) && Even(Merged(q, i, j)[k])
  {
    var q1 := Without(q, i);
    WithoutKeepsOrder(q, i);
    WithoutKeepsOrder(q1, j);
    assert q1[j] == q[if j < i then j else j + 1];
  }

  /** The tree that is popped first, and is not heavier, becomes the left child. */
  lemma MergeKeepsLight(q: seq<Node>, i: nat, j: nat)
    requires i < |q| && j < |q| - 1 && IsLeast(q, i)
    requires forall k :: 0 <= k < |q| ==> LightLeft(q[k])
    ensures forall k :: 0 <= k < |Merged(q, i, j)| ==> LightLeft(Merged(q, i, j)[k])
  {
    var q1 := Without(q, i);
    assert forall k :: 0 <= k < |q1| ==> q1[k] == q[if k < i then k else k + 1];
    var q2 := Without(q1, j);
    assert forall k :: 0 <= k < |q2| ==> q2[k] == q1[if k < j then k else k + 1];
  }

  lemma Merge(q: seq<Node>, i: nat, j: nat, leaves: multiset<(byte, nat)>, total: nat)
    requires MergeInvariant(q, leaves, total)
    requires i < |q| && j < |q| - 1 && IsLeast(q, i) && IsLeast(Without(q, i), j)
    ensures MergeInvariant(Merged(q, i, j), leaves, total)
  {
    MergeKeepsOrder(q, i, j);
    MergedTrees(q, i, j);
    MergeKeepsLight(q, i, j);
    MergedTotals(q, i, j);
    forall rival: Node | Leaves(rival) == leaves ensures Beats(Merged(q, i, j), ShapeOf(rival)) {
      MergeBeats(q, i, j, ShapeOf(rival));
    }
  }

  // ---------- where the loop starts and ends ----------

  /** How many leaves, of symbols below `n`, have frequency `w`. */
  ghost function WeighingIn(leaves: multiset<(byte, nat)>, w: nat, n: nat): nat
    requires n <= ALPHABET_SIZE
  {
    if n == 0 then 0 else WeighingIn(leaves, w, n - 1) + leaves[(n - 1 as byte, w)]
  }

  lemma {:induction false} WeighingInSum(a: multiset<(byte, nat)>, b: multiset<(byte, nat)>, w: nat, n: nat)
    requires n <= ALPHABET_SIZE
    ensures WeighingIn(a + b, w, n) == WeighingIn(a, w, n) + WeighingIn(b, w, n)
  {
    if n > 0 { WeighingInSum(a, b, w, n - 1); }
  }

  lemma {:induction false} WeighingInOne(s: byte, f: nat, w: nat, n: nat)
    requires n <= ALPHABET_SIZE
    ensures WeighingIn(multiset{(s, f)}, w, n) == if s < n then Is(f, w) else 0
  {
    if n > 0 { WeighingInOne(s, f, w, n - 1); }
  }

  lemma {:induction false} WeighingInNone(w: nat, n: nat)
    requires n <= ALPHABET_SIZE
    ensures WeighingIn(multiset{}, w, n) == 0
  {
    if n > 0 { WeighingInNone(w, n - 1); }
  }

  lemma {:induction false} TipsOfTree(t: Node, w: nat)
    ensures Tips(ShapeOf(t), w) == WeighingIn(Leaves(t), w, ALPHABET_SIZE)
  {
    match t
    case Leaf(f, s) => WeighingInOne(s, f, w, ALPHABET_SIZE);
    case Inner(_, l, r) =>
      TipsOfTree(l, w);
      TipsOfTree(r, w);
      WeighingInSum(Leaves(l), Leaves(r), w, ALPHABET_SIZE);
  }

  lemma {:induction false} WeighingOfLeaves(q: seq<Node>, w: nat)
    requires forall k :: 0 <= k < |q| ==> q[k].Leaf?
    ensures Weighing(q, w) == WeighingIn(QueueLeaves(q), w, ALPHABET_SIZE)
  {
    if q == [] {
      WeighingInNone(w, ALPHABET_SIZE);
    } else {
      TipsOfTree(q[0], w);
      WeighingOfLeaves(q[1..], w);
      WeighingInSum(Leaves(q[0]), QueueLeaves(q[1..]), w, ALPHABET_SIZE);
    }
  }

  lemma {:induction false} LeavesCostNothing(q: seq<Node>)
    requires forall k :: 0 <= k < |q| ==> q[k].Leaf?
    ensures QueueCost(q) == 0
  {
    if q != [] { LeavesCostNothing(q[1..]); }
  }

  lemma MergeStarts(q: seq<Node>)
    requires q != [] && forall k :: 0 <= k < |q| ==> q[k].Leaf? && q[k].freq >= 1
    ensures MergeInvariant(q, QueueLeaves(q), QueueFreq(q))
  {
    forall rival: Node | Leaves(rival) == QueueLeaves(q) ensures Beats(q, ShapeOf(rival)) {
      forall w: nat ensures Tips(ShapeOf(rival), w) == Weighing(q, w) {
        TipsOfTree(rival, w);
        WeighingOfLeaves(q, w);
      }
      LeavesCostNothing(q);
    }
  }

  lemma MergeEnds(t: Node, leaves: multiset<(byte, nat)>, total: nat)
    requires MergeInvariant([t], leaves, total)
    ensures Leaves(t) == leaves && t.freq == total && IsOptimal(t)
  {
    hide Leaves;
    var none: seq<Node> := [t][1..];
    assert none == [] && QueueLeaves(none) == multiset{} && QueueCost(none) == 0 && QueueFreq(none) == 0;
    assert QueueLeaves([t]) == Leaves(t) + QueueLeaves(none) == Leaves(t);
    assert QueueCost([t]) == TreeCost(t) && QueueFreq([t]) == t.freq;
    forall rival: Node | Leaves(rival) == leaves ensures TreeCost(t) <= TreeCost(rival) {
      assert Beats([t], ShapeOf(rival));
    }
  }

  /** No tree with the same leaves has a smaller total of frequency times depth. */
  ghost predicate IsOptimal(t: Node)
  {
    forall rival: Node :: Leaves(rival) == Leaves(t) ==> TreeCost(t) <= TreeCost(rival)
  }

  /** One iteration of the merge loop, for some way of breaking ties. */
  ghost predicate IsMerge(q: seq<Node>, q': seq<Node>)
  {
    exists i: nat, j: nat :: i < |q| && j < |q| - 1 && IsLeast(q, i) && IsLeast(Without(q, i), j) && q' == Merged(q, i, j)
  }

  lemma MergeKeepsInvariant(q: seq<Node>, q': seq<Node>, leaves: multiset<(byte, nat)>, total: nat)
    requires IsMerge(q, q') && MergeInvariant(q, leaves, total)
    ensures MergeInvariant(q', leaves, total)
  {
    var i: nat, j: nat :| i < |q| && j < |q| - 1 && IsLeast(q, i) && IsLeast(Without(q, i), j) && q' == Merged(q, i, j);
    Merge(q, i, j, leaves, total);
  }

  /** Two least trees become the children of a new tree. */
  method MergeTwo(queue: seq<Node>) returns (merged: seq<Node>)
    requires |queue| > 1
    ensures IsMerge(queue, merged) && |merged| == |queue| - 1
  {
    var r, q1, i := Pop(queue);
    var l, q2, j := Pop(q1);
    merged := [Inner(r.freq + l.freq, r, l)] + q2;
    assert merged == Merged(queue, i, j);
  }

  /** Merges until one tree is left. */
  method BuildTree(input: seq<byte>) returns (root: Node)
    requires input != []
    ensures Leaves(root) == InputLeaves(input)
    ensures Consistent(root) && root.freq == |input|
    ensures IsOptimal(root)
    ensures Even(root) && LightLeft(root)
  {
    var queue := ComputeSymbolFrequencies(input);
    CountBelowAll(input);
    MergeStarts(queue);
    while |queue| > 1
      invariant MergeInvariant(queue, InputLeaves(input), |input|)
    {
      var merged := MergeTwo(queue);
      MergeKeepsInvariant(queue, merged, InputLeaves(input), |input|);
      queue := merged;
    }
    root := queue[0];
    assert queue == [root];
    MergeEnds(root, InputLeaves(input), |input|);
  }

  // ---------- how deep the tree can be ----------

  function Fib(n: nat): nat { if n < 2 then n else Fib(n - 1) + Fib(n - 2) }

  ghost predicate IsHeavy(t: Node) { t.freq >= Fib(TreeHeight(t) + 2) }

  lemma SiblingIsHeavy(high: Node, low: Node)
    requires low.freq >= 1
    requires high.Inner? ==> IsHeavy(high.left) && IsHeavy(high.right) && high.left.freq <= low.freq && high.right.freq <= low.freq
    ensures low.freq >= Fib(TreeHeight(high) + 1)
  {
  }

  lemma ParentIsHeavy(t: Node, high: Node, low: Node)
    requires t.Inner? && t.freq == high.freq + low.freq && TreeHeight(t) == TreeHeight(high) + 1
    requires IsHeavy(high) && low.freq >= Fib(TreeHeight(high) + 1)
    ensures IsHeavy(t)
  {
    hide TreeHeight;
  }

  /** A tree whose siblings are even needs a Fibonacci number of symbols for each level. */
  lemma {:induction false} DeepTreesAreHeavy(t: Node)
    requires Consistent(t) && Even(t)
    ensures IsHeavy(t)
  {
    hide Fib, IsHeavy;
    match t
    case Leaf(_, _) => LeafIsHeavy(t);
    case Inner(_, l, r) =>
      DeepTreesAreHeavy(l);
      DeepTreesAreHeavy(r);
      if l.Inner? { DeepTreesAreHeavy(l.left); DeepTreesAreHeavy(l.right); }
      if r.Inner? { DeepTreesAreHeavy(r.left); DeepTreesAreHeavy(r.right); }
      ConsistentIsPositive(l);
      ConsistentIsPositive(r);
      if TreeHeight(l) < TreeHeight(r) {
        SiblingIsHeavy(r, l);
        ParentIsHeavy(t, r, l);
      } else {
        SiblingIsHeavy(l, r);
        ParentIsHeavy(t, l, r);
      }
  }

  lemma LeafIsHeavy(t: Node)
    requires t.Leaf? && t.freq >= 1
    ensures IsHeavy(t)
  {
  }

  lemma {:induction false} ConsistentIsPositive(t: Node)
    requires Consistent(t)
    ensures t.freq >= 1
  {
    if t.Inner? { ConsistentIsPositive(t.left); }
  }

  lemma {:induction false} FibMonotonic(m: nat, n: nat)
    requires m <= n
    ensures Fib(m) <= Fib(n)
    decreases n
  {
    if m < n { FibMonotonic(m, n - 1); }
  }

  const MAX_HEIGHT := 44

  lemma FibHalfway(n: nat)
    requires n == 26
    ensures Fib(n) == 121393 && Fib(n + 1) == 196418
  {
    assert Fib(8) == 21 && Fib(9) == 34;
    assert Fib(12) == 144 && Fib(13) == 233;
    assert Fib(16) == 987 && Fib(17) == 1597;
    assert Fib(20) == 6765 && Fib(21) == 10946;
    assert Fib(24) == 46368 && Fib(25) == 75025;
  }

  lemma FibFourOn(n: nat)
    ensures Fib(n + 4) == 2 * Fib(n) + 3 * Fib(n + 1) && Fib(n + 5) == 3 * Fib(n) + 5 * Fib(n + 1)
  {
    assert Fib(n + 3) == Fib(n + 2) + Fib(n + 1);
  }

  lemma FibExceedsInt(n: nat)
    requires n == 47
    ensures Fib(n) > INT_MAX
  {
    hide Fib;
    FibHalfway(26);
    FibFourOn(26);
    FibFourOn(30);
    FibFourOn(34);
    FibFourOn(38);
    FibFourOn(42);
  }

  lemma FibExceedsIntFrom(n: nat)
    ensures n > MAX_HEIGHT + 2 ==> Fib(n) > INT_MAX
  {
    if n > MAX_HEIGHT + 2 {
      var m: nat :| m == MAX_HEIGHT + 3;
      FibExceedsInt(m);
      FibMonotonic(m, n);
    }
  }

  /** A tree whose root counter fits a C++ int has at most 45 levels. */
  lemma CountersBoundHeight(t: Node)
    requires Consistent(t) && Even(t) && t.freq <= INT_MAX
    ensures TreeHeight(t) <= MAX_HEIGHT
  {
    hide Fib, Consistent, Even;
    DeepTreesAreHeavy(t);
    FibExceedsIntFrom(TreeHeight(t) + 2);
  }
}
