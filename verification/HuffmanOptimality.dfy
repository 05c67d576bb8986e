/**
  Weighted binary trees and the exchange argument behind Huffman's algorithm
  (Cormen et al., Introduction to Algorithms, section 16.3, which src/Core/HuffmanCodec.cc follows).
*/
module HuffmanOptimality {

  /** A binary tree of which only the weights at the tips matter. */
  datatype Shape = Tip(weight: nat) | Fork(left: Shape, right: Shape)

  /** How many tips have weight `w`. */
  ghost function Tips(s: Shape, w: nat): nat
  {
    match s
    case Tip(v) => Is(v, w)
    case Fork(l, r) => Tips(l, w) + Tips(r, w)
  }

  ghost function Is(v: nat, w: nat): nat { if v == w then 1 else 0 }

  /** The sum of weight times depth over all tips. */
  ghost function Cost(s: Shape, depth: nat): nat
  {
    match s
    case Tip(w) => w * depth
    case Fork(l, r) => Cost(l, depth + 1) + Cost(r, depth + 1)
  }

  ghost function Height(s: Shape): nat
  {
    match s
    case Tip(_) => 0
    case Fork(l, r) => 1 + if Height(l) < Height(r) then Height(r) else Height(l)
  }

  // Products are kept out of the lemmas about trees: these only see `Times`, which is linear in k.

  ghost function Times(k: int, n: nat): (p: int)
    ensures k >= 0 ==> p >= 0
  {
    if n == 0 then 0 else k + Times(k, n - 1)
  }

  lemma {:induction false} TimesIsProduct(k: int, n: nat)
    ensures Times(k, n) == k * n
  {
    if n > 0 { TimesIsProduct(k, n - 1); }
  }

  lemma {:induction false} TimesAdds(k: int, j: int, n: nat)
    ensures Times(k + j, n) == Times(k, n) + Times(j, n)
  {
    if n > 0 { TimesAdds(k, j, n - 1); }
  }

  lemma {:induction false} TimesMonotonic(k: nat, m: nat, n: nat)
    requires m <= n
    ensures Times(k, m) <= Times(k, n)
  {
    if m < n { TimesMonotonic(k, m, n - 1); }
  }

  /** Some tip of weight `a` becomes a tip of weight `x`. */
  ghost function Reweighed(s: Shape, a: nat, x: nat): (r: Shape)
    requires Tips(s, a) > 0
    ensures Height(r) == Height(s)
  {
    match s
    case Tip(w) => Tip(x)
    case Fork(l, r) => if Tips(l, a) > 0 then Fork(Reweighed(l, a, x), r) else Fork(l, Reweighed(r, a, x))
  }

  lemma {:induction false} ReweighedTips(s: Shape, a: nat, x: nat, w: nat)
    requires Tips(s, a) > 0
    ensures Tips(Reweighed(s, a, x), w) == Tips(s, w) - Is(a, w) + Is(x, w)
  {
    match s
    case Tip(_) =>
    case Fork(l, r) => if Tips(l, a) > 0 { ReweighedTips(l, a, x, w); } else { ReweighedTips(r, a, x, w); }
  }

  lemma {:induction false} ReweighedCost(s: Shape, a: nat, x: nat, depth: nat)
    requires Tips(s, a) > 0 && a <= x
    ensures Cost(Reweighed(s, a, x), depth) <= Cost(s, depth) + Times(x - a, depth + Height(s))
  {
    match s
    case Tip(w) =>
      TimesIsProduct(x, depth);
      TimesIsProduct(a, depth);
      TimesAdds(a, x - a, depth);
    case Fork(l, r) =>
      if Tips(l, a) > 0 {
        ReweighedCost(l, a, x, depth + 1);
        TimesMonotonic(x - a, depth + 1 + Height(l), depth + Height(s));
      } else {
        ReweighedCost(r, a, x, depth + 1);
        TimesMonotonic(x - a, depth + 1 + Height(r), depth + Height(s));
      }
  }

  /** The weights of a lowest pair of sibling tips. */
  ghost function LowestPair(s: Shape): (nat, nat)
    requires s.Fork?
  {
    if s.left.Tip? && s.right.Tip? then (s.left.weight, s.right.weight)
    else if Height(s.left) >= Height(s.right) then LowestPair(s.left)
    else LowestPair(s.right)
  }

  /** That pair replaced by one tip of weight `v`. */
  ghost function Fused(s: Shape, v: nat): (r: Shape)
    requires s.Fork?
    ensures Height(r) <= Height(s)
  {
    if s.left.Tip? && s.right.Tip? then Tip(v)
    else if Height(s.left) >= Height(s.right) then Fork(Fused(s.left, v), s.right)
    else Fork(s.left, Fused(s.right, v))
  }

  lemma {:induction false} FusedTips(s: Shape, v: nat, w: nat)
    requires s.Fork?
    ensures var (x, y) := LowestPair(s);
      && Tips(s, w) >= Is(x, w) + Is(y, w)
      && Tips(Fused(s, v), w) == Tips(s, w) - Is(x, w) - Is(y, w) + Is(v, w)
  {
    if s.left.Tip? && s.right.Tip? {
    } else if Height(s.left) >= Height(s.right) {
      FusedTips(s.left, v, w);
    } else {
      FusedTips(s.right, v, w);
    }
  }

  lemma {:induction false} FusedCost(s: Shape, v: nat, depth: nat)
    requires s.Fork?
    ensures var (x, y) := LowestPair(s);
      Cost(Fused(s, v), depth) + Times(x + y, depth + Height(s)) + v == Cost(s, depth) + Times(v, depth + Height(s))
  {
    if s.left.Tip? && s.right.Tip? {
      var (x, y) := LowestPair(s);
      TimesAdds(x, y, depth + 1);
      TimesIsProduct(x, depth + 1);
      TimesIsProduct(y, depth + 1);
      TimesIsProduct(v, depth);
    } else if Height(s.left) >= Height(s.right) {
      FusedCost(s.left, v, depth + 1);
      assert depth + Height(s) == depth + 1 + Height(s.left);
    } else {
      FusedCost(s.right, v, depth + 1);
      assert depth + Height(s) == depth + 1 + Height(s.right);
    }
  }

  /** The tips of `t` are those of `s` with a and b fused into one tip of weight a + b. */
  ghost predicate IsFusionOf(t: Shape, s: Shape, a: nat, b: nat)
  {
    forall w: nat :: Tips(t, w) + Is(a, w) + Is(b, w) == Tips(s, w) + Is(a + b, w)
  }

  /** a and b are the two least weights of `s`. */
  ghost predicate AreLeastTwo(a: nat, b: nat, s: Shape)
  {
    && Tips(s, a) > 0 && Tips(s, b) > Is(a, b)
    && (forall w: nat :: Tips(s, w) > 0 ==> a <= w)
    && (forall w: nat :: Tips(s, w) > Is(a, w) ==> b <= w)
  }

  /** One tip of weight q is reweighed to z, unless they are equal already. */
  lemma Exchange(t: Shape, q: nat, z: nat) returns (r: Shape)
    requires q <= z && (q == z || Tips(t, q) > 0)
    ensures forall w: nat :: Tips(r, w) == Tips(t, w) - Is(q, w) + Is(z, w)
    ensures Cost(r, 0) <= Cost(t, 0) + Times(z - q, Height(t))
    ensures Height(r) == Height(t)
  {
    if z == q {
      r := t;
    } else {
      r := Reweighed(t, q, z);
      ReweighedCost(t, q, z, 0);
      forall w: nat ensures Tips(r, w) == Tips(t, w) - Is(q, w) + Is(z, w) { ReweighedTips(t, q, z, w); }
    }
  }

  /** The lowest pair is p and z, while p and q are wanted: what z saves at the bottom pays for q. */
  lemma FuseOne(s: Shape, p: nat, z: nat, q: nat) returns (r: Shape)
    requires s.Fork? && (LowestPair(s) == (p, z) || LowestPair(s) == (z, p))
    requires q <= z && Tips(s, q) > Is(p, q)
    ensures IsFusionOf(r, s, p, q)
    ensures Cost(r, 0) + (p + q) <= Cost(s, 0)
  {
    hide Tips, Cost, Height, Fused, LowestPair, Times;
    var t, h := Fused(s, p + q), Height(s);
    forall w: nat ensures Tips(t, w) == Tips(s, w) - Is(p, w) - Is(z, w) + Is(p + q, w) { FusedTips(s, p + q, w); }
    FusedCost(s, p + q, 0);
    r := Exchange(t, q, z);
    TimesMonotonic(z - q, Height(t), h);
    TimesAdds(p + q, z - q, h);
  }

  /** Neither of a and b is in the lowest pair: both are exchanged. */
  lemma FuseBoth(s: Shape, a: nat, b: nat) returns (r: Shape)
    requires s.Fork? && AreLeastTwo(a, b, s)
    requires LowestPair(s).0 != a && LowestPair(s).0 != b && LowestPair(s).1 != a && LowestPair(s).1 != b
    ensures IsFusionOf(r, s, a, b)
    ensures Cost(r, 0) + (a + b) <= Cost(s, 0)
  {
    hide Tips, Cost, Height, Fused, LowestPair, Times;
    var (x, y) := LowestPair(s);
    var t, h := Fused(s, a + b), Height(s);
    forall w: nat
      ensures Tips(s, w) >= Is(x, w) + Is(y, w)
      ensures Tips(t, w) == Tips(s, w) - Is(x, w) - Is(y, w) + Is(a + b, w)
    {
      FusedTips(s, a + b, w);
    }
    FusedCost(s, a + b, 0);
    assert Tips(s, x) > Is(a, x) && Tips(s, y) > Is(a, y);
    var t' := Exchange(t, a, x);
    r := Exchange(t', b, y);
    TimesMonotonic(x - a, Height(t), h);
    TimesMonotonic(y - b, Height(t'), h);
    TimesAdds(a + b, x - a, h);
    TimesAdds(x + b, y - b, h);
  }

  /**
    The exchange step: when a and b are the two least weights, every tree over the weights
    yields a tree over the weights with a and b fused that is cheaper by at least a + b.
   */
  lemma FuseLeastTwo(s: Shape, a: nat, b: nat) returns (r: Shape)
    requires AreLeastTwo(a, b, s)
    ensures IsFusionOf(r, s, a, b)
    ensures Cost(r, 0) + (a + b) <= Cost(s, 0)
  {
    if s.Tip? {
      assert false;
    }
    var (x, y) := LowestPair(s);
    FusedTips(s, a + b, x);
    FusedTips(s, a + b, y);
    if x == a || y == a {
      r := FuseOne(s, a, if x == a then y else x, b);
    } else if x == b || y == b {
      r := FuseOne(s, b, if x == b then y else x, a);
    } else {
      r := FuseBoth(s, a, b);
    }
  }
}
