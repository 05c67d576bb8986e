/**
  Spelling suggestions of the command line parser (src/Core/CmdParser.cc).

  The dynamic program over the shared table is proved against `Distance`, the recurrence with the
  take-the-diagonal-on-match shortcut. `Distance` is then proved to be the length of a shortest
  chain of single-character edits, where an edit may happen anywhere in the string.
*/
module Levenshtein {
  import opened Bytes
  import opened Options

  const TABLE_SIZE := 128

  function Min(x: int, y: int): int { if x < y then x else y }

  function Init(s: string): string
    requires s != []
  { s[..|s| - 1] }

  function Last(s: string): char
    requires s != []
  { s[|s| - 1] }

  // ---------- the recurrences ----------

  /** The recurrence the table follows: on equal last characters only the diagonal is looked at. */
  function Distance(a: string, b: string): nat
    decreases |a| + |b|
  {
    if a == [] then |b|
    else if b == [] then |a|
    else if Last(a) == Last(b) then Distance(Init(a), Init(b))
    else 1 + Min(Min(Distance(a, Init(b)), Distance(Init(a), b)), Distance(Init(a), Init(b)))
  }

  /** The textbook recurrence, which always takes the minimum over all three neighbours. */
  function Full(a: string, b: string): nat
    decreases |a| + |b|
  {
    if a == [] then |b|
    else if b == [] then |a|
    else
      var diagonal := Full(Init(a), Init(b)) + if Last(a) == Last(b) then 0 else 1;
      Min(Min(Full(a, Init(b)) + 1, Full(Init(a), b) + 1), diagonal)
  }

  lemma {:induction false} FullZero(a: string)
    ensures Full(a, a) == 0
  {
    if a != [] { FullZero(Init(a)); }
  }

  lemma {:induction false} FullIsSymmetric(a: string, b: string)
    ensures Full(a, b) == Full(b, a)
    decreases |a| + |b|
  {
    if a != [] && b != [] {
      FullIsSymmetric(Init(a), b);
      FullIsSymmetric(a, Init(b));
      FullIsSymmetric(Init(a), Init(b));
    }
  }

  lemma {:induction false} FullBounds(a: string, b: string)
    ensures Full(a, b) >= |a| - |b|
    ensures Full(a, b) >= |b| - |a|
    decreases |a| + |b|
  {
    if a != [] && b != [] {
      FullBounds(Init(a), b);
      FullBounds(a, Init(b));
      FullBounds(Init(a), Init(b));
    }
  }

  lemma {:induction false} FullTriangle(a: string, b: string, c: string)
    ensures Full(a, c) <= Full(a, b) + Full(b, c)
    decreases |a| + |b| + |c|
  {
    FullBounds(a, b);
    FullBounds(b, c);
    if a == [] || c == [] {
    } else if b == [] {
      FullAtMostSum(a, c);
    } else {
      FullTriangle(Init(a), b, c);
      FullTriangle(a, b, Init(c));
      FullTriangle(a, Init(b), c);
      FullTriangle(a, Init(b), Init(c));
      FullTriangle(Init(a), Init(b), c);
      FullTriangle(Init(a), Init(b), Init(c));
    }
  }

  lemma {:induction false} FullAtMostSum(a: string, b: string)
    ensures Full(a, b) <= |a| + |b|
    decreases |a|
  {
    if a != [] && b != [] { FullAtMostSum(Init(a), b); }
  }

  lemma FullOfInit(a: string)
    requires a != []
    ensures Full(a, Init(a)) <= 1 && Full(Init(a), a) <= 1
  {
    FullZero(Init(a));
  }

  /** Why the shortcut is sound: when the last characters agree no neighbour beats the diagonal. */
  lemma {:induction false} ShortcutIsSound(a: string, b: string)
    ensures Distance(a, b) == Full(a, b)
    decreases |a| + |b|
  {
    if a != [] && b != [] {
      ShortcutIsSound(Init(a), b);
      ShortcutIsSound(a, Init(b));
      ShortcutIsSound(Init(a), Init(b));
      FullOfInit(a);
      FullOfInit(b);
      FullTriangle(Init(a), a, Init(b));
      FullTriangle(Init(a), b, Init(b));
    }
  }

  // ---------- the reference: chains of single-character edits ----------

  /** `t` is `s` with the character at `p` removed. */
  ghost predicate Removes(s: string, t: string, p: nat)
  {
    p < |s| && t == s[..p] + s[p + 1..]
  }

  /** `t` is `s` with the character at `p` replaced. */
  ghost predicate Substitutes(s: string, t: string, p: nat)
  {
    p < |s| == |t| && s[..p] == t[..p] && s[p + 1..] == t[p + 1..]
  }

  /** One insertion, deletion or substitution, anywhere in the string. */
  ghost predicate OneEdit(s: string, t: string)
  {
    || (exists p: nat :: Removes(s, t, p))
    || (exists p: nat :: Removes(t, s, p))
    || (exists p: nat :: Substitutes(s, t, p))
  }

  ghost predicate IsChain(chain: seq<string>, a: string, b: string)
  {
    && chain != []
    && chain[0] == a
    && chain[|chain| - 1] == b
    && forall i :: 0 < i < |chain| ==> OneEdit(chain[i - 1], chain[i])
  }

  /** `n` is the least number of edits that turn `a` into `b`. */
  ghost predicate IsEditDistance(a: string, b: string, n: nat)
  {
    && (exists chain :: IsChain(chain, a, b) && |chain| == n + 1)
    && (forall chain :: IsChain(chain, a, b) ==> n < |chain|)
  }

  lemma {:induction false} FullOfAppended(s: string, t: string, tail: string)
    ensures Full(s + tail, t + tail) <= Full(s, t)
    decreases |tail|
  {
    if tail == [] {
      assert s + tail == s && t + tail == t;
    } else {
      FullOfAppended(s, t, Init(tail));
      assert Init(s + tail) == s + Init(tail);
      assert Init(t + tail) == t + Init(tail);
    }
  }

  lemma FullOfRemoves(s: string, t: string, p: nat)
    requires Removes(s, t, p)
    ensures Full(s, t) <= 1
  {
    var head := s[..p + 1];
    assert s == head + s[p + 1..];
    assert Init(head) == s[..p];
    FullOfInit(head);
    FullOfAppended(head, Init(head), s[p + 1..]);
  }

  lemma FullOfOneEdit(s: string, t: string)
    requires OneEdit(s, t)
    ensures Full(s, t) <= 1
  {
    if p: nat :| Removes(s, t, p) {
      FullOfRemoves(s, t, p);
    } else if p: nat :| Removes(t, s, p) {
      FullOfRemoves(t, s, p);
      FullIsSymmetric(s, t);
    } else {
      var p: nat :| Substitutes(s, t, p);
      var head, head' := s[..p + 1], t[..p + 1];
      assert s == head + s[p + 1..] && t == head' + s[p + 1..];
      assert Init(head) == s[..p] && Init(head') == s[..p];
      FullZero(s[..p]);
      FullOfAppended(head, head', s[p + 1..]);
    }
  }

  lemma {:induction false} ChainIsNotShorter(chain: seq<string>, a: string, b: string)
    requires IsChain(chain, a, b)
    ensures Full(a, b) < |chain|
    decreases |chain|
  {
    if |chain| == 1 {
      FullZero(a);
    } else {
      var front := chain[..|chain| - 1];
      var m := front[|front| - 1];
      ChainIsNotShorter(front, a, m);
      FullOfOneEdit(m, b);
      FullTriangle(a, m, b);
    }
  }

  lemma OneEditAppended(s: string, t: string, c: char)
    requires OneEdit(s, t)
    ensures OneEdit(s + [c], t + [c])
  {
    if p: nat :| Removes(s, t, p) {
      assert t + [c] == (s + [c])[..p] + (s + [c])[p + 1..];
      assert Removes(s + [c], t + [c], p);
    } else if p: nat :| Removes(t, s, p) {
      assert s + [c] == (t + [c])[..p] + (t + [c])[p + 1..];
      assert Removes(t + [c], s + [c], p);
    } else {
      var p: nat :| Substitutes(s, t, p);
      assert (s + [c])[p + 1..] == s[p + 1..] + [c];
      assert (t + [c])[p + 1..] == t[p + 1..] + [c];
      assert Substitutes(s + [c], t + [c], p);
    }
  }

  /** A chain for the prefixes is a chain once the same character is appended to every string. */
  lemma ChainAppended(chain: seq<string>, a: string, b: string, c: char) returns (r: seq<string>)
    requires IsChain(chain, a, b)
    ensures IsChain(r, a + [c], b + [c]) && |r| == |chain|
  {
    r := seq(|chain|, i requires 0 <= i < |chain| => chain[i] + [c]);
    forall i | 0 < i < |r| ensures OneEdit(r[i - 1], r[i]) {
      OneEditAppended(chain[i - 1], chain[i], c);
    }
  }

  lemma ChainExtended(chain: seq<string>, a: string, m: string, b: string) returns (r: seq<string>)
    requires IsChain(chain, a, m) && OneEdit(m, b)
    ensures IsChain(r, a, b) && |r| == |chain| + 1
  {
    r := chain + [b];
  }

  lemma ChainPrepended(chain: seq<string>, a: string, m: string, b: string) returns (r: seq<string>)
    requires OneEdit(a, m) && IsChain(chain, m, b)
    ensures IsChain(r, a, b) && |r| == |chain| + 1
  {
    r := [a] + chain;
  }

  lemma RemovesLast(s: string)
    requires s != []
    ensures OneEdit(s, Init(s)) && OneEdit(Init(s), s)
  {
    assert Removes(s, Init(s), |s| - 1);
  }

  /** A chain of exactly `Distance(a, b)` edits, read off the recurrence. */
  lemma {:induction false} ShortestChain(a: string, b: string) returns (chain: seq<string>)
    ensures IsChain(chain, a, b) && |chain| == Distance(a, b) + 1
    decreases |a| + |b|
  {
    if a == [] && b == [] {
      chain := [a];
    } else if a == [] {
      chain := ShortestChain(a, Init(b));
      RemovesLast(b);
      chain := ChainExtended(chain, a, Init(b), b);
    } else if b == [] {
      chain := ShortestChain(Init(a), b);
      RemovesLast(a);
      chain := ChainPrepended(chain, a, Init(a), b);
    } else {
      assert a == Init(a) + [Last(a)] && b == Init(b) + [Last(b)];
      if Last(a) == Last(b) {
        chain := ShortestChain(Init(a), Init(b));
        chain := ChainAppended(chain, Init(a), Init(b), Last(a));
      } else if Distance(a, b) == Distance(a, Init(b)) + 1 {
        chain := ShortestChain(a, Init(b));
        RemovesLast(b);
        chain := ChainExtended(chain, a, Init(b), b);
      } else if Distance(a, b) == Distance(Init(a), b) + 1 {
        chain := ShortestChain(Init(a), b);
        RemovesLast(a);
        chain := ChainPrepended(chain, a, Init(a), b);
      } else {
        chain := ShortestChain(Init(a), Init(b));
        chain := ChainAppended(chain, Init(a), Init(b), Last(a));
        var m := Init(b) + [Last(a)];
        assert Substitutes(m, b, |m| - 1);
        chain := ChainExtended(chain, a, m, b);
      }
    }
  }

  /** Main result: the recurrence yields the length of a shortest edit chain. */
  lemma DistanceIsEditDistance(a: string, b: string)
    ensures IsEditDistance(a, b, Distance(a, b))
  {
    var chain := ShortestChain(a, b);
    ShortcutIsSound(a, b);
    forall chain | IsChain(chain, a, b) ensures Distance(a, b) < |chain| {
      ChainIsNotShorter(chain, a, b);
    }
  }

  /** Hence it is a metric. */
  lemma DistanceIsMetric(a: string, b: string, c: string)
    ensures Distance(a, b) == 0 <==> a == b
    ensures Distance(a, b) == Distance(b, a)
    ensures Distance(a, c) <= Distance(a, b) + Distance(b, c)
  {
    ShortcutIsSound(a, b);
    ShortcutIsSound(b, a);
    ShortcutIsSound(b, c);
    ShortcutIsSound(a, c);
    FullIsSymmetric(a, b);
    FullTriangle(a, b, c);
    FullZero(a);
    var chain := ShortestChain(a, b);
  }

  // ---------- the table ----------

  /** What cell (k, l) of the table is for: the distance between the prefixes of these lengths. */
  ghost function Cell(a: string, b: string, k: int, l: int): int
    requires 0 <= k <= |a| && 0 <= l <= |b|
  {
    Distance(a[..k], b[..l])
  }

  lemma CellRecurrence(a: string, b: string, i: int, j: int)
    requires 0 < i <= |a| && 0 < j <= |b|
    ensures Cell(a, b, i, j) ==
      if a[i - 1] == b[j - 1] then Cell(a, b, i - 1, j - 1)
      else Min(Min(Cell(a, b, i, j - 1) + 1, Cell(a, b, i - 1, j) + 1), Cell(a, b, i - 1, j - 1) + 1)
  {
    assert Init(a[..i]) == a[..i - 1] && Init(b[..j]) == b[..j - 1];
  }

  /** Fills the table that all calls share; whatever it held before does not matter. */
  method SolveLevenshteinDistance(dp: array2<int>, a: string, b: string) returns (distance: int)
    requires dp.Length0 == TABLE_SIZE && dp.Length1 == TABLE_SIZE
    requires |a| < TABLE_SIZE && |b| < TABLE_SIZE
    modifies dp
    ensures distance == Distance(a, b)
    ensures IsEditDistance(a, b, distance)
  {
    var m, n := |a|, |b|;
    for i := 0 to m + 1
      invariant forall k :: 0 <= k < i ==> dp[k, 0] == Cell(a, b, k, 0)
    {
      dp[i, 0] := i;
    }
    for j := 0 to n + 1
      invariant forall k :: 0 <= k <= m ==> dp[k, 0] == Cell(a, b, k, 0)
      invariant forall l :: 0 <= l < j ==> dp[0, l] == Cell(a, b, 0, l)
    {
      dp[0, j] := j;
    }
    for i := 1 to m + 1
      invariant forall k :: 0 <= k <= m ==> dp[k, 0] == Cell(a, b, k, 0)
      invariant forall k, l :: 0 <= k < i && 0 <= l <= n ==> dp[k, l] == Cell(a, b, k, l)
    {
      for j := 1 to n + 1
        invariant forall k :: 0 <= k <= m ==> dp[k, 0] == Cell(a, b, k, 0)
        invariant forall k, l :: 0 <= k < i && 0 <= l <= n ==> dp[k, l] == Cell(a, b, k, l)
        invariant forall l :: 0 <= l < j ==> dp[i, l] == Cell(a, b, i, l)
      {
        CellRecurrence(a, b, i, j);
        if a[i - 1] == b[j - 1] {
          dp[i, j] := dp[i - 1, j - 1];
        } else {
          dp[i, j] := Min(Min(dp[i, j - 1] + 1, dp[i - 1, j] + 1), dp[i - 1, j - 1] + 1);
        }
      }
    }
    distance := dp[m, n];
    assert a[..m] == a && b[..n] == b;
    DistanceIsEditDistance(a, b);
  }

  const SUGGESTION_LIMIT := 4

  ghost predicate IsFirstNearest(names: seq<string>, opt: string, k: int)
    requires 0 <= k < |names|
  {
    && (forall l :: 0 <= l < |names| ==> Distance(opt, names[k]) <= Distance(opt, names[l]))
    && (forall l :: 0 <= l < k ==> Distance(opt, names[k]) < Distance(opt, names[l]))
  }

  /** The first name at the least distance, if that distance is at most four. */
  method MostPossibleLongOptionSpell(dp: array2<int>, names: seq<string>, opt: string)
    returns (r: Option<string>)
    requires dp.Length0 == TABLE_SIZE && dp.Length1 == TABLE_SIZE
    requires |opt| < TABLE_SIZE && forall k :: 0 <= k < |names| ==> |names[k]| < TABLE_SIZE
    modifies dp
    ensures r.None? <==> forall k :: 0 <= k < |names| ==> Distance(opt, names[k]) > 4
    ensures r.Some? ==> exists k :: 0 <= k < |names| && IsFirstNearest(names, opt, k) && r.value == names[k]
  {
    var minDis := INT_MAX;
    var minOpt: Option<string> := None;
    ghost var at := 0;
    for i := 0 to |names|
      invariant minOpt.None? ==> i == 0 && minDis == INT_MAX
      invariant minOpt.Some? ==> 0 <= at < i && minOpt.value == names[at] && minDis == Distance(opt, names[at])
      invariant minOpt.Some? ==> forall l :: 0 <= l < i ==> minDis <= Distance(opt, names[l])
      invariant minOpt.Some? ==> forall l :: 0 <= l < at ==> minDis < Distance(opt, names[l])
    {
      var dis := SolveLevenshteinDistance(dp, opt, names[i]);
      ShortcutIsSound(opt, names[i]);
      FullAtMostSum(opt, names[i]);
      if dis < minDis {
        minDis, minOpt, at := dis, Some(names[i]), i;
      }
    }
    if minDis > SUGGESTION_LIMIT { return None; }
    return minOpt;
  }
}
