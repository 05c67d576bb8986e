/**
  Splitting a string at a delimiter (`SplitString` in src/Core/Utils.cc). The search starts at index
  one, so a delimiter at index zero is not seen.
 */
module SplitString {
  import opened Bytes

  type Str = seq<byte>

  /** The first delimiter at or after `from`, or the length of the string. */
  function FindDelimiter(s: Str, delimiter: byte, from: nat): (i: nat)
    requires from <= |s|
    ensures from <= i <= |s|
    ensures i < |s| ==> s[i] == delimiter
    ensures forall k :: from <= k < i ==> s[k] != delimiter
    decreases |s| - from
  {
    if from == |s| || s[from] == delimiter then from else FindDelimiter(s, delimiter, from + 1)
  }

  /** The pieces of s[start..], the first delimiter being looked for from `from` on. */
  function PiecesFrom(s: Str, delimiter: byte, start: nat, from: nat): (r: seq<Str>)
    requires start <= from <= |s|
    ensures r != []
    decreases |s| - from
  {
    var i := FindDelimiter(s, delimiter, from);
    if i == |s| then [s[start..]] else [s[start..i]] + PiecesFrom(s, delimiter, i + 1, i + 1)
  }

  /** Proper splitting: every delimiter counts. */
  function Split(s: Str, delimiter: byte): seq<Str> { PiecesFrom(s, delimiter, 0, 0) }

  /** What the code computes. */
  function SplitFromOne(s: Str, delimiter: byte): seq<Str>
  {
    if s == [] then [[]] else PiecesFrom(s, delimiter, 0, 1)
  }

  function Join(pieces: seq<Str>, delimiter: byte): Str
    requires pieces != []
  {
    if |pieces| == 1 then pieces[0] else pieces[0] + [delimiter] + Join(pieces[1..], delimiter)
  }

  lemma PiecesUnfold(s: Str, delimiter: byte, start: nat, from: nat)
    requires start <= from <= |s|
    ensures var i := FindDelimiter(s, delimiter, from);
      PiecesFrom(s, delimiter, start, from)
        == if i == |s| then [s[start..]] else [s[start..i]] + PiecesFrom(s, delimiter, i + 1, i + 1)
  {
  }

  lemma SplitIsPieces(s: Str, delimiter: byte)
    ensures [] + PiecesFrom(s, delimiter, 0, if s == [] then 0 else 1) == SplitFromOne(s, delimiter)
    ensures s == [] ==> FindDelimiter(s, delimiter, 0) == 0
  {
    if s == [] { assert s[0..] == []; }
  }

  method SplitStr(s: Str, delimiter: byte) returns (pieces: seq<Str>)
    ensures pieces == SplitFromOne(s, delimiter)
    ensures pieces != [] && Join(pieces, delimiter) == s
  {
    hide FindDelimiter, PiecesFrom, SplitFromOne, Join;
    pieces := [];
    var lastP := -1;
    var p := if |s| < 1 then |s| else FindDelimiter(s, delimiter, 1);
    ghost var from: nat := if s == [] then 0 else 1;
    SplitIsPieces(s, delimiter);
    while p < |s|
      invariant 0 <= lastP + 1 <= from <= p <= |s| && p == FindDelimiter(s, delimiter, from)
      invariant pieces + PiecesFrom(s, delimiter, lastP + 1, from) == SplitFromOne(s, delimiter)
      decreases |s| - p
    {
      PiecesUnfold(s, delimiter, lastP + 1, from);
      Regrouped(pieces, [s[lastP + 1..p]], PiecesFrom(s, delimiter, p + 1, p + 1));
      pieces := pieces + [s[lastP + 1..p]];
      lastP, from := p, p + 1;
      p := FindDelimiter(s, delimiter, p + 1);
    }
    PiecesUnfold(s, delimiter, lastP + 1, from);
    pieces := pieces + [s[lastP + 1..]];
    SplitRejoins(s, delimiter);
  }

  lemma Regrouped(a: seq<Str>, b: seq<Str>, c: seq<Str>)
    ensures a + (b + c) == a + b + c
  {
  }

  lemma JoinCons(first: Str, rest: seq<Str>, delimiter: byte)
    requires rest != []
    ensures Join([first] + rest, delimiter) == first + [delimiter] + Join(rest, delimiter)
  {
    assert ([first] + rest)[1..] == rest;
  }

  lemma {:induction false} PiecesRejoin(s: Str, delimiter: byte, start: nat, from: nat)
    requires start <= from <= |s|
    ensures Join(PiecesFrom(s, delimiter, start, from), delimiter) == s[start..]
    decreases |s| - from
  {
    var i := FindDelimiter(s, delimiter, from);
    if i < |s| {
      PiecesRejoin(s, delimiter, i + 1, i + 1);
      hide FindDelimiter, Join;
      JoinCons(s[start..i], PiecesFrom(s, delimiter, i + 1, i + 1), delimiter);
      assert s[start..] == s[start..i] + [delimiter] + s[i + 1..];
    }
  }

  /** The pieces always rejoin to the string, delimiter at index zero or not. */
  lemma SplitRejoins(s: Str, delimiter: byte)
    ensures Join(SplitFromOne(s, delimiter), delimiter) == s
    ensures Join(Split(s, delimiter), delimiter) == s
  {
    PiecesRejoin(s, delimiter, 0, 0);
    if s != [] { PiecesRejoin(s, delimiter, 0, 1); }
  }

  ghost predicate Free(pieces: seq<Str>, delimiter: byte)
  {
    forall k :: 0 <= k < |pieces| ==> delimiter !in pieces[k]
  }

  lemma {:induction false} PiecesAreFree(s: Str, delimiter: byte, start: nat)
    requires start <= |s|
    ensures Free(PiecesFrom(s, delimiter, start, start), delimiter)
    decreases |s| - start
  {
    var i := FindDelimiter(s, delimiter, start);
    if i < |s| { PiecesAreFree(s, delimiter, i + 1); }
  }

  /** The blindness at index zero matters exactly for strings that start with the delimiter. */
  lemma BlindExactlyAtStart(s: Str, delimiter: byte)
    ensures SplitFromOne(s, delimiter) == Split(s, delimiter) <==> (s == [] || s[0] != delimiter)
  {
    if s != [] && s[0] == delimiter {
      assert Split(s, delimiter)[0] == [];
      assert SplitFromOne(s, delimiter)[0] != [];
    }
  }

  /** What becomes of a leading delimiter: it stays in the first piece. */
  lemma LeadingDelimiterStays(s: Str, delimiter: byte)
    requires s != [] && s[0] == delimiter
    ensures |Split(s, delimiter)| >= 2 && Split(s, delimiter)[0] == []
    ensures SplitFromOne(s, delimiter) == [[delimiter] + Split(s, delimiter)[1]] + Split(s, delimiter)[2..]
  {
    assert FindDelimiter(s, delimiter, 0) == 0 && s[0..0] == [];
    var i := FindDelimiter(s, delimiter, 1);
    var rest := PiecesFrom(s, delimiter, 1, 1);
    assert Split(s, delimiter) == [[]] + rest;
    assert s[0..i] == [delimiter] + s[1..i];
    if i == |s| {
      assert rest == [s[1..]] && s[0..] == [delimiter] + s[1..];
    } else {
      assert rest == [s[1..i]] + PiecesFrom(s, delimiter, i + 1, i + 1);
    }
  }

  /** A string that starts with a piece and a delimiter. */
  lemma JoinHead(pieces: seq<Str>, delimiter: byte, s: Str, start: nat)
    requires pieces != [] && delimiter !in pieces[0]
    requires start <= |s| && s[start..] == Join(pieces, delimiter)
    ensures var end := start + |pieces[0]|;
      && end <= |s| && s[start..end] == pieces[0] && FindDelimiter(s, delimiter, start) == end
      && (|pieces| == 1 <==> end == |s|)
      && (|pieces| > 1 ==> s[end + 1..] == Join(pieces[1..], delimiter))
  {
    var tail, end := s[start..], start + |pieces[0]|;
    assert tail[..|pieces[0]|] == pieces[0];
    assert s[start..end] == tail[..|pieces[0]|];
    forall k | start <= k < end ensures s[k] != delimiter { assert s[k] == s[start..end][k - start]; }
    if |pieces| > 1 {
      assert s[end] == tail[|pieces[0]|] == delimiter;
      assert s[end + 1..] == tail[|pieces[0]| + 1..];
    }
    FindsAt(s, delimiter, start, end);
  }

  lemma {:induction false} JoinFrom(pieces: seq<Str>, delimiter: byte, s: Str, start: nat)
    requires pieces != [] && Free(pieces, delimiter)
    requires start <= |s| && s[start..] == Join(pieces, delimiter)
    ensures PiecesFrom(s, delimiter, start, start) == pieces
    decreases |pieces|
  {
    hide FindDelimiter, Join;
    assert delimiter !in pieces[0];
    JoinHead(pieces, delimiter, s, start);
    if |pieces| > 1 {
      assert forall k :: 0 <= k < |pieces| - 1 ==> pieces[1..][k] == pieces[k + 1];
      JoinFrom(pieces[1..], delimiter, s, start + |pieces[0]| + 1);
      assert [pieces[0]] + pieces[1..] == pieces;
    } else {
      assert [pieces[0]] == pieces && s[start..|s|] == s[start..];
    }
  }

  lemma FindsAt(s: Str, delimiter: byte, from: nat, i: nat)
    requires from <= i <= |s| && (forall k :: from <= k < i ==> s[k] != delimiter) && (i < |s| ==> s[i] == delimiter)
    ensures FindDelimiter(s, delimiter, from) == i
  {
    var j := FindDelimiter(s, delimiter, from);
    assert j >= i;
  }

  /** Splitting undoes joining. */
  lemma SplitOfJoin(pieces: seq<Str>, delimiter: byte)
    requires pieces != [] && Free(pieces, delimiter)
    ensures Split(Join(pieces, delimiter), delimiter) == pieces
  {
    var s := Join(pieces, delimiter);
    assert s[0..] == s;
    JoinFrom(pieces, delimiter, s, 0);
  }
}
