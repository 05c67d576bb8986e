/**
  Laying one tree over another, on names, kinds and contents only: what src/CRPKG/VirtualDisk.cc
  means by a layered disk.
 */
module Overlay {
  import opened Bytes
  import opened Composer
  import opened Package
  import opened Options

  type Name = seq<byte>

  // ---------- looking up ----------

  /** The first of the trees with this name. */
  function Child(ts: seq<Tree>, name: Name): Option<Tree>
  {
    if ts == [] then None else if ts[0].name == name then Some(ts[0]) else Child(ts[1..], name)
  }

  function Lookup(t: Tree, path: seq<Name>): Option<Tree>
    decreases |path|
  {
    if path == [] then Some(t)
    else if t.FileTree? then None
    else
      var child := Child(t.children, path[0]);
      if child.None? then None else Lookup(child.value, path[1..])
  }

  /** The contents of the file at the path, if there is one. */
  function FileAt(t: Tree, path: seq<Name>): Option<seq<byte>>
  {
    var node := Lookup(t, path);
    if node.Some? && node.value.FileTree? then Some(node.value.content) else None
  }

  ghost predicate UniqueNames(ts: seq<Tree>)
  {
    forall i, j :: 0 <= i < j < |ts| ==> ts[i].name != ts[j].name
  }

  /** Sibling names are unique at every level. */
  ghost predicate Proper(t: Tree)
  {
    t.DirTree? ==> UniqueNames(t.children) && forall k :: 0 <= k < |t.children| ==> Proper(t.children[k])
  }

  // ---------- laying over ----------

  function IndexOf(ts: seq<Tree>, name: Name): (r: Option<nat>)
    ensures r.Some? ==> r.value < |ts| && ts[r.value].name == name
    ensures r.None? ==> forall k :: 0 <= k < |ts| ==> ts[k].name != name
  {
    if ts == [] then None
    else if ts[0].name == name then Some(0)
    else
      var rest := IndexOf(ts[1..], name);
      if rest.None? then
        assert forall k :: 0 < k < |ts| ==> ts[k] == ts[1..][k - 1];
        None
      else Some(rest.value + 1)
  }

  /** The siblings with one upper tree laid over them. */
  function OverlayOne(ts: seq<Tree>, u: Tree): seq<Tree>
    decreases u, 1
  {
    var i := IndexOf(ts, u.name);
    if i.None? then ts + [u]
    else ts[i.value := OverlayPair(ts[i.value], u)]
  }

  /** An upper file, or a kind that differs, replaces; two directories are merged. */
  function OverlayPair(t: Tree, u: Tree): (r: Tree)
    ensures t.name == u.name ==> r.name == u.name
    decreases u, 0
  {
    if t.DirTree? && u.DirTree? then DirTree(t.name, OverlayAll(t.children, u.children)) else u
  }

  function OverlayAll(ts: seq<Tree>, us: seq<Tree>): seq<Tree>
    decreases us
  {
    if us == [] then ts else OverlayAll(OverlayOne(ts, us[0]), us[1..])
  }

  // ---------- the law for one directory ----------

  lemma {:induction false} ChildIsIndexed(ts: seq<Tree>, name: Name)
    ensures Child(ts, name) == match IndexOf(ts, name) case None => None case Some(i) => Some(ts[i])
  {
    if ts != [] && ts[0].name != name { ChildIsIndexed(ts[1..], name); }
  }

  lemma {:induction false} ChildUpdated(ts: seq<Tree>, i: nat, t: Tree, name: Name)
    requires i < |ts| && ts[i].name == t.name && UniqueNames(ts)
    ensures Child(ts[i := t], name) == if name == t.name then Some(t) else Child(ts, name)
  {
    if i == 0 {
      assert ts[0 := t][1..] == ts[1..];
    } else {
      assert ts[i := t][1..] == ts[1..][i - 1 := t];
      ChildUpdated(ts[1..], i - 1, t, name);
    }
  }

  lemma {:induction false} ChildAppended(ts: seq<Tree>, t: Tree, name: Name)
    ensures Child(ts + [t], name) ==
      if Child(ts, name).Some? then Child(ts, name) else if name == t.name then Some(t) else None
  {
    if ts == [] {
      assert ts + [t] == [t] && [t][1..] == [];
    } else if ts[0].name != name {
      ChildAppended(ts[1..], t, name);
      assert (ts + [t])[1..] == ts[1..] + [t];
    }
  }

  lemma OverlayOneKeepsUnique(ts: seq<Tree>, u: Tree)
    requires UniqueNames(ts)
    ensures UniqueNames(OverlayOne(ts, u))
  {
  }

  lemma OverlayOneLaw(ts: seq<Tree>, u: Tree, name: Name)
    requires UniqueNames(ts)
    ensures Child(OverlayOne(ts, u), name) ==
      if name != u.name then Child(ts, name)
      else match Child(ts, name) case None => Some(u) case Some(t) => Some(OverlayPair(t, u))
  {
    ChildIsIndexed(ts, u.name);
    var i := IndexOf(ts, u.name);
    if i.None? {
      ChildAppended(ts, u, name);
    } else {
      ChildUpdated(ts, i.value, OverlayPair(ts[i.value], u), name);
    }
  }

  /**
    The law of the overlay, name by name: the lower tree where the upper layer has nothing, the
    upper tree where the lower layer has nothing, and the overlay of the pair where both have one.
   */
  lemma {:induction false} OverlayLaw(ts: seq<Tree>, us: seq<Tree>, name: Name)
    requires UniqueNames(ts) && UniqueNames(us)
    ensures UniqueNames(OverlayAll(ts, us))
    ensures Child(OverlayAll(ts, us), name) ==
      match Child(us, name)
      case None => Child(ts, name)
      case Some(u) => match Child(ts, name) case None => Some(u) case Some(t) => Some(OverlayPair(t, u))
    decreases |us|
  {
    if us != [] {
      OverlayOneKeepsUnique(ts, us[0]);
      OverlayOneLaw(ts, us[0], name);
      OverlayLaw(OverlayOne(ts, us[0]), us[1..], name);
      if us[0].name == name { NoSuchChild(us[1..], name); }
    }
  }

  lemma {:induction false} NoSuchChild(ts: seq<Tree>, name: Name)
    requires forall k :: 0 <= k < |ts| ==> ts[k].name != name
    ensures Child(ts, name) == None
  {
    if ts != [] { NoSuchChild(ts[1..], name); }
  }

  lemma {:induction false} ChildIsThere(ts: seq<Tree>, name: Name) returns (k: nat)
    requires Child(ts, name).Some?
    ensures k < |ts| && ts[k] == Child(ts, name).value && ts[k].name == name
  {
    if ts[0].name == name {
      k := 0;
    } else {
      k := ChildIsThere(ts[1..], name);
      k := k + 1;
    }
  }

  // ---------- order ----------

  function NamesIn(ts: seq<Tree>): (names: seq<Name>)
    ensures |names| == |ts| && forall k :: 0 <= k < |ts| ==> names[k] == ts[k].name
  {
    seq(|ts|, k requires 0 <= k < |ts| => ts[k].name)
  }

  /** The lower siblings keep their places; the upper ones with new names follow in their own order. */
  lemma {:induction false} OverlayKeepsOrder(ts: seq<Tree>, us: seq<Tree>)
    ensures NamesIn(OverlayAll(ts, us)) == AddedAll(NamesIn(ts), NamesIn(us))
    decreases |us|
  {
    if us == [] {
      assert NamesIn(us) == [];
    } else {
      assert NamesIn(us)[1..] == NamesIn(us[1..]);
      OverlayOneIsAdded(ts, us[0]);
      OverlayKeepsOrder(OverlayOne(ts, us[0]), us[1..]);
    }
  }

  lemma OverlayOneIsAdded(ts: seq<Tree>, u: Tree)
    ensures NamesIn(OverlayOne(ts, u)) == Added(NamesIn(ts), u.name)
  {
    var i := IndexOf(ts, u.name);
    if i.Some? { assert NamesIn(ts)[i.value] == u.name; }
    assert |NamesIn(OverlayOne(ts, u))| == |Added(NamesIn(ts), u.name)|;
  }

  // ---------- sibling names stay unique ----------

  lemma {:induction false} OverlayPairIsProper(t: Tree, u: Tree)
    requires Proper(t) && Proper(u)
    ensures Proper(OverlayPair(t, u))
    decreases u, 0
  {
    if t.DirTree? && u.DirTree? { OverlayAllIsProper(t.children, u.children); }
  }

  lemma {:induction false} OverlayAllIsProper(ts: seq<Tree>, us: seq<Tree>)
    requires UniqueNames(ts) && UniqueNames(us)
    requires (forall k :: 0 <= k < |ts| ==> Proper(ts[k])) && (forall k :: 0 <= k < |us| ==> Proper(us[k]))
    ensures UniqueNames(OverlayAll(ts, us))
    ensures forall k :: 0 <= k < |OverlayAll(ts, us)| ==> Proper(OverlayAll(ts, us)[k])
    decreases us, 1
  {
    if us != [] {
      OverlayOneKeepsUnique(ts, us[0]);
      var i := IndexOf(ts, us[0].name);
      if i.Some? { OverlayPairIsProper(ts[i.value], us[0]); }
      OverlayAllIsProper(OverlayOne(ts, us[0]), us[1..]);
    }
  }

  // ---------- the law for paths ----------

  /** At some point on the way down, the root included, the upper layer has a node that replaces the lower one. */
  ghost predicate Replaced(t: Tree, u: Tree, path: seq<Name>)
  {
    exists n :: 0 <= n <= |path| && Conflict(Lookup(t, path[..n]), Lookup(u, path[..n]))
  }

  /** Both layers have the node and at least one of the two is a file. */
  predicate Conflict(t: Option<Tree>, u: Option<Tree>)
  {
    t.Some? && u.Some? && (t.value.FileTree? || u.value.FileTree?)
  }

  lemma {:induction false} ProperChild(t: Tree, name: Name)
    requires t.DirTree? && Proper(t) && Child(t.children, name).Some?
    ensures Proper(Child(t.children, name).value)
  {
    var k := ChildIsThere(t.children, name);
  }

  /**
    The law for the node at any path: the upper layer's node, laid over the lower one if there is one;
    the lower layer's node shows through unless an upper node has replaced it or one above it.
   */
  lemma {:induction false} OverlayPathLaw(t: Tree, u: Tree, path: seq<Name>)
    requires Proper(t) && Proper(u)
    ensures Lookup(OverlayPair(t, u), path) ==
      match Lookup(u, path)
      case None => if Replaced(t, u, path) then None else Lookup(t, path)
      case Some(un) => match Lookup(t, path) case None => Some(un) case Some(tn) => Some(OverlayPair(tn, un))
    decreases |path|
  {
    if t.FileTree? || u.FileTree? {
      assert Conflict(Lookup(t, path[..0]), Lookup(u, path[..0]));
    } else if path == [] {
      assert path[..0] == path;
    } else {
      var (ct, cu) := (Child(t.children, path[0]), Child(u.children, path[0]));
      OverlayLaw(t.children, u.children, path[0]);
      ReplacedUnfolds(t, u, path);
      if ct.Some? && cu.Some? {
        ProperChild(t, path[0]);
        ProperChild(u, path[0]);
        OverlayPathLaw(ct.value, cu.value, path[1..]);
      }
    }
  }

  /** In particular for files: the upper layer's file, else the lower layer's unless it was replaced. */
  lemma OverlayFileLaw(t: Tree, u: Tree, path: seq<Name>)
    requires Proper(t) && Proper(u)
    ensures FileAt(OverlayPair(t, u), path) ==
      if FileAt(u, path).Some? then FileAt(u, path)
      else if Replaced(t, u, path) then None
      else FileAt(t, path)
  {
    OverlayPathLaw(t, u, path);
    if Lookup(t, path).Some? && Lookup(u, path).Some? { assert path[..|path|] == path; }
  }

  lemma ReplacedUnfolds(t: Tree, u: Tree, path: seq<Name>)
    requires t.DirTree? && u.DirTree? && path != []
    ensures var (ct, cu) := (Child(t.children, path[0]), Child(u.children, path[0]));
      Replaced(t, u, path) <==>
        ct.Some? && cu.Some? && Replaced(ct.value, cu.value, path[1..])
  {
    var (ct, cu) := (Child(t.children, path[0]), Child(u.children, path[0]));
    if Replaced(t, u, path) {
      var n :| 0 <= n <= |path| && Conflict(Lookup(t, path[..n]), Lookup(u, path[..n]));
      assert n > 0;
      assert path[..n][1..] == path[1..][..n - 1];
      assert Conflict(Lookup(ct.value, path[1..][..n - 1]), Lookup(cu.value, path[1..][..n - 1]));
    }
    if ct.Some? && cu.Some? && Replaced(ct.value, cu.value, path[1..]) {
      var n :| 0 <= n <= |path[1..]| && Conflict(Lookup(ct.value, path[1..][..n]), Lookup(cu.value, path[1..][..n]));
      assert path[..n + 1][1..] == path[1..][..n];
      assert Conflict(Lookup(t, path[..n + 1]), Lookup(u, path[..n + 1]));
    }
  }
}
