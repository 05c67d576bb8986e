/**
  Layered virtual disks (the `VDiskDirtreeNode` class and `MakeLayerDisk` of
  src/CRPKG/VirtualDisk.cc).

  A node of the merged tree keeps a reference to its own package, but a directory resolves the name
  ids of its children in the string table of its own package, whichever package they came from.
  The model does the same, says exactly when that finds the right child, and gives two layers for
  which it does not.
 */
module VirtualDisk {
  import opened Bytes
  import opened Package
  import opened Overlay
  import opened Options

  /** The string and data tables of one package. */
  datatype Tables = Tables(names: seq<Name>, datas: seq<seq<byte>>)

  /** A node of the merged tree with the package it refers to. */
  datatype Node = Node(tables: Tables, isDirectory: bool, nameId: nat, dataId: nat, children: seq<Node>)

  function BuildNode(tables: Tables, from: DirNode): Node
    decreases from, 1
  {
    Node(tables, from.isDirectory, from.nameId, from.dataId, BuildNodes(tables, from.children))
  }

  function BuildNodes(tables: Tables, from: seq<DirNode>): (r: seq<Node>)
    ensures |r| == |from|
    decreases from, 0
  {
    if from == [] then [] else [BuildNode(tables, from[0])] + BuildNodes(tables, from[1..])
  }

  // ---------- finding a child ----------

  /** `CheckFails` is a name id that is not in the string table: the program stops there. */
  datatype Found = At(index: nat) | Missing | CheckFails

  /** Looks for a child by name, from child `i` on, with the ids resolved in `names`. */
  function FindFrom(names: seq<Name>, children: seq<Node>, name: Name, i: nat): (r: Found)
    requires i <= |children|
    ensures r.At? ==> i <= r.index < |children|
    decreases |children| - i
  {
    if i == |children| then Missing
    else if children[i].nameId >= |names| then CheckFails
    else if names[children[i].nameId] == name then At(i)
    else FindFrom(names, children, name, i + 1)
  }

  /** All ids before child `k` are in the table, and none of them means the name. */
  ghost predicate NotBefore(names: seq<Name>, children: seq<Node>, name: Name, i: nat, k: int)
    requires k <= |children|
  {
    forall j :: i <= j < k ==> children[j].nameId < |names| && names[children[j].nameId] != name
  }

  /** The first child whose id means the name or is out of range decides. */
  lemma {:induction false} FindsIff(names: seq<Name>, children: seq<Node>, name: Name, i: nat, k: nat)
    requires i <= k < |children|
    ensures FindFrom(names, children, name, i) == At(k) <==>
      NotBefore(names, children, name, i, k) && children[k].nameId < |names| && names[children[k].nameId] == name
    ensures FindFrom(names, children, name, i) == CheckFails && NotBefore(names, children, name, i, k) && children[k].nameId < |names|
      ==> names[children[k].nameId] != name
    ensures NotBefore(names, children, name, i, k) && children[k].nameId >= |names| ==> FindFrom(names, children, name, i) == CheckFails
    decreases k - i
  {
    if i < k { FindsIff(names, children, name, i + 1, k); }
  }

  lemma {:induction false} MissesIff(names: seq<Name>, children: seq<Node>, name: Name, i: nat)
    requires i <= |children|
    ensures FindFrom(names, children, name, i) == Missing <==> NotBefore(names, children, name, i, |children|)
    decreases |children| - i
  {
    if i < |children| { MissesIff(names, children, name, i + 1); }
  }

  function FindChildrenByName(node: Node, name: Name): (r: Found)
    ensures r.At? ==> r.index < |node.children|
  {
    FindFrom(node.tables.names, node.children, name, 0)
  }

  // ---------- merging a layer ----------

  /** The node with these children of another directory merged in; None stands for a failed check. */
  function Merged(node: Node, tables: Tables, merge: seq<DirNode>): Option<Node>
    decreases merge
  {
    if merge == [] then Some(node)
    else
      var first := MergedOne(node, tables, merge[0]);
      if first.None? then None else Merged(first.value, tables, merge[1..])
  }

  function MergedOne(node: Node, tables: Tables, merge: DirNode): Option<Node>
    decreases merge
  {
    if merge.nameId >= |tables.names| then None
    else
      match FindChildrenByName(node, tables.names[merge.nameId])
      case CheckFails => None
      case Missing => Some(node.(children := node.children + [BuildNode(tables, merge)]))
      case At(i) =>
        if node.children[i].isDirectory != merge.isDirectory || !merge.isDirectory then
          Some(node.(children := node.children[i := BuildNode(tables, merge)]))
        else
          var child := Merged(node.children[i], tables, merge.children);
          if child.None? then None else Some(node.(children := node.children[i := child.value]))
  }

  /** The nodes as they are on the heap: `children_` is updated in place. */
  class DiskNode {
    const tables: Tables
    const isDirectory: bool
    const nameId: nat
    const dataId: nat
    var children: seq<DiskNode>
    ghost var repr: set<DiskNode>

    /** Every node owns its children, so no two subtrees share a node. */
    ghost predicate Valid()
      reads this, repr
      decreases repr
      ensures Valid() ==> this in repr
    {
      && this in repr
      && (forall k :: 0 <= k < |children| ==>
          && children[k] in repr && children[k].repr <= repr
          && this !in children[k].repr && children[k].Valid())
      && (forall i, j :: 0 <= i < j < |children| ==> children[i].repr !! children[j].repr)
    }

    ghost function Value(): Node
      requires Valid()
      reads this, repr
      decreases repr, 1
    {
      Node(tables, isDirectory, nameId, dataId, ValuesFrom(0))
    }

    ghost function ValuesFrom(i: nat): (r: seq<Node>)
      requires Valid() && i <= |children|
      reads this, repr
      ensures |r| == |children| - i
      ensures forall k :: 0 <= k < |r| ==> r[k] == children[i + k].Value()
      decreases repr, 0, |children| - i
    {
      if i == |children| then [] else [children[i].Value()] + ValuesFrom(i + 1)
    }

    constructor (tables: Tables, isDirectory: bool, nameId: nat, dataId: nat)
      ensures Valid() && fresh(repr)
      ensures Value() == Node(tables, isDirectory, nameId, dataId, [])
    {
      this.tables, this.isDirectory, this.nameId, this.dataId := tables, isDirectory, nameId, dataId;
      children := [];
      repr := {this};
    }

    method AddChild(child: DiskNode)
      requires Valid() && child.Valid() && repr !! child.repr
      modifies this
      ensures Valid() && repr == old(repr) + child.repr
      ensures Value() == old(Value()).(children := old(Value()).children + [old(child.Value())])
    {
      ghost var values, added, kids := ValuesFrom(0), child.Value(), children + [child];
      children := children + [child];
      repr := repr + child.repr;
      forall k | 0 <= k < |kids| ensures kids[k].Value() == old(kids[k].Value()) {}
      assert ValuesFrom(0) == values + [added];
    }

    method SetChild(i: nat, child: DiskNode)
      requires Valid() && child.Valid() && repr !! child.repr && i < |children|
      modifies this
      ensures Valid() && repr == old(repr) + child.repr
      ensures Value() == old(Value()).(children := old(Value()).children[i := old(child.Value())])
    {
      ghost var values, added, kids := ValuesFrom(0), child.Value(), children[i := child];
      children := children[i := child];
      repr := repr + child.repr;
      forall k | 0 <= k < |kids| ensures kids[k].Value() == old(kids[k].Value()) {}
      assert ValuesFrom(0) == values[i := added];
    }

    /** The subtree below child `i` was changed in place. */
    ghost method ChildChanged(i: nat, values: seq<Node>, kids: seq<DiskNode>)
      requires this in repr && i < |children| && kids == children
      requires forall k :: 0 <= k < |children| ==>
        children[k].Valid() && this !in children[k].repr && (k != i ==> children[k] in repr && children[k].repr <= repr)
      requires forall k, l :: 0 <= k < l < |children| ==> children[k].repr !! children[l].repr
      requires |values| == |children| && forall k :: 0 <= k < |children| && k != i ==> children[k].Value() == values[k]
      modifies this`repr
      ensures Valid() && repr == old(repr) + children[i].repr
      ensures Value() == Node(tables, isDirectory, nameId, dataId, values[i := children[i].Value()])
    {
      repr := repr + children[i].repr;
      forall k | 0 <= k < |kids| ensures kids[k].Value() == old(kids[k].Value()) {}
      assert ValuesFrom(0) == values[i := children[i].Value()];
    }

    method Find(name: Name) returns (r: Found)
      requires Valid()
      ensures r == FindChildrenByName(Value(), name)
    {
      ghost var values := Value().children;
      for i := 0 to |children|
        invariant FindFrom(tables.names, values, name, i) == FindFrom(tables.names, values, name, 0)
      {
        assert values[i].nameId == children[i].nameId;
        if children[i].nameId >= |tables.names| { return CheckFails; }
        if tables.names[children[i].nameId] == name { return Found.At(i); }
      }
      return Missing;
    }

    /** Merges the children of a directory of another package into this node. */
    method MergeChildren(pkg: Tables, merge: seq<DirNode>) returns (ok: bool)
      requires Valid()
      modifies repr
      ensures Valid() && old(repr) <= repr && fresh(repr - old(repr))
      ensures ok <==> Merged(old(Value()), pkg, merge).Some?
      ensures ok ==> Value() == Merged(old(Value()), pkg, merge).value
      decreases merge
    {
      for i := 0 to |merge|
        invariant Valid() && old(repr) <= repr && fresh(repr - old(repr))
        invariant Merged(Value(), pkg, merge[i..]) == Merged(old(Value()), pkg, merge)
      {
        ghost var before := Value();
        assert merge[i..][0] == merge[i] && merge[i..][1..] == merge[i + 1..];
        ok := MergeOne(pkg, merge[i]);
        if !ok { return; }
      }
      assert merge[|merge|..] == [];
      return true;
    }

    method MergeOne(pkg: Tables, merge: DirNode) returns (ok: bool)
      requires Valid()
      modifies repr
      ensures Valid() && old(repr) <= repr && fresh(repr - old(repr))
      ensures ok <==> MergedOne(old(Value()), pkg, merge).Some?
      ensures ok ==> Value() == MergedOne(old(Value()), pkg, merge).value
      decreases merge, 1
    {
      hide BuildNode, Merged, FindFrom;
      if merge.nameId >= |pkg.names| { return false; }
      var found := Find(pkg.names[merge.nameId]);
      match found
      case CheckFails => ok := false;
      case Missing =>
        var node := Build(pkg, merge);
        AddChild(node);
        ok := true;
      case At(i) =>
        assert Value().children[i] == children[i].Value();
        if children[i].isDirectory != merge.isDirectory || !merge.isDirectory {
          var node := Build(pkg, merge);
          SetChild(i, node);
          ok := true;
        } else {
          ok := MergeInto(i, pkg, merge);
        }
    }

    method MergeInto(i: nat, pkg: Tables, merge: DirNode) returns (ok: bool)
      requires Valid() && i < |children|
      modifies repr
      ensures Valid() && old(repr) <= repr && fresh(repr - old(repr))
      ensures var child := Merged(old(children[i].Value()), pkg, merge.children);
        && (ok <==> child.Some?)
        && (ok ==> Value() == old(Value()).(children := old(Value()).children[i := child.value]))
      decreases merge, 0
    {
      ghost var values := ValuesFrom(0);
      ok := children[i].MergeChildren(pkg, merge.children);
      ChildChanged(i, values, children);
    }

    static method Build(tables: Tables, from: DirNode) returns (node: DiskNode)
      ensures node.Valid() && fresh(node.repr)
      ensures node.Value() == BuildNode(tables, from)
      decreases from
    {
      node := new DiskNode(tables, from.isDirectory, from.nameId, from.dataId);
      for k := 0 to |from.children|
        invariant node.Valid() && fresh(node.repr)
        invariant node.Value() == BuildNode(tables, from).(children := BuildNodes(tables, from.children[..k]))
      {
        var child := Build(tables, from.children[k]);
        BuildNodesAppend(tables, from.children[..k], from.children[k]);
        assert from.children[..k + 1] == from.children[..k] + [from.children[k]];
        node.AddChild(child);
      }
      assert from.children[..|from.children|] == from.children;
    }
  }

  lemma {:induction false} BuildNodesAppend(tables: Tables, from: seq<DirNode>, last: DirNode)
    ensures BuildNodes(tables, from + [last]) == BuildNodes(tables, from) + [BuildNode(tables, last)]
  {
    if from == [] {
      assert from + [last] == [last] && [last][1..] == [];
    } else {
      BuildNodesAppend(tables, from[1..], last);
      assert (from + [last])[1..] == from[1..] + [last];
    }
  }

  // ---------- when is a child found under its own name? ----------

  /** The name id is in the node's own string table. */
  predicate Named(node: Node) { node.nameId < |node.tables.names| }

  ghost predicate AllNamed(nodes: seq<Node>) { forall k :: 0 <= k < |nodes| ==> Named(nodes[k]) }

  /** A child is called by its own package's string table. */
  function OwnName(node: Node): Name
    requires Named(node)
  {
    node.tables.names[node.nameId]
  }

  /** The lookup by own names. */
  function FindOwn(children: seq<Node>, name: Name, i: nat): (r: Found)
    requires AllNamed(children)
    requires i <= |children|
    ensures r.At? ==> i <= r.index < |children| && OwnName(children[r.index]) == name
    ensures r.Missing? ==> forall k :: i <= k < |children| ==> OwnName(children[k]) != name
    ensures !r.CheckFails?
    decreases |children| - i
  {
    if i == |children| then Missing else if OwnName(children[i]) == name then At(i) else FindOwn(children, name, i + 1)
  }

  /** The directory's own string table gives each child the name it has in its own package. */
  ghost predicate Coherent(node: Node)
    requires AllNamed(node.children)
  {
    forall k :: 0 <= k < |node.children| ==>
      var child := node.children[k];
      child.nameId < |node.tables.names| && node.tables.names[child.nameId] == OwnName(child)
  }

  lemma {:induction false} CoherentFinds(node: Node, name: Name, i: nat)
    requires AllNamed(node.children)
    requires Coherent(node) && i <= |node.children|
    ensures FindFrom(node.tables.names, node.children, name, i) == FindOwn(node.children, name, i)
    decreases |node.children| - i
  {
    if i < |node.children| && OwnName(node.children[i]) != name { CoherentFinds(node, name, i + 1); }
  }

  lemma {:induction false} FoundIsResolved(names: seq<Name>, children: seq<Node>, name: Name, i: nat)
    requires i <= |children|
    ensures var r := FindFrom(names, children, name, i);
      r.At? ==> children[r.index].nameId < |names| && names[children[r.index].nameId] == name
    decreases |children| - i
  {
    if i < |children| { FoundIsResolved(names, children, name, i + 1); }
  }

  /** Exactly the coherent directories find every child under its own name and nothing else. */
  lemma LookupIsRightIffCoherent(node: Node)
    requires AllNamed(node.children)
    requires forall j, k :: 0 <= j < k < |node.children| ==> OwnName(node.children[j]) != OwnName(node.children[k])
    ensures (forall name: Name :: FindChildrenByName(node, name) == FindOwn(node.children, name, 0)) <==> Coherent(node)
  {
    if Coherent(node) {
      forall name: Name ensures FindChildrenByName(node, name) == FindOwn(node.children, name, 0) {
        CoherentFinds(node, name, 0);
      }
    } else {
      var k :| 0 <= k < |node.children|
        && !(node.children[k].nameId < |node.tables.names|
             && node.tables.names[node.children[k].nameId] == OwnName(node.children[k]));
      var name := OwnName(node.children[k]);
      assert FindOwn(node.children, name, 0) == Found.At(k);
      FoundIsResolved(node.tables.names, node.children, name, 0);
      assert FindChildrenByName(node, name) != FindOwn(node.children, name, 0);
    }
  }

  // ---------- what a node means ----------

  /** Ids are in the node's own tables, and only directories have children. */
  ghost predicate Sound(node: Node)
  {
    && Named(node)
    && (!node.isDirectory ==> node.children == [] && node.dataId < |node.tables.datas|)
    && forall k :: 0 <= k < |node.children| ==> Named(node.children[k]) && Sound(node.children[k])
  }

  ghost predicate DeepCoherent(node: Node)
    requires Sound(node)
  {
    && Coherent(node)
    && forall k :: 0 <= k < |node.children| ==> DeepCoherent(node.children[k])
  }

  ghost function View(node: Node): (t: Tree)
    requires Sound(node)
    ensures t.name == OwnName(node)
    ensures t.DirTree? <==> node.isDirectory
  {
    if node.isDirectory then DirTree(OwnName(node), Views(node.children))
    else FileTree(OwnName(node), node.tables.datas[node.dataId])
  }

  ghost function Views(nodes: seq<Node>): (ts: seq<Tree>)
    requires forall k :: 0 <= k < |nodes| ==> Sound(nodes[k])
    ensures |ts| == |nodes| && forall k :: 0 <= k < |nodes| ==> ts[k] == View(nodes[k])
  {
    if nodes == [] then [] else [View(nodes[0])] + Views(nodes[1..])
  }

  // ---------- when merging is the overlay ----------

  /** The ids of a package's tree are in its own tables. */
  ghost predicate SoundTree(tables: Tables, from: DirNode)
  {
    && from.nameId < |tables.names|
    && (!from.isDirectory ==> from.children == [] && from.dataId < |tables.datas|)
    && forall k :: 0 <= k < |from.children| ==> SoundTree(tables, from.children[k])
  }

  lemma {:induction false} BuildNodesAt(tables: Tables, from: seq<DirNode>, k: nat)
    requires k < |from|
    ensures BuildNodes(tables, from)[k] == BuildNode(tables, from[k])
  {
    if k > 0 { BuildNodesAt(tables, from[1..], k - 1); }
  }

  lemma {:induction false} BuiltIsSound(tables: Tables, from: DirNode)
    requires SoundTree(tables, from)
    ensures Sound(BuildNode(tables, from)) && DeepCoherent(BuildNode(tables, from))
  {
    var node := BuildNode(tables, from);
    forall k | 0 <= k < |from.children|
      ensures Sound(node.children[k]) && DeepCoherent(node.children[k])
      ensures node.children[k].tables == tables
    {
      BuildNodesAt(tables, from.children, k);
      BuiltIsSound(tables, from.children[k]);
    }
  }

  /** The tree a package shows on its own. */
  ghost function TreeOf(tables: Tables, from: DirNode): Tree
    requires SoundTree(tables, from)
  {
    BuiltIsSound(tables, from);
    View(BuildNode(tables, from))
  }

  ghost function TreesOf(tables: Tables, from: seq<DirNode>): (ts: seq<Tree>)
    requires forall k :: 0 <= k < |from| ==> SoundTree(tables, from[k])
    ensures |ts| == |from| && forall k :: 0 <= k < |from| ==> ts[k] == TreeOf(tables, from[k])
  {
    if from == [] then [] else [TreeOf(tables, from[0])] + TreesOf(tables, from[1..])
  }

  lemma TreeOfDirectory(tables: Tables, from: DirNode)
    requires SoundTree(tables, from) && from.isDirectory
    ensures TreeOf(tables, from) == DirTree(tables.names[from.nameId], TreesOf(tables, from.children))
  {
    BuiltIsSound(tables, from);
    forall k | 0 <= k < |from.children| ensures TreesOf(tables, from.children)[k] == Views(BuildNode(tables, from).children)[k] {
      BuildNodesAt(tables, from.children, k);
    }
    assert TreesOf(tables, from.children) == Views(BuildNode(tables, from).children);
  }

  /** In a coherent directory the lookup is the lookup among the trees shown. */
  lemma {:induction false} FindIsIndexOf(node: Node, name: Name)
    requires Sound(node) && Coherent(node)
    ensures FindChildrenByName(node, name) ==
      match IndexOf(Views(node.children), name) case None => Missing case Some(i) => Found.At(i)
  {
    CoherentFinds(node, name, 0);
    FindOwnIsIndexOf(node.children, name, 0);
    assert node.children[0..] == node.children;
  }

  lemma {:induction false} FindOwnIsIndexOf(nodes: seq<Node>, name: Name, i: nat)
    requires i <= |nodes| && forall k :: 0 <= k < |nodes| ==> Named(nodes[k]) && Sound(nodes[k])
    ensures FindOwn(nodes, name, i) ==
      match IndexOf(Views(nodes[i..]), name) case None => Missing case Some(j) => Found.At(i + j)
    decreases |nodes| - i
  {
    hide View, Sound;
    if i < |nodes| {
      assert nodes[i..][1..] == nodes[i + 1..];
      assert Views(nodes[i..])[1..] == Views(nodes[i + 1..]);
      FindOwnIsIndexOf(nodes, name, i + 1);
    }
  }

  // ---------- the merge that is meant ----------

  ghost predicate SoundTrees(tables: Tables, from: seq<DirNode>)
  {
    forall k :: 0 <= k < |from| ==> SoundTree(tables, from[k])
  }

  /** The node with these children laid over its own, each put where its own name says. */
  ghost function Laid(node: Node, tables: Tables, merge: seq<DirNode>): (r: Node)
    requires Sound(node) && node.isDirectory && SoundTrees(tables, merge)
    ensures Sound(r) && r == node.(children := r.children)
    decreases merge
  {
    if merge == [] then node else Laid(LaidOne(node, tables, merge[0]), tables, merge[1..])
  }

  ghost function LaidOne(node: Node, tables: Tables, merge: DirNode): (r: Node)
    requires Sound(node) && node.isDirectory && SoundTree(tables, merge)
    ensures Sound(r) && r == node.(children := r.children)
    decreases merge
  {
    BuiltIsSound(tables, merge);
    match IndexOf(Views(node.children), tables.names[merge.nameId])
    case None => node.(children := node.children + [BuildNode(tables, merge)])
    case Some(i) =>
      if node.children[i].isDirectory && merge.isDirectory then
        node.(children := node.children[i := Laid(node.children[i], tables, merge.children)])
      else node.(children := node.children[i := BuildNode(tables, merge)])
  }

  /** It shows the overlay, whatever the string tables. */
  lemma {:induction false} LaidShowsOverlay(node: Node, tables: Tables, merge: seq<DirNode>)
    requires Sound(node) && node.isDirectory && SoundTrees(tables, merge)
    ensures Views(Laid(node, tables, merge).children) == OverlayAll(Views(node.children), TreesOf(tables, merge))
    decreases merge
  {
    if merge != [] {
      LaidOneShowsOverlay(node, tables, merge[0]);
      LaidShowsOverlay(LaidOne(node, tables, merge[0]), tables, merge[1..]);
      assert TreesOf(tables, merge)[1..] == TreesOf(tables, merge[1..]);
    }
  }

  lemma {:induction false} LaidOneShowsOverlay(node: Node, tables: Tables, merge: DirNode)
    requires Sound(node) && node.isDirectory && SoundTree(tables, merge)
    ensures Views(LaidOne(node, tables, merge).children) == OverlayOne(Views(node.children), TreeOf(tables, merge))
    decreases merge
  {
    var children, shown := LaidOne(node, tables, merge).children, OverlayOne(Views(node.children), TreeOf(tables, merge));
    BuiltIsSound(tables, merge);
    var i := IndexOf(Views(node.children), tables.names[merge.nameId]);
    if i.Some? && node.children[i.value].isDirectory && merge.isDirectory {
      LaidShowsOverlay(node.children[i.value], tables, merge.children);
      TreeOfDirectory(tables, merge);
      assert View(children[i.value]) == OverlayPair(View(node.children[i.value]), TreeOf(tables, merge));
    }
    assert |children| == |shown|;
    forall k | 0 <= k < |children| ensures Views(children)[k] == shown[k] {}
  }

  // ---------- when the code does what is meant ----------

  predicate ReadsAs(names: seq<Name>, id: nat, name: Name) { id < |names| && names[id] == name }

  /**
    The string tables needed: where both sides have a directory the merge goes on inside it, and
    where a child is appended or replaced, the directory's own table has to read its id as its name.
   */
  ghost predicate CanMerge(node: Node, tables: Tables, merge: seq<DirNode>)
    requires Sound(node) && SoundTrees(tables, merge)
    decreases merge
  {
    forall k :: 0 <= k < |merge| ==> CanMergeOne(node, tables, merge[k])
  }

  ghost predicate CanMergeOne(node: Node, tables: Tables, merge: DirNode)
    requires Sound(node) && SoundTree(tables, merge)
    decreases merge
  {
    var i := IndexOf(Views(node.children), tables.names[merge.nameId]);
    if i.Some? && node.children[i.value].isDirectory && merge.isDirectory then
      CanMerge(node.children[i.value], tables, merge.children)
    else ReadsAs(node.tables.names, merge.nameId, tables.names[merge.nameId])
  }

  /** The result of a merge is there, finds all its children under their names, and shows these trees. */
  ghost predicate IsRight(r: Option<Node>, shown: seq<Tree>)
  {
    r.Some? && Sound(r.value) && DeepCoherent(r.value) && Views(r.value.children) == shown
  }

  /** A child that can be put into a directory whose string table knows its name. */
  ghost predicate CanJoin(node: Node, child: Node)
  {
    && Sound(node) && DeepCoherent(node) && node.isDirectory && Sound(child) && DeepCoherent(child)
    && ReadsAs(node.tables.names, child.nameId, OwnName(child))
  }

  ghost predicate AllJoin(node: Node, children: seq<Node>)
  {
    forall k :: 0 <= k < |children| ==> CanJoin(node, children[k])
  }

  lemma ChildrenJoin(node: Node)
    requires Sound(node) && DeepCoherent(node) && node.isDirectory
    ensures AllJoin(node, node.children)
  {
  }

  lemma WithChildren(node: Node, children: seq<Node>)
    requires Sound(node) && DeepCoherent(node) && node.isDirectory && AllJoin(node, children)
    ensures var r := node.(children := children); Sound(r) && DeepCoherent(r)
  {
    var r := node.(children := children);
    assert forall k :: 0 <= k < |children| ==> CanJoin(node, children[k]);
    assert Sound(r) && Coherent(r);
  }

  lemma AppendedIsCoherent(node: Node, child: Node)
    requires CanJoin(node, child)
    ensures var r := node.(children := node.children + [child]); Sound(r) && DeepCoherent(r)
  {
    ChildrenJoin(node);
    hide Sound, DeepCoherent;
    WithChildren(node, node.children + [child]);
  }

  lemma ReplacedIsCoherent(node: Node, i: nat, child: Node)
    requires CanJoin(node, child) && i < |node.children|
    ensures var r := node.(children := node.children[i := child]); Sound(r) && DeepCoherent(r)
  {
    ChildrenJoin(node);
    hide Sound, DeepCoherent;
    WithChildren(node, node.children[i := child]);
  }

  // ---------- the condition is enough ----------

  lemma {:induction false} IndexOfUpdated(ts: seq<Tree>, i: nat, t: Tree, name: Name)
    requires i < |ts| && ts[i].name == t.name
    ensures IndexOf(ts[i := t], name) == IndexOf(ts, name)
  {
    if i == 0 {
      assert ts[0 := t][1..] == ts[1..];
    } else {
      assert ts[i := t][1..] == ts[1..][i - 1 := t];
      IndexOfUpdated(ts[1..], i - 1, t, name);
    }
  }

  lemma {:induction false} IndexOfAppended(ts: seq<Tree>, t: Tree, name: Name)
    requires t.name != name
    ensures IndexOf(ts + [t], name) == IndexOf(ts, name)
  {
    if ts == [] {
      assert ts + [t] == [t] && [t][1..] == [];
    } else {
      assert (ts + [t])[1..] == ts[1..] + [t];
      IndexOfAppended(ts[1..], t, name);
    }
  }

  /** Laying one child over a directory changes nothing for children of other names. */
  lemma OtherNames(node: Node, tables: Tables, merge: DirNode, other: DirNode)
    requires Sound(node) && node.isDirectory && SoundTree(tables, merge) && SoundTree(tables, other)
    requires tables.names[merge.nameId] != tables.names[other.nameId]
    ensures CanMergeOne(LaidOne(node, tables, merge), tables, other) <==> CanMergeOne(node, tables, other)
  {
    hide CanMerge, Laid, View;
    var name, before, after := tables.names[other.nameId], Views(node.children), Views(LaidOne(node, tables, merge).children);
    LaidOneShowsOverlay(node, tables, merge);
    var u := TreeOf(tables, merge);
    assert u.name == tables.names[merge.nameId] by { TreeHasName(tables, merge); }
    var i := IndexOf(before, u.name);
    if i.None? {
      IndexOfAppended(before, u, name);
    } else {
      IndexOfUpdated(before, i.value, OverlayPair(before[i.value], u), name);
    }
    assert IndexOf(after, name) == IndexOf(before, name);
  }

  lemma TreeHasName(tables: Tables, from: DirNode)
    requires SoundTree(tables, from)
    ensures TreeOf(tables, from).name == tables.names[from.nameId]
    ensures TreeOf(tables, from).DirTree? <==> from.isDirectory
  {
    BuiltIsSound(tables, from);
  }

  /** The layers' trees have unique sibling names. */
  ghost predicate ProperTrees(tables: Tables, from: seq<DirNode>)
    requires SoundTrees(tables, from)
  {
    UniqueNames(TreesOf(tables, from)) && forall k :: 0 <= k < |from| ==> Proper(TreeOf(tables, from[k]))
  }

  lemma ProperParts(tables: Tables, merge: seq<DirNode>)
    requires merge != [] && SoundTrees(tables, merge) && ProperTrees(tables, merge)
    ensures SoundTree(tables, merge[0]) && Proper(TreeOf(tables, merge[0]))
    ensures SoundTrees(tables, merge[1..]) && ProperTrees(tables, merge[1..])
    ensures forall k :: 0 <= k < |merge| - 1 ==> tables.names[merge[1..][k].nameId] != tables.names[merge[0].nameId]
  {
    var ts := TreesOf(tables, merge);
    assert TreesOf(tables, merge[1..]) == ts[1..];
    forall k | 0 <= k < |merge| ensures ts[k].name == tables.names[merge[k].nameId] { TreeHasName(tables, merge[k]); }
  }

  lemma ProperChildren(tables: Tables, from: DirNode)
    requires SoundTree(tables, from) && from.isDirectory && Proper(TreeOf(tables, from))
    ensures SoundTrees(tables, from.children) && ProperTrees(tables, from.children)
  {
    TreeOfDirectory(tables, from);
  }

  /** After the first child the condition is about the remaining ones. */
  lemma CanMergeRest(node: Node, tables: Tables, merge: seq<DirNode>)
    requires Sound(node) && node.isDirectory && merge != [] && SoundTrees(tables, merge) && ProperTrees(tables, merge)
    ensures SoundTrees(tables, merge[1..])
    ensures CanMerge(node, tables, merge) <==>
      CanMergeOne(node, tables, merge[0]) && CanMerge(LaidOne(node, tables, merge[0]), tables, merge[1..])
  {
    hide CanMergeOne, LaidOne;
    ProperParts(tables, merge);
    var first := LaidOne(node, tables, merge[0]);
    forall k | 0 < k < |merge| ensures CanMergeOne(first, tables, merge[k]) <==> CanMergeOne(node, tables, merge[k]) {
      assert merge[1..][k - 1] == merge[k];
      OtherNames(node, tables, merge[0], merge[k]);
    }
    assert forall k :: 0 <= k < |merge| - 1 ==> merge[1..][k] == merge[k + 1];
  }

  lemma {:induction false} MergeGoesRight(node: Node, tables: Tables, merge: seq<DirNode>)
    requires Sound(node) && DeepCoherent(node) && node.isDirectory && SoundTrees(tables, merge) && ProperTrees(tables, merge)
    requires CanMerge(node, tables, merge)
    ensures Merged(node, tables, merge) == Some(Laid(node, tables, merge)) && DeepCoherent(Laid(node, tables, merge))
    decreases merge
  {
    if merge != [] {
      CanMergeRest(node, tables, merge);
      ProperParts(tables, merge);
      MergeOneGoesRight(node, tables, merge[0]);
      MergeGoesRight(LaidOne(node, tables, merge[0]), tables, merge[1..]);
    }
  }

  lemma {:induction false} MergeOneGoesRight(node: Node, tables: Tables, merge: DirNode)
    requires Sound(node) && DeepCoherent(node) && node.isDirectory && SoundTree(tables, merge) && Proper(TreeOf(tables, merge))
    requires CanMergeOne(node, tables, merge)
    ensures MergedOne(node, tables, merge) == Some(LaidOne(node, tables, merge)) && DeepCoherent(LaidOne(node, tables, merge))
    decreases merge
  {
    var name := tables.names[merge.nameId];
    var i := IndexOf(Views(node.children), name);
    FindIsIndexOf(node, name);
    BuiltIsSound(tables, merge);
    ChildrenJoin(node);
    if i.Some? && node.children[i.value].isDirectory && merge.isDirectory {
      var child := node.children[i.value];
      ProperChildren(tables, merge);
      MergeGoesRight(child, tables, merge.children);
      ReplacedIsCoherent(node, i.value, Laid(child, tables, merge.children));
    } else if i.Some? {
      ReplacedIsCoherent(node, i.value, BuildNode(tables, merge));
    } else {
      AppendedIsCoherent(node, BuildNode(tables, merge));
    }
  }

  // ---------- the condition is needed ----------

  /** Position `i` is as it has to be for a child that shows `t`. */
  ghost predicate GoodAt(node: Node, i: nat, t: Tree)
    requires Sound(node) && i < |node.children|
  {
    var child := node.children[i];
    ReadsAs(node.tables.names, child.nameId, t.name) && DeepCoherent(child) && View(child) == t
  }

  lemma {:induction false} MergedOneIsSound(node: Node, tables: Tables, merge: DirNode)
    requires Sound(node) && node.isDirectory && SoundTree(tables, merge) && MergedOne(node, tables, merge).Some?
    ensures var r := MergedOne(node, tables, merge).value;
      Sound(r) && r == node.(children := r.children) && |r.children| >= |node.children|
    decreases merge
  {
    BuiltIsSound(tables, merge);
    match FindChildrenByName(node, tables.names[merge.nameId])
    case Missing =>
    case At(i) =>
      if node.children[i].isDirectory && merge.isDirectory { MergedIsSound(node.children[i], tables, merge.children); }
  }

  lemma {:induction false} MergedIsSound(node: Node, tables: Tables, merge: seq<DirNode>)
    requires Sound(node) && node.isDirectory && SoundTrees(tables, merge) && Merged(node, tables, merge).Some?
    ensures var r := Merged(node, tables, merge).value;
      Sound(r) && r == node.(children := r.children) && |r.children| >= |node.children|
    decreases merge
  {
    if merge != [] {
      MergedOneIsSound(node, tables, merge[0]);
      MergedIsSound(MergedOne(node, tables, merge[0]).value, tables, merge[1..]);
    }
  }

  /** A position that has gone wrong is not put right by merging children of other names. */
  lemma WrongStaysWrongOnce(node: Node, tables: Tables, merge: DirNode, i: nat, t: Tree)
    requires Sound(node) && node.isDirectory && SoundTree(tables, merge) && MergedOne(node, tables, merge).Some?
    requires i < |node.children| && tables.names[merge.nameId] != t.name && !GoodAt(node, i, t)
    ensures var r := MergedOne(node, tables, merge).value;
      Sound(r) && i < |r.children| && !GoodAt(r, i, t)
  {
    MergedOneIsSound(node, tables, merge);
    var name, found := tables.names[merge.nameId], FindChildrenByName(node, tables.names[merge.nameId]);
    FoundIsResolved(node.tables.names, node.children, name, 0);
    BuiltIsSound(tables, merge);
    if found == Found.At(i) {
      if node.children[i].isDirectory && merge.isDirectory { MergedIsSound(node.children[i], tables, merge.children); }
    }
  }

  lemma {:induction false} WrongStaysWrong(node: Node, tables: Tables, merge: seq<DirNode>, i: nat, t: Tree)
    requires Sound(node) && node.isDirectory && SoundTrees(tables, merge) && Merged(node, tables, merge).Some?
    requires i < |node.children| && !GoodAt(node, i, t)
    requires forall k :: 0 <= k < |merge| ==> tables.names[merge[k].nameId] != t.name
    ensures var r := Merged(node, tables, merge).value;
      Sound(r) && i < |r.children| && !GoodAt(r, i, t)
    decreases |merge|
  {
    if merge != [] {
      WrongStaysWrongOnce(node, tables, merge[0], i, t);
      MergedOneIsSound(node, tables, merge[0]);
      WrongStaysWrong(MergedOne(node, tables, merge[0]).value, tables, merge[1..], i, t);
    }
  }

  lemma {:induction false} OverlayAllKeeps(ts: seq<Tree>, us: seq<Tree>, i: nat)
    requires i < |ts| && forall k :: 0 <= k < |us| ==> us[k].name != ts[i].name
    ensures i < |OverlayAll(ts, us)| && OverlayAll(ts, us)[i] == ts[i]
    decreases |us|
  {
    if us != [] { OverlayAllKeeps(OverlayOne(ts, us[0]), us[1..], i); }
  }

  /** Where the condition fails, the child goes wrong. */
  lemma {:induction false} UnreadableGoesWrong(node: Node, tables: Tables, merge: DirNode) returns (i: nat)
    requires Sound(node) && DeepCoherent(node) && node.isDirectory && SoundTree(tables, merge) && Proper(TreeOf(tables, merge))
    requires !CanMergeOne(node, tables, merge) && MergedOne(node, tables, merge).Some?
    ensures var (r, shown) := (MergedOne(node, tables, merge).value, OverlayOne(Views(node.children), TreeOf(tables, merge)));
      && Sound(r) && i < |r.children| && i < |shown|
      && shown[i].name == tables.names[merge.nameId] && !GoodAt(r, i, shown[i])
    decreases merge
  {
    var name := tables.names[merge.nameId];
    var at := IndexOf(Views(node.children), name);
    FindIsIndexOf(node, name);
    MergedOneIsSound(node, tables, merge);
    TreeHasName(tables, merge);
    i := if at.Some? then at.value else |node.children|;
    if at.Some? && node.children[i].isDirectory && merge.isDirectory {
      var child := node.children[i];
      ProperChildren(tables, merge);
      TreeOfDirectory(tables, merge);
      MergedIsSound(child, tables, merge.children);
      if IsRight(Merged(child, tables, merge.children), OverlayAll(Views(child.children), TreesOf(tables, merge.children))) {
        RightNeedsCondition(child, tables, merge.children);
      }
    }
  }

  lemma {:induction false} RightNeedsCondition(node: Node, tables: Tables, merge: seq<DirNode>)
    requires Sound(node) && DeepCoherent(node) && node.isDirectory && SoundTrees(tables, merge) && ProperTrees(tables, merge)
    requires IsRight(Merged(node, tables, merge), OverlayAll(Views(node.children), TreesOf(tables, merge)))
    ensures CanMerge(node, tables, merge)
    decreases merge
  {
    if merge != [] {
      ProperParts(tables, merge);
      CanMergeRest(node, tables, merge);
      var ts, us := Views(node.children), TreesOf(tables, merge);
      assert us[1..] == TreesOf(tables, merge[1..]);
      if CanMergeOne(node, tables, merge[0]) {
        MergeOneGoesRight(node, tables, merge[0]);
        LaidOneShowsOverlay(node, tables, merge[0]);
        RightNeedsCondition(LaidOne(node, tables, merge[0]), tables, merge[1..]);
      } else {
        var i := UnreadableGoesWrong(node, tables, merge[0]);
        FirstWrongIsNotRight(node, tables, merge, i);
      }
    }
  }

  lemma FirstWrongIsNotRight(node: Node, tables: Tables, merge: seq<DirNode>, i: nat)
    requires Sound(node) && node.isDirectory && merge != [] && SoundTrees(tables, merge) && ProperTrees(tables, merge)
    requires MergedOne(node, tables, merge[0]).Some?
    requires var (r, shown) := (MergedOne(node, tables, merge[0]).value, OverlayOne(Views(node.children), TreeOf(tables, merge[0])));
      && Sound(r) && i < |r.children| && i < |shown|
      && shown[i].name == tables.names[merge[0].nameId] && !GoodAt(r, i, shown[i])
    ensures !IsRight(Merged(node, tables, merge), OverlayAll(Views(node.children), TreesOf(tables, merge)))
  {
    var r := Merged(node, tables, merge);
    if r.Some? {
      var first := MergedOne(node, tables, merge[0]).value;
      var shown, us := OverlayOne(Views(node.children), TreeOf(tables, merge[0])), TreesOf(tables, merge[1..]);
      ProperParts(tables, merge);
      MergedOneIsSound(node, tables, merge[0]);
      WrongStaysWrong(first, tables, merge[1..], i, shown[i]);
      forall k | 0 <= k < |us| ensures us[k].name != shown[i].name { TreeHasName(tables, merge[1..][k]); }
      OverlayAllKeeps(shown, us, i);
      assert TreesOf(tables, merge)[1..] == us;
      if IsRight(r, OverlayAll(shown, us)) { assert GoodAt(r.value, i, shown[i]); }
    }
  }

  /**
    Merging a layer of unique sibling names into a coherent directory succeeds, stays coherent and
    shows the overlay if and only if the string tables read alike where they are asked.
   */
  lemma MergedIsOverlay(node: Node, tables: Tables, merge: seq<DirNode>)
    requires Sound(node) && DeepCoherent(node) && node.isDirectory && SoundTrees(tables, merge) && ProperTrees(tables, merge)
    ensures IsRight(Merged(node, tables, merge), OverlayAll(Views(node.children), TreesOf(tables, merge)))
      <==> CanMerge(node, tables, merge)
    ensures CanMerge(node, tables, merge) ==> Merged(node, tables, merge) == Some(Laid(node, tables, merge))
  {
    if CanMerge(node, tables, merge) {
      MergeGoesRight(node, tables, merge);
      LaidShowsOverlay(node, tables, merge);
    } else if IsRight(Merged(node, tables, merge), OverlayAll(Views(node.children), TreesOf(tables, merge))) {
      RightNeedsCondition(node, tables, merge);
    }
  }

  /** The same for a single child. */
  lemma MergedOneIsOverlay(node: Node, tables: Tables, merge: DirNode)
    requires Sound(node) && DeepCoherent(node) && node.isDirectory && SoundTree(tables, merge) && Proper(TreeOf(tables, merge))
    ensures IsRight(MergedOne(node, tables, merge), OverlayOne(Views(node.children), TreeOf(tables, merge)))
      <==> CanMergeOne(node, tables, merge)
  {
    if CanMergeOne(node, tables, merge) {
      MergeOneGoesRight(node, tables, merge);
      LaidOneShowsOverlay(node, tables, merge);
    } else if MergedOne(node, tables, merge).Some? {
      var i := UnreadableGoesWrong(node, tables, merge);
    }
  }

  /** A layer that brings a name into an existing directory that the directory's own table does not have never goes right. */
  lemma NewNamesGoWrong(node: Node, tables: Tables, merge: seq<DirNode>, k: nat)
    requires Sound(node) && DeepCoherent(node) && node.isDirectory && SoundTrees(tables, merge) && ProperTrees(tables, merge)
    requires k < |merge| && tables.names[merge[k].nameId] !in node.tables.names
    ensures !IsRight(Merged(node, tables, merge), OverlayAll(Views(node.children), TreesOf(tables, merge)))
  {
    var name := tables.names[merge[k].nameId];
    FindIsIndexOf(node, name);
    FoundIsResolved(node.tables.names, node.children, name, 0);
    MergedIsOverlay(node, tables, merge);
    assert !CanMergeOne(node, tables, merge[k]);
  }
}
