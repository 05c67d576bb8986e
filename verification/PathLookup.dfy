/**
  Path resolution on a coherent disk refines lookup in the tree it shows (`GetStorage` of
  src/CRPKG/VirtualDisk.cc).
 */
module PathLookup {
  import opened Bytes
  import opened Package
  import opened Overlay
  import opened VirtualDisk
  import opened SplitString
  import opened LayerDisk
  import Composer
  import opened Options

  predicate IsDots(name: Name) { name == [] || name == [DOT] }

  /** The lexically normalised path, from the directory `acc` on; None if it climbs above the root. */
  function Normal(names: seq<Name>, acc: seq<Name>): Option<seq<Name>>
    decreases |names|
  {
    if names == [] then Some(acc)
    else if IsDots(names[0]) then Normal(names[1..], acc)
    else if names[0] == [DOT, DOT] then
      if acc == [] then None else Normal(names[1..], acc[..|acc| - 1])
    else Normal(names[1..], acc + [names[0]])
  }

  /** How many names go down, less how many go up. */
  function Level(names: seq<Name>): int
  {
    if names == [] then 0
    else Level(names[1..]) + if IsDots(names[0]) then 0 else if names[0] == [DOT, DOT] then -1 else 1
  }

  /** Normalising fails exactly where the names go up more often than down. */
  lemma {:induction false} NormalIff(names: seq<Name>, acc: seq<Name>)
    ensures Normal(names, acc).Some? <==> forall n :: 0 <= n <= |names| ==> |acc| + Level(names[..n]) >= 0
    ensures Normal(names, acc).Some? ==> |Normal(names, acc).value| == |acc| + Level(names)
    decreases |names|
  {
    if names == [] {
      assert forall n :: 0 <= n <= |names| ==> names[..n] == [];
    } else {
      var step := NormalStep(names[0], acc);
      NormalFirst(names, acc);
      var none: seq<Name> := [names[0]][1..];
      assert none == [];
      forall n | 0 < n <= |names| ensures Level(names[..n]) == Level([names[0]]) + Level(names[1..][..n - 1]) {
        assert names[..n][1..] == names[1..][..n - 1];
      }
      assert names[..1][1..] == [] && names[..|names|] == names && names[1..][..|names| - 1] == names[1..];
      if step.Some? {
        NormalIff(names[1..], step.value);
        assert forall m :: 0 <= m < |names| ==> Level(names[..m + 1]) == Level([names[0]]) + Level(names[1..][..m]);
      } else {
        assert |acc| + Level(names[..1]) < 0;
      }
    }
  }

  lemma {:induction false} NormalOfSum(a: seq<Name>, b: seq<Name>, acc: seq<Name>)
    ensures Normal(a + b, acc) == match Normal(a, acc) case None => None case Some(next) => Normal(b, next)
    decreases |a|
  {
    if a == [] {
      assert a + b == b;
    } else {
      assert (a + b)[1..] == a[1..] + b;
      NormalFirst(a + b, acc);
      NormalFirst(a, acc);
      var step := NormalStep(a[0], acc);
      if step.Some? { NormalOfSum(a[1..], b, step.value); }
    }
  }

  /** Going down and up again changes nothing, and neither do an empty name and a dot. */
  lemma DetoursCancel(a: seq<Name>, name: Name, b: seq<Name>, acc: seq<Name>)
    ensures IsDots(name) ==> Normal(a + [name] + b, acc) == Normal(a + b, acc)
    ensures !IsDots(name) && name != [DOT, DOT] ==> Normal(a + [name, [DOT, DOT]] + b, acc) == Normal(a + b, acc)
  {
    assert a + [name] + b == a + ([name] + b) && a + [name, [DOT, DOT]] + b == a + ([name, [DOT, DOT]] + b);
    NormalOfSum(a, b, acc);
    NormalOfSum(a, [name] + b, acc);
    NormalOfSum(a, [name, [DOT, DOT]] + b, acc);
    var at := Normal(a, acc);
    if at.Some? {
      DetourCancels(name, b, at.value);
    }
  }

  lemma DetourCancels(name: Name, b: seq<Name>, acc: seq<Name>)
    ensures IsDots(name) ==> Normal([name] + b, acc) == Normal(b, acc)
    ensures !IsDots(name) && name != [DOT, DOT] ==> Normal([name, [DOT, DOT]] + b, acc) == Normal(b, acc)
  {
    var one, two := [name] + b, [name, [DOT, DOT]] + b;
    assert one[1..] == b && two[1..] == [[DOT, DOT]] + b && two[1..][1..] == b;
    NormalFirst(one, acc);
    NormalFirst(two, acc);
    if !IsDots(name) && name != [DOT, DOT] {
      NormalFirst(two[1..], acc + [name]);
      assert (acc + [name])[..|acc|] == acc;
    }
  }

  /** Every prefix of the names, normalised, leads to a node. */
  ghost predicate PrefixesExist(root: Tree, names: seq<Name>, acc: seq<Name>)
  {
    forall n :: 0 <= n <= |names| ==>
      Normal(names[..n], acc).Some? && Lookup(root, Normal(names[..n], acc).value).Some?
  }

  lemma {:induction false} LookupStep(t: Tree, path: seq<Name>, name: Name)
    ensures Lookup(t, path + [name]) ==
      match Lookup(t, path)
      case None => None
      case Some(node) => if node.FileTree? then None else Child(node.children, name)
    decreases |path|
  {
    if path == [] {
      assert (path + [name])[1..] == [];
    } else {
      assert (path + [name])[1..] == path[1..] + [name];
      if t.DirTree? && Child(t.children, path[0]).Some? { LookupStep(Child(t.children, path[0]).value, path[1..], name); }
    }
  }

  /** The stack holds the nodes along the path `acc`. */
  ghost predicate Along(root: Tree, stack: seq<Node>, acc: seq<Name>)
  {
    && |stack| == |acc| + 1
    && forall k :: 0 <= k < |stack| ==>
      Sound(stack[k]) && DeepCoherent(stack[k]) && Lookup(root, acc[..k]) == Some(View(stack[k]))
  }

  /** Where one name leads. */
  function NormalStep(name: Name, acc: seq<Name>): Option<seq<Name>>
  {
    if IsDots(name) then Some(acc)
    else if name == [DOT, DOT] then if acc == [] then None else Some(acc[..|acc| - 1])
    else Some(acc + [name])
  }

  lemma NormalFirst(names: seq<Name>, acc: seq<Name>)
    requires names != []
    ensures Normal(names, acc) == match NormalStep(names[0], acc) case None => None case Some(next) => Normal(names[1..], next)
  {
  }

  lemma WalkOne(root: Tree, stack: seq<Node>, acc: seq<Name>, name: Name)
    requires Along(root, stack, acc)
    ensures var step := NormalStep(name, acc);
      match Walk(stack, [name])
      case Failed => false
      case Stopped => step.None? || Lookup(root, step.value).None?
      case Walked(next) => step.Some? && Along(root, next, step.value)
  {
    var rest: seq<Name> := [name][1..];
    assert rest == [];
    if IsDots(name) {
      assert Walk(stack, [name]) == Walk(stack, rest) == Walked(stack);
    } else if name == [DOT, DOT] {
      if acc != [] {
        assert Walk(stack, [name]) == Walk(stack[..|stack| - 1], rest);
        var up := acc[..|acc| - 1];
        assert forall k :: 0 <= k < |acc| ==> up[..k] == acc[..k];
      }
    } else {
      var top := stack[|stack| - 1];
      GoesDown(root, stack, acc, name);
      match FindChildrenByName(top, name)
      case Missing => assert Walk(stack, [name]) == Stopped;
      case At(i) => assert Walk(stack, [name]) == Walk(stack + [top.children[i]], rest);
    }
  }

  /** The lookup among the children of the directory on top of the stack. */
  lemma GoesDown(root: Tree, stack: seq<Node>, acc: seq<Name>, name: Name)
    requires Along(root, stack, acc)
    ensures var top := stack[|stack| - 1];
      match FindChildrenByName(top, name)
      case CheckFails => false
      case Missing => Lookup(root, acc + [name]).None?
      case At(i) => Along(root, stack + [top.children[i]], acc + [name])
  {
    hide FindChildrenByName, Lookup, Views;
    var top := stack[|stack| - 1];
    assert acc[..|acc|] == acc;
    assert Lookup(root, acc) == Some(View(top));
    LookupStep(root, acc, name);
    FindIsIndexOf(top, name);
    ChildIsIndexed(Views(top.children), name);
    assert !top.isDirectory ==> top.children == [];
    var deeper := acc + [name];
    assert forall k :: 0 <= k <= |acc| ==> deeper[..k] == acc[..k];
    assert deeper[..|acc| + 1] == deeper;
  }

  lemma {:induction false} PrefixesExistFirst(root: Tree, names: seq<Name>, acc: seq<Name>)
    requires names != [] && Lookup(root, acc).Some?
    ensures var step := NormalStep(names[0], acc);
      PrefixesExist(root, names, acc) <==>
        step.Some? && Lookup(root, step.value).Some? && PrefixesExist(root, names[1..], step.value)
  {
    var step := NormalStep(names[0], acc);
    forall n | 0 < n <= |names|
      ensures Normal(names[..n], acc) == match step case None => None case Some(next) => Normal(names[1..][..n - 1], next)
    {
      NormalFirst(names[..n], acc);
      assert names[..n][1..] == names[1..][..n - 1];
    }
    if PrefixesExist(root, names, acc) {
      assert Normal(names[..1], acc).Some?;
      assert names[1..][..0] == [];
      assert Lookup(root, Normal(names[..1], acc).value).Some?;
      forall m | 0 <= m <= |names[1..]|
        ensures Normal(names[1..][..m], step.value).Some? && Lookup(root, Normal(names[1..][..m], step.value).value).Some?
      {
        assert Normal(names[..m + 1], acc).Some?;
      }
    }
    if step.Some? && PrefixesExist(root, names[1..], step.value) {
      forall n | 0 <= n <= |names|
        ensures Normal(names[..n], acc).Some? && Lookup(root, Normal(names[..n], acc).value).Some?
      {
        if n > 0 { assert Normal(names[1..][..n - 1], step.value).Some?; } else { assert names[..0] == []; }
      }
    }
  }

  /** The walk succeeds exactly when every prefix exists, and then stands at the normalised path. */
  lemma {:induction false} WalkIsNormal(root: Tree, stack: seq<Node>, acc: seq<Name>, names: seq<Name>)
    requires Along(root, stack, acc)
    ensures var w := Walk(stack, names);
      && !w.Failed?
      && (w.Walked? <==> PrefixesExist(root, names, acc))
      && (w.Walked? ==> Normal(names, acc).Some? && Along(root, w.stack, Normal(names, acc).value))
    decreases |names|
  {
    assert Lookup(root, acc[..|acc|]).Some? && acc[..|acc|] == acc;
    if names == [] {
      assert PrefixesExist(root, names, acc) by {
        forall n | 0 <= n <= |names| ensures names[..n] == [] {}
      }
    } else {
      WalkFirst(stack, names);
      WalkOne(root, stack, acc, names[0]);
      PrefixesExistFirst(root, names, acc);
      NormalFirst(names, acc);
      var first := Walk(stack, [names[0]]);
      if first.Walked? {
        var step := NormalStep(names[0], acc).value;
        assert Lookup(root, step[..|step|]).Some? && step[..|step|] == step;
        WalkIsNormal(root, first.stack, step, names[1..]);
      }
    }
  }

  /** The components of a path that starts with a slash. */
  function Components(path: seq<byte>): seq<Name> { Split(Stripped(path), SLASH) }

  /** What a lookup of the path in the tree has to deliver. */
  ghost predicate Delivers(t: Tree, path: seq<byte>, content: seq<byte>)
  {
    && Stripped(path) != [] && PrefixesExist(t, Components(path), [])
    && Normal(Components(path), []).Some? && FileAt(t, Normal(Components(path), []).value) == Some(content)
  }

  /**
    The refinement: a file is delivered exactly when the path starts with a slash, is not all slashes,
    and every prefix of it exists, and it is the file at the lexically normalised path. A path that does
    not start with a slash gives nothing.
   */
  lemma StorageIsNormalisedLookup(root: Node, path: seq<byte>, content: seq<byte>)
    requires Sound(root) && DeepCoherent(root)
    ensures !StorageAt(root, path).StorageCheckFailed?
    ensures StorageAt(root, path) == Content(content) <==> path != [] && path[0] == SLASH && Delivers(View(root), path, content)
    ensures path == [] || path[0] != SLASH ==> StorageAt(root, path) == NoStorage
  {
    if path != [] && path[0] == SLASH { AbsoluteIsLookup(root, path, content); }
  }

  lemma AbsoluteIsLookup(root: Node, path: seq<byte>, content: seq<byte>)
    requires Sound(root) && DeepCoherent(root)
    requires path != [] && path[0] == SLASH
    ensures !StorageAt(root, path).StorageCheckFailed?
    ensures StorageAt(root, path) == Content(content) <==> Delivers(View(root), path, content)
  {
    BlindExactlyAtStart(Stripped(path), SLASH);
    var names := Components(path);
    var none: seq<Name> := [];
    assert none[..0] == none;
    assert Along(View(root), [root], none);
    WalkIsNormal(View(root), [root], none, names);
    var w := Walk([root], names);
    if w.Walked? {
      var q := Normal(names, none).value;
      assert q[..|q|] == q;
      var last := w.stack[|w.stack| - 1];
      assert Lookup(View(root), q) == Some(View(last));
    }
    if PrefixesExist(View(root), names, none) {
      assert names[..|names|] == names;
      assert Normal(names[..|names|], none).Some?;
    }
  }

  /** A path that climbs above the root delivers nothing; it is not all slashes. */
  lemma NeverAboveRoot(root: Node, path: seq<byte>)
    requires Sound(root) && DeepCoherent(root)
    requires path != [] && path[0] == SLASH
    requires exists n :: 0 <= n <= |Components(path)| && Normal(Components(path)[..n], []).None?
    ensures StorageAt(root, path) == NoStorage
  {
    var content := if StorageAt(root, path).Content? then StorageAt(root, path).bytes else [];
    StorageIsNormalisedLookup(root, path, content);
    if Stripped(path) == [] { NothingClimbs(Components(path)); }
  }

  lemma NothingClimbs(names: seq<Name>)
    requires names == Split([], SLASH)
    ensures forall n :: 0 <= n <= |names| ==> Normal(names[..n], []).Some?
  {
    assert names == [[]];
    assert names[..0] == [] && names[..1] == names && names[1..] == [];
  }

  function NonEmpty(names: seq<Name>): seq<Name>
  {
    if names == [] then [] else (if names[0] == [] then [] else [names[0]]) + NonEmpty(names[1..])
  }

  ghost predicate DotFree(names: seq<Name>)
  {
    forall k :: 0 <= k < |names| ==> names[k] != [DOT] && names[k] != [DOT, DOT]
  }

  lemma {:induction false} DotFreeIsNormal(names: seq<Name>, acc: seq<Name>)
    requires DotFree(names)
    ensures Normal(names, acc) == Some(acc + NonEmpty(names))
    decreases |names|
  {
    if names == [] {
      assert acc + [] == acc;
    } else if names[0] == [] {
      DotFreeIsNormal(names[1..], acc);
      assert [] + NonEmpty(names[1..]) == NonEmpty(names[1..]);
    } else {
      DotFreeIsNormal(names[1..], acc + [names[0]]);
      assert acc + [names[0]] + NonEmpty(names[1..]) == acc + ([names[0]] + NonEmpty(names[1..]));
    }
  }

  lemma {:induction false} LookupPrefix(t: Tree, path: seq<Name>, tail: seq<Name>)
    requires Lookup(t, path + tail).Some?
    ensures Lookup(t, path).Some?
    decreases |path|
  {
    if path != [] {
      assert (path + tail)[1..] == path[1..] + tail;
      LookupPrefix(Child(t.children, path[0]).value, path[1..], tail);
    }
  }

  lemma {:induction false} NonEmptySplit(names: seq<Name>, n: nat)
    requires n <= |names|
    ensures NonEmpty(names) == NonEmpty(names[..n]) + NonEmpty(names[n..])
    decreases n
  {
    if n > 0 {
      NonEmptySplit(names[1..], n - 1);
      assert names[..n][1..] == names[1..][..n - 1];
      assert names[1..][n - 1..] == names[n..];
    } else {
      assert names[..0] == [] && names[0..] == names;
    }
  }

  /** For paths without dots that is the lookup of the components. */
  lemma DotFreeDelivers(t: Tree, path: seq<byte>, content: seq<byte>)
    requires DotFree(Components(path))
    ensures Delivers(t, path, content) <==> Stripped(path) != [] && FileAt(t, NonEmpty(Components(path))) == Some(content)
  {
    var names := Components(path);
    var none: seq<Name> := [];
    DotFreeIsNormal(names, none);
    assert none + NonEmpty(names) == NonEmpty(names);
    if Lookup(t, NonEmpty(names)).Some? {
      forall n | 0 <= n <= |names|
        ensures Normal(names[..n], none).Some? && Lookup(t, Normal(names[..n], none).value).Some?
      {
        DotFreeIsNormal(names[..n], none);
        assert none + NonEmpty(names[..n]) == NonEmpty(names[..n]);
        NonEmptySplit(names, n);
        LookupPrefix(t, NonEmpty(names[..n]), NonEmpty(names[n..]));
      }
      assert PrefixesExist(t, names, none);
    }
  }

  /** For paths without dots, GetStorage is exactly the lookup of the components. */
  lemma DotFreeLookup(root: Node, path: seq<byte>, content: seq<byte>)
    requires Sound(root) && DeepCoherent(root)
    requires path != [] && path[0] == SLASH && DotFree(Components(path))
    ensures StorageAt(root, path) == Content(content) <==>
      Stripped(path) != [] && FileAt(View(root), NonEmpty(Components(path))) == Some(content)
  {
    StorageIsNormalisedLookup(root, path, content);
    DotFreeDelivers(View(root), path, content);
  }

  /**
    From composed trees to a file looked up on the mounted disk: where the packages fit, a path
    yields exactly the file that the trees laid over one another have at the normalised path.
   */
  lemma MountedStorage(files: seq<MappedFile>, es: seq<Composer.Entry>, path: seq<byte>, content: seq<byte>)
    requires es != [] && AllReadable(files, es) && FilesMerge(files)
    ensures DiskOf(files).Mounted? && !StorageAt(DiskOf(files).root, path).StorageCheckFailed?
    ensures StorageAt(DiskOf(files).root, path) == Content(content) <==>
      path != [] && path[0] == SLASH && Delivers(Overlaid(TreeOfEntry(es[0]), TreesOfEntries(es[1..])), path, content)
    ensures path == [] || path[0] != SLASH ==> StorageAt(DiskOf(files).root, path) == NoStorage
  {
    hide Delivers, FilesMerge, AllReadable, DiskOf, Overlaid, StorageAt;
    MountedShows(files, es);
    StorageIsNormalisedLookup(DiskOf(files).root, path, content);
  }
}
