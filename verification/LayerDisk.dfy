/**
  A virtual disk made of several packages (`MakeLayerDisk` and `GetStorage` of
  src/CRPKG/VirtualDisk.cc): from composed trees to the file found at a path.
 */
module LayerDisk {
  import opened Bytes
  import Composer
  import opened Package
  import opened Overlay
  import opened VirtualDisk
  import opened SplitString
  import opened Options

  // ---------- packages as layers ----------

  datatype Layer = Layer(tables: Tables, root: DirNode)

  /** The strings and contents of a package that has been read. */
  function LayerOf(p: Loaded): Layer
    requires TablesInBounds(p)
  {
    Layer(
      Tables(
        seq(|p.gst|, k requires 0 <= k < |p.gst| => StringAt(p.bytes, p.gst[k])),
        seq(|p.gdt|, k requires 0 <= k < |p.gdt| => DataAt(p.bytes, p.gdt[k]))),
      p.root)
  }

  lemma {:induction false} ShownIsTree(p: Loaded, node: DirNode, t: Tree)
    requires TablesInBounds(p) && Shows(p, node, t)
    ensures SoundTree(LayerOf(p).tables, node) && TreeOf(LayerOf(p).tables, node) == t
    decreases t
  {
    var tables := LayerOf(p).tables;
    if t.DirTree? {
      forall k | 0 <= k < |node.children|
        ensures SoundTree(tables, node.children[k]) && TreeOf(tables, node.children[k]) == t.children[k]
      {
        ShownIsTree(p, node.children[k], t.children[k]);
      }
      TreeOfDirectory(tables, node);
      assert TreesOf(tables, node.children) == t.children;
    }
  }

  // ---------- stacking layers ----------

  /** `OutsideFile`: the code reads outside of a file, or would deliver data that is not in it. */
  datatype Disk = NoDisk | Mounted(root: Node) | CheckFailed | OutsideFile

  /** The first layer with all later ones merged into it, in order. */
  function Stack(root: Node, layers: seq<Layer>): (disk: Disk)
    ensures disk.Mounted? || disk.CheckFailed?
    decreases |layers|
  {
    if layers == [] then Mounted(root)
    else
      var merged := Merged(root, layers[0].tables, layers[0].root.children);
      if merged.None? then CheckFailed else Stack(merged.value, layers[1..])
  }

  datatype Reading = Read(layers: seq<Layer>) | Refused | NotInFile

  /** The layers of the packages, unless one of them is rejected. */
  function ReadLayers(files: seq<MappedFile>): Reading
  {
    if files == [] then Read([])
    else
      match Resolve(files[0])
      case Rejected => Refused
      case ReadsOutside => NotInFile
      case Resolved(p) =>
        match ReadLayers(files[1..])
        case Read(rest) => if DataInBounds(p) then Read([LayerOf(p)] + rest) else NotInFile
        case other => other
  }

  function DiskOf(files: seq<MappedFile>): Disk
  {
    match ReadLayers(files)
    case Refused => NoDisk
    case NotInFile => OutsideFile
    case Read(layers) => if layers == [] then NoDisk else Stack(RootOf(layers), layers[1..])
  }

  lemma {:induction false} RefusedIff(files: seq<MappedFile>)
    ensures ReadLayers(files).Refused? <==> exists k :: 0 <= k < |files| && IsFirstRejected(files, k)
  {
    hide Resolve;
    if files != [] {
      RefusedIff(files[1..]);
      if ReadLayers(files[1..]).Refused? && Resolve(files[0]).Resolved? {
        var k :| 0 <= k < |files[1..]| && IsFirstRejected(files[1..], k);
        assert files[..k + 1] == [files[0]] + files[1..][..k];
        assert IsFirstRejected(files, k + 1);
      }
      if k :| 0 <= k < |files| && IsFirstRejected(files, k) {
        if k > 0 {
          assert files[0] in files[..k];
          assert files[..k] == [files[0]] + files[1..][..k - 1];
          assert IsFirstRejected(files[1..], k - 1);
        }
      }
      if Resolve(files[0]).Rejected? { assert IsFirstRejected(files, 0); }
    }
  }

  /** The file is rejected, and all before it can be resolved. */
  ghost predicate IsFirstRejected(files: seq<MappedFile>, k: int)
    requires 0 <= k < |files|
  {
    Resolve(files[k]).Rejected? && forall file :: file in files[..k] ==> Resolve(file).Resolved?
  }

  /** There is no disk exactly if there is no file, or one is rejected before a read outside of a file. */
  lemma NoDiskIff(files: seq<MappedFile>)
    ensures DiskOf(files).NoDisk? <==> files == [] || exists k :: 0 <= k < |files| && IsFirstRejected(files, k)
  {
    hide Resolve, Stack;
    RefusedIff(files);
    if files != [] && ReadLayers(files).Read? { assert ReadLayers(files).layers != []; }
  }

  function RootOf(layers: seq<Layer>): Node
    requires layers != []
  {
    BuildNode(layers[0].tables, layers[0].root)
  }

  /** The lower tree with all the others laid over it, in order. */
  ghost function Overlaid(t: Tree, us: seq<Tree>): Tree
    decreases |us|
  {
    if us == [] then t else Overlaid(OverlayPair(t, us[0]), us[1..])
  }

  /** All ids are in range, and sibling names are unique. */
  ghost predicate SoundLayers(layers: seq<Layer>)
  {
    forall k :: 0 <= k < |layers| ==> SoundLayer(layers[k])
  }

  ghost predicate SoundLayer(layer: Layer)
  {
    SoundTree(layer.tables, layer.root) && Proper(TreeOf(layer.tables, layer.root))
  }

  ghost function TreesOfLayers(layers: seq<Layer>): (ts: seq<Tree>)
    requires SoundLayers(layers)
    ensures |ts| == |layers| && forall k :: 0 <= k < |layers| ==> ts[k] == TreeOf(layers[k].tables, layers[k].root)
  {
    if layers == [] then []
    else
      assert SoundLayer(layers[0]);
      [TreeOf(layers[0].tables, layers[0].root)] + TreesOfLayers(layers[1..])
  }

  /** The layer laid over the root as it is meant. Only directories are merged; a file keeps the root as it is. */
  ghost function Over(root: Node, layer: Layer): (r: Node)
    requires Sound(root) && SoundLayer(layer)
    ensures Sound(r)
  {
    if root.isDirectory && layer.root.isDirectory then Laid(root, layer.tables, layer.root.children) else root
  }

  /**
    The roots, which the code merges without looking at them, are both directories, and the string
    tables read alike where the merge asks them; or they are files that show the same anyway.
   */
  ghost predicate LayerFits(root: Node, layer: Layer)
    requires Sound(root) && SoundLayer(layer)
  {
    && root.isDirectory == layer.root.isDirectory
    && if root.isDirectory then CanMerge(root, layer.tables, layer.root.children)
       else View(root) == TreeOf(layer.tables, layer.root)
  }

  /** Every layer fits over what the layers below it are meant to make. */
  ghost predicate StackMerges(root: Node, layers: seq<Layer>)
    requires Sound(root) && SoundLayers(layers)
    decreases |layers|
  {
    layers == [] ||
      (assert SoundLayer(layers[0]); LayerFits(root, layers[0]) && StackMerges(Over(root, layers[0]), layers[1..]))
  }

  /** The disk is mounted, finds every node under its name, and shows the tree. */
  ghost predicate DiskShows(disk: Disk, t: Tree)
  {
    disk.Mounted? && Sound(disk.root) && DeepCoherent(disk.root) && View(disk.root) == t
  }

  /** Nothing that is merged into a file makes it a directory, and its children are not a file's. */
  lemma {:induction false} MergedKeepsKind(node: Node, tables: Tables, merge: seq<DirNode>)
    requires Merged(node, tables, merge).Some?
    ensures var r := Merged(node, tables, merge).value;
      && r.isDirectory == node.isDirectory && r.tables == node.tables && r.nameId == node.nameId
      && |r.children| >= |node.children| && (merge != [] ==> r.children != [])
    decreases |merge|
  {
    if merge != [] { MergedKeepsKind(MergedOne(node, tables, merge[0]).value, tables, merge[1..]); }
  }

  /** A directory shows the overlay of two directories if its children show that of theirs. */
  lemma DirectoryShows(root: Node, r: Node, tables: Tables, from: DirNode)
    requires Sound(root) && root.isDirectory && Sound(r) && r == root.(children := r.children)
    requires SoundTree(tables, from) && from.isDirectory
    ensures View(r) == OverlayPair(View(root), TreeOf(tables, from))
      <==> Views(r.children) == OverlayAll(Views(root.children), TreesOf(tables, from.children))
  {
    TreeOfDirectory(tables, from);
  }

  lemma StackOfOne(root: Node, layer: Layer)
    ensures var r := Merged(root, layer.tables, layer.root.children);
      Stack(root, [layer]) == if r.None? then CheckFailed else Mounted(r.value)
  {
    var r := Merged(root, layer.tables, layer.root.children);
    assert [layer][1..] == [];
    if r.Some? { assert Stack(r.value, []) == Mounted(r.value); }
  }

  /** Two directories: right if and only if the children can be merged. */
  lemma DirectoriesMerge(root: Node, layer: Layer)
    requires Sound(root) && DeepCoherent(root) && SoundLayer(layer) && root.isDirectory && layer.root.isDirectory
    ensures DiskShows(Stack(root, [layer]), OverlayPair(View(root), TreeOf(layer.tables, layer.root))) <==> LayerFits(root, layer)
    ensures LayerFits(root, layer) ==>
      && Merged(root, layer.tables, layer.root.children) == Some(Over(root, layer)) && DeepCoherent(Over(root, layer))
      && View(Over(root, layer)) == OverlayPair(View(root), TreeOf(layer.tables, layer.root))
  {
    hide Sound, DeepCoherent, Merged, Laid, CanMerge, View, Stack, SoundTree, Proper, TreeOf, OverlayPair;
    var tables, merge := layer.tables, layer.root.children;
    ProperChildren(tables, layer.root);
    MergedIsOverlay(root, tables, merge);
    LaidShowsOverlay(root, tables, merge);
    DirectoryShows(root, Laid(root, tables, merge), tables, layer.root);
    StackOfOne(root, layer);
    var r := Merged(root, tables, merge);
    if r.Some? {
      MergedIsSound(root, tables, merge);
      DirectoryShows(root, r.value, tables, layer.root);
    }
  }

  /** A file among the roots: right if and only if both are files and nothing changes. */
  lemma FilesDoNotMerge(root: Node, layer: Layer)
    requires Sound(root) && DeepCoherent(root) && SoundLayer(layer) && !(root.isDirectory && layer.root.isDirectory)
    ensures DiskShows(Stack(root, [layer]), OverlayPair(View(root), TreeOf(layer.tables, layer.root))) <==> LayerFits(root, layer)
    ensures LayerFits(root, layer) ==> Merged(root, layer.tables, layer.root.children) == Some(root)
  {
    var tables, merge := layer.tables, layer.root.children;
    TreeHasName(tables, layer.root);
    var r := Merged(root, tables, merge);
    if r.Some? {
      MergedKeepsKind(root, tables, merge);
      assert [layer][1..] == [];
      assert Stack(root, [layer]) == Mounted(r.value);
    }
  }

  /** One layer: right if and only if it fits. */
  lemma LayerIsOverlay(root: Node, layer: Layer)
    requires Sound(root) && DeepCoherent(root) && SoundLayer(layer)
    ensures DiskShows(Stack(root, [layer]), OverlayPair(View(root), TreeOf(layer.tables, layer.root))) <==> LayerFits(root, layer)
    ensures LayerFits(root, layer) ==>
      && Merged(root, layer.tables, layer.root.children) == Some(Over(root, layer)) && DeepCoherent(Over(root, layer))
      && View(Over(root, layer)) == OverlayPair(View(root), TreeOf(layer.tables, layer.root))
  {
    hide Merged, Stack, DiskShows, Sound, DeepCoherent;
    if root.isDirectory && layer.root.isDirectory {
      DirectoriesMerge(root, layer);
    } else {
      FilesDoNotMerge(root, layer);
    }
  }

  lemma StageStep(root: Node, layers: seq<Layer>, n: nat)
    requires Sound(root) && SoundLayers(layers) && 0 < n <= |layers|
    requires SoundLayer(layers[0]) && Merged(root, layers[0].tables, layers[0].root.children) == Some(Over(root, layers[0]))
    requires View(Over(root, layers[0])) == OverlayPair(View(root), TreeOf(layers[0].tables, layers[0].root))
    ensures SoundLayers(layers[..n]) && SoundLayers(layers[1..][..n - 1])
    ensures var next := Over(root, layers[0]);
      && Stack(root, layers[..n]) == Stack(next, layers[1..][..n - 1])
      && Overlaid(View(root), TreesOfLayers(layers[..n])) == Overlaid(View(next), TreesOfLayers(layers[1..][..n - 1]))
  {
    hide Sound, Over, Merged, SoundLayer, View;
    var now, rest := layers[..n], layers[1..][..n - 1];
    assert now[0] == layers[0] && now[1..] == rest;
    assert TreesOfLayers(now)[1..] == TreesOfLayers(rest);
  }

  ghost predicate StageShows(root: Node, layers: seq<Layer>, n: nat)
    requires Sound(root) && SoundLayers(layers) && n <= |layers|
  {
    DiskShows(Stack(root, layers[..n]), Overlaid(View(root), TreesOfLayers(layers[..n])))
  }

  /** After every layer the disk shows the overlay of the layers so far if and only if the layers fit. */
  lemma {:induction false} StackIsOverlay(root: Node, layers: seq<Layer>)
    requires Sound(root) && DeepCoherent(root) && SoundLayers(layers)
    ensures (forall n :: 0 <= n <= |layers| ==> StageShows(root, layers, n)) <==> StackMerges(root, layers)
    decreases |layers|
  {
    assert layers[..0] == [] && StageShows(root, layers, 0);
    if layers != [] {
      assert SoundLayer(layers[0]);
      LayerIsOverlay(root, layers[0]);
      if LayerFits(root, layers[0]) {
        var next, rest := Over(root, layers[0]), layers[1..];
        StackIsOverlay(next, rest);
        forall n | 0 < n <= |layers| ensures StageShows(root, layers, n) <==> StageShows(next, rest, n - 1) {
          StageStep(root, layers, n);
        }
        if forall n :: 0 <= n <= |layers| ==> StageShows(root, layers, n) {
          forall m | 0 <= m <= |rest| ensures StageShows(next, rest, m) { assert StageShows(root, layers, m + 1); }
        }
      } else {
        assert layers[..1] == [layers[0]];
        FirstStage(root, layers);
        assert !StageShows(root, layers, 1);
      }
    }
  }

  lemma FirstStage(root: Node, layers: seq<Layer>)
    requires Sound(root) && SoundLayers(layers) && layers != []
    requires SoundLayers([layers[0]])
    ensures Overlaid(View(root), TreesOfLayers([layers[0]])) == OverlayPair(View(root), TreeOf(layers[0].tables, layers[0].root))
  {
    var ts := TreesOfLayers([layers[0]]);
    assert ts[1..] == [];
  }

  // ---------- from composed trees to the disk ----------

  /** The file is a package of `e` that the reader accepts; sibling names in `e` are unique. */
  ghost predicate Readable(file: MappedFile, e: Composer.Entry)
  {
    && Composer.Fits(e) && EntryHeight(e) <= MAX_DEPTH && Proper(TreeOfEntry(e))
    && exists timestamp: nat :: timestamp < U64_LIMIT && Composer.IsPackageOf(file.bytes, e, timestamp)
  }

  /** The layer shows the composed tree. */
  ghost predicate LayerShows(layer: Layer, e: Composer.Entry)
  {
    SoundLayer(layer) && TreeOf(layer.tables, layer.root) == TreeOfEntry(e)
  }

  lemma ReadableLayer(file: MappedFile, e: Composer.Entry)
    requires Readable(file, e)
    ensures Resolve(file).Resolved? && TablesInBounds(Resolve(file).package) && LayerShows(LayerOf(Resolve(file).package), e)
  {
    hide Resolve, SoundTree;
    var timestamp: nat :| timestamp < U64_LIMIT && Composer.IsPackageOf(file.bytes, e, timestamp);
    RoundTrip(file, e, timestamp);
    var p := Resolve(file).package;
    ShownIsTree(p, p.root, TreeOfEntry(e));
  }

  ghost predicate LayersShow(layers: seq<Layer>, es: seq<Composer.Entry>)
  {
    |layers| == |es| && forall k :: 0 <= k < |es| ==> LayerShows(layers[k], es[k])
  }

  ghost predicate AllReadable(files: seq<MappedFile>, es: seq<Composer.Entry>)
  {
    |files| == |es| && forall k :: 0 <= k < |es| ==> Readable(files[k], es[k])
  }

  lemma AllReadableTail(files: seq<MappedFile>, es: seq<Composer.Entry>)
    requires es != [] && AllReadable(files, es)
    ensures Readable(files[0], es[0]) && AllReadable(files[1..], es[1..])
  {
    hide Readable;
  }

  /** Written packages are read as layers that show the composed trees. */
  lemma {:induction false} ReadableLayers(files: seq<MappedFile>, es: seq<Composer.Entry>)
    requires AllReadable(files, es)
    ensures ReadLayers(files).Read? && LayersShow(ReadLayers(files).layers, es)
  {
    hide Resolve, LayerShows, Readable;
    if es != [] {
      AllReadableTail(files, es);
      ReadableLayer(files[0], es[0]);
      ReadableLayers(files[1..], es[1..]);
      LayersShowCons(LayerOf(Resolve(files[0]).package), ReadLayers(files[1..]).layers, es);
    }
  }

  lemma LayersShowCons(first: Layer, rest: seq<Layer>, es: seq<Composer.Entry>)
    requires es != [] && LayerShows(first, es[0]) && LayersShow(rest, es[1..])
    ensures LayersShow([first] + rest, es)
  {
    forall k | 0 < k < |es| ensures LayerShows(([first] + rest)[k], es[k]) {
      assert LayerShows(rest[k - 1], es[1..][k - 1]);
    }
  }

  lemma {:induction false} ReadPrefix(files: seq<MappedFile>, n: nat)
    requires n <= |files| && ReadLayers(files).Read?
    ensures |ReadLayers(files).layers| == |files|
    ensures ReadLayers(files[..n]) == Read(ReadLayers(files).layers[..n])
    decreases |files|
  {
    hide Resolve;
    if files != [] {
      if n > 0 {
        ReadPrefix(files[1..], n - 1);
        assert files[..n][1..] == files[1..][..n - 1];
      } else {
        ReadPrefix(files[1..], 0);
        assert files[..0] == [];
      }
    }
  }

  ghost function TreesOfEntries(es: seq<Composer.Entry>): (ts: seq<Tree>)
    ensures |ts| == |es| && forall k :: 0 <= k < |es| ==> ts[k] == TreeOfEntry(es[k])
  {
    if es == [] then [] else [TreeOfEntry(es[0])] + TreesOfEntries(es[1..])
  }

  /** What the disk of the first `n` packages has to show. */
  ghost function OverlayOfFirst(es: seq<Composer.Entry>, n: nat): Tree
    requires 0 < n <= |es|
  {
    Overlaid(TreeOfEntry(es[0]), TreesOfEntries(es[1..n]))
  }

  /** Every package fits over what those below it are meant to make. */
  ghost predicate LayersMerge(layers: seq<Layer>)
    requires layers != [] && SoundLayers(layers)
  {
    assert SoundLayer(layers[0]);
    BuiltIsSound(layers[0].tables, layers[0].root);
    StackMerges(RootOf(layers), layers[1..])
  }

  ghost predicate FilesMerge(files: seq<MappedFile>)
  {
    match ReadLayers(files)
    case Read(layers) => layers != [] && SoundLayers(layers) && LayersMerge(layers)
    case _ => false
  }

  lemma ShownLayersAreSound(layers: seq<Layer>, es: seq<Composer.Entry>)
    requires LayersShow(layers, es)
    ensures SoundLayers(layers) && forall k :: 0 <= k < |es| ==> TreeOf(layers[k].tables, layers[k].root) == TreeOfEntry(es[k])
  {
  }

  lemma RootShows(layers: seq<Layer>, e: Composer.Entry)
    requires layers != [] && LayerShows(layers[0], e)
    ensures var root := RootOf(layers);
      Sound(root) && DeepCoherent(root) && View(root) == TreeOfEntry(e)
  {
    BuiltIsSound(layers[0].tables, layers[0].root);
  }

  /** The first `n` files make the stage n - 1 of the stack. */
  lemma StageOfFiles(files: seq<MappedFile>, es: seq<Composer.Entry>, n: nat)
    requires AllReadable(files, es) && 0 < n <= |es|
    requires ReadLayers(files).Read? && LayersShow(ReadLayers(files).layers, es)
    ensures var layers := ReadLayers(files).layers;
      && SoundLayers(layers) && Sound(RootOf(layers))
      && (DiskShows(DiskOf(files[..n]), OverlayOfFirst(es, n)) <==> StageShows(RootOf(layers), layers[1..], n - 1))
  {
    hide Readable, LayerShows, Resolve, ReadLayers, Stack, SoundLayer, Sound, DeepCoherent, View;
    var layers := ReadLayers(files).layers;
    ShownLayersAreSound(layers, es);
    RootShows(layers, es[0]);
    ReadPrefix(files, n);
    var stage := layers[1..][..n - 1];
    assert layers[..n][1..] == stage && RootOf(layers[..n]) == RootOf(layers);
    assert DiskOf(files[..n]) == Stack(RootOf(layers), stage);
    forall k | 0 <= k < n - 1 ensures TreesOfLayers(stage)[k] == TreesOfEntries(es[1..n])[k] {
      assert stage[k] == layers[k + 1] && es[1..n][k] == es[k + 1];
    }
    assert TreesOfLayers(stage) == TreesOfEntries(es[1..n]);
  }

  /**
    From composed trees to the mounted disk: after every package the disk shows the first tree with
    the later ones laid over it in order if and only if the packages fit.
   */
  lemma MountedIsOverlaid(files: seq<MappedFile>, es: seq<Composer.Entry>)
    requires es != [] && AllReadable(files, es)
    ensures (forall n :: 0 < n <= |files| ==> DiskShows(DiskOf(files[..n]), OverlayOfFirst(es, n))) <==> FilesMerge(files)
  {
    hide Readable, LayerShows, Resolve, ReadLayers, StageShows, DiskShows, DiskOf, OverlayOfFirst, StackMerges, SoundLayer;
    ReadableLayers(files, es);
    var layers := ReadLayers(files).layers;
    ShownLayersAreSound(layers, es);
    RootShows(layers, es[0]);
    var root, upper := RootOf(layers), layers[1..];
    StackIsOverlay(root, upper);
    forall n | 0 < n <= |files|
      ensures DiskShows(DiskOf(files[..n]), OverlayOfFirst(es, n)) <==> StageShows(root, upper, n - 1)
    {
      StageOfFiles(files, es, n);
    }
    if forall n :: 0 < n <= |files| ==> DiskShows(DiskOf(files[..n]), OverlayOfFirst(es, n)) {
      forall m | 0 <= m <= |upper| ensures StageShows(root, upper, m) {
        assert DiskShows(DiskOf(files[..m + 1]), OverlayOfFirst(es, m + 1));
      }
    }
  }

  /** For the whole list of packages. */
  lemma MountedShows(files: seq<MappedFile>, es: seq<Composer.Entry>)
    requires es != [] && AllReadable(files, es) && FilesMerge(files)
    ensures DiskShows(DiskOf(files), Overlaid(TreeOfEntry(es[0]), TreesOfEntries(es[1..])))
  {
    hide Readable, ReadLayers, FilesMerge, DiskOf, DiskShows, Overlaid, TreesOfEntries;
    MountedIsOverlaid(files, es);
    assert files[..|files|] == files && es[1..|files|] == es[1..];
    assert DiskShows(DiskOf(files[..|files|]), OverlayOfFirst(es, |files|));
  }

  // ---------- string tables that do not agree ----------

  /** A directory with one file, and the file written for it. */
  function SmallEntry(name: Name, content: seq<byte>): Composer.Entry
  {
    Composer.Directory([], [Composer.File(name, SmallAccessor(content))])
  }

  function SmallAccessor(content: seq<byte>): Composer.Accessor { Composer.Accessor(0, Some(content), true) }

  function SmallParts(name: Name, content: seq<byte>): Composer.Parts
  {
    Composer.Parts([[], name], Composer.FlatDirectory(0, [Composer.FlatFile(1, 0)]), [SmallAccessor(content)], [content])
  }

  function SmallLayer(name: Name, content: seq<byte>): Layer
  {
    Layer(Tables([[], name], [content]), DirNode(true, 0, 0, [DirNode(false, 1, 0, [])]))
  }

  lemma SmallTables(name: Name, content: seq<byte>)
    requires name != []
    ensures var e := SmallEntry(name, content);
      Composer.StringsOf(e) == [[], name] && Composer.DatasOf(e) == [SmallAccessor(content)]
  {
    var e, a := SmallEntry(name, content), SmallAccessor(content);
    assert e.children[1..] == [] && Composer.NamesOfAll(e.children) == [name] && Composer.AccessorsOfAll(e.children) == [a];
    Composer.AddedAllSum([], [[]], [name]);
    var none: Name := [];
    Composer.AddedOne([], none);
    Composer.AddedOne([[]], name);
    Composer.AddedOne([], a);
  }

  lemma SmallIsPackage(name: Name, content: seq<byte>)
    requires name != [] && |name| < U32_LIMIT && |content| < U64_LIMIT
    ensures var e := SmallEntry(name, content);
      Composer.PartsOf(SmallParts(name, content), e) && Composer.Fits(e) && EntryHeight(e) == 2
  {
    var e, parts := SmallEntry(name, content), SmallParts(name, content);
    assert e.children[1..] == [] && parts.flat.children[1..] == [];
    SmallTables(name, content);
    assert Composer.Stands(parts.flat.children[0], e.children[0], parts.strings, parts.accessors);
    assert Composer.Names(e.children[0]) == {name} && Composer.Accessors(e.children[0]) == {SmallAccessor(content)};
    assert Composer.EntriesCount(e.children) == 1 + Composer.EntriesCount(e.children[1..]);
    assert EntriesHeight(e.children[1..]) == 0 && EntryHeight(e.children[0]) == 1;
    assert EntriesHeight(e.children) == 1;
  }

  lemma SmallIsRead(file: MappedFile, name: Name, content: seq<byte>)
    requires name != [] && |name| < U32_LIMIT && |content| < U64_LIMIT && file.bytes == Composer.PartsImage(SmallParts(name, content), 0)
    ensures Resolve(file).Resolved? && TablesInBounds(Resolve(file).package)
    ensures LayerOf(Resolve(file).package) == SmallLayer(name, content)
  {
    hide Resolve, Build, Composer.Stands, Composer.Records;
    var parts, e := SmallParts(name, content), SmallEntry(name, content);
    var records := Composer.Records(parts.flat, 0);
    SmallIsPackage(name, content);
    PartsFit(parts, e);
    assert records[0..|records|] == records;
    BuildFlattened(records, parts.flat, e, 0, 1, parts.strings, parts.accessors);
    ResolveImage(file, parts.strings, records, parts.datas, 0);
    SmallNode(name, content);
    var layer := LayerOf(Resolve(file).package);
    assert layer.tables.names == parts.strings && layer.tables.datas == parts.datas;
  }

  lemma SmallNode(name: Name, content: seq<byte>)
    ensures NodeOf(SmallParts(name, content).flat) == SmallLayer(name, content).root
  {
    var flats := SmallParts(name, content).flat.children;
    assert flats[1..] == [];
    assert NodesOf(flats) == [NodeOf(flats[0])] + NodesOf(flats[1..]) == [NodeOf(flats[0])];
  }

  /** The code's own lookup on the two layers. */
  lemma SmallStack(a: Name, b: Name, content: seq<byte>)
    requires a != b && a != [] && b != []
    ensures var disk := Stack(RootOf([SmallLayer(a, [])]), [SmallLayer(b, content)]);
      && disk.Mounted? && |disk.root.children| == 2
      && Named(disk.root.children[1]) && OwnName(disk.root.children[1]) == b
      && FindChildrenByName(disk.root, b) == Missing
  {
    var (l0, l1) := (SmallLayer(a, []), SmallLayer(b, content));
    var root := BuildNode(l0.tables, l0.root);
    var child := l1.root.children[0];
    assert root.children == [Node(l0.tables, false, 1, 0, [])];
    assert FindFrom(root.tables.names, root.children, b, 1) == Missing;
    assert FindChildrenByName(root, b) == Missing;
    assert l1.root.children == [child] && [child][1..] == [];
    var merged := root.(children := root.children + [BuildNode(l1.tables, child)]);
    assert MergedOne(root, l1.tables, child) == Some(merged);
    assert Merged(merged, l1.tables, []) == Some(merged);
    assert [l1][1..] == [] && Stack(merged, []) == Mounted(merged);
    assert FindFrom(merged.tables.names, merged.children, b, 2) == Missing;
    assert FindFrom(merged.tables.names, merged.children, b, 1) == Missing;
  }

  /**
    Two files the composer writes, with one file each, called "a" and "b". The disk made of them has
    both nodes, but looking up "b" finds nothing: the root asks the lower package's string table,
    which calls both files "a".
   */
  lemma DisagreeingTablesHideAFile(lower: MappedFile, upper: MappedFile)
    requires lower.bytes == Composer.PartsImage(SmallParts([97], []), 0)
    requires upper.bytes == Composer.PartsImage(SmallParts([98], [1]), 0)
    ensures Composer.IsPackageOf(lower.bytes, SmallEntry([97], []), 0) && Composer.IsPackageOf(upper.bytes, SmallEntry([98], [1]), 0)
    ensures var disk := DiskOf([lower, upper]);
      && disk.Mounted? && |disk.root.children| == 2
      && Named(disk.root.children[1]) && OwnName(disk.root.children[1]) == [98]
      && FindChildrenByName(disk.root, [98]) == Missing
  {
    hide Resolve, Composer.PartsImage, Composer.PartsOf, Composer.Fits, Stack, LayerOf;
    SmallIsPackage([97], []);
    SmallIsPackage([98], [1]);
    SmallIsRead(lower, [97], []);
    SmallIsRead(upper, [98], [1]);
    var files, layers := [lower, upper], [SmallLayer([97], []), SmallLayer([98], [1])];
    assert files[1..] == [upper] && [upper][1..] == [] && layers[1..] == [layers[1]];
    assert ReadLayers([upper]) == Read([layers[1]]);
    assert ReadLayers(files) == Read(layers);
    assert RootOf(layers) == RootOf([layers[0]]);
    SmallStack([97], [98], [1]);
  }

  // ---------- a file as a root ----------

  /** A package that is a single file, and what it is made of. */
  function LoneFile(name: Name, content: seq<byte>): Composer.Entry { Composer.File(name, SmallAccessor(content)) }

  function LoneParts(name: Name, content: seq<byte>): Composer.Parts
  {
    Composer.Parts([name], Composer.FlatFile(0, 0), [SmallAccessor(content)], [content])
  }

  lemma LoneFileIsReadable(file: MappedFile, name: Name, content: seq<byte>)
    requires |name| < U32_LIMIT && |content| < U64_LIMIT && file.bytes == Composer.PartsImage(LoneParts(name, content), 0)
    ensures Readable(file, LoneFile(name, content))
    ensures TreeOfEntry(LoneFile(name, content)) == FileTree(name, content)
  {
    hide Composer.PartsImage;
    var e, parts := LoneFile(name, content), LoneParts(name, content);
    assert Composer.Names(e) == {name} && Composer.Accessors(e) == {SmallAccessor(content)};
    Composer.AddedOne([], name);
    Composer.AddedOne([], SmallAccessor(content));
    assert Composer.PartsOf(parts, e);
    assert Composer.IsPackageOf(file.bytes, e, 0);
  }

  /** The code merges children only, so a later package that is a single file changes nothing, whatever it is laid over. */
  lemma LaterFileIsIgnored(lower: MappedFile, upper: MappedFile, e: Composer.Entry, f: Composer.Entry)
    requires Readable(lower, e) && Readable(upper, f) && f.File?
    ensures DiskShows(DiskOf([lower, upper]), TreeOfEntry(e))
  {
    hide Readable, Resolve;
    var files, es := [lower, upper], [e, f];
    ReadableLayers(files, es);
    var layers := ReadLayers(files).layers;
    RootShows(layers, e);
    TreeHasName(layers[1].tables, layers[1].root);
    assert layers[1..] == [layers[1]] && [layers[1]][1..] == [];
    assert layers[1].root.children == [];
    assert Merged(RootOf(layers), layers[1].tables, []) == Some(RootOf(layers));
    assert Stack(RootOf(layers), [layers[1]]) == Mounted(RootOf(layers));
  }

  /** Packages of the files "a" and "b": the disk is the file "a", and the overlay would be "b". */
  lemma SecondRootIsIgnored(lower: MappedFile, upper: MappedFile)
    requires lower.bytes == Composer.PartsImage(LoneParts([97], []), 0)
    requires upper.bytes == Composer.PartsImage(LoneParts([98], [1]), 0)
    ensures AllReadable([lower, upper], [LoneFile([97], []), LoneFile([98], [1])])
    ensures DiskShows(DiskOf([lower, upper]), FileTree([97], []))
    ensures OverlayOfFirst([LoneFile([97], []), LoneFile([98], [1])], 2) == FileTree([98], [1])
    ensures StorageAt(DiskOf([lower, upper]).root, [SLASH, DOT]) == Content([])
  {
    hide Readable, DiskOf, Composer.PartsImage;
    LoneFileIsReadable(lower, [97], []);
    LoneFileIsReadable(upper, [98], [1]);
    var a, b := LoneFile([97], []), LoneFile([98], [1]);
    LaterFileIsIgnored(lower, upper, a, b);
    var us := TreesOfEntries([a, b][1..2]);
    assert us == [TreeOfEntry(b)] && us[1..] == [];
    DotOfFile(DiskOf([lower, upper]).root);
  }

  /** The root itself can be asked for. */
  lemma DotOfFile(root: Node)
    ensures StorageAt(root, [47, 46]) ==
      if root.isDirectory then NoStorage
      else if root.dataId >= |root.tables.datas| then StorageCheckFailed
      else Content(root.tables.datas[root.dataId])
  {
    var path: seq<byte> := [SLASH, DOT];
    assert path[1..] == [DOT];
    assert Stripped(path) == Stripped([DOT]) == [DOT];
    assert FindDelimiter([DOT], SLASH, 1) == 1;
    assert [DOT][0..] == [DOT];
    assert SplitFromOne([DOT], SLASH) == [[DOT]];
    var none: seq<Name> := [[DOT]][1..];
    assert none == [];
    assert Walk([root], [[DOT]]) == Walk([root], none) == Walked([root]);
  }

  // ---------- resolving a path ----------

  const SLASH: byte := 47
  const DOT: byte := 46

  /** `PathReadPastEnd`: stripping slashes reads past the end of the path. */
  datatype Storage = NoStorage | Content(bytes: seq<byte>) | StorageCheckFailed | PathReadPastEnd

  /** The stack of directories the walk goes through. */
  datatype Walked = Stopped | Failed | Walked(stack: seq<Node>)

  function Walk(stack: seq<Node>, names: seq<Name>): (r: Walked)
    requires stack != []
    ensures r.Walked? ==> r.stack != []
    decreases |names|
  {
    if names == [] then Walked(stack)
    else if names[0] == [] || names[0] == [DOT] then Walk(stack, names[1..])
    else if names[0] == [DOT, DOT] then
      if |stack| <= 1 then Stopped else Walk(stack[..|stack| - 1], names[1..])
    else
      var top := stack[|stack| - 1];
      match FindChildrenByName(top, names[0])
      case CheckFails => Failed
      case Missing => Stopped
      case At(i) => Walk(stack + [top.children[i]], names[1..])
  }

  function StorageOf(node: Node): Storage
  {
    if node.isDirectory then NoStorage
    else if node.dataId >= |node.tables.datas| then StorageCheckFailed
    else Content(node.tables.datas[node.dataId])
  }

  function StorageAfter(w: Walked): Storage
    requires w.Walked? ==> w.stack != []
  {
    match w
    case Stopped => NoStorage
    case Failed => StorageCheckFailed
    case Walked(stack) => StorageOf(stack[|stack| - 1])
  }

  function Stripped(path: seq<byte>): (s: seq<byte>)
    ensures s != [] ==> s[0] != SLASH
  {
    if path != [] && path[0] == SLASH then Stripped(path[1..]) else path
  }

  lemma {:induction false} StrippedOfSlashes(path: seq<byte>)
    ensures Stripped(path) == [] <==> forall k :: 0 <= k < |path| ==> path[k] == SLASH
  {
    if path != [] && path[0] == SLASH {
      StrippedOfSlashes(path[1..]);
      assert forall k :: 0 < k < |path| ==> path[k] == path[1..][k - 1];
    }
  }

  function StorageAt(root: Node, path: seq<byte>): Storage
  {
    if path == [] || path[0] != SLASH then NoStorage
    else if Stripped(path) == [] then PathReadPastEnd
    else StorageAfter(Walk([root], SplitFromOne(Stripped(path), SLASH)))
  }

  /** That happens for paths of nothing but slashes, and for no others. */
  lemma ReadsPastEndIff(root: Node, path: seq<byte>)
    ensures StorageAt(root, path) == PathReadPastEnd <==> path != [] && forall k :: 0 <= k < |path| ==> path[k] == SLASH
  {
    StrippedOfSlashes(path);
  }

  /** The disk as an object: the root of the merged tree. */
  class LayeredDisk {
    const root: DiskNode

    constructor (root: DiskNode)
      ensures this.root == root
    {
      this.root := root;
    }

    ghost predicate Valid()
      reads root, root.repr
    {
      root.Valid()
    }

    ghost predicate Mirrors(nodes: seq<DiskNode>, values: seq<Node>)
      reads nodes, set k, o | 0 <= k < |nodes| && o in nodes[k].repr :: o
    {
      |nodes| == |values| && forall k :: 0 <= k < |nodes| ==> nodes[k].Valid() && nodes[k].Value() == values[k]
    }

    /** One step of the walk; `ok` is false when it ends here, with `r` as the result. */
    method Step(nodes: seq<DiskNode>, name: Name, ghost values: seq<Node>)
        returns (ok: bool, r: Storage, nodes': seq<DiskNode>, ghost values': seq<Node>)
      requires nodes != [] && Mirrors(nodes, values)
      ensures Walk(values, [name]) == if ok then Walked(values') else if r == NoStorage then Stopped else Failed
      ensures ok ==> nodes' != [] && Mirrors(nodes', values')
      ensures !ok ==> r == NoStorage || r == StorageCheckFailed
    {
      ok, r, nodes', values' := true, NoStorage, nodes, values;
      if name == [] || name == [DOT] { return; }
      if name == [DOT, DOT] {
        if |nodes| <= 1 { ok := false; return; }
        nodes', values' := nodes[..|nodes| - 1], values[..|nodes| - 1];
        return;
      }
      var top := nodes[|nodes| - 1];
      var found := top.Find(name);
      if found.CheckFails? { ok, r := false, StorageCheckFailed; return; }
      if found.Missing? { ok := false; return; }
      ghost var value := top.Value().children[found.index];
      assert top.children[found.index].Value() == value;
      nodes', values' := nodes + [top.children[found.index]], values + [value];
    }

    method WalkNames(nameSeq: seq<Name>) returns (r: Storage)
      requires Valid()
      ensures r == StorageAfter(Walk([root.Value()], nameSeq))
    {
      hide Walk;
      var nodes := [root];
      ghost var values := [root.Value()];
      for i := 0 to |nameSeq|
        invariant nodes != [] && Mirrors(nodes, values)
        invariant Walk(values, nameSeq[i..]) == Walk([root.Value()], nameSeq)
      {
        WalkFirst(values, nameSeq[i..]);
        assert nameSeq[i..][0] == nameSeq[i] && nameSeq[i..][1..] == nameSeq[i + 1..];
        var ok;
        ok, r, nodes, values := Step(nodes, nameSeq[i], values);
        if !ok { return; }
      }
      WalkNothing(values, nameSeq[|nameSeq|..]);
      var last := nodes[|nodes| - 1];
      assert last.Value() == values[|nodes| - 1];
      if last.isDirectory { return NoStorage; }
      if last.dataId >= |last.tables.datas| { return StorageCheckFailed; }
      return Content(last.tables.datas[last.dataId]);
    }

    method GetStorage(path: seq<byte>) returns (r: Storage)
      requires Valid()
      ensures r == StorageAt(root.Value(), path)
    {
      if path == [] || path[0] != SLASH { return NoStorage; }
      var sv := path;
      while sv != [] && sv[0] == SLASH
        invariant Stripped(sv) == Stripped(path)
        decreases |sv|
      {
        sv := sv[1..];
      }
      if sv == [] { return PathReadPastEnd; }
      var nameSeq := SplitStr(sv, SLASH);
      r := WalkNames(nameSeq);
    }
  }

  lemma WalkNothing(stack: seq<Node>, names: seq<Name>)
    requires stack != [] && names == []
    ensures Walk(stack, names) == Walked(stack)
  {
  }

  lemma WalkFirst(stack: seq<Node>, names: seq<Name>)
    requires stack != [] && names != []
    ensures Walk(stack, names) ==
      match Walk(stack, [names[0]]) case Walked(next) => Walk(next, names[1..]) case other => other
  {
    var rest: seq<Name> := [names[0]][1..];
    assert rest == [];
  }
}
