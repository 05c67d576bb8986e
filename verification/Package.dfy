/**
  Reading resource packages (the `Package` and `DirtreeNode` classes of src/CRPKG/VirtualDisk.cc),
  and the round trip with the composer.
 */
module Package {
  import opened Bytes
  import opened PackageFormat
  import opened Composer
  import opened Options
  import opened Slices

  const MAX_DEPTH := 1024

  // ---------- scanning a table ----------

  datatype Kind = StringEntry | DirtreeEntry | DataEntry

  /** The width of the field at the start of an entry that says how large the entry is. */
  function FieldWidth(kind: Kind): nat
  {
    if kind == DataEntry then 8 else 4
  }

  function EntrySize(kind: Kind, field: nat): nat
  {
    match kind
    case StringEntry => 4 + field
    case DirtreeEntry => 9 + 8 * field
    case DataEntry => 8 + field
  }

  /** The integer of `width` bytes at `at`. */
  function Field(bytes: seq<byte>, at: nat, width: nat): nat
    requires at + width <= |bytes|
  {
    FromLE(bytes[at..at + width])
  }

  // ---------- the file in memory ----------

  const ADDRESS_SPACE := U64_LIMIT
  const USER_SPACE := 0x8000_0000_0000_0000

  /** The bytes of a package and the address they are mapped at. */
  datatype Mapping = Mapping(bytes: seq<byte>, base: nat)

  /** Programs live in the lower half of the address space. */
  type MappedFile = m: Mapping | m.base + |m.bytes| <= USER_SPACE witness Mapping([], 0)

  /** The cursor, counted from the start of the file, after the pointer was moved: addresses wrap around. */
  function Moved(file: MappedFile, at: int, step: nat): (next: int)
    requires file.base + at >= 0
    ensures file.base + next >= 0
    ensures file.base + at + step < ADDRESS_SPACE ==> next == at + step
  {
    (file.base + at + step) % ADDRESS_SPACE - file.base
  }

  /**
    Where the entries of a table start. `Corrupted` is a check that fails; `Outside` stands for a
    read outside of the file, which the code does not check.
   */
  datatype Scanned = Starts(starts: seq<nat>) | Corrupted | Outside

  predicate HasField(bytes: seq<byte>, kind: Kind, at: nat) { at + FieldWidth(kind) <= |bytes| }

  predicate InBounds(bytes: seq<byte>, kind: Kind, at: nat)
  {
    HasField(bytes, kind, at) && at + EntrySize(kind, Field(bytes, at, FieldWidth(kind))) <= |bytes|
  }

  /** The largest size that data within a file can have. */
  const MAX_DATA_SIZE := USER_SPACE - 8

  /** Only the checks of the code: the end of an entry is seen by the next one, after the pointer has wrapped. */
  function Scan(file: MappedFile, kind: Kind, at: int, n: nat): (r: Scanned)
    requires file.base + at >= 0
    ensures r.Starts? ==> at <= |file.bytes| && |r.starts| == n
    ensures r.Starts? ==> forall k :: 0 <= k < n ==> HasField(file.bytes, kind, r.starts[k])
    decreases n
  {
    if n == 0 then (if at > |file.bytes| then Corrupted else Starts([]))
    else if at >= |file.bytes| then Corrupted
    else if at < 0 || !HasField(file.bytes, kind, at) then Outside
    else if kind == StringEntry && !InBounds(file.bytes, kind, at) then Outside
    else
      var rest := Scan(file, kind, AfterEntry(file, kind, at), n - 1);
      if rest.Starts? then Starts([at] + rest.starts) else rest
  }

  /** The cursor behind the entry. */
  function AfterEntry(file: MappedFile, kind: Kind, at: nat): (next: int)
    requires HasField(file.bytes, kind, at)
    ensures file.base + next >= 0
  {
    Moved(file, at, EntrySize(kind, Field(file.bytes, at, FieldWidth(kind))))
  }

  lemma {:induction false} FieldIsBounded(s: seq<byte>)
    ensures FromLE(s) < Pow256(|s|)
  {
    if s != [] { FieldIsBounded(s[1..]); }
  }

  /** Whether the pointer wraps around behind an entry. */
  lemma AfterEntryIsNear(file: MappedFile, kind: Kind, at: nat)
    requires HasField(file.bytes, kind, at)
    ensures (kind != DataEntry || Field(file.bytes, at, 8) <= MAX_DATA_SIZE) ==>
      AfterEntry(file, kind, at) == at + EntrySize(kind, Field(file.bytes, at, FieldWidth(kind)))
  {
    Limits();
    FieldIsBounded(file.bytes[at..at + FieldWidth(kind)]);
  }

  lemma AfterEntryInBounds(file: MappedFile, kind: Kind, at: nat)
    requires InBounds(file.bytes, kind, at)
    ensures AfterEntry(file, kind, at) == at + EntrySize(kind, Field(file.bytes, at, FieldWidth(kind)))
  {
  }

  /**
    Which accepted entries lie in the file: all strings and records, and exactly the data whose size
    field is no larger than data in a file can be. For larger ones the end wraps around.
   */
  lemma {:induction false} AcceptedLiesInFileIff(file: MappedFile, kind: Kind, at: int, n: nat, k: nat)
    requires file.base + at >= 0 && Scan(file, kind, at, n).Starts? && k < n
    ensures var start := Scan(file, kind, at, n).starts[k];
      InBounds(file.bytes, kind, start) <==> kind != DataEntry || Field(file.bytes, start, 8) <= MAX_DATA_SIZE
    decreases n
  {
    if k > 0 {
      AcceptedLiesInFileIff(file, kind, AfterEntry(file, kind, at), n - 1, k - 1);
    } else {
      AfterEntryIsNear(file, kind, at);
    }
  }

  /** An entry that the code goes on behind. */
  predicate IsEntry(file: MappedFile, kind: Kind, at: int)
  {
    0 <= at < |file.bytes| && HasField(file.bytes, kind, at) && (kind == StringEntry ==> InBounds(file.bytes, kind, at))
  }

  /** The entries follow one another, the first at `at`. */
  ghost predicate Follow(file: MappedFile, kind: Kind, at: int, starts: seq<nat>)
  {
    && (forall k :: 0 <= k < |starts| ==> IsEntry(file, kind, starts[k]))
    && (starts != [] ==> starts[0] == at)
    && forall k :: 0 < k < |starts| ==> starts[k] == AfterEntry(file, kind, starts[k - 1])
  }

  /** Where the cursor is behind them. */
  ghost function Behind(file: MappedFile, kind: Kind, at: int, starts: seq<nat>): int
    requires Follow(file, kind, at, starts)
  {
    if starts == [] then at else AfterEntry(file, kind, starts[|starts| - 1])
  }

  lemma FollowCons(file: MappedFile, kind: Kind, at: nat, starts: seq<nat>)
    requires starts != [] && starts[0] == at && IsEntry(file, kind, at)
    ensures Follow(file, kind, at, starts) <==> Follow(file, kind, AfterEntry(file, kind, at), starts[1..])
    ensures Follow(file, kind, at, starts) ==> Behind(file, kind, at, starts) == Behind(file, kind, AfterEntry(file, kind, at), starts[1..])
  {
    hide AfterEntry, InBounds;
    var rest := starts[1..];
    assert forall k :: 0 <= k < |rest| ==> rest[k] == starts[k + 1];
    if Follow(file, kind, AfterEntry(file, kind, at), rest) {
      forall k | 0 <= k < |starts| ensures IsEntry(file, kind, starts[k]) { if k > 0 { assert IsEntry(file, kind, rest[k - 1]); } }
      forall k | 0 < k < |starts| ensures starts[k] == AfterEntry(file, kind, starts[k - 1]) {
        if k > 1 { assert rest[k - 1] == AfterEntry(file, kind, rest[k - 2]); }
      }
    }
  }

  /** A table is accepted with these entries exactly if they follow one another and end within the file. */
  lemma {:induction false} ScannedIff(file: MappedFile, kind: Kind, at: int, n: nat, starts: seq<nat>)
    requires file.base + at >= 0
    ensures Scan(file, kind, at, n) == Starts(starts) <==>
      |starts| == n && Follow(file, kind, at, starts) && Behind(file, kind, at, starts) <= |file.bytes|
    decreases n
  {
    hide AfterEntry;
    if n == 0 {
      if starts == [] { assert Follow(file, kind, at, starts); }
    } else if IsEntry(file, kind, at) && starts != [] && starts[0] == at {
      ScannedIff(file, kind, AfterEntry(file, kind, at), n - 1, starts[1..]);
      FollowCons(file, kind, at, starts);
      var rest := Scan(file, kind, AfterEntry(file, kind, at), n - 1);
      if rest.Starts? { assert [at] + rest.starts == starts <==> rest.starts == starts[1..]; }
    }
  }

  /** It is found corrupted exactly if some entries follow one another and leave the cursor at or behind the end of the file too early. */
  lemma {:induction false} CorruptedIff(file: MappedFile, kind: Kind, at: int, n: nat)
    requires file.base + at >= 0
    ensures Scan(file, kind, at, n).Corrupted? <==> exists starts :: RunsOut(file, kind, at, n, starts)
    decreases n
  {
    hide AfterEntry;
    if n > 0 && IsEntry(file, kind, at) {
      var next, m: nat := AfterEntry(file, kind, at), n - 1;
      CorruptedIff(file, kind, next, m);
      if rest :| RunsOut(file, kind, next, m, rest) {
        assert ([at] + rest)[1..] == rest;
        FollowCons(file, kind, at, [at] + rest);
        assert RunsOut(file, kind, at, n, [at] + rest);
      }
      if starts :| RunsOut(file, kind, at, n, starts) {
        FollowCons(file, kind, at, starts);
        assert RunsOut(file, kind, next, m, starts[1..]);
      }
    } else {
      if Scan(file, kind, at, n).Corrupted? { assert RunsOut(file, kind, at, n, []); }
      if starts :| RunsOut(file, kind, at, n, starts) { assert starts == []; }
    }
  }

  ghost predicate RunsOut(file: MappedFile, kind: Kind, at: int, n: nat, starts: seq<nat>)
  {
    && |starts| <= n && Follow(file, kind, at, starts)
    && if |starts| < n then Behind(file, kind, at, starts) >= |file.bytes| else Behind(file, kind, at, starts) > |file.bytes|
  }

  function StringAt(bytes: seq<byte>, at: nat): seq<byte>
    requires InBounds(bytes, StringEntry, at)
  {
    bytes[at + 4..at + 4 + Field(bytes, at, 4)]
  }

  function DataAt(bytes: seq<byte>, at: nat): seq<byte>
    requires InBounds(bytes, DataEntry, at)
  {
    bytes[at + 8..at + 8 + Field(bytes, at, 8)]
  }

  function ChildrenAt(bytes: seq<byte>, at: nat, n: nat): (r: seq<nat>)
    requires at + 8 * n <= |bytes|
    ensures |r| == n
    decreases n
  {
    if n == 0 then [] else [Field(bytes, at, 8)] + ChildrenAt(bytes, at + 8, n - 1)
  }

  function RecordAt(bytes: seq<byte>, at: nat): Record
    requires InBounds(bytes, DirtreeEntry, at)
  {
    Record(bytes[at + 4], Field(bytes, at + 5, 4), ChildrenAt(bytes, at + 9, Field(bytes, at, 4)))
  }

  function RecordsAt(bytes: seq<byte>, starts: seq<nat>): (r: seq<Record>)
    requires forall k :: 0 <= k < |starts| ==> InBounds(bytes, DirtreeEntry, starts[k])
    ensures |r| == |starts|
  {
    seq(|starts|, k requires 0 <= k < |starts| => RecordAt(bytes, starts[k]))
  }

  // ---------- the directory tree ----------

  /** A node of the tree of one package; names and contents are table indices. */
  datatype DirNode = DirNode(isDirectory: bool, nameId: nat, dataId: nat, children: seq<DirNode>)

  predicate HasBit(flags: byte, bit: nat)
    requires bit > 0
  {
    flags / bit % 2 == 1
  }

  /** The subtree at record `p`, or None when the package is found to be corrupted. */
  function Build(records: seq<Record>, p: nat, depth: nat): Option<DirNode>
    requires p < |records|
    decreases MAX_DEPTH + 1 - depth, 1, 0
  {
    var r := records[p];
    if depth > MAX_DEPTH then None
    else if !HasBit(r.flags, FLAG_FILE) && !HasBit(r.flags, FLAG_DIRECTORY) then None
    else if HasBit(r.flags, FLAG_FILE) then
      if |r.children| != 1 then None else Some(DirNode(HasBit(r.flags, FLAG_DIRECTORY), r.name, r.children[0] % U32_LIMIT, []))
    else
      var children := BuildAll(records, r.children, depth + 1);
      if children.None? then None else Some(DirNode(true, r.name, 0, children.value))
  }

  function BuildAll(records: seq<Record>, indices: seq<nat>, depth: nat): (r: Option<seq<DirNode>>)
    ensures r.Some? ==> |r.value| == |indices|
    requires depth <= MAX_DEPTH + 1
    decreases MAX_DEPTH + 1 - depth, 2, |indices|
  {
    if indices == [] then Some([])
    else if indices[0] >= |records| then None
    else
      var child := Build(records, indices[0], depth);
      if child.None? then None
      else
        var rest := BuildAll(records, indices[1..], depth);
        if rest.None? then None else Some([child.value] + rest.value)
  }

  /** The node is what the records describe from record `p` on. */
  ghost predicate Unflattens(records: seq<Record>, p: nat, node: DirNode)
    decreases node
  {
    && p < |records| && node.nameId == records[p].name
    && var (flags, children) := (records[p].flags, records[p].children);
       if HasBit(flags, 1) then
         && |children| == 1 && node.children == [] && node.dataId == children[0] % U32_LIMIT
         && node.isDirectory == HasBit(flags, 2)
       else
         && HasBit(flags, 2) && node.isDirectory && node.dataId == 0
         && |node.children| == |children|
         && forall k :: 0 <= k < |children| ==> Unflattens(records, children[k], node.children[k])
  }

  function Levels(node: DirNode): (n: nat)
    ensures n >= 1
    decreases node, 1
  {
    1 + LevelsOfAll(node.children)
  }

  function LevelsOfAll(nodes: seq<DirNode>): nat
    decreases nodes, 0
  {
    if nodes == [] then 0
    else
      var first, rest := Levels(nodes[0]), LevelsOfAll(nodes[1..]);
      if first < rest then rest else first
  }

  /** Which trees are accepted: exactly those that the records describe and that have at most 1024 levels. */
  lemma BuildsIff(records: seq<Record>, node: DirNode)
    requires records != []
    ensures Build(records, 0, 1) == Some(node) <==> Unflattens(records, 0, node) && Levels(node) <= 1024
  {
    BuildsFromIff(records, 0, 1, node);
  }

  lemma {:induction false} BuildsFromIff(records: seq<Record>, p: nat, depth: nat, node: DirNode)
    requires p < |records|
    ensures Build(records, p, depth) == Some(node) <==> Unflattens(records, p, node) && depth + Levels(node) <= MAX_DEPTH + 1
    decreases MAX_DEPTH + 1 - depth, 1, 0
  {
    var r := records[p];
    if depth <= MAX_DEPTH && !HasBit(r.flags, FLAG_FILE) && HasBit(r.flags, FLAG_DIRECTORY) {
      BuildsAllIff(records, r.children, depth + 1, node.children);
    }
  }

  lemma {:induction false} BuildsAllIff(records: seq<Record>, indices: seq<nat>, depth: nat, nodes: seq<DirNode>)
    requires depth <= MAX_DEPTH + 1
    ensures BuildAll(records, indices, depth) == Some(nodes) <==>
      && |nodes| == |indices| && depth + LevelsOfAll(nodes) <= MAX_DEPTH + 1
      && forall k :: 0 <= k < |indices| ==> Unflattens(records, indices[k], nodes[k])
    decreases MAX_DEPTH + 1 - depth, 2, |indices|
  {
    hide Unflattens;
    if indices != [] && nodes != [] {
      if indices[0] < |records| {
        BuildsFromIff(records, indices[0], depth, nodes[0]);
        BuildsAllIff(records, indices[1..], depth, nodes[1..]);
        assert nodes == [nodes[0]] + nodes[1..];
        assert forall k :: 0 < k < |indices| ==> indices[k] == indices[1..][k - 1];
        assert forall k :: 0 < k < |nodes| ==> nodes[k] == nodes[1..][k - 1];
      } else {
        NoRecord(records, indices[0], nodes[0]);
      }
    }
  }

  lemma NoRecord(records: seq<Record>, p: nat, node: DirNode)
    requires p >= |records|
    ensures !Unflattens(records, p, node)
  {
  }

  // ---------- the whole package ----------

  /** A package that has been read: where its strings and contents start, and its tree. */
  datatype Loaded = Loaded(bytes: seq<byte>, gst: seq<nat>, gdt: seq<nat>, root: DirNode)

  datatype Resolution = Resolved(package: Loaded) | Rejected | ReadsOutside

  function Resolve(file: MappedFile): (r: Resolution)
    ensures r.Resolved? ==>
      && r.package.bytes == file.bytes && |file.bytes| >= 54
      && file.bytes[..6] == [0x43, 0x52, 0x50, 0x4b, 0x47, 0xe3] && Field(file.bytes, 6, 4) == 1
    ensures r.Resolved? ==> forall k :: 0 <= k < |r.package.gst| ==> InBounds(file.bytes, StringEntry, r.package.gst[k])
    ensures r.Resolved? ==> forall k :: 0 <= k < |r.package.gdt| ==>
      && HasField(file.bytes, DataEntry, r.package.gdt[k])
      && (InBounds(file.bytes, DataEntry, r.package.gdt[k]) <==> Field(file.bytes, r.package.gdt[k], 8) <= MAX_DATA_SIZE)
  {
    if |file.bytes| < HEADER_SIZE then Rejected
    else if file.bytes[..6] != MAGIC then Rejected
    else if Field(file.bytes, 6, 4) != VERSION then Rejected
    else Assemble(file, TableAt(file, StringEntry, 18), TableAt(file, DataEntry, 42), TableAt(file, DirtreeEntry, 30))
  }

  lemma TableLiesInFileIff(file: MappedFile, kind: Kind, at: int, n: nat)
    requires file.base + at >= 0
    ensures var r := Scan(file, kind, at, n); r.Starts? ==> forall k :: 0 <= k < n ==>
      (InBounds(file.bytes, kind, r.starts[k]) <==> kind != DataEntry || Field(file.bytes, r.starts[k], 8) <= MAX_DATA_SIZE)
  {
    forall k | 0 <= k < n && Scan(file, kind, at, n).Starts?
      ensures var start := Scan(file, kind, at, n).starts[k];
        InBounds(file.bytes, kind, start) <==> kind != DataEntry || Field(file.bytes, start, 8) <= MAX_DATA_SIZE
    {
      AcceptedLiesInFileIff(file, kind, at, n, k);
    }
  }

  /** The table whose offset and size are in the header at `at`. */
  function TableAt(file: MappedFile, kind: Kind, at: nat): (r: Scanned)
    requires at + 12 <= |file.bytes|
    ensures r.Starts? ==> forall k :: 0 <= k < |r.starts| ==>
      && HasField(file.bytes, kind, r.starts[k])
      && (InBounds(file.bytes, kind, r.starts[k]) <==> kind != DataEntry || Field(file.bytes, r.starts[k], 8) <= MAX_DATA_SIZE)
  {
    var start, size := Moved(file, 0, Field(file.bytes, at, 8)), Field(file.bytes, at + 8, 4);
    var r := Scan(file, kind, start, size);
    TableLiesInFileIff(file, kind, start, size);
    r
  }

  /** Every string and data entry lies within the file. */
  ghost predicate TablesInBounds(p: Loaded)
  {
    && (forall k :: 0 <= k < |p.gst| ==> InBounds(p.bytes, StringEntry, p.gst[k]))
    && DataInBounds(p)
  }

  predicate DataInBounds(p: Loaded)
  {
    forall k :: 0 <= k < |p.gdt| ==> InBounds(p.bytes, DataEntry, p.gdt[k])
  }

  /** The package made of three scanned tables; the first table that fails decides. */
  function Assemble(file: MappedFile, gst: Scanned, gdt: Scanned, dirtree: Scanned): Resolution
    requires dirtree.Starts? ==> forall k :: 0 <= k < |dirtree.starts| ==> InBounds(file.bytes, DirtreeEntry, dirtree.starts[k])
  {
    if !gst.Starts? then Failure(gst)
    else if !gdt.Starts? then Failure(gdt)
    else if !dirtree.Starts? then Failure(dirtree)
    else if dirtree.starts == [] then ReadsOutside
    else
      var root := Build(RecordsAt(file.bytes, dirtree.starts), 0, 1);
      if root.None? then Rejected else Resolved(Loaded(file.bytes, gst.starts, gdt.starts, root.value))
  }

  predicate HasHeader(bytes: seq<byte>)
  {
    |bytes| >= 54 && bytes[..6] == [0x43, 0x52, 0x50, 0x4b, 0x47, 0xe3] && Field(bytes, 6, 4) == 1
  }

  /** The header field at `at` leads to a table of these entries, and tells how many they are. */
  ghost predicate HasTable(file: MappedFile, kind: Kind, at: nat, starts: seq<nat>)
    requires at + 12 <= |file.bytes|
  {
    var start := Moved(file, 0, Field(file.bytes, at, 8));
    |starts| == Field(file.bytes, at + 8, 4) && Follow(file, kind, start, starts) && Behind(file, kind, start, starts) <= |file.bytes|
  }

  lemma HasTableIff(file: MappedFile, kind: Kind, at: nat, starts: seq<nat>)
    requires at + 12 <= |file.bytes|
    ensures HasTable(file, kind, at, starts) <==> TableAt(file, kind, at) == Starts(starts)
  {
    hide Scan, Follow, Behind, Field;
    ScannedIff(file, kind, Moved(file, 0, Field(file.bytes, at, 8)), Field(file.bytes, at + 8, 4), starts);
  }

  /** The records are in the file and describe this tree. */
  ghost predicate HasTree(file: MappedFile, starts: seq<nat>, root: DirNode)
  {
    && starts != [] && (forall k :: 0 <= k < |starts| ==> InBounds(file.bytes, DirtreeEntry, starts[k]))
    && Unflattens(RecordsAt(file.bytes, starts), 0, root) && Levels(root) <= 1024
  }

  /**
    Exactly these files are accepted, and read as this package: the header is there, its fields lead
    to the three tables, and the records describe a tree of at most 1024 levels.
   */
  lemma ResolvedIff(file: MappedFile, p: Loaded)
    ensures Resolve(file) == Resolved(p) <==>
      && HasHeader(file.bytes) && p.bytes == file.bytes
      && HasTable(file, StringEntry, 18, p.gst) && HasTable(file, DataEntry, 42, p.gdt)
      && exists starts :: HasTable(file, DirtreeEntry, 30, starts) && HasTree(file, starts, p.root)
  {
    hide TableAt, HasTable, Build, Unflattens, Levels, Field, InBounds;
    if HasHeader(file.bytes) {
      HasTableIff(file, StringEntry, 18, p.gst);
      HasTableIff(file, DataEntry, 42, p.gdt);
      var dirtree := TableAt(file, DirtreeEntry, 30);
      forall starts ensures HasTable(file, DirtreeEntry, 30, starts) <==> dirtree == Starts(starts) {
        HasTableIff(file, DirtreeEntry, 30, starts);
      }
      if dirtree.Starts? && dirtree.starts != [] {
        BuildsIff(RecordsAt(file.bytes, dirtree.starts), p.root);
        assert HasTree(file, dirtree.starts, p.root) <==> Build(RecordsAt(file.bytes, dirtree.starts), 0, 1) == Some(p.root);
      }
    }
  }

  /** A file without such a header is rejected before any table is read. */
  lemma BadHeaderIsRejected(file: MappedFile)
    requires !HasHeader(file.bytes)
    ensures Resolve(file).Rejected?
  {
  }

  function Failure(scanned: Scanned): Resolution
  {
    if scanned.Corrupted? then Rejected else ReadsOutside
  }

  /** The outcome of a scan of which `starts` are known already. */
  ghost function Continue(starts: seq<nat>, rest: Scanned): Scanned
  {
    if rest.Starts? then Starts(starts + rest.starts) else rest
  }

  lemma ContinueStep(file: MappedFile, kind: Kind, starts: seq<nat>, at: nat, n: nat)
    requires n > 0 && at < |file.bytes| && HasField(file.bytes, kind, at)
    requires kind == StringEntry ==> InBounds(file.bytes, kind, at)
    ensures Continue(starts, Scan(file, kind, at, n)) == Continue(starts + [at], Scan(file, kind, AfterEntry(file, kind, at), n - 1))
  {
    var rest := Scan(file, kind, AfterEntry(file, kind, at), n - 1);
    if rest.Starts? { assert starts + ([at] + rest.starts) == starts + [at] + rest.starts; }
  }

  lemma ContinueNothing(rest: Scanned)
    ensures Continue([], rest) == rest
  {
    if rest.Starts? { assert [] + rest.starts == rest.starts; }
  }

  lemma ContinueEnds(file: MappedFile, kind: Kind, starts: seq<nat>, at: int, n: nat)
    requires file.base + at >= 0
    ensures n == 0 ==> Continue(starts, Scan(file, kind, at, n)) == if at > |file.bytes| then Corrupted else Starts(starts)
    ensures n > 0 && at >= |file.bytes| ==> Continue(starts, Scan(file, kind, at, n)) == Corrupted
    ensures n > 0 && (at < 0 || at < |file.bytes| < at + FieldWidth(kind)) ==> Continue(starts, Scan(file, kind, at, n)) == Outside
    ensures n > 0 && 0 <= at < |file.bytes| && HasField(file.bytes, kind, at) && kind == StringEntry && !InBounds(file.bytes, kind, at)
      ==> Continue(starts, Scan(file, kind, at, n)) == Outside
  {
    assert starts + [] == starts;
  }

  /** The reader itself: each table builder advances a cursor and fills its vector. */
  class Package {
    const file: MappedFile
    var gst: seq<nat>
    var gdt: seq<nat>
    var root: Option<DirNode>

    constructor (file: MappedFile)
      ensures this.file == file
    {
      this.file := file;
      gst, gdt, root := [], [], None;
    }

    /** The cursor is an address. */
    method BuildTable(kind: Kind, offset: nat, size: nat) returns (r: Scanned)
      ensures r == Scan(file, kind, Moved(file, 0, offset), size)
    {
      hide Scan, Continue, Field;
      var starts: seq<nat> := [];
      var end := file.base + |file.bytes|;
      var cur: nat := (file.base + offset) % ADDRESS_SPACE;
      ContinueNothing(Scan(file, kind, cur - file.base, size));
      for i := 0 to size
        invariant |starts| == i
        invariant Scan(file, kind, Moved(file, 0, offset), size) == Continue(starts, Scan(file, kind, cur - file.base, size - i))
      {
        ContinueEnds(file, kind, starts, cur - file.base, size - i);
        if cur >= end { return Corrupted; }
        if cur < file.base || cur + FieldWidth(kind) > end { return Outside; }
        var at := cur - file.base;
        var field := Field(file.bytes, at, FieldWidth(kind));
        if kind == StringEntry && cur + EntrySize(kind, field) > end { return Outside; }
        ContinueStep(file, kind, starts, at, size - i);
        starts := starts + [at];
        cur := (cur + EntrySize(kind, field)) % ADDRESS_SPACE;
      }
      ContinueEnds(file, kind, starts, cur - file.base, 0);
      if cur > end { return Corrupted; }
      return Starts(starts);
    }

    method ResolveContents() returns (r: Resolution)
      modifies this
      ensures r == Resolve(file)
      ensures r.Resolved? ==> r.package == Loaded(file.bytes, gst, gdt, r.package.root) && root == Some(r.package.root)
    {
      if |file.bytes| < HEADER_SIZE { return Rejected; }
      if file.bytes[..6] != MAGIC { return Rejected; }
      if Field(file.bytes, 6, 4) != VERSION { return Rejected; }
      var strings := BuildTable(StringEntry, Field(file.bytes, 18, 8), Field(file.bytes, 26, 4));
      assert strings == TableAt(file, StringEntry, 18);
      if !strings.Starts? { return Failure(strings); }
      gst := strings.starts;
      var datas := BuildTable(DataEntry, Field(file.bytes, 42, 8), Field(file.bytes, 50, 4));
      assert datas == TableAt(file, DataEntry, 42);
      if !datas.Starts? { return Failure(datas); }
      gdt := datas.starts;
      var dirtree := BuildTable(DirtreeEntry, Field(file.bytes, 30, 8), Field(file.bytes, 38, 4));
      assert dirtree == TableAt(file, DirtreeEntry, 30);
      if !dirtree.Starts? { return Failure(dirtree); }
      if dirtree.starts == [] { return ReadsOutside; }
      root := Build(RecordsAt(file.bytes, dirtree.starts), 0, 1);
      if root.None? { return Rejected; }
      return Resolved(Loaded(file.bytes, gst, gdt, root.value));
    }
  }

  // ---------- what a package means ----------

  /** A tree of names, kinds and file contents. */
  datatype Tree = FileTree(name: seq<byte>, content: seq<byte>) | DirTree(name: seq<byte>, children: seq<Tree>)

  /** What was composed, provided that every accessor delivers. */
  ghost function TreeOfEntry(e: Entry): Tree
  {
    match e
    case File(name, accessor) => FileTree(name, if accessor.content.Some? then accessor.content.value else [])
    case Directory(name, children) =>
      DirTree(name, seq(|children|, k requires 0 <= k < |children| => TreeOfEntry(children[k])))
  }

  /** The node has the name, the kind, the contents and the children of the tree. */
  ghost predicate Shows(p: Loaded, node: DirNode, t: Tree)
    decreases t
  {
    && node.nameId < |p.gst| && InBounds(p.bytes, StringEntry, p.gst[node.nameId])
    && StringAt(p.bytes, p.gst[node.nameId]) == t.name
    && match t
       case FileTree(_, content) =>
         && !node.isDirectory && node.children == []
         && node.dataId < |p.gdt| && InBounds(p.bytes, DataEntry, p.gdt[node.dataId])
         && DataAt(p.bytes, p.gdt[node.dataId]) == content
       case DirTree(_, children) =>
         && node.isDirectory
         && |node.children| == |children|
         && forall k :: 0 <= k < |children| ==> Shows(p, node.children[k], children[k])
  }

  // ---------- reading back what was laid out ----------

  lemma FieldOfLE(bytes: seq<byte>, at: nat, n: nat, width: nat)
    requires At(bytes, at, LE(n, width)) && n < Pow256(width)
    ensures at + width <= |bytes| && Field(bytes, at, width) == n
  {
    FromLEOfLE(n, width);
  }

  lemma StringEntryAt(bytes: seq<byte>, at: nat, str: seq<byte>)
    requires At(bytes, at, StringBytes(str)) && |str| < U32_LIMIT
    ensures at + 4 + |str| <= |bytes| && Field(bytes, at, 4) == |str| && bytes[at + 4..at + 4 + |str|] == str
    ensures InBounds(bytes, StringEntry, at) && StringAt(bytes, at) == str
  {
    Limits();
    AtSplit(bytes, at, LE(|str|, 4), str);
    FieldOfLE(bytes, at, |str|, 4);
  }

  lemma DataEntryAt(bytes: seq<byte>, at: nat, data: seq<byte>)
    requires At(bytes, at, DataBytes(data)) && |data| < U64_LIMIT
    ensures at + 8 + |data| <= |bytes| && Field(bytes, at, 8) == |data| && bytes[at + 8..at + 8 + |data|] == data
    ensures InBounds(bytes, DataEntry, at) && DataAt(bytes, at) == data
  {
    Limits();
    AtSplit(bytes, at, LE(|data|, 8), data);
    FieldOfLE(bytes, at, |data|, 8);
  }

  lemma {:induction false} ChildAt(bytes: seq<byte>, at: nat, n: nat, k: nat)
    requires at + 8 * n <= |bytes| && k < n
    ensures ChildrenAt(bytes, at, n)[k] == Field(bytes, at + 8 * k, 8)
    decreases n
  {
    hide Field;
    if k > 0 { ChildAt(bytes, at + 8, n - 1, k - 1); }
  }

  lemma {:induction false} ChildrenBytesAt(bytes: seq<byte>, at: nat, children: seq<nat>)
    requires At(bytes, at, ChildrenBytes(children))
    requires forall c :: c in children ==> c < U64_LIMIT
    ensures ChildrenAt(bytes, at, |children|) == children
    decreases |children|
  {
    hide At, LE, Field, Pow256;
    if children != [] {
      Limits();
      assert children[0] in children && forall c :: c in children[1..] ==> c in children;
      AtSplit(bytes, at, LE(children[0], 8), ChildrenBytes(children[1..]));
      FieldOfLE(bytes, at, children[0], 8);
      ChildrenBytesAt(bytes, at + 8, children[1..]);
    }
  }

  /** The integers of a record fit their fields. */
  ghost predicate RecordFits(r: Record)
  {
    |r.children| < U32_LIMIT && r.name < U32_LIMIT && forall c :: c in r.children ==> c < U64_LIMIT
  }

  lemma RecordEntryAt(bytes: seq<byte>, at: nat, r: Record)
    requires At(bytes, at, RecordBytes(r)) && RecordFits(r)
    ensures at + 9 <= |bytes| && Field(bytes, at, 4) == |r.children| && bytes[at + 4] == r.flags && Field(bytes, at + 5, 4) == r.name
    ensures InBounds(bytes, DirtreeEntry, at) && RecordAt(bytes, at) == r
  {
    Limits();
    AtSplit(bytes, at, LE(|r.children|, 4) + LE(r.flags, 1) + LE(r.name, 4), ChildrenBytes(r.children));
    AtSplit(bytes, at, LE(|r.children|, 4) + LE(r.flags, 1), LE(r.name, 4));
    AtSplit(bytes, at, LE(|r.children|, 4), LE(r.flags, 1));
    FieldOfLE(bytes, at, |r.children|, 4);
    FieldOfLE(bytes, at + 4, r.flags, 1);
    FieldOfLE(bytes, at + 5, r.name, 4);
    ChildrenBytesAt(bytes, at + 9, r.children);
    assert bytes[at + 4..at + 5] == [bytes[at + 4]];
  }

  ghost predicate ReadsStrings(bytes: seq<byte>, scanned: Scanned, strings: seq<seq<byte>>)
  {
    && scanned.Starts? && |scanned.starts| == |strings|
    && forall k :: 0 <= k < |strings| ==>
      InBounds(bytes, StringEntry, scanned.starts[k]) && StringAt(bytes, scanned.starts[k]) == strings[k]
  }

  ghost predicate ReadsDatas(bytes: seq<byte>, scanned: Scanned, datas: seq<seq<byte>>)
  {
    && scanned.Starts? && |scanned.starts| == |datas|
    && forall k :: 0 <= k < |datas| ==>
      InBounds(bytes, DataEntry, scanned.starts[k]) && DataAt(bytes, scanned.starts[k]) == datas[k]
  }

  ghost predicate ReadsRecords(bytes: seq<byte>, scanned: Scanned, records: seq<Record>)
  {
    && scanned.Starts? && |scanned.starts| == |records|
    && forall k :: 0 <= k < |records| ==>
      InBounds(bytes, DirtreeEntry, scanned.starts[k]) && RecordAt(bytes, scanned.starts[k]) == records[k]
  }

  lemma StringTableSplit(bytes: seq<byte>, at: nat, strings: seq<seq<byte>>)
    requires strings != [] && At(bytes, at, StringTableBytes(strings))
    ensures At(bytes, at, StringBytes(strings[0])) && At(bytes, at + 4 + |strings[0]|, StringTableBytes(strings[1..]))
  {
    hide At, StringBytes;
    AtSplit(bytes, at, StringBytes(strings[0]), StringTableBytes(strings[1..]));
  }

  lemma {:induction false} ScanStrings(file: MappedFile, at: nat, strings: seq<seq<byte>>)
    requires At(file.bytes, at, StringTableBytes(strings))
    requires forall s :: s in strings ==> |s| < U32_LIMIT
    ensures ReadsStrings(file.bytes, Scan(file, StringEntry, at, |strings|), strings)
    decreases |strings|
  {
    if strings != [] {
      ScanStringsOn(file, at, strings);
    }
  }

  lemma {:induction false} ScanStringsOn(file: MappedFile, at: nat, strings: seq<seq<byte>>)
    requires strings != [] && At(file.bytes, at, StringTableBytes(strings))
    requires forall s :: s in strings ==> |s| < U32_LIMIT
    ensures ReadsStrings(file.bytes, Scan(file, StringEntry, at, |strings|), strings)
    decreases |strings|, 0
  {
    hide At, StringBytes, StringTableBytes, Field, Scan, StringAt, ReadsStrings;
    assert strings[0] in strings && forall s :: s in strings[1..] ==> s in strings;
    StringTableSplit(file.bytes, at, strings);
    StringEntryAt(file.bytes, at, strings[0]);
    var next := at + 4 + |strings[0]|;
    ScanStrings(file, next, strings[1..]);
    ReadsStringsCons(file, at, next, strings);
  }

  lemma ReadsStringsCons(file: MappedFile, at: nat, next: nat, strings: seq<seq<byte>>)
    requires strings != [] && InBounds(file.bytes, StringEntry, at) && StringAt(file.bytes, at) == strings[0]
    requires next == at + EntrySize(StringEntry, Field(file.bytes, at, FieldWidth(StringEntry)))
    requires ReadsStrings(file.bytes, Scan(file, StringEntry, next, |strings| - 1), strings[1..])
    ensures ReadsStrings(file.bytes, Scan(file, StringEntry, at, |strings|), strings)
  {
    AfterEntryInBounds(file, StringEntry, at);
    hide StringAt;
    var rest, starts := Scan(file, StringEntry, next, |strings| - 1).starts, Scan(file, StringEntry, at, |strings|).starts;
    assert starts == [at] + rest;
    forall k | 0 < k < |strings|
      ensures InBounds(file.bytes, StringEntry, starts[k]) && StringAt(file.bytes, starts[k]) == strings[k]
    {
      assert strings[k] == strings[1..][k - 1] && starts[k] == rest[k - 1];
    }
  }

  lemma DataTableSplit(bytes: seq<byte>, at: nat, datas: seq<seq<byte>>)
    requires datas != [] && At(bytes, at, DataTableBytes(datas))
    ensures At(bytes, at, DataBytes(datas[0])) && At(bytes, at + 8 + |datas[0]|, DataTableBytes(datas[1..]))
  {
    hide At, DataBytes;
    AtSplit(bytes, at, DataBytes(datas[0]), DataTableBytes(datas[1..]));
  }

  lemma {:induction false} ScanDatas(file: MappedFile, at: nat, datas: seq<seq<byte>>)
    requires At(file.bytes, at, DataTableBytes(datas))
    requires forall d :: d in datas ==> |d| < U64_LIMIT
    ensures ReadsDatas(file.bytes, Scan(file, DataEntry, at, |datas|), datas)
    decreases |datas|
  {
    if datas != [] {
      ScanDatasOn(file, at, datas);
    }
  }

  lemma {:induction false} ScanDatasOn(file: MappedFile, at: nat, datas: seq<seq<byte>>)
    requires datas != [] && At(file.bytes, at, DataTableBytes(datas))
    requires forall d :: d in datas ==> |d| < U64_LIMIT
    ensures ReadsDatas(file.bytes, Scan(file, DataEntry, at, |datas|), datas)
    decreases |datas|, 0
  {
    hide At, DataBytes, DataTableBytes, Field, Scan, DataAt, ReadsDatas;
    assert datas[0] in datas && forall d :: d in datas[1..] ==> d in datas;
    DataTableSplit(file.bytes, at, datas);
    DataEntryAt(file.bytes, at, datas[0]);
    var next := at + 8 + |datas[0]|;
    ScanDatas(file, next, datas[1..]);
    ReadsDatasCons(file, at, next, datas);
  }

  lemma ReadsDatasCons(file: MappedFile, at: nat, next: nat, datas: seq<seq<byte>>)
    requires datas != [] && InBounds(file.bytes, DataEntry, at) && DataAt(file.bytes, at) == datas[0]
    requires next == at + EntrySize(DataEntry, Field(file.bytes, at, FieldWidth(DataEntry)))
    requires ReadsDatas(file.bytes, Scan(file, DataEntry, next, |datas| - 1), datas[1..])
    ensures ReadsDatas(file.bytes, Scan(file, DataEntry, at, |datas|), datas)
  {
    AfterEntryInBounds(file, DataEntry, at);
    hide DataAt;
    var rest, starts := Scan(file, DataEntry, next, |datas| - 1).starts, Scan(file, DataEntry, at, |datas|).starts;
    assert starts == [at] + rest;
    forall k | 0 < k < |datas|
      ensures InBounds(file.bytes, DataEntry, starts[k]) && DataAt(file.bytes, starts[k]) == datas[k]
    {
      assert datas[k] == datas[1..][k - 1] && starts[k] == rest[k - 1];
    }
  }

  lemma RecordTableSplit(bytes: seq<byte>, at: nat, records: seq<Record>)
    requires records != [] && At(bytes, at, DirtreeBytes(records))
    ensures At(bytes, at, RecordBytes(records[0])) && At(bytes, at + 9 + 8 * |records[0].children|, DirtreeBytes(records[1..]))
  {
    hide At, RecordBytes;
    AtSplit(bytes, at, RecordBytes(records[0]), DirtreeBytes(records[1..]));
  }

  lemma {:induction false} ScanRecords(file: MappedFile, at: nat, records: seq<Record>)
    requires At(file.bytes, at, DirtreeBytes(records))
    requires forall r :: r in records ==> RecordFits(r)
    ensures ReadsRecords(file.bytes, Scan(file, DirtreeEntry, at, |records|), records)
    decreases |records|
  {
    if records != [] {
      ScanRecordsOn(file, at, records);
    }
  }

  lemma {:induction false} ScanRecordsOn(file: MappedFile, at: nat, records: seq<Record>)
    requires records != [] && At(file.bytes, at, DirtreeBytes(records))
    requires forall r :: r in records ==> RecordFits(r)
    ensures ReadsRecords(file.bytes, Scan(file, DirtreeEntry, at, |records|), records)
    decreases |records|, 0
  {
    hide At, RecordBytes, DirtreeBytes, Field, Scan, RecordAt, ReadsRecords;
    assert records[0] in records && forall r :: r in records[1..] ==> r in records;
    RecordTableSplit(file.bytes, at, records);
    RecordEntryAt(file.bytes, at, records[0]);
    var next := at + 9 + 8 * |records[0].children|;
    ScanRecords(file, next, records[1..]);
    ReadsRecordsCons(file, at, next, records);
  }

  lemma ReadsRecordsCons(file: MappedFile, at: nat, next: nat, records: seq<Record>)
    requires records != [] && InBounds(file.bytes, DirtreeEntry, at) && RecordAt(file.bytes, at) == records[0]
    requires next == at + EntrySize(DirtreeEntry, Field(file.bytes, at, FieldWidth(DirtreeEntry)))
    requires ReadsRecords(file.bytes, Scan(file, DirtreeEntry, next, |records| - 1), records[1..])
    ensures ReadsRecords(file.bytes, Scan(file, DirtreeEntry, at, |records|), records)
  {
    AfterEntryInBounds(file, DirtreeEntry, at);
    hide RecordAt;
    var rest, starts := Scan(file, DirtreeEntry, next, |records| - 1).starts, Scan(file, DirtreeEntry, at, |records|).starts;
    assert starts == [at] + rest;
    forall k | 0 < k < |records|
      ensures InBounds(file.bytes, DirtreeEntry, starts[k]) && RecordAt(file.bytes, starts[k]) == records[k]
    {
      assert records[k] == records[1..][k - 1] && starts[k] == rest[k - 1];
    }
  }

  ghost predicate HeaderFits(h: Header)
  {
    && h.version < U32_LIMIT && h.timestamp < U64_LIMIT
    && h.gstOffset < U64_LIMIT && h.gstSize < U32_LIMIT
    && h.dirtreeOffset < U64_LIMIT && h.dirtreeSize < U32_LIMIT
    && h.gdtOffset < U64_LIMIT && h.gdtSize < U32_LIMIT
  }

  /** A header starts with the magic bytes and tells when it was written. */
  lemma TimestampField(bytes: seq<byte>, h: Header)
    requires At(bytes, 0, HeaderBytes(h)) && h.timestamp < U64_LIMIT
    ensures |bytes| >= 54 && bytes[..6] == [0x43, 0x52, 0x50, 0x4b, 0x47, 0xe3] && Field(bytes, 10, 8) == h.timestamp
  {
    Limits();
    var rest := LE(h.gstOffset, 8) + LE(h.gstSize, 4) + LE(h.dirtreeOffset, 8) + LE(h.dirtreeSize, 4)
      + LE(h.gdtOffset, 8) + LE(h.gdtSize, 4);
    var start := MAGIC + LE(h.version, 4);
    assert HeaderBytes(h) == start + LE(h.timestamp, 8) + rest;
    AtSplit(bytes, 0, start + LE(h.timestamp, 8), rest);
    AtSplit(bytes, 0, start, LE(h.timestamp, 8));
    AtSplit(bytes, 0, MAGIC, LE(h.version, 4));
    FieldOfLE(bytes, 10, h.timestamp, 8);
  }

  lemma HeaderFields(bytes: seq<byte>, h: Header)
    requires At(bytes, 0, HeaderBytes(h)) && HeaderFits(h)
    ensures |bytes| >= HEADER_SIZE && bytes[..6] == MAGIC && Field(bytes, 6, 4) == h.version && Field(bytes, 10, 8) == h.timestamp
    ensures Field(bytes, 18, 8) == h.gstOffset && Field(bytes, 26, 4) == h.gstSize
    ensures Field(bytes, 30, 8) == h.dirtreeOffset && Field(bytes, 38, 4) == h.dirtreeSize
    ensures Field(bytes, 42, 8) == h.gdtOffset && Field(bytes, 50, 4) == h.gdtSize
  {
    Limits();
    var p1 := MAGIC + LE(h.version, 4);
    var p2 := p1 + LE(h.timestamp, 8);
    var p3 := p2 + LE(h.gstOffset, 8);
    var p4 := p3 + LE(h.gstSize, 4);
    var p5 := p4 + LE(h.dirtreeOffset, 8);
    var p6 := p5 + LE(h.dirtreeSize, 4);
    var p7 := p6 + LE(h.gdtOffset, 8);
    AtSplit(bytes, 0, p7, LE(h.gdtSize, 4));
    AtSplit(bytes, 0, p6, LE(h.gdtOffset, 8));
    AtSplit(bytes, 0, p5, LE(h.dirtreeSize, 4));
    AtSplit(bytes, 0, p4, LE(h.dirtreeOffset, 8));
    AtSplit(bytes, 0, p3, LE(h.gstSize, 4));
    AtSplit(bytes, 0, p2, LE(h.gstOffset, 8));
    AtSplit(bytes, 0, p1, LE(h.timestamp, 8));
    AtSplit(bytes, 0, MAGIC, LE(h.version, 4));
    FieldOfLE(bytes, 6, h.version, 4);
    TimestampField(bytes, h);
    FieldOfLE(bytes, 18, h.gstOffset, 8);
    FieldOfLE(bytes, 26, h.gstSize, 4);
    FieldOfLE(bytes, 30, h.dirtreeOffset, 8);
    FieldOfLE(bytes, 38, h.dirtreeSize, 4);
    FieldOfLE(bytes, 42, h.gdtOffset, 8);
    FieldOfLE(bytes, 50, h.gdtSize, 4);
  }

  lemma ResolveByHeader(file: MappedFile, h: Header)
    requires At(file.bytes, 0, HeaderBytes(h)) && HeaderFits(h) && h.version == VERSION
    requires h.gstOffset <= |file.bytes| && h.gdtOffset <= |file.bytes| && h.dirtreeOffset <= |file.bytes|
    ensures |file.bytes| >= HEADER_SIZE && file.bytes[..6] == MAGIC && Field(file.bytes, 6, 4) == VERSION
    ensures TableAt(file, StringEntry, 18) == Scan(file, StringEntry, h.gstOffset, h.gstSize)
    ensures TableAt(file, DataEntry, 42) == Scan(file, DataEntry, h.gdtOffset, h.gdtSize)
    ensures TableAt(file, DirtreeEntry, 30) == Scan(file, DirtreeEntry, h.dirtreeOffset, h.dirtreeSize)
    ensures Resolve(file) ==
      Assemble(file, TableAt(file, StringEntry, 18), TableAt(file, DataEntry, 42), TableAt(file, DirtreeEntry, 30))
  {
    hide Scan, Field, HeaderBytes, Assemble;
    HeaderFields(file.bytes, h);
  }

  // ---------- rebuilding the flattened tree ----------

  function EntryHeight(e: Entry): (h: nat)
    ensures h >= 1
    decreases e, 1
  {
    match e
    case File(_, _) => 1
    case Directory(_, children) => 1 + EntriesHeight(children)
  }

  function EntriesHeight(es: seq<Entry>): nat
    decreases es, 0
  {
    if es == [] then 0
    else
      var first, rest := EntryHeight(es[0]), EntriesHeight(es[1..]);
      if first < rest then rest else first
  }

  function NodeOf(flat: Flat): DirNode
    decreases flat, 1
  {
    match flat
    case FlatFile(name, data) => DirNode(false, name, data, [])
    case FlatDirectory(name, children) => DirNode(true, name, 0, NodesOf(children))
  }

  function NodesOf(flats: seq<Flat>): (r: seq<DirNode>)
    ensures |r| == |flats|
    decreases flats, 0
  {
    if flats == [] then [] else [NodeOf(flats[0])] + NodesOf(flats[1..])
  }

  lemma {:induction false} NodesOfAt(flats: seq<Flat>, k: nat)
    requires k < |flats|
    ensures NodesOf(flats)[k] == NodeOf(flats[k])
  {
    if k > 0 { NodesOfAt(flats[1..], k - 1); }
  }

  /** The reader rebuilds the subtree, unless it reaches below level 1024: then it gives up. */
  lemma {:induction false} BuildFlattened(records: seq<Record>, flat: Flat, e: Entry, pos: nat, depth: nat,
      strings: seq<seq<byte>>, accessors: seq<Accessor>)
    requires Stands(flat, e, strings, accessors) && |accessors| < U32_LIMIT
    requires At(records, pos, Records(flat, pos))
    ensures Build(records, pos, depth) == if depth + EntryHeight(e) <= MAX_DEPTH + 1 then Some(NodeOf(flat)) else None
    decreases e, 1, 0
  {
    assert records[pos] == Records(flat, pos)[0];
    if depth <= MAX_DEPTH && e.Directory? {
      AtSplit(records, pos, [records[pos]], RecordsOfAll(flat.children, pos + 1));
      BuildFlattenedAll(records, flat.children, e.children, e, pos + 1, depth + 1, strings, accessors);
    }
  }

  lemma {:induction false} BuildFlattenedAll(records: seq<Record>, flats: seq<Flat>, es: seq<Entry>, parent: Entry, pos: nat, depth: nat,
      strings: seq<seq<byte>>, accessors: seq<Accessor>)
    requires |flats| == |es| && (forall k :: 0 <= k < |es| ==> Stands(flats[k], es[k], strings, accessors)) && |accessors| < U32_LIMIT
    requires forall k :: 0 <= k < |es| ==> es[k] < parent
    requires At(records, pos, RecordsOfAll(flats, pos))
    requires depth <= MAX_DEPTH + 1
    ensures BuildAll(records, Positions(flats, pos), depth)
      == if depth + EntriesHeight(es) <= MAX_DEPTH + 1 then Some(NodesOf(flats)) else None
    decreases parent, 0, |es|
  {
    if flats != [] {
      AtSplit(records, pos, Records(flats[0], pos), RecordsOfAll(flats[1..], pos + CountEntries(flats[0])));
      BuildFlattened(records, flats[0], es[0], pos, depth, strings, accessors);
      BuildFlattenedAll(records, flats[1..], es[1..], parent, pos + CountEntries(flats[0]), depth, strings, accessors);
      assert Positions(flats, pos)[1..] == Positions(flats[1..], pos + CountEntries(flats[0]));
    }
  }

  /** Every record's integers fit, because ids and positions are bounded by the number of entries. */
  lemma {:induction false} FlattenedFits(flat: Flat, e: Entry, pos: nat, strings: seq<seq<byte>>, accessors: seq<Accessor>)
    requires Stands(flat, e, strings, accessors)
    requires |strings| < U32_LIMIT && |accessors| < U32_LIMIT && pos + CountEntries(flat) < U32_LIMIT
    ensures forall r :: r in Records(flat, pos) ==> RecordFits(r)
    decreases e, 1, 0
  {
    if e.Directory? {
      FlattenedAllFit(flat.children, e.children, e, pos + 1, strings, accessors);
    }
  }

  lemma {:induction false} FlattenedAllFit(flats: seq<Flat>, es: seq<Entry>, parent: Entry, pos: nat, strings: seq<seq<byte>>, accessors: seq<Accessor>)
    requires |flats| == |es| && (forall k :: 0 <= k < |es| ==> Stands(flats[k], es[k], strings, accessors))
    requires forall k :: 0 <= k < |es| ==> es[k] < parent
    requires |strings| < U32_LIMIT && |accessors| < U32_LIMIT && pos + CountAll(flats) < U32_LIMIT
    ensures forall r :: r in RecordsOfAll(flats, pos) ==> RecordFits(r)
    ensures forall c :: c in Positions(flats, pos) ==> c < U32_LIMIT
    ensures |flats| <= CountAll(flats)
    decreases parent, 0, |es|
  {
    if flats != [] {
      FlattenedFits(flats[0], es[0], pos, strings, accessors);
      FlattenedAllFit(flats[1..], es[1..], parent, pos + CountEntries(flats[0]), strings, accessors);
    }
  }

  lemma {:induction false} FlattenedShows(p: Loaded, flat: Flat, e: Entry,
      strings: seq<seq<byte>>, accessors: seq<Accessor>, datas: seq<seq<byte>>)
    requires Stands(flat, e, strings, accessors) && Contents(datas, accessors)
    requires TablesRead(p, strings, datas)
    ensures Shows(p, NodeOf(flat), TreeOfEntry(e))
    decreases e
  {
    if e.Directory? {
      forall k | 0 <= k < |e.children| ensures Shows(p, NodeOf(flat).children[k], TreeOfEntry(e.children[k])) {
        NodesOfAt(flat.children, k);
        FlattenedShows(p, flat.children[k], e.children[k], strings, accessors, datas);
      }
    }
  }

  // ---------- the round trip ----------

  lemma ImageParts(bytes: seq<byte>, strings: seq<seq<byte>>, records: seq<Record>, datas: seq<seq<byte>>, timestamp: nat)
    requires bytes == Image(strings, records, datas, timestamp)
    ensures var h := HeaderOf(strings, records, |datas|, timestamp);
      && At(bytes, 0, HeaderBytes(h))
      && At(bytes, h.gstOffset, StringTableBytes(strings))
      && At(bytes, h.dirtreeOffset, DirtreeBytes(records))
      && At(bytes, h.gdtOffset, DataTableBytes(datas))
  {
    var h := HeaderOf(strings, records, |datas|, timestamp);
    var a, b, c, d := HeaderBytes(h), StringTableBytes(strings), DirtreeBytes(records), DataTableBytes(datas);
    assert At(bytes, 0, a + b + c + d);
    AtSplit(bytes, 0, a + b + c, d);
    AtSplit(bytes, 0, a + b, c);
    AtSplit(bytes, 0, a, b);
  }

  /** The tables of a laid-out package are found where the header says, with their contents. */
  ghost predicate TablesRead(p: Loaded, strings: seq<seq<byte>>, datas: seq<seq<byte>>)
  {
    && |p.gst| == |strings|
    && (forall k :: 0 <= k < |strings| ==> InBounds(p.bytes, StringEntry, p.gst[k]) && StringAt(p.bytes, p.gst[k]) == strings[k])
    && |p.gdt| == |datas|
    && (forall k :: 0 <= k < |datas| ==> InBounds(p.bytes, DataEntry, p.gdt[k]) && DataAt(p.bytes, p.gdt[k]) == datas[k])
  }

  /** What the reader makes of a package with this tree and these tables. */
  ghost predicate ResolvesTo(r: Resolution, root: Option<DirNode>, strings: seq<seq<byte>>, datas: seq<seq<byte>>)
  {
    match root
    case None => r.Rejected?
    case Some(node) => r.Resolved? && r.package.root == node && TablesRead(r.package, strings, datas)
  }

  lemma AssembleTables(file: MappedFile, gst: Scanned, gdt: Scanned, dirtree: Scanned,
      strings: seq<seq<byte>>, records: seq<Record>, datas: seq<seq<byte>>)
    requires ReadsStrings(file.bytes, gst, strings) && ReadsDatas(file.bytes, gdt, datas)
    requires ReadsRecords(file.bytes, dirtree, records) && records != []
    ensures ResolvesTo(Assemble(file, gst, gdt, dirtree), Build(records, 0, 1), strings, datas)
  {
    assert RecordsAt(file.bytes, dirtree.starts) == records;
  }

  lemma ResolveImage(file: MappedFile, strings: seq<seq<byte>>, records: seq<Record>, datas: seq<seq<byte>>, timestamp: nat)
    requires file.bytes == Image(strings, records, datas, timestamp) && timestamp < U64_LIMIT
    requires |strings| < U32_LIMIT && forall s :: s in strings ==> |s| < U32_LIMIT
    requires |datas| < U32_LIMIT && forall d :: d in datas ==> |d| < U64_LIMIT
    requires 0 < |records| < U32_LIMIT && forall r :: r in records ==> RecordFits(r)
    ensures ResolvesTo(Resolve(file), Build(records, 0, 1), strings, datas)
  {
    hide Resolve, TableAt, Scan, ResolvesTo, Assemble, Build, ReadsStrings, ReadsDatas, ReadsRecords, RecordFits, Image, HeaderBytes;
    var h := HeaderOf(strings, records, |datas|, timestamp);
    ImageParts(file.bytes, strings, records, datas, timestamp);
    ResolveByHeader(file, h);
    ScanStrings(file, h.gstOffset, strings);
    ScanDatas(file, h.gdtOffset, datas);
    ScanRecords(file, h.dirtreeOffset, records);
    AssembleTables(file, TableAt(file, StringEntry, 18), TableAt(file, DataEntry, 42), TableAt(file, DirtreeEntry, 30),
      strings, records, datas);
  }

  lemma PartsFit(parts: Parts, e: Entry)
    requires Fits(e) && PartsOf(parts, e)
    ensures |parts.strings| < U32_LIMIT && forall s :: s in parts.strings ==> |s| < U32_LIMIT
    ensures |parts.datas| < U32_LIMIT && forall d :: d in parts.datas ==> |d| < U64_LIMIT
    ensures CountEntries(parts.flat) < U32_LIMIT && forall r :: r in Records(parts.flat, 0) ==> RecordFits(r)
  {
    StandsCount(parts.flat, e, parts.strings, parts.accessors);
    FlattenedFits(parts.flat, e, 0, parts.strings, parts.accessors);
    forall d | d in parts.datas ensures |d| < U64_LIMIT {
      var k :| 0 <= k < |parts.datas| && parts.datas[k] == d;
      assert parts.accessors[k] in Accessors(e);
    }
  }

  /**
    The byte-level round trip. A file written by the composer is read back to a package that shows
    the composed tree, exactly when the tree has at most 1024 levels; deeper trees are rejected.
   */
  lemma RoundTrip(file: MappedFile, e: Entry, timestamp: nat)
    requires Fits(e) && timestamp < U64_LIMIT
    requires IsPackageOf(file.bytes, e, timestamp)
    ensures EntryHeight(e) <= 1024 ==> Resolve(file).Resolved?
    ensures EntryHeight(e) <= 1024 ==> var p := Resolve(file).package; TablesInBounds(p) && Shows(p, p.root, TreeOfEntry(e))
    ensures EntryHeight(e) > 1024 ==> Resolve(file).Rejected?
  {
    var parts: Parts :| PartsOf(parts, e) && file.bytes == PartsImage(parts, timestamp);
    RoundTripOfParts(file, parts, e, timestamp);
  }

  lemma RoundTripOfParts(file: MappedFile, parts: Parts, e: Entry, timestamp: nat)
    requires Fits(e) && timestamp < U64_LIMIT
    requires PartsOf(parts, e) && file.bytes == PartsImage(parts, timestamp)
    ensures EntryHeight(e) <= MAX_DEPTH ==> Resolve(file).Resolved?
    ensures EntryHeight(e) <= MAX_DEPTH ==> var p := Resolve(file).package; TablesInBounds(p) && Shows(p, p.root, TreeOfEntry(e))
    ensures EntryHeight(e) > MAX_DEPTH ==> Resolve(file).Rejected?
  {
    var records := Records(parts.flat, 0);
    PartsFit(parts, e);
    assert Build(records, 0, 1) == if EntryHeight(e) <= MAX_DEPTH then Some(NodeOf(parts.flat)) else None by {
      assert records[0..|records|] == records;
      BuildFlattened(records, parts.flat, e, 0, 1, parts.strings, parts.accessors);
    }
    ResolveImage(file, parts.strings, records, parts.datas, timestamp);
    if EntryHeight(e) <= MAX_DEPTH {
      FlattenedShows(Resolve(file).package, parts.flat, e, parts.strings, parts.accessors, parts.datas);
    }
  }

  /** What every package starts with: magic bytes, version, the time it was written, and where its strings are. */
  lemma PackageStarts(bytes: seq<byte>, e: Entry, timestamp: nat)
    requires IsPackageOf(bytes, e, timestamp) && timestamp < U64_LIMIT
    ensures |bytes| >= 54 && bytes[..6] == [0x43, 0x52, 0x50, 0x4b, 0x47, 0xe3]
    ensures Field(bytes, 6, 4) == 1 && Field(bytes, 10, 8) == timestamp && Field(bytes, 18, 8) == 54
  {
    var parts: Parts :| PartsOf(parts, e) && bytes == PartsImage(parts, timestamp);
    var records := Records(parts.flat, 0);
    var h := HeaderOf(parts.strings, records, |parts.datas|, timestamp);
    ImageParts(bytes, parts.strings, records, parts.datas, timestamp);
    TimestampField(bytes, h);
    VersionAndOffset(bytes, h);
  }

  /** Where the parts of a package are, in this order, and how many entries they have. */
  lemma PackageLayout(bytes: seq<byte>, e: Entry, timestamp: nat)
    requires Fits(e) && IsPackageOf(bytes, e, timestamp) && timestamp < U64_LIMIT && |bytes| < U64_LIMIT
    ensures |bytes| >= 54
    ensures Field(bytes, 26, 4) == |StringsOf(e)| && Field(bytes, 38, 4) == EntryCount(e) && Field(bytes, 50, 4) == |DatasOf(e)|
    ensures var (gst, dirtree, gdt) := (Field(bytes, 18, 8), Field(bytes, 30, 8), Field(bytes, 42, 8));
      && gst == 54 <= dirtree <= gdt <= |bytes|
      && bytes[gst..dirtree] == StringTableBytes(StringsOf(e))
      && exists flat, datas ::
        && Stands(flat, e, StringsOf(e), DatasOf(e)) && bytes[dirtree..gdt] == DirtreeBytes(Records(flat, 0))
        && Contents(datas, DatasOf(e)) && bytes[gdt..] == DataTableBytes(datas)
  {
    hide HeaderBytes, StringTableBytes, DirtreeBytes, DataTableBytes, Records, StringsOf, DatasOf, Stands, Field;
    var parts: Parts :| PartsOf(parts, e) && bytes == PartsImage(parts, timestamp);
    var records := Records(parts.flat, 0);
    var h := HeaderOf(parts.strings, records, |parts.datas|, timestamp);
    PartsFit(parts, e);
    StandsCount(parts.flat, e, parts.strings, parts.accessors);
    ImageParts(bytes, parts.strings, records, parts.datas, timestamp);
    HeaderFields(bytes, h);
    var a, b, c, d := HeaderBytes(h), StringTableBytes(parts.strings), DirtreeBytes(records), DataTableBytes(parts.datas);
    assert bytes == a + b + c + d;
    assert bytes[h.gstOffset..h.dirtreeOffset] == b && bytes[h.dirtreeOffset..h.gdtOffset] == c && bytes[h.gdtOffset..] == d;
  }

  lemma VersionAndOffset(bytes: seq<byte>, h: Header)
    requires At(bytes, 0, HeaderBytes(h)) && h.version < U32_LIMIT && h.gstOffset < U64_LIMIT
    ensures |bytes| >= 54 && Field(bytes, 6, 4) == h.version && Field(bytes, 18, 8) == h.gstOffset
  {
    Limits();
    var p1 := MAGIC + LE(h.version, 4);
    var p3 := p1 + LE(h.timestamp, 8) + LE(h.gstOffset, 8);
    var rest := LE(h.gstSize, 4) + LE(h.dirtreeOffset, 8) + LE(h.dirtreeSize, 4) + LE(h.gdtOffset, 8) + LE(h.gdtSize, 4);
    assert HeaderBytes(h) == p3 + rest;
    AtSplit(bytes, 0, p3, rest);
    AtSplit(bytes, 0, p1 + LE(h.timestamp, 8), LE(h.gstOffset, 8));
    AtSplit(bytes, 0, p1, LE(h.timestamp, 8));
    AtSplit(bytes, 0, MAGIC, LE(h.version, 4));
    FieldOfLE(bytes, 6, h.version, 4);
    FieldOfLE(bytes, 18, h.gstOffset, 8);
  }

  // ---------- sizes and offsets that wrap around ----------

  /** A table offset that leads past the end of the address space makes the code read below the file. */
  lemma WrappingOffsetReadsOutside(file: MappedFile, kind: Kind, offset: nat, n: nat)
    requires offset < ADDRESS_SPACE <= file.base + offset && n > 0
    ensures Scan(file, kind, Moved(file, 0, offset), n) == Outside
  {
    assert Moved(file, 0, offset) == offset - ADDRESS_SPACE;
  }

  const WRAPPING_SIZE := ADDRESS_SPACE - 8
  const WRAPPING_NAMES: seq<seq<byte>> := [[]]
  const WRAPPING_RECORDS: seq<Record> := [Record(FLAG_FILE, 0, [0])]

  /** A package of a single file, but for the size field of its content. */
  function WrappingFile(): seq<byte>
  {
    HeaderBytes(HeaderOf(WRAPPING_NAMES, WRAPPING_RECORDS, 1, 0)) + StringTableBytes(WRAPPING_NAMES)
    + DirtreeBytes(WRAPPING_RECORDS) + LE(WRAPPING_SIZE, 8)
  }

  /** The reader accepts it, with a file of nearly 2^64 bytes. */
  lemma WrappingSizeIsAccepted(file: MappedFile)
    requires file.bytes == WrappingFile()
    ensures Resolve(file).Resolved?
    ensures var p := Resolve(file).package;
      && p.root == DirNode(false, 0, 0, []) && |p.gdt| == 1
      && Field(file.bytes, p.gdt[0], 8) == WRAPPING_SIZE && !InBounds(file.bytes, DataEntry, p.gdt[0])
  {
    hide Resolve, TableAt, HeaderBytes, RecordBytes, StringBytes;
    var h := HeaderOf(WRAPPING_NAMES, WRAPPING_RECORDS, 1, 0);
    WrappingParts(file.bytes);
    WrappingHeaderFits();
    ResolveByHeader(file, h);
    ScanStrings(file, h.gstOffset, WRAPPING_NAMES);
    WrappingRecordFits();
    ScanRecords(file, h.dirtreeOffset, WRAPPING_RECORDS);
    ScanWrapping(file, h.gdtOffset);
    WrappingBuilds();
    assert RecordsAt(file.bytes, TableAt(file, DirtreeEntry, 30).starts) == WRAPPING_RECORDS;
  }

  lemma WrappingRecordFits()
    ensures forall r :: r in WRAPPING_RECORDS ==> RecordFits(r)
  {
    assert RecordFits(WRAPPING_RECORDS[0]);
  }

  lemma WrappingBuilds()
    ensures Build(WRAPPING_RECORDS, 0, 1) == Some(DirNode(false, 0, 0, []))
  {
  }

  lemma WrappingHeaderFits()
    ensures HeaderFits(HeaderOf(WRAPPING_NAMES, WRAPPING_RECORDS, 1, 0))
  {
    var noNames, noRecords := WRAPPING_NAMES[1..], WRAPPING_RECORDS[1..];
    assert noNames == [] && noRecords == [];
    assert |StringTableBytes(WRAPPING_NAMES)| == |StringBytes(WRAPPING_NAMES[0])| + |StringTableBytes(noNames)| == 4;
    assert |DirtreeBytes(WRAPPING_RECORDS)| == |RecordBytes(WRAPPING_RECORDS[0])| + |DirtreeBytes(noRecords)| == 17;
  }

  lemma WrappingParts(bytes: seq<byte>)
    requires bytes == WrappingFile()
    ensures var h := HeaderOf(WRAPPING_NAMES, WRAPPING_RECORDS, 1, 0);
      && At(bytes, 0, HeaderBytes(h))
      && At(bytes, h.gstOffset, StringTableBytes(WRAPPING_NAMES))
      && At(bytes, h.dirtreeOffset, DirtreeBytes(WRAPPING_RECORDS))
      && At(bytes, h.gdtOffset, LE(WRAPPING_SIZE, 8))
  {
    hide HeaderBytes, StringTableBytes, DirtreeBytes;
    var h := HeaderOf(WRAPPING_NAMES, WRAPPING_RECORDS, 1, 0);
    var a, b, c, d := HeaderBytes(h), StringTableBytes(WRAPPING_NAMES), DirtreeBytes(WRAPPING_RECORDS), LE(WRAPPING_SIZE, 8);
    assert At(bytes, 0, a + b + c + d);
    AtSplit(bytes, 0, a + b + c, d);
    AtSplit(bytes, 0, a + b, c);
    AtSplit(bytes, 0, a, b);
  }

  lemma ScanWrapping(file: MappedFile, at: nat)
    requires At(file.bytes, at, LE(WRAPPING_SIZE, 8))
    ensures Scan(file, DataEntry, at, 1) == Starts([at])
    ensures Field(file.bytes, at, 8) == WRAPPING_SIZE
  {
    Limits();
    FieldOfLE(file.bytes, at, WRAPPING_SIZE, 8);
    assert AfterEntry(file, DataEntry, at) == at;
    assert Scan(file, DataEntry, at, 0) == Starts([]);
  }
}
