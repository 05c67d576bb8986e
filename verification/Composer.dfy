/**
  Writing resource packages (src/CRPKG/Composer.cc): names and contents are interned, the tree is
  flattened to preorder records, and the parts are written one after the other.
 */
module Composer {
  import opened Bytes
  import opened PackageFormat
  import opened Options

  // ---------- what is composed ----------

  /**
    A source of file contents. Accessors are told apart by identity, and acquiring may fail.
    The bytes may be in memory or have to be read piecewise.
   */
  datatype Accessor = Accessor(id: int, content: Option<seq<byte>>, inMemory: bool)

  datatype Entry =
    | File(name: seq<byte>, accessor: Accessor)
    | Directory(name: seq<byte>, children: seq<Entry>)

  function EntryCount(e: Entry): (n: nat)
    ensures n >= 1
  {
    match e
    case File(_, _) => 1
    case Directory(_, children) => 1 + EntriesCount(children)
  }

  function EntriesCount(es: seq<Entry>): nat
  {
    if es == [] then 0 else EntryCount(es[0]) + EntriesCount(es[1..])
  }

  // ---------- interning ----------

  /** The table after a value was looked up, and added if it was not there. */
  function Added<T(==)>(table: seq<T>, value: T): seq<T>
  {
    if value in table then table else table + [value]
  }

  function AddedAll<T(==)>(table: seq<T>, values: seq<T>): seq<T>
    decreases |values|
  {
    if values == [] then table else AddedAll(Added(table, values[0]), values[1..])
  }

  lemma {:induction false} AddedAllSum<T>(table: seq<T>, a: seq<T>, b: seq<T>)
    ensures AddedAll(table, a + b) == AddedAll(AddedAll(table, a), b)
    decreases |a|
  {
    if a == [] {
      assert a + b == b;
    } else {
      assert (a + b)[1..] == a[1..] + b;
      AddedAllSum(Added(table, a[0]), a[1..], b);
    }
  }

  lemma AddedOne<T>(table: seq<T>, value: T)
    ensures AddedAll(table, [value]) == Added(table, value)
  {
    assert [value][1..] == [];
  }

  lemma {:induction false} AddedAllIsDistinct<T>(table: seq<T>, values: seq<T>)
    requires NoDuplicates(table)
    ensures NoDuplicates(AddedAll(table, values))
    decreases |values|
  {
    if values != [] { AddedAllIsDistinct(Added(table, values[0]), values[1..]); }
  }

  /** All names of a tree in preorder: a directory's own before those of its children. */
  function NamesOf(e: Entry): seq<seq<byte>>
    decreases e, 1
  {
    match e
    case File(name, _) => [name]
    case Directory(name, children) => [name] + NamesOfAll(children)
  }

  function NamesOfAll(es: seq<Entry>): seq<seq<byte>>
    decreases es, 0
  {
    if es == [] then [] else NamesOf(es[0]) + NamesOfAll(es[1..])
  }

  function AccessorsOf(e: Entry): seq<Accessor>
    decreases e, 1
  {
    match e
    case File(_, accessor) => [accessor]
    case Directory(_, children) => AccessorsOfAll(children)
  }

  function AccessorsOfAll(es: seq<Entry>): seq<Accessor>
    decreases es, 0
  {
    if es == [] then [] else AccessorsOf(es[0]) + AccessorsOfAll(es[1..])
  }

  lemma {:induction false} OfOneMore(es: seq<Entry>, e: Entry)
    ensures NamesOfAll(es + [e]) == NamesOfAll(es) + NamesOf(e)
    ensures AccessorsOfAll(es + [e]) == AccessorsOfAll(es) + AccessorsOf(e)
  {
    hide NamesOf, AccessorsOf;
    if es == [] {
      assert es + [e] == [e] && [e][1..] == [];
    } else {
      OfOneMore(es[1..], e);
      assert (es + [e])[1..] == es[1..] + [e];
      assert NamesOf(es[0]) + (NamesOfAll(es[1..]) + NamesOf(e)) == NamesOf(es[0]) + NamesOfAll(es[1..]) + NamesOf(e);
      assert AccessorsOf(es[0]) + (AccessorsOfAll(es[1..]) + AccessorsOf(e)) == AccessorsOf(es[0]) + AccessorsOfAll(es[1..]) + AccessorsOf(e);
    }
  }

  /** The string table and the data table of a tree: values in the order in which they first occur. */
  function StringsOf(e: Entry): seq<seq<byte>> { AddedAll([], NamesOf(e)) }

  function DatasOf(e: Entry): seq<Accessor> { AddedAll([], AccessorsOf(e)) }

  ghost predicate NoDuplicates<T>(s: seq<T>)
  {
    forall i, j :: 0 <= i < j < |s| ==> s[i] != s[j]
  }

  /** A table that hands out one index per distinct value: the string table and the data table. */
  class InternTable<T(==)> {
    var entries: seq<T>

    constructor ()
      ensures entries == []
    {
      entries := [];
    }

    method Find(value: T) returns (idx: Option<nat>)
      ensures idx.None? ==> value !in entries
      ensures idx.Some? ==> idx.value < |entries| && entries[idx.value] == value
    {
      for i := 0 to |entries|
        invariant value !in entries[..i]
      {
        if entries[i] == value { return Some(i); }
      }
      return None;
    }

    method AddOrGet(value: T) returns (idx: nat)
      modifies this
      ensures entries == Added(old(entries), value)
      ensures idx < |entries| && entries[idx] == value
    {
      var found := Find(value);
      if found.Some? { return found.value; }
      entries := entries + [value];
      return |entries| - 1;
    }
  }

  // ---------- the tree with interned names and contents ----------

  datatype Flat =
    | FlatFile(name: nat, data: nat)
    | FlatDirectory(name: nat, children: seq<Flat>)

  /** The indices of `flat` stand for the names and contents of `e`. */
  ghost predicate Stands(flat: Flat, e: Entry, strings: seq<seq<byte>>, datas: seq<Accessor>)
    decreases e
  {
    match e
    case File(name, accessor) =>
      && flat.FlatFile?
      && flat.name < |strings| && strings[flat.name] == name
      && flat.data < |datas| && datas[flat.data] == accessor
    case Directory(name, children) =>
      && flat.FlatDirectory?
      && flat.name < |strings| && strings[flat.name] == name
      && |flat.children| == |children|
      && forall k :: 0 <= k < |children| ==> Stands(flat.children[k], children[k], strings, datas)
  }

  lemma {:induction false} StandsInLargerTables(flat: Flat, e: Entry,
      strings: seq<seq<byte>>, datas: seq<Accessor>, strings': seq<seq<byte>>, datas': seq<Accessor>)
    requires Stands(flat, e, strings, datas) && strings <= strings' && datas <= datas'
    ensures Stands(flat, e, strings', datas')
    decreases e
  {
    if e.Directory? {
      forall k | 0 <= k < |e.children| ensures Stands(flat.children[k], e.children[k], strings', datas') {
        StandsInLargerTables(flat.children[k], e.children[k], strings, datas, strings', datas');
      }
    }
  }

  // ---------- how often the callback is called ----------

  const READ_SIZE := 1024

  function Pieces(n: nat): nat { (n + READ_SIZE - 1) / READ_SIZE }

  /** The size, and the contents at once or piece by piece. */
  function WritesOf(length: nat, inMemory: bool): nat
  {
    if length == 0 then 1 else if inMemory then 2 else 1 + Pieces(length)
  }

  function DataWrites(a: Accessor): nat
  {
    match a.content
    case None => 0
    case Some(data) => WritesOf(|data|, a.inMemory)
  }

  function AllDataWrites(accessors: seq<Accessor>): nat
  {
    if accessors == [] then 0 else AllDataWrites(accessors[..|accessors| - 1]) + DataWrites(accessors[|accessors| - 1])
  }

  /** The same over a tree, where an accessor may occur several times. */
  function TreeDataWrites(e: Entry): nat
  {
    match e
    case File(_, accessor) => DataWrites(accessor)
    case Directory(_, children) => TreesDataWrites(children)
  }

  function TreesDataWrites(es: seq<Entry>): nat
  {
    if es == [] then 0 else TreeDataWrites(es[0]) + TreesDataWrites(es[1..])
  }

  /** Enough calls for a package of the tree; it takes fewer if names or accessors are shared. */
  function WritesAtMost(e: Entry): nat { 1 + 2 * EntryCount(e) + TreeDataWrites(e) }

  lemma DataWritesOfLonger(accessors: seq<Accessor>, a: Accessor)
    ensures AllDataWrites(accessors + [a]) == AllDataWrites(accessors) + DataWrites(a)
  {
    assert (accessors + [a])[..|accessors|] == accessors;
  }

  lemma {:induction false} DataWritesOfPrefix(accessors: seq<Accessor>, i: nat)
    requires i <= |accessors|
    ensures AllDataWrites(accessors[..i]) <= AllDataWrites(accessors)
    decreases |accessors|
  {
    if i < |accessors| {
      var front := accessors[..|accessors| - 1];
      assert front[..i] == accessors[..i];
      DataWritesOfPrefix(front, i);
    } else {
      assert accessors[..i] == accessors;
    }
  }

  /** A table has grown by nothing but values of this set, and is free of duplicates if it was. */
  ghost predicate GrownBy<T(!new)>(before: seq<T>, after: seq<T>, values: set<T>)
  {
    && before <= after
    && (NoDuplicates(before) ==> NoDuplicates(after))
    && forall x :: x in after ==> x in before || x in values
  }

  lemma GrownTwice<T(!new)>(before: seq<T>, between: seq<T>, after: seq<T>, first: set<T>, second: set<T>, values: set<T>)
    requires GrownBy(before, between, first) && GrownBy(between, after, second) && first <= values && second <= values
    ensures GrownBy(before, after, values)
  {
  }

  /** The tables only ever grow, by at most one entry per node. */
  method MakeFlattenable(e: Entry, strings: InternTable<seq<byte>>, datas: InternTable<Accessor>) returns (flat: Flat)
    modifies strings, datas
    ensures GrownBy(old(strings.entries), strings.entries, Names(e)) && GrownBy(old(datas.entries), datas.entries, Accessors(e))
    ensures |strings.entries| <= |old(strings.entries)| + EntryCount(e)
    ensures |datas.entries| <= |old(datas.entries)| + EntryCount(e)
    ensures AllDataWrites(datas.entries) <= AllDataWrites(old(datas.entries)) + TreeDataWrites(e)
    ensures Stands(flat, e, strings.entries, datas.entries)
    ensures strings.entries == AddedAll(old(strings.entries), NamesOf(e))
    ensures datas.entries == AddedAll(old(datas.entries), AccessorsOf(e))
    decreases e
  {
    hide AllDataWrites, DataWrites, AddedAll;
    AddedOne(strings.entries, e.name);
    var name := strings.AddOrGet(e.name);
    match e
    case File(_, accessor) =>
      DataWritesOfLonger(datas.entries, accessor);
      AddedOne(datas.entries, accessor);
      var data := datas.AddOrGet(accessor);
      flat := FlatFile(name, data);
    case Directory(_, children) =>
      ghost var named := strings.entries;
      var flats := MakeChildren(e, strings, datas, name);
      GrownTwice(old(strings.entries), named, strings.entries, {e.name}, Names(e), Names(e));
      AddedAllSum(old(strings.entries), [e.name], NamesOfAll(children));
      flat := FlatDirectory(name, flats);
  }

  /** The children of a directory whose own name is interned already. */
  method MakeChildren(e: Entry, strings: InternTable<seq<byte>>, datas: InternTable<Accessor>, name: nat) returns (flats: seq<Flat>)
    requires e.Directory? && name < |strings.entries| && strings.entries[name] == e.name
    modifies strings, datas
    ensures GrownBy(old(strings.entries), strings.entries, Names(e)) && GrownBy(old(datas.entries), datas.entries, Accessors(e))
    ensures |strings.entries| <= |old(strings.entries)| + EntriesCount(e.children)
    ensures |datas.entries| <= |old(datas.entries)| + EntriesCount(e.children)
    ensures AllDataWrites(datas.entries) <= AllDataWrites(old(datas.entries)) + TreesDataWrites(e.children)
    ensures |flats| == |e.children| && AllStand(flats, e.children, strings.entries, datas.entries)
    ensures strings.entries == AddedAll(old(strings.entries), NamesOfAll(e.children))
    ensures datas.entries == AddedAll(old(datas.entries), AccessorsOfAll(e.children))
    decreases e, 0
  {
    hide AllDataWrites, NoDuplicates, Stands, Added, NamesOf, AccessorsOf;
    var children := e.children;
    flats := [];
    for i := 0 to |children|
      invariant |flats| == i
      invariant GrownBy(old(strings.entries), strings.entries, Names(e)) && GrownBy(old(datas.entries), datas.entries, Accessors(e))
      invariant |strings.entries| <= |old(strings.entries)| + EntriesCount(children) - EntriesCount(children[i..])
      invariant |datas.entries| <= |old(datas.entries)| + EntriesCount(children) - EntriesCount(children[i..])
      invariant AllDataWrites(datas.entries) <= AllDataWrites(old(datas.entries)) + TreesDataWrites(children) - TreesDataWrites(children[i..])
      invariant AllStand(flats, children[..i], strings.entries, datas.entries)
      invariant strings.entries == AddedAll(old(strings.entries), NamesOfAll(children[..i]))
      invariant datas.entries == AddedAll(old(datas.entries), AccessorsOfAll(children[..i]))
    {
      ghost var strings0, datas0 := strings.entries, datas.entries;
      var child := MakeFlattenable(children[i], strings, datas);
      AllStandInLargerTables(flats, children[..i], strings0, datas0, strings.entries, datas.entries);
      assert children[i..][0] == children[i] && children[i..][1..] == children[i + 1..];
      NamesOfChild(e, i);
      TablesOfOneMore(old(strings.entries), old(datas.entries), children, i);
      GrownTwice(old(strings.entries), strings0, strings.entries, Names(e), Names(children[i]), Names(e));
      GrownTwice(old(datas.entries), datas0, datas.entries, Accessors(e), Accessors(children[i]), Accessors(e));
      flats := flats + [child];
    }
    assert children[..|children|] == children;
  }

  lemma TablesOfOneMore(strings: seq<seq<byte>>, datas: seq<Accessor>, es: seq<Entry>, i: nat)
    requires i < |es|
    ensures AddedAll(strings, NamesOfAll(es[..i + 1])) == AddedAll(AddedAll(strings, NamesOfAll(es[..i])), NamesOf(es[i]))
    ensures AddedAll(datas, AccessorsOfAll(es[..i + 1])) == AddedAll(AddedAll(datas, AccessorsOfAll(es[..i])), AccessorsOf(es[i]))
  {
    hide AddedAll, NamesOf, AccessorsOf;
    assert es[..i + 1] == es[..i] + [es[i]];
    OfOneMore(es[..i], es[i]);
    AddedAllSum(strings, NamesOfAll(es[..i]), NamesOf(es[i]));
    AddedAllSum(datas, AccessorsOfAll(es[..i]), AccessorsOf(es[i]));
  }

  ghost predicate AllStand(flats: seq<Flat>, es: seq<Entry>, strings: seq<seq<byte>>, datas: seq<Accessor>)
  {
    |flats| == |es| && forall k :: 0 <= k < |es| ==> Stands(flats[k], es[k], strings, datas)
  }

  lemma AllStandInLargerTables(flats: seq<Flat>, es: seq<Entry>,
      strings: seq<seq<byte>>, datas: seq<Accessor>, strings': seq<seq<byte>>, datas': seq<Accessor>)
    requires AllStand(flats, es, strings, datas) && strings <= strings' && datas <= datas'
    ensures AllStand(flats, es, strings', datas')
  {
    forall k | 0 <= k < |es| ensures Stands(flats[k], es[k], strings', datas') {
      StandsInLargerTables(flats[k], es[k], strings, datas, strings', datas');
    }
  }

  lemma NamesOfChild(e: Entry, k: nat)
    requires e.Directory? && k < |e.children|
    ensures Names(e.children[k]) <= Names(e) && Accessors(e.children[k]) <= Accessors(e)
  {
  }

  /** All names in a tree. */
  ghost function Names(e: Entry): set<seq<byte>>
  {
    match e
    case File(name, _) => {name}
    case Directory(name, children) => {name} + set k, s | 0 <= k < |children| && s in Names(children[k]) :: s
  }

  /** All accessors in a tree. */
  ghost function Accessors(e: Entry): set<Accessor>
  {
    match e
    case File(_, accessor) => {accessor}
    case Directory(_, children) => set k, a | 0 <= k < |children| && a in Accessors(children[k]) :: a
  }

  // ---------- flattening ----------

  function CountEntries(flat: Flat): (n: nat)
    ensures n >= 1
  {
    match flat
    case FlatFile(_, _) => 1
    case FlatDirectory(_, children) => 1 + CountAll(children)
  }

  function CountAll(flats: seq<Flat>): nat
  {
    if flats == [] then 0 else CountEntries(flats[0]) + CountAll(flats[1..])
  }

  lemma {:induction false} CountAllStep(flats: seq<Flat>, i: nat)
    requires i < |flats|
    ensures CountAll(flats[..i + 1]) == CountAll(flats[..i]) + CountEntries(flats[i])
    ensures CountAll(flats[..i + 1]) <= CountAll(flats)
  {
    if i == 0 {
      assert flats[..1][1..] == [];
    } else {
      CountAllStep(flats[1..], i - 1);
      assert flats[..i + 1][1..] == flats[1..][..i];
      assert flats[..i][1..] == flats[1..][..i - 1];
    }
  }

  lemma {:induction false} StandsCount(flat: Flat, e: Entry, strings: seq<seq<byte>>, datas: seq<Accessor>)
    requires Stands(flat, e, strings, datas)
    ensures CountEntries(flat) == EntryCount(e)
    decreases e, 1
  {
    if e.Directory? { StandsCountAll(flat.children, e.children, strings, datas, e); }
  }

  lemma {:induction false} StandsCountAll(flats: seq<Flat>, es: seq<Entry>, strings: seq<seq<byte>>, datas: seq<Accessor>, parent: Entry)
    requires |flats| == |es| && forall k :: 0 <= k < |es| ==> Stands(flats[k], es[k], strings, datas)
    requires forall k :: 0 <= k < |es| ==> es[k] < parent
    ensures CountAll(flats) == EntriesCount(es)
    decreases parent, 0, |es|
  {
    if es != [] {
      StandsCount(flats[0], es[0], strings, datas);
      StandsCountAll(flats[1..], es[1..], strings, datas, parent);
    }
  }

  /** The preorder records of a subtree whose own record is at `pos`. */
  function Records(flat: Flat, pos: nat): (r: seq<Record>)
    ensures |r| == CountEntries(flat)
    decreases flat, 1
  {
    match flat
    case FlatFile(name, data) => [Record(FLAG_FILE, name, [data])]
    case FlatDirectory(name, children) =>
      [Record(FLAG_DIRECTORY, name, Positions(children, pos + 1))] + RecordsOfAll(children, pos + 1)
  }

  function RecordsOfAll(flats: seq<Flat>, pos: nat): (r: seq<Record>)
    ensures |r| == CountAll(flats)
    decreases flats, 0
  {
    if flats == [] then [] else Records(flats[0], pos) + RecordsOfAll(flats[1..], pos + CountEntries(flats[0]))
  }

  /** Where the records of consecutive siblings start. */
  function Positions(flats: seq<Flat>, pos: nat): (r: seq<nat>)
    ensures |r| == |flats|
  {
    if flats == [] then [] else [pos] + Positions(flats[1..], pos + CountEntries(flats[0]))
  }

  lemma {:induction false} PositionsAt(flats: seq<Flat>, pos: nat, i: nat)
    requires i < |flats|
    ensures Positions(flats, pos)[i] == pos + CountAll(flats[..i])
  {
    if i > 0 {
      PositionsAt(flats[1..], pos + CountEntries(flats[0]), i - 1);
      assert flats[..i][1..] == flats[1..][..i - 1];
    }
  }

  lemma {:induction false} RecordsOfAllSplit(flats: seq<Flat>, pos: nat, i: nat)
    requires i < |flats|
    ensures RecordsOfAll(flats[..i + 1], pos)
      == RecordsOfAll(flats[..i], pos) + Records(flats[i], pos + CountAll(flats[..i]))
  {
    if i == 0 {
      assert flats[..1][1..] == [];
    } else {
      RecordsOfAllSplit(flats[1..], pos + CountEntries(flats[0]), i - 1);
      assert flats[..i + 1][1..] == flats[1..][..i];
      assert flats[..i][1..] == flats[1..][..i - 1];
    }
  }

  /** Children always come after their parent, in order, within the subtree's own slots. */
  lemma PositionsIncrease(flats: seq<Flat>, pos: nat, i: nat, j: nat)
    requires i < j < |flats|
    ensures pos <= Positions(flats, pos)[i] < Positions(flats, pos)[j] < pos + CountAll(flats)
  {
    PositionsAt(flats, pos, i);
    PositionsAt(flats, pos, j);
    CountAllStep(flats, j);
    CountAllPrefixes(flats, i, j);
  }

  lemma {:induction false} CountAllPrefixes(flats: seq<Flat>, i: nat, j: nat)
    requires i < j < |flats|
    ensures CountAll(flats[..i]) < CountAll(flats[..j])
    decreases j
  {
    CountAllStep(flats, j - 1);
    if i < j - 1 { CountAllPrefixes(flats, i, j - 1); }
  }

  /** The slots from `pos` on hold these records. */
  ghost predicate Holds(slots: seq<Option<Record>>, pos: nat, records: seq<Record>)
  {
    pos + |records| <= |slots| && forall j :: pos <= j < pos + |records| ==> slots[j] == Some(records[j - pos])
  }

  /** `after` differs from `before` at most in the slots lo, lo + 1, ..., hi - 1. */
  ghost predicate SameOutside(before: seq<Option<Record>>, after: seq<Option<Record>>, lo: nat, hi: nat)
  {
    |before| == |after| && forall k :: 0 <= k < |before| && (k < lo || hi <= k) ==> after[k] == before[k]
  }

  /** The record of a directory of which the positions of the first `i` children are known. */
  ghost predicate IsPartial(slot: Option<Record>, name: nat, positions: seq<nat>, i: nat)
    requires i <= |positions|
  {
    && slot.Some? && slot.value.flags == FLAG_DIRECTORY && slot.value.name == name
    && |slot.value.children| == |positions|
    && forall k :: 0 <= k < i ==> slot.value.children[k] == positions[k]
  }

  method SetChild(result: array<Option<Record>>, pos: nat, i: nat, child: nat, ghost name: nat, ghost positions: seq<nat>)
    requires pos < result.Length && i < |positions| && positions[i] == child
    requires IsPartial(result[pos], name, positions, i)
    modifies result
    ensures IsPartial(result[pos], name, positions, i + 1)
    ensures forall k :: 0 <= k < result.Length && k != pos ==> result[k] == old(result[k])
  {
    var record := result[pos].value;
    result[pos] := Some(record.(children := record.children[i := child]));
  }

  lemma HoldsOneMore(before: seq<Option<Record>>, after: seq<Option<Record>>, flats: seq<Flat>, pos: nat, i: nat)
    requires i < |flats|
    requires Holds(before, pos, RecordsOfAll(flats[..i], pos))
    requires SameOutside(before, after, pos + CountAll(flats[..i]), pos + CountAll(flats[..i + 1]))
    requires Holds(after, pos + CountAll(flats[..i]), Records(flats[i], pos + CountAll(flats[..i])))
    ensures Holds(after, pos, RecordsOfAll(flats[..i + 1], pos))
  {
    RecordsOfAllSplit(flats, pos, i);
    CountAllStep(flats, i);
  }

  lemma HoldsDirectory(slots: seq<Option<Record>>, name: nat, children: seq<Flat>, pos: nat)
    requires pos < |slots| && IsPartial(slots[pos], name, Positions(children, pos + 1), |children|)
    requires Holds(slots, pos + 1, RecordsOfAll(children, pos + 1))
    ensures Holds(slots, pos, Records(FlatDirectory(name, children), pos))
  {
    hide RecordsOfAll, Positions, CountAll;
    assert slots[pos].value.children == Positions(children, pos + 1);
  }

  /** The first `i` children of the directory at `pos` are written and entered in its record. */
  ghost predicate ChildrenDone(before: seq<Option<Record>>, now: seq<Option<Record>>, flat: Flat, pos: nat, i: nat)
    requires flat.FlatDirectory? && i <= |flat.children|
    requires pos + CountEntries(flat) <= |before|
  {
    && SameOutside(before, now, pos, pos + 1 + CountAll(flat.children[..i]))
    && IsPartial(now[pos], flat.name, Positions(flat.children, pos + 1), i)
    && Holds(now, pos + 1, RecordsOfAll(flat.children[..i], pos + 1))
  }

  /** One round of the loop in `Flatten`. */
  method FlattenChild(flat: Flat, result: array<Option<Record>>, pos: nat, i: nat, cur: nat, ghost before: seq<Option<Record>>)
      returns (next: nat)
    requires flat.FlatDirectory? && i < |flat.children|
    requires pos + CountEntries(flat) <= |before|
    requires ChildrenDone(before, result[..], flat, pos, i)
    requires cur == pos + 1 + CountAll(flat.children[..i])
    modifies result
    ensures next == pos + 1 + CountAll(flat.children[..i + 1])
    ensures ChildrenDone(before, result[..], flat, pos, i + 1)
    decreases flat, 0
  {
    PositionsAt(flat.children, pos + 1, i);
    CountAllStep(flat.children, i);
    SetChild(result, pos, i, cur, flat.name, Positions(flat.children, pos + 1));
    ghost var entered := result[..];
    var n := Flatten(flat.children[i], result, cur);
    HoldsOneMore(entered, result[..], flat.children, pos + 1, i);
    next := cur + n;
  }

  /**
    Writes the records of the subtree into the slots from `pos` on and returns how many were
    written; no other slot is touched.
   */
  method Flatten(flat: Flat, result: array<Option<Record>>, pos: nat) returns (filled: nat)
    requires pos + CountEntries(flat) <= result.Length
    modifies result
    ensures filled == CountEntries(flat)
    ensures Holds(result[..], pos, Records(flat, pos))
    ensures SameOutside(old(result[..]), result[..], pos, pos + filled)
    ensures result[pos].Some? && result[pos].value.flags == if flat.FlatFile? then 1 else 2
    decreases flat, 1
  {
    match flat
    case FlatFile(name, data) =>
      result[pos] := Some(Record(FLAG_FILE, name, [data]));
      return 1;
    case FlatDirectory(name, children) =>
      ghost var before := result[..];
      result[pos] := Some(Record(FLAG_DIRECTORY, name, seq(|children|, _ => 0)));
      var cur := pos + 1;
      for i := 0 to |children|
        invariant cur == pos + 1 + CountAll(children[..i])
        invariant ChildrenDone(before, result[..], flat, pos, i)
      {
        cur := FlattenChild(flat, result, pos, i, cur, before);
      }
      assert children[..|children|] == children;
      HoldsDirectory(result[..], name, children, pos);
      return cur - pos;
  }

  // ---------- composing ----------

  datatype Status = Success | DataAcquireError | IOError

  /** The write callback: it takes `budget` more writes and fails from then on. */
  class Writer {
    var out: seq<byte>
    var budget: nat

    method Write(bytes: seq<byte>) returns (ok: bool)
      modifies this
      ensures ok == (old(budget) > 0)
      ensures out == if ok then old(out) + bytes else old(out)
      ensures budget == if ok then old(budget) - 1 else 0
    {
      if budget == 0 { return false; }
      out, budget := out + bytes, budget - 1;
      return true;
    }
  }

  const INT32_LIMIT := 0x8000_0000

  /** The sizes the format and the 32-bit indices have room for. */
  ghost predicate Fits(e: Entry)
  {
    && EntryCount(e) < INT32_LIMIT
    && (forall s :: s in Names(e) ==> |s| < U32_LIMIT)
    && (forall a :: a in Accessors(e) && a.content.Some? ==> |a.content.value| < U64_LIMIT)
  }

  /** What a package is made of. */
  datatype Parts = Parts(strings: seq<seq<byte>>, flat: Flat, accessors: seq<Accessor>, datas: seq<seq<byte>>)

  ghost predicate Contents(datas: seq<seq<byte>>, accessors: seq<Accessor>)
  {
    |datas| == |accessors| && forall k :: 0 <= k < |datas| ==> accessors[k].content == Some(datas[k])
  }

  ghost predicate PartsOf(parts: Parts, e: Entry)
  {
    && Stands(parts.flat, e, parts.strings, parts.accessors)
    && Contents(parts.datas, parts.accessors)
    && parts.strings == StringsOf(e) && parts.accessors == DatasOf(e)
    && |parts.strings| <= EntryCount(e) && |parts.accessors| <= EntryCount(e)
    && (forall s :: s in parts.strings ==> s in Names(e))
    && (forall a :: a in parts.accessors ==> a in Accessors(e))
  }

  ghost function PartsImage(parts: Parts, timestamp: nat): seq<byte>
  {
    Image(parts.strings, Records(parts.flat, 0), parts.datas, timestamp)
  }

  /** `image` is what composing `e` at the given time writes. */
  ghost predicate IsPackageOf(image: seq<byte>, e: Entry, timestamp: nat)
  {
    exists parts: Parts :: PartsOf(parts, e) && image == PartsImage(parts, timestamp)
  }

  method TableSize(strings: seq<seq<byte>>) returns (size: nat)
    ensures size == |StringTableBytes(strings)|
  {
    size := 0;
    for i := 0 to |strings|
      invariant size + |StringTableBytes(strings[i..])| == |StringTableBytes(strings)|
    {
      size := size + 4 + |strings[i]|;
    }
  }

  method DirtreeSize(records: seq<Record>) returns (size: nat)
    ensures size == |DirtreeBytes(records)|
  {
    size := 0;
    for i := 0 to |records|
      invariant size + |DirtreeBytes(records[i..])| == |DirtreeBytes(records)|
    {
      size := size + 9 + 8 * |records[i].children|;
    }
  }

  lemma Regrouped(a: seq<byte>, b: seq<byte>, c: seq<byte>)
    ensures a + (b + c) == a + b + c
  {
  }

  lemma {:induction false} StringTableAppend(strings: seq<seq<byte>>, str: seq<byte>)
    ensures StringTableBytes(strings + [str]) == StringTableBytes(strings) + StringBytes(str)
  {
    hide StringBytes;
    if strings == [] {
      assert strings + [str] == [str] && [str][1..] == [];
    } else {
      StringTableAppend(strings[1..], str);
      assert (strings + [str])[1..] == strings[1..] + [str];
      Regrouped(StringBytes(strings[0]), StringTableBytes(strings[1..]), StringBytes(str));
    }
  }

  lemma {:induction false} DirtreeAppend(records: seq<Record>, record: Record)
    ensures DirtreeBytes(records + [record]) == DirtreeBytes(records) + RecordBytes(record)
  {
    hide RecordBytes;
    if records == [] {
      assert records + [record] == [record] && [record][1..] == [];
    } else {
      DirtreeAppend(records[1..], record);
      assert (records + [record])[1..] == records[1..] + [record];
      Regrouped(RecordBytes(records[0]), DirtreeBytes(records[1..]), RecordBytes(record));
    }
  }

  method WriteStrings(writer: Writer, strings: seq<seq<byte>>) returns (ok: bool)
    modifies writer
    ensures ok ==> writer.out == old(writer.out) + StringTableBytes(strings)
    ensures ok <==> old(writer.budget) >= |strings|
    ensures writer.budget == if ok then old(writer.budget) - |strings| else 0
    ensures old(writer.out) <= writer.out
  {
    hide StringBytes;
    for i := 0 to |strings|
      invariant writer.budget == old(writer.budget) - i
      invariant old(writer.out) <= writer.out == old(writer.out) + StringTableBytes(strings[..i])
    {
      StringTableAppend(strings[..i], strings[i]);
      assert strings[..i + 1] == strings[..i] + [strings[i]];
      Regrouped(old(writer.out), StringTableBytes(strings[..i]), StringBytes(strings[i]));
      ok := writer.Write(StringBytes(strings[i]));
      if !ok { return; }
    }
    assert strings[..|strings|] == strings;
    return true;
  }

  method WriteRecords(writer: Writer, records: seq<Record>) returns (ok: bool)
    modifies writer
    ensures ok ==> writer.out == old(writer.out) + DirtreeBytes(records)
    ensures ok <==> old(writer.budget) >= |records|
    ensures writer.budget == if ok then old(writer.budget) - |records| else 0
    ensures old(writer.out) <= writer.out
  {
    hide RecordBytes;
    for i := 0 to |records|
      invariant writer.budget == old(writer.budget) - i
      invariant old(writer.out) <= writer.out == old(writer.out) + DirtreeBytes(records[..i])
    {
      DirtreeAppend(records[..i], records[i]);
      assert records[..i + 1] == records[..i] + [records[i]];
      Regrouped(old(writer.out), DirtreeBytes(records[..i]), RecordBytes(records[i]));
      ok := writer.Write(RecordBytes(records[i]));
      if !ok { return; }
    }
    assert records[..|records|] == records;
    return true;
  }

  /** One entry of the data table; contents that are not in memory are copied piece by piece. */
  method WriteData(writer: Writer, data: seq<byte>, inMemory: bool) returns (ok: bool)
    modifies writer
    ensures ok ==> writer.out == old(writer.out) + DataBytes(data)
    ensures ok <==> old(writer.budget) >= WritesOf(|data|, inMemory)
    ensures ok <==> old(writer.budget) >= if |data| == 0 then 1 else if inMemory then 2 else 1 + (|data| + 1023) / 1024
    ensures writer.budget == if ok then old(writer.budget) - WritesOf(|data|, inMemory) else 0
    ensures old(writer.out) <= writer.out
  {
    ok := writer.Write(LE(|data|, 8));
    if !ok || |data| == 0 { return; }
    if inMemory {
      ok := writer.Write(data);
    } else {
      var at := 0;
      while at < |data|
        invariant at <= |data| && (at % READ_SIZE == 0 || at == |data|)
        invariant writer.out == old(writer.out) + LE(|data|, 8) + data[..at]
        invariant ok && writer.budget == old(writer.budget) - 1 - Pieces(at)
      {
        var next := if |data| - at < READ_SIZE then |data| else at + READ_SIZE;
        assert data[..next] == data[..at] + data[at..next];
        PiecesStep(at, next, |data|);
        ok := writer.Write(data[at..next]);
        if !ok { return; }
        at := next;
      }
    }
  }

  lemma PiecesStep(at: nat, next: nat, end: nat)
    requires at % READ_SIZE == 0 && at < end && next == if end - at < READ_SIZE then end else at + READ_SIZE
    ensures Pieces(next) == Pieces(at) + 1 <= Pieces(end) && (next % READ_SIZE == 0 || next == end)
  {
  }

  /** The first accessor that does not deliver. */
  ghost predicate IsFirstMissing(accessors: seq<Accessor>, k: int)
    requires 0 <= k < |accessors|
  {
    accessors[k].content.None? && forall j :: 0 <= j < k ==> accessors[j].content.Some?
  }

  /** The writes before it are no more than the budget. */
  ghost predicate StopsAtMissing(accessors: seq<Accessor>, budget: int)
  {
    exists k :: 0 <= k < |accessors| && IsFirstMissing(accessors, k) && budget >= AllDataWrites(accessors[..k])
  }

  lemma MissingNotReached(accessors: seq<Accessor>, i: nat, budget: int)
    requires i < |accessors| && (forall j :: 0 <= j <= i ==> accessors[j].content.Some?)
    requires budget < AllDataWrites(accessors[..i + 1])
    ensures !StopsAtMissing(accessors, budget)
  {
    hide AllDataWrites;
    forall k | 0 <= k < |accessors| && IsFirstMissing(accessors, k) ensures budget < AllDataWrites(accessors[..k]) {
      assert accessors[..k][..i + 1] == accessors[..i + 1];
      DataWritesOfPrefix(accessors[..k], i + 1);
    }
  }

  method WriteDatas(writer: Writer, accessors: seq<Accessor>) returns (status: Status, ghost datas: seq<seq<byte>>)
    modifies writer
    ensures status.Success? ==> Contents(datas, accessors) && writer.out == old(writer.out) + DataTableBytes(datas)
    ensures status.Success? <==>
      (forall k :: 0 <= k < |accessors| ==> accessors[k].content.Some?) && old(writer.budget) >= AllDataWrites(accessors)
    ensures status.DataAcquireError? <==> StopsAtMissing(accessors, old(writer.budget))
    ensures status.IOError? ==> writer.budget == 0
    ensures old(writer.out) <= writer.out
  {
    hide AllDataWrites, WritesOf;
    datas := [];
    NoDataWrites();
    for i := 0 to |accessors|
      invariant Contents(datas, accessors[..i])
      invariant writer.out == old(writer.out) + DataTableBytes(datas)
      invariant forall k :: 0 <= k < i ==> accessors[k].content.Some?
      invariant writer.budget == old(writer.budget) - AllDataWrites(accessors[..i])
    {
      var data := accessors[i].content;
      if data.None? {
        assert IsFirstMissing(accessors, i);
        return DataAcquireError, datas;
      }
      DataWritesOfLonger(accessors[..i], accessors[i]);
      assert accessors[..i + 1] == accessors[..i] + [accessors[i]];
      DataWritesOfPrefix(accessors, i + 1);
      var ok := WriteData(writer, data.value, accessors[i].inMemory);
      if !ok {
        MissingNotReached(accessors, i, old(writer.budget));
        return IOError, datas;
      }
      DataTableAppend(datas, data.value);
      datas := datas + [data.value];
    }
    assert accessors[..|accessors|] == accessors;
    return Success, datas;
  }

  lemma NoDataWrites()
    ensures AllDataWrites([]) == 0
  {
  }

  lemma {:induction false} DataTableAppend(datas: seq<seq<byte>>, data: seq<byte>)
    ensures DataTableBytes(datas + [data]) == DataTableBytes(datas) + DataBytes(data)
  {
    hide DataBytes;
    if datas == [] {
      assert datas + [data] == [data] && [data][1..] == [];
    } else {
      DataTableAppend(datas[1..], data);
      assert (datas + [data])[1..] == datas[1..] + [data];
      Regrouped(DataBytes(datas[0]), DataTableBytes(datas[1..]), DataBytes(data));
    }
  }

  /** Every accessor of the tree is in the table. */
  lemma {:induction false} StandsHasAccessors(flat: Flat, e: Entry, strings: seq<seq<byte>>, accessors: seq<Accessor>)
    requires Stands(flat, e, strings, accessors)
    ensures forall a :: a in Accessors(e) ==> a in accessors
    decreases e
  {
    if e.Directory? {
      forall k | 0 <= k < |e.children| ensures forall a :: a in Accessors(e.children[k]) ==> a in accessors {
        StandsHasAccessors(flat.children[k], e.children[k], strings, accessors);
      }
    }
  }

  /** Copies the filled slots of the flattened tree. */
  method Unwrap(slots: array<Option<Record>>, ghost records: seq<Record>) returns (r: seq<Record>)
    requires slots.Length == |records| && Holds(slots[..], 0, records)
    ensures r == records
  {
    r := [];
    for i := 0 to slots.Length
      invariant r == records[..i]
    {
      assert slots[..][i] == Some(records[i]);
      r := r + [slots[i].value];
    }
  }

  /** Interns and flattens the tree. */
  method Prepare(e: Entry) returns (strings: seq<seq<byte>>, records: seq<Record>, accessors: seq<Accessor>, ghost flat: Flat)
    ensures Stands(flat, e, strings, accessors) && records == Records(flat, 0)
    ensures strings == StringsOf(e) && accessors == DatasOf(e) && NoDuplicates(strings) && NoDuplicates(accessors)
    ensures |strings| <= EntryCount(e) && |accessors| <= EntryCount(e)
    ensures (forall s :: s in strings ==> s in Names(e)) && (forall a :: a in accessors ==> a in Accessors(e))
    ensures |records| == EntryCount(e) && AllDataWrites(accessors) <= TreeDataWrites(e)
  {
    var stringTable := new InternTable<seq<byte>>();
    var dataTable := new InternTable<Accessor>();
    var tree := MakeFlattenable(e, stringTable, dataTable);
    strings, accessors, flat := stringTable.entries, dataTable.entries, tree;
    var slots := new Option<Record>[CountEntries(tree)](_ => None);
    var filled := Flatten(tree, slots, 0);
    records := Unwrap(slots, Records(tree, 0));
    StandsCount(tree, e, strings, accessors);
  }

  /** The three computed offsets are where the tables really start. */
  method MakeHeader(strings: seq<seq<byte>>, records: seq<Record>, gdtSize: nat, timestamp: nat) returns (header: Header)
    ensures header == HeaderOf(strings, records, gdtSize, timestamp)
  {
    var gstBytes := TableSize(strings);
    var dirtreeBytes := DirtreeSize(records);
    var dirtreeOffset := HEADER_SIZE + gstBytes;
    header := Header(VERSION, timestamp, HEADER_SIZE, |strings|,
                     dirtreeOffset, |records|, dirtreeOffset + dirtreeBytes, gdtSize);
  }

  lemma Concatenated(o: seq<byte>, a: seq<byte>, b: seq<byte>, c: seq<byte>, d: seq<byte>)
    ensures o + a + b + c + d == o + (a + b + c + d)
  {
  }

  /** Computes the offsets and writes the parts one after the other. */
  method WritePackage(writer: Writer, strings: seq<seq<byte>>, records: seq<Record>, accessors: seq<Accessor>, timestamp: nat)
      returns (status: Status, ghost datas: seq<seq<byte>>)
    modifies writer
    ensures old(writer.out) <= writer.out
    ensures status.Success? ==>
      Contents(datas, accessors) && writer.out == old(writer.out) + Image(strings, records, datas, timestamp)
    ensures status.Success? <==>
      && (forall k :: 0 <= k < |accessors| ==> accessors[k].content.Some?)
      && old(writer.budget) >= 1 + |strings| + |records| + AllDataWrites(accessors)
    ensures status.DataAcquireError? <==> StopsAtMissing(accessors, old(writer.budget) - 1 - |strings| - |records|)
    ensures status.IOError? ==> writer.budget == 0
  {
    datas := [];
    ghost var before := writer.out;
    var header := MakeHeader(strings, records, |accessors|, timestamp);
    var ok := writer.Write(HeaderBytes(header));
    if !ok { return IOError, datas; }
    ok := WriteStrings(writer, strings);
    if !ok { return IOError, datas; }
    ok := WriteRecords(writer, records);
    if !ok { return IOError, datas; }
    status, datas := WriteDatas(writer, accessors);
    Concatenated(before, HeaderBytes(header), StringTableBytes(strings), DirtreeBytes(records), DataTableBytes(datas));
  }

  /**
    Writes the package for `e`. On success the output has grown by a package of `e`; it succeeds if
    all accessors deliver and the callback takes enough writes, and not if an accessor does not
    deliver. The two failures are told apart.
   */
  method Compose(e: Entry, writer: Writer, timestamp: nat) returns (status: Status)
    requires Fits(e)
    modifies writer
    ensures old(writer.out) <= writer.out
    ensures status.Success? ==> IsPackageOf(writer.out[|old(writer.out)|..], e, timestamp)
    ensures status.Success? ==> forall a :: a in Accessors(e) ==> a.content.Some?
    ensures (forall a :: a in Accessors(e) ==> a.content.Some?) && old(writer.budget) >= WritesAtMost(e) ==> status.Success?
    ensures status.Success? <==>
      && (forall a :: a in Accessors(e) ==> a.content.Some?)
      && old(writer.budget) >= 1 + |StringsOf(e)| + EntryCount(e) + AllDataWrites(DatasOf(e))
    ensures status.DataAcquireError? <==> StopsAtMissing(DatasOf(e), old(writer.budget) - 1 - |StringsOf(e)| - EntryCount(e))
    ensures status.DataAcquireError? ==> exists a :: a in Accessors(e) && a.content.None?
    ensures status.IOError? ==> writer.budget == 0
  {
    var strings, records, accessors, flat := Prepare(e);
    StandsHasAccessors(flat, e, strings, accessors);
    ghost var datas;
    status, datas := WritePackage(writer, strings, records, accessors, timestamp);
    if status.Success? {
      ghost var parts := Parts(strings, flat, accessors, datas);
      assert writer.out[|old(writer.out)|..] == PartsImage(parts, timestamp);
      assert PartsOf(parts, e);
    }
  }

  // ---------- the file is determined ----------

  lemma {:induction false} StandsIsUnique(flat: Flat, other: Flat, e: Entry, strings: seq<seq<byte>>, datas: seq<Accessor>)
    requires NoDuplicates(strings) && NoDuplicates(datas)
    requires Stands(flat, e, strings, datas) && Stands(other, e, strings, datas)
    ensures flat == other
    decreases e
  {
    if e.Directory? {
      forall k | 0 <= k < |e.children| ensures flat.children[k] == other.children[k] {
        StandsIsUnique(flat.children[k], other.children[k], e.children[k], strings, datas);
      }
    }
  }

  /** The tree and the time determine the file, byte by byte. */
  lemma PackageIsUnique(image: seq<byte>, other: seq<byte>, e: Entry, timestamp: nat)
    requires IsPackageOf(image, e, timestamp) && IsPackageOf(other, e, timestamp)
    ensures image == other
  {
    hide Image, Records, AddedAll, Fits;
    var parts: Parts :| PartsOf(parts, e) && image == PartsImage(parts, timestamp);
    var parts': Parts :| PartsOf(parts', e) && other == PartsImage(parts', timestamp);
    AddedAllIsDistinct([], NamesOf(e));
    AddedAllIsDistinct([], AccessorsOf(e));
    StandsIsUnique(parts.flat, parts'.flat, e, parts.strings, parts.accessors);
    assert parts.datas == parts'.datas;
  }
}
