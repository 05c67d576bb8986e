/**
  The frame profiler (src/Glamor/GProfiler.cc): a circular doubly linked list of samples around a
  sentinel, fed from a pool that recycles samples. Times are passed in as numbers.
 */
module GProfiler {
  import opened Options

  const MAX_THRESHOLD := 4096
  const DEFAULT_THRESHOLD := 32
  const HEAD_FRAME := 0
  const BEGIN_MILESTONE := 6
  const END_MILESTONE := 7
  const LAST_MILESTONE := 8

  class Sample {
    var alive: bool
    var timestamp: seq<int>
    var frame: nat
    var pending: bool
    var next: Sample?
    var prev: Sample?

    constructor ()
      ensures !alive && |timestamp| == LAST_MILESTONE + 1
    {
      alive, pending, frame := false, false, 0;
      timestamp := seq(LAST_MILESTONE + 1, _ => 0);
      next, prev := null, null;
    }
  }

  datatype Entry = Entry(frame: nat, milestones: seq<int>)

  function Max(a: nat, b: nat): nat { if a < b then b else a }

  class Profiler {
    const threshold: nat
    var cache: seq<Sample>
    var head: Sample
    var frameCounter: nat
    var current: Sample?

    /** The samples on the list, oldest first. */
    ghost var nodes: seq<Sample>

    // ---------- the invariant ----------

    /** The pool: no sample twice, the sentinel and all listed samples in it, bounded. */
    ghost predicate Pool()
      reads this
    {
      && (forall i, j :: 0 <= i < j < |cache| ==> cache[i] != cache[j])
      && (forall i, j :: 0 <= i < j < |nodes| ==> nodes[i] != nodes[j])
      && head in cache && head !in nodes
      && (forall k :: 0 <= k < |nodes| ==> nodes[k] in cache)
      && (current != null ==> current in cache && current != head)
      && |cache| <= Max(1, threshold) + 1
    }

    /** Forwards and backwards around the sentinel. */
    ghost predicate Linked()
      reads this`head, this`nodes, head, nodes
    {
      && head.next == (if nodes == [] then head else nodes[0])
      && head.prev == (if nodes == [] then head else nodes[|nodes| - 1])
      && (forall k {:trigger nodes[k].next} :: 0 <= k < |nodes| ==> nodes[k].next == if k + 1 < |nodes| then nodes[k + 1] else head)
      && (forall k {:trigger nodes[k].prev} :: 0 <= k < |nodes| ==> nodes[k].prev == if k > 0 then nodes[k - 1] else head)
    }

    /** Listed frames are the most recent ones, consecutively; only the newest can be pending. */
    ghost predicate Frames()
      reads this`head, this`nodes, this`current, this`frameCounter, head, nodes, current
    {
      && |nodes| < frameCounter
      && (forall k :: 0 <= k < |nodes| ==> nodes[k].frame == frameCounter - |nodes| + k)
      && !head.pending && head.frame == HEAD_FRAME
      && (forall k :: 0 <= k < |nodes| ==> (nodes[k].pending <==> nodes[k] == current))
      && (forall k :: 0 <= k < |nodes| ==> |nodes[k].timestamp| == LAST_MILESTONE + 1)
      && (current != null ==> |current.timestamp| == LAST_MILESTONE + 1)
      && (current != null && current in nodes ==> current == nodes[|nodes| - 1])
    }

    /** Exactly the sentinel and the listed samples are alive. */
    ghost predicate Lives()
      reads this`head, this`nodes, this`cache, cache
    {
      && (forall k :: 0 <= k < |cache| ==> (cache[k].alive <==> cache[k] == head || cache[k] in nodes))
      && (forall k :: 0 <= k < |cache| ==> |cache[k].timestamp| == LAST_MILESTONE + 1)
    }

    ghost predicate Valid()
      reads this, cache, head, nodes, current
    {
      Pool() && Linked() && Frames() && Lives()
    }

    /** The samples whose frame has ended. */
    ghost function Completed(): seq<Sample>
      reads this
    {
      if nodes != [] && nodes[|nodes| - 1] == current then nodes[..|nodes| - 1] else nodes
    }

    /** Following a link and the opposite one leads back. */
    lemma LinksAreInverse(s: Sample)
      requires Valid() && (s == head || s in nodes)
      ensures s.next != null && s.next.prev == s
      ensures s.prev != null && s.prev.next == s
    {
      if s != head {
        var k :| 0 <= k < |nodes| && nodes[k] == s;
        assert nodes[k].next == if k + 1 < |nodes| then nodes[k + 1] else head;
        assert nodes[k].prev == if k > 0 then nodes[k - 1] else head;
      }
    }

    /** A threshold out of range is replaced by the default. */
    constructor (threshold: nat)
      ensures Valid() && nodes == [] && current == null && frameCounter == 1
      ensures this.threshold == if threshold > 4096 then 32 else threshold
      ensures fresh(cache)
    {
      this.threshold := if threshold > MAX_THRESHOLD then DEFAULT_THRESHOLD else threshold;
      var sentinel := new Sample();
      head, frameCounter, current := sentinel, 1, null;
      nodes, cache := [], [sentinel];
      new;
      head.alive, head.pending, head.frame := true, false, HEAD_FRAME;
      head.next, head.prev := head, head;
    }

    // ---------- taking the oldest sample off the list ----------

    /** How the heap changes when the oldest sample is taken off. */
    twostate predicate Unlinked()
      reads this, cache, head, nodes
    {
      && old(nodes) != [] && nodes == old(nodes)[1..]
      && cache == old(cache) && head == old(head) && current == old(current) && frameCounter == old(frameCounter)
      && (forall s :: s in cache ==>
          && s.frame == old(s.frame) && s.timestamp == old(s.timestamp) && s.pending == old(s.pending)
          && s.alive == (old(s.alive) && s != old(nodes)[0]))
      && (forall s :: s in cache && s != head ==> s.next == old(s.next))
      && (forall s :: s in cache && s != (if nodes == [] then head else nodes[0]) ==> s.prev == old(s.prev))
      && head.next == (if nodes == [] then head else nodes[0])
      && (if nodes == [] then head else nodes[0]).prev == head
    }

    twostate lemma UnlinkedKeepsLinks()
      requires old(Valid()) && Unlinked() && current == null
      ensures Pool() && Linked()
    {
      assert forall k :: 0 <= k < |nodes| ==> nodes[k] == old(nodes)[k + 1];
    }

    twostate lemma UnlinkedKeepsFrames()
      requires old(Valid()) && Unlinked() && current == null
      ensures Frames() && Lives()
    {
      assert forall k :: 0 <= k < |nodes| ==> nodes[k] == old(nodes)[k + 1];
    }

    lemma ListIsEmptyIff()
      requires Valid()
      ensures head in cache && (head.next == head <==> nodes == [])
      ensures nodes != [] ==>
        && head.next == nodes[0] && nodes[0] in cache && nodes[0] != head
        && nodes[0].next == if |nodes| > 1 then nodes[1] else head
      ensures |nodes| > 1 ==> nodes[1] in cache && nodes[1] != nodes[0] && nodes[1] != head
    {
    }

    method PopFirstSample()
      requires Valid() && current == null
      modifies this`nodes, cache
      ensures Valid()
      ensures nodes == if old(nodes) == [] then [] else old(nodes)[1..]
      ensures forall s :: s in cache ==> s.frame == old(s.frame) && s.timestamp == old(s.timestamp)
    {
      hide Pool, Linked, Frames, Lives;
      ListIsEmptyIff();
      if head.next == head { return; }
      var first := head.next;
      var second := first.next;
      first.alive := false;
      second.prev := head;
      head.next := second;
      nodes := nodes[1..];
      assert Unlinked();
      UnlinkedKeepsLinks();
      UnlinkedKeepsFrames();
    }

    // ---------- a new sample ----------

    /** The first sample of the pool that is not in use. */
    method FindFree() returns (free: Sample?)
      requires Valid()
      ensures free != null ==> free in cache && !free.alive
      ensures free == null ==> forall s :: s in cache ==> s.alive
    {
      for i := 0 to |cache|
        invariant forall k :: 0 <= k < i ==> cache[k].alive
      {
        if !cache[i].alive { return cache[i]; }
      }
      return null;
    }

    /** The predecessor of the newest sample. */
    ghost function Before(): (s: Sample)
      reads this
      ensures s == head || s in nodes
    {
      if |nodes| < 2 then head else nodes[|nodes| - 2]
    }

    /** How the heap changes when a sample is appended before the sentinel. */
    twostate predicate Appended(new added: Sample)
      reads this, cache, head, nodes, added
    {
      && nodes == old(nodes) + [added] && head == old(head) && current == old(current)
      && frameCounter == old(frameCounter) + 1
      && (cache == old(cache) || cache == old(cache) + [added])
      && (forall s :: s in cache && s != added ==>
          s.frame == old(s.frame) && s.timestamp == old(s.timestamp) && s.pending == old(s.pending) && s.alive == old(s.alive))
      && (forall s :: s in cache && s != added && s != Before() ==> s.next == old(s.next))
      && (forall s :: s in cache && s != added && s != head ==> s.prev == old(s.prev))
      && added.next == head && head.prev == added && Before().next == added && added.prev == Before()
      && added.alive && added.pending && added.frame == old(frameCounter) && |added.timestamp| == LAST_MILESTONE + 1
    }

    /** Everything but that the newest pending sample is the current one. */
    ghost predicate AlmostValid(added: Sample)
      reads this, cache, head, nodes, current
    {
      && Pool() && Linked() && Lives() && current == null
      && |nodes| < frameCounter && nodes != [] && nodes[|nodes| - 1] == added
      && (forall k :: 0 <= k < |nodes| ==> nodes[k].frame == frameCounter - |nodes| + k)
      && !head.pending && head.frame == HEAD_FRAME
      && (forall k :: 0 <= k < |nodes| ==> (nodes[k].pending <==> nodes[k] == added))
    }

    twostate lemma AppendedKeepsLinks(new added: Sample)
      requires old(Valid()) && Appended(added) && current == null
      requires added in cache && added !in old(nodes) && added != head
      requires cache != old(cache) ==> added !in old(cache) && |cache| <= Max(1, threshold) + 1
      ensures Pool() && Linked()
    {
    }

    twostate lemma AppendedKeepsRest(new added: Sample)
      requires old(Valid()) && Appended(added) && current == null && Pool() && Linked()
      requires added in cache && added !in old(nodes) && added != head
      ensures AlmostValid(added)
    {
    }

    ghost function Newest(): (s: Sample)
      reads this
    {
      if nodes == [] then head else nodes[|nodes| - 1]
    }

    lemma TailIsLinked()
      requires Valid()
      ensures head.prev == Newest() && Newest().next == head
      ensures head in cache && Newest() in cache && (Newest() == head <==> nodes == [])
      ensures forall s :: s in cache ==> |s.timestamp| == LAST_MILESTONE + 1
    {
    }

    /** Links a sample of the pool that is not on the list before the sentinel. */
    method Append(added: Sample)
      requires Valid() && current == null && added != head && added !in nodes && added in cache
      modifies this`nodes, this`frameCounter, cache
      ensures AlmostValid(added)
      ensures nodes == old(nodes) + [added] && frameCounter == old(frameCounter) + 1
      ensures forall s :: s in cache && s != added ==> s.timestamp == old(s.timestamp)
    {
      hide Pool, Linked, Frames, Lives, AlmostValid;
      TailIsLinked();
      ghost var tail := Newest();
      added.next := head;
      added.prev := head.prev;
      head.prev.next := added;
      head.prev := added;
      added.pending, added.alive, added.frame := true, true, frameCounter;
      frameCounter := frameCounter + 1;
      nodes := nodes + [added];
      assert Before() == tail;
      assert Appended(added);
      AppendedKeepsLinks(added);
      AppendedKeepsRest(added);
    }

    /** Some sample of the pool is not in use. */
    ghost predicate HasFree()
      reads this`cache, cache
    {
      exists s :: s in cache && !s.alive
    }

    /** A fresh sample joins the pool. */
    method Grow(added: Sample)
      requires Valid() && added !in cache && !added.alive && |added.timestamp| == LAST_MILESTONE + 1
      requires |cache| < Max(1, threshold) + 1
      modifies this`cache
      ensures Valid() && cache == old(cache) + [added]
    {
      hide Linked, Frames;
      cache := cache + [added];
    }

    /** Recycles a sample if the pool has one to spare; otherwise, and only then, the pool grows. */
    method TakeFromPool() returns (free: Sample)
      requires Valid() && current == null && (|cache| <= threshold || nodes == [] || HasFree())
      modifies this`cache
      ensures Valid() && free in cache && !free.alive
      ensures if old(HasFree()) then cache == old(cache) else cache == old(cache) + [free] && fresh(free)
    {
      var found := FindFree();
      if found != null { return found; }
      AllInUse();
      free := new Sample();
      Grow(free);
    }

    /** A full pool gives up its oldest sample, which is then free. */
    method MakeRoom()
      requires Valid() && current == null
      modifies this`nodes, cache
      ensures Valid()
      ensures nodes == if |cache| > threshold && old(nodes) != [] then old(nodes)[1..] else old(nodes)
      ensures |cache| <= threshold || nodes == [] || HasFree()
      ensures HasFree() <==> old(HasFree()) || (|cache| > threshold && old(nodes) != [])
      ensures forall s :: s in cache ==> s.timestamp == old(s.timestamp)
    {
      if |cache| > threshold {
        ghost var listed := nodes;
        PopFirstSample();
        assert listed != [] ==> listed[0] in cache && !listed[0].alive;
      }
    }

    method CreateNewSample() returns (added: Sample)
      requires Valid() && current == null
      modifies this`nodes, this`cache, this`frameCounter, cache
      ensures AlmostValid(added) && added in cache
      ensures frameCounter == old(frameCounter) + 1
      ensures if old(HasFree()) || (|old(cache)| > threshold && old(nodes) != []) then cache == old(cache)
        else cache == old(cache) + [added] && fresh(added)
      ensures nodes == (if |old(cache)| > threshold && old(nodes) != [] then old(nodes)[1..] else old(nodes)) + [added]
      ensures forall s :: s in nodes && s != added ==> s in old(nodes) && s.timestamp == old(s.timestamp)
    {
      MakeRoom();
      added := AppendFromPool();
    }

    method AppendFromPool() returns (added: Sample)
      requires Valid() && current == null && (|cache| <= threshold || nodes == [] || HasFree())
      modifies this`nodes, this`cache, this`frameCounter, cache
      ensures AlmostValid(added) && added in cache
      ensures frameCounter == old(frameCounter) + 1 && nodes == old(nodes) + [added]
      ensures forall s :: s in nodes && s != added ==> s in old(nodes) && s.timestamp == old(s.timestamp)
      ensures if old(HasFree()) then cache == old(cache) else cache == old(cache) + [added] && fresh(added)
    {
      hide Pool, Linked, Frames, Lives, AlmostValid;
      added := TakeFromPool();
      NotInUse(added);
      Append(added);
    }

    lemma NotInUse(free: Sample)
      requires Valid() && free in cache && !free.alive
      ensures free !in nodes && free != head && forall s :: s in nodes ==> s in cache
    {
    }

    /** If all samples are in use although one was to be taken off, the pool has room for one more. */
    lemma AllInUse()
      requires Valid() && (forall s :: s in cache ==> s.alive)
      requires |cache| <= threshold || nodes == []
      ensures |cache| < Max(1, threshold) + 1
    {
      if |cache| > 1 { assert cache[0] != cache[1]; }
    }

    // ---------- frames ----------

    /** Starts a frame: the list gains the newest sample and loses the oldest if the pool is full. */
    method BeginFrame(now: int)
      requires Valid() && current == null
      modifies this`nodes, this`cache, this`frameCounter, this`current, cache
      ensures Valid() && current != null && frameCounter == old(frameCounter) + 1
      ensures nodes == (if |old(cache)| > threshold && old(nodes) != [] then old(nodes)[1..] else old(nodes)) + [current]
      ensures forall s :: s in nodes && s != current ==> s in old(nodes) && s.timestamp == old(s.timestamp)
      ensures current.frame == old(frameCounter) && current.pending && current.timestamp[6] == now
      ensures if old(HasFree()) || (|old(cache)| > threshold && old(nodes) != []) then cache == old(cache)
        else cache == old(cache) + [current] && fresh(current)
    {
      hide Linked, Lives;
      var added := CreateNewSample();
      Open(added);
      MarkMilestoneInFrame(BEGIN_MILESTONE, now);
    }

    lemma ListedAreInPool(added: Sample)
      requires AlmostValid(added)
      ensures added in cache && added != head
      ensures forall s :: s in nodes ==> |s.timestamp| == LAST_MILESTONE + 1
    {
    }

    method Open(added: Sample)
      requires AlmostValid(added)
      modifies this`current
      ensures Valid() && current == added
    {
      hide Linked, Lives;
      ListedAreInPool(added);
      current := added;
    }

    method MarkMilestoneInFrame(milestone: nat, now: int)
      requires Valid() && current != null && milestone < LAST_MILESTONE
      modifies current`timestamp
      ensures Valid() && current.timestamp == old(current.timestamp)[milestone := now]
    {
      hide Pool;
      current.timestamp := current.timestamp[milestone := now];
    }

    /** Ends the frame; its sample, if it is still listed, is completed. */
    method EndFrame(now: int)
      requires Valid() && current != null
      modifies this`current, current`timestamp, current`pending
      ensures Valid() && current == null && nodes == old(nodes)
      ensures Completed() == nodes
      ensures !old(current).pending && old(current).timestamp == old(current.timestamp)[7 := now]
    {
      MarkMilestoneInFrame(END_MILESTONE, now);
      Close();
    }

    /** How the heap changes when the current sample is completed. */
    twostate predicate Closed()
      reads this, cache, head, nodes
    {
      && old(current) != null && current == null && nodes == old(nodes) && cache == old(cache) && head == old(head)
      && frameCounter == old(frameCounter)
      && forall s :: s in cache ==>
        && s.alive == old(s.alive) && s.frame == old(s.frame) && s.timestamp == old(s.timestamp)
        && s.next == old(s.next) && s.prev == old(s.prev) && s.pending == (old(s.pending) && s != old(current))
    }

    twostate lemma ClosedKeepsLinks()
      requires old(Valid()) && Closed()
      ensures Pool() && Linked()
    {
      hide Lives, Frames;
    }

    twostate lemma ClosedKeepsLives()
      requires old(Valid()) && Closed()
      ensures Lives()
    {
      hide Linked, Frames;
    }

    twostate lemma ClosedKeepsFrames()
      requires old(Valid()) && Closed()
      ensures Frames()
    {
    }

    method Close()
      requires Valid() && current != null
      modifies this`current, current`pending
      ensures Valid() && current == null && !old(current).pending
    {
      hide Pool, Linked, Frames, Lives;
      current.pending := false;
      current := null;
      assert Closed();
      ClosedKeepsLinks();
      ClosedKeepsLives();
      ClosedKeepsFrames();
    }

    /**
      Forgets all samples, and drops them from the pool if asked to. Freeing samples during an open
      frame would leave the current sample dangling and is excluded.
     */
    method PurgeRecentHistorySamples(freeMemory: bool)
      requires Valid() && (freeMemory && nodes != [] ==> current == null)
      modifies this`nodes, this`cache, cache
      ensures Valid() && nodes == []
      ensures cache == if freeMemory && old(nodes) != [] then [head] else old(cache)
    {
      hide Pool, Linked, Frames, Lives;
      ListIsEmptyIff();
      if head.next == head { return; }
      head.next := head;
      head.prev := head;
      nodes := [];
      ReleaseAll();
      EmptiedIsValid();
      if freeMemory { DropPool(); }
    }

    method DropPool()
      requires Valid() && nodes == [] && current == null
      modifies this`cache
      ensures Valid() && cache == [head]
    {
      cache := [head];
    }

    /** How the heap changes when all samples are forgotten. */
    twostate predicate Emptied()
      reads this, cache
    {
      && nodes == [] && cache == old(cache) && head == old(head) && current == old(current) && frameCounter == old(frameCounter)
      && head in cache && head.next == head && head.prev == head
      && forall s :: s in cache ==>
        && s.frame == old(s.frame) && s.timestamp == old(s.timestamp) && s.pending == old(s.pending)
        && s.alive == (s == head && old(s.alive))
    }

    twostate lemma EmptiedIsValid()
      requires old(Valid()) && Emptied()
      ensures Valid()
    {
    }

    /** No sample but the sentinel stays in use. */
    method ReleaseAll()
      modifies cache`alive
      ensures forall k :: 0 <= k < |cache| ==> cache[k].alive == (cache[k] == head && old(cache[k].alive))
    {
      for i := 0 to |cache|
        invariant forall k :: 0 <= k < |cache| ==>
          cache[k].alive == if cache[k] != head && cache[k] in cache[..i] then false else old(cache[k].alive)
      {
        if cache[i] != head {
          cache[i].alive := false;
        }
      }
    }

    // ---------- the report ----------

    /** What the report says about a sample. */
    ghost function EntryOf(s: Sample): Entry
      requires |s.timestamp| == LAST_MILESTONE + 1
      reads s
    {
      Entry(s.frame, s.timestamp[..LAST_MILESTONE])
    }

    /** The last sample that is not pending: at most one step back from the tail. */
    method LastCompleted() returns (last: Sample, ghost at: int)
      requires Valid() && nodes != []
      ensures at == |Completed()| - 1
      ensures last == if at >= 0 then nodes[at] else head
      ensures last == if Completed() == [] then head else Completed()[|Completed()| - 1]
    {
      at := |nodes| - 1;
      last := head.prev;
      while last.pending
        invariant -1 <= at < |nodes|
        invariant last == if at >= 0 then nodes[at] else head
        invariant at >= |Completed()| - 1
        decreases at
      {
        assert last == nodes[at] == current;
        assert last.prev == if at > 0 then nodes[at - 1] else head;
        last := last.prev;
        at := at - 1;
      }
    }

    /**
      The report has one entry for each completed frame, oldest first. The number of entries is
      computed from the frame numbers of the first and the last of them.
     */
    method GenerateCurrentReport() returns (report: Option<array<Entry>>)
      requires Valid()
      ensures report.None? <==> Completed() == []
      ensures report.Some? ==> fresh(report.value) && report.value.Length == |Completed()|
      ensures report.Some? ==> forall k :: 0 <= k < |Completed()| ==>
        && |Completed()[k].timestamp| == 9 && report.value[k].frame == Completed()[k].frame
        && report.value[k].milestones == Completed()[k].timestamp[..8]
    {
      if head.next == head { return None; }
      var lvs, last := LastCompleted();
      if lvs == head { return None; }
      var entries := MakeReport(lvs, last);
      return Some(entries);
    }

    /** The number of entries is right because listed frames are consecutive. */
    method MakeReport(lvs: Sample, ghost last: nat) returns (entries: array<Entry>)
      requires Valid() && last < |nodes| && lvs == nodes[last]
      ensures fresh(entries) && entries.Length == last + 1
      ensures forall k :: 0 <= k <= last ==> |nodes[k].timestamp| == LAST_MILESTONE + 1 && entries[k] == EntryOf(nodes[k])
    {
      assert head.next == nodes[0];
      var count := lvs.frame - head.next.frame + 1;
      entries := new Entry[count](_ => Entry(0, []));
      CopyEntries(entries, lvs, last);
    }

    /** Walks from the first sample to `lvs`; every entry is in bounds and is written once. */
    method CopyEntries(entries: array<Entry>, lvs: Sample, ghost last: nat)
      requires Valid() && last < |nodes| && lvs == nodes[last] && entries.Length == last + 1
      modifies entries
      ensures forall k :: 0 <= k <= last ==> |nodes[k].timestamp| == LAST_MILESTONE + 1 && entries[k] == EntryOf(nodes[k])
    {
      assert head.next == nodes[0];
      var cur := head.next;
      var i := 0;
      while true
        invariant 0 <= i <= last && cur == nodes[i]
        invariant forall k :: 0 <= k < i ==> entries[k] == EntryOf(nodes[k])
        decreases last - i
      {
        entries[i] := Entry(cur.frame, cur.timestamp[..LAST_MILESTONE]);
        if cur == lvs { break; }
        assert cur.next == nodes[i + 1];
        cur := cur.next;
        i := i + 1;
      }
    }
  }
}
