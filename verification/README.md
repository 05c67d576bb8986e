# Proofs about Cocoa

Cocoa is a JavaScript and 2D rendering engine in C++. This project models its self-contained
algorithms and thread protocols in Dafny 4.11 and proves what they are for. `dafny verify
dfyconfig.toml` checks everything.

| file | models | main results |
|---|---|---|
| `HuffmanTree`, `HuffmanOptimality`, `HuffmanCodec` | frequency counting, the merge loop, the depth-first code table | the tree is optimal whatever way ties are broken; the codes are prefix-free, decode uniquely, have the least total length and need at most 45 bits |
| `PackageFormat`, `Composer`, `Package` | writing and reading CRPKG resource packages, byte by byte | what is composed is read back as the same tree, exactly when it has at most 1024 levels; exactly which files are accepted |
| `Overlay`, `VirtualDisk`, `LayerDisk`, `SplitString`, `PathLookup` | merging packages into a layered disk, resolving paths on it | exactly when merging is the overlay of the trees; path resolution is lookup of the normalised path; end to end from composed trees to file contents |
| `TaskQueue`, `Platform`, `ThreadPool` | task queue, worker pool, draining, stand-alone pool | no lost wakeup, drain quiescence and termination, orderly shutdown, for all interleavings |
| `MessageQueue`, `PresentThread` | remote calls between two threads | every call is accounted for in order; exactly which runs meet the destroyed queue, and which callbacks have not run when the exit is known |
| `GProfiler` | the profiler's ring of samples on the heap | the ring, the pool and the frame numbers stay right over every run; reports are exact |
| `Levenshtein` | spelling suggestions | the table computes the length of a shortest chain of edits |
| `MoeOpcode` | the opcode generator | emitter, size table and dispatcher agree for every instruction table |
| `Journal`, `Base64`, `TileClips` | log decorators, Base64 decoding, tiling | parsing undoes printing; exactly which strings parse, and which are cut out of range; decoding undoes encoding; tiles partition the frame |

## How things are modelled

- Code that updates objects is a class or a method with loops, proved against a function of its
  input or of the old state; the theorems are then lemmas about those functions. `Bytes`, `Slices` and
  `Options` are shared vocabulary.
- A protocol between threads is a state machine whose steps are the critical sections and the
  points where a thread wakes up or goes to sleep, spurious wakeups included. A run is any sequence
  of enabled steps, so a lemma about all runs is about all interleavings. Queue steps use the same
  functions that the methods of `TaskQueue` and `MessageQueue` are proved against.
- A priority queue pops any tree of least frequency, so results hold for every way of breaking ties.
- Tasks are finite trees: a running task posts its children, each either to the workers or to the
  foreground queue. The histories in the states (what was pushed, taken, finished, issued, called
  back) exist to state order and exactly-once claims.
- Clocks, the write callback, contents of files and the generated programs' executors are
  parameters. A failing `CHECK` and a read out of bounds are outcomes of their own.

## Where the code does less than it seems to

- `FindChildrenByName` looks a child's name up in the string table of the package the *directory*
  came from, `GetName` in the child's own. The lookup is modelled as it is.
  `LookupIsRightIffCoherent` says exactly which directories it serves correctly, `MergedIsOverlay`
  and `MountedIsOverlaid` say exactly which layers merge to the overlay, and
  `DisagreeingTablesHideAFile` gives two packages that do not. A new name in an existing directory
  never does (`NewNamesGoWrong`).
- The roots of packages are merged without comparing their kinds. `LayerFits` has the exact condition;
  a later package that is a single file is ignored (`LaterFileIsIgnored`, `SecondRootIsIgnored`).
- Stripping the slashes of a path reads past the end of one that has nothing else: `ReadsPastEndIff`.
- A backslash at the end of a format string makes the decorator parser cut a view to a negative
  length: `CutsOutsideIff` says exactly for which strings.
- The reader checks where entries start, with addresses that wrap around. `Resolve` says exactly
  which contents lie in the file, `WrappingSizeIsAccepted` gives a file with one that does not.
- The composer stores the time in seconds (src/CRPKG/Protocol.cc:34-36), although the comment of the
  field says milliseconds (src/CRPKG/Protocol.h:41). The model takes the number as it is.
- The composer writes trees of any depth, the reader gives up below level 1024: `RoundTrip` has both
  halves.
- `SplitString` does not see a delimiter at index zero: `BlindExactlyAtStart`. Path resolution
  strips slashes first, so it is not affected.
- The generator's size table goes by the type of an operand even when it is a memory operand:
  `SizeTableAgreesIff` says exactly when the total is right all the same.
- The generated translators take enumerations stored in a signed type for negative numbers from half
  of its range on: `DispatchReplays`, `LargeMemberThrows`.
- The present thread destroys its queue while it works through a batch taken from it. Whatever was
  sent while the request to quit was still queued is in that batch and meets the destroyed queue:
  `UndefinedIff` says exactly when, `CallBehindQuitIsUndefined` is a run with such a call. A call sent
  after the request to quit was taken is lost: `AllCallbacksRunBeforeExit` says exactly which calls
  are, `LateCallIsLost` is a run that loses one.
- A Base64 string whose length is one more than a multiple of four is read past its end. No
  encoding has such a length.
- Tile counts and the product of the paddings are computed in `int`: `ComputeTileClips` has no
  result exactly when one of them overflows.

## Model

| member | source | states |
|---|---|---|
| HuffmanTree.CountSymbols | src/Core/HuffmanCodec.cc:70-108 | the table has, for every byte value, a leaf with its number of occurrences, and nothing for values that do not occur |
| HuffmanTree.ComputeSymbolFrequencies | src/Core/HuffmanCodec.cc:68-115 | the queue holds exactly one leaf per occurring byte, with its count; the counts add up to the input length |
| HuffmanTree.Pop | src/Core/HuffmanCodec.cc:153-156 | some tree of least frequency leaves the queue, all others stay |
| HuffmanTree.MergeKeepsInvariant | src/Core/HuffmanCodec.cc:151-166 | one round of merging keeps the leaves and the total, and any rival tree stays at least as expensive as what the queue leads to, whichever least trees are popped |
| HuffmanTree.MergeKeepsLight | src/Core/HuffmanCodec.cc:153-163 | as the first tree popped becomes the left child, left children are never heavier |
| HuffmanTree.MergeTwo | src/Core/HuffmanCodec.cc:153-165 | the round of the loop, which pops right and left and pushes their parent, with the tree popped first as its left child, keeps that invariant and shortens the queue by one |
| HuffmanTree.BuildTree | src/Core/HuffmanCodec.cc:144-171 | for every non-empty input the remaining tree has exactly the input's symbols as leaves, the input length as frequency, and the least total of frequency times depth among all trees with these leaves; at every inner node the left child is not heavier than the right one |
| HuffmanOptimality.FuseLeastTwo | src/Core/HuffmanCodec.cc:147-166 | the exchange argument: from any tree over the weights one gets a tree over the weights with the two least fused that is cheaper by at least their sum |
| HuffmanTree.DeepTreesAreHeavy | src/Core/HuffmanCodec.cc:151-166 | a merged tree of height h has at least the Fibonacci number h + 2 as frequency |
| HuffmanTree.CountersBoundHeight | src/Core/HuffmanCodec.cc:34-62 | as counters are ints, no leaf is deeper than 44, so codes fit the bit set |
| HuffmanCodec.GenerateCodeTable | src/Core/HuffmanCodec.cc:118-136 | fills exactly the entries of the symbols below the node with their paths, and gives the shared bit set back unchanged |
| HuffmanCodec.TreeOfInput | src/Core/HuffmanCodec.cc:110-171 | a tree with the input's leaves labels no two leaves alike and has a leaf for every byte of the input and no other |
| HuffmanCodec.DecodeOneCodeword | src/Core/HuffmanCodec.cc:118-136 | a code, with its trailing zero bit and whatever follows, is read back as its symbol, also in a tree of a single leaf |
| HuffmanCodec.DecodeEncode | src/Core/HuffmanCodec.cc:168-171 | concatenated codes decode to the bytes encoded, for every byte sequence over the tree's symbols |
| HuffmanCodec.EncodeIsInjective | src/Core/HuffmanCodec.cc:168-171 | different inputs have different encodings |
| HuffmanCodec.CodesArePrefixFree | src/Core/HuffmanCodec.cc:118-136 | no code is a prefix of the code of another symbol |
| HuffmanCodec.EncodedLengthIsLeast | src/Core/HuffmanCodec.cc:147-171 | the encoded input is as long as the tree's cost plus one bit per byte, and no other tree over the same symbols gives a shorter one |
| HuffmanCodec.ZerosAreLighter | src/Core/HuffmanCodec.cc:129-135 | wherever codes branch, those that go on with a zero stand for no more bytes of the input than those that go on with a one |
| HuffmanCodec.BuildCodes | src/Core/HuffmanCodec.cc:142-171 | up to the packing of bits: an optimal tree whose left children are not heavier, and table entries that are the codes of all bytes of the input, none longer than 45 bits |
| Composer.InternTable.AddOrGet | src/CRPKG/Composer.cc:50-73 | an index at which the table holds the value; the table grows by the value, at its end, exactly if it did not have it |
| Composer.MakeFlattenable | src/CRPKG/Composer.cc:119-137 | every index in the result stands for the right name or accessor; the tables have grown by exactly the new names and accessors, in the order in which the tree has them in preorder |
| Composer.StandsCount | src/CRPKG/Composer.cc:140-147 | CountEntries is the number of nodes of the composed tree |
| Composer.Flatten | src/CRPKG/Composer.cc:151-174 | fills exactly CountEntries slots from the given position on with the preorder records of the subtree, with the flag of its kind in front, and no other slot |
| Composer.PositionsIncrease | src/CRPKG/Composer.cc:166-171 | child indices increase strictly and stay within the subtree's slots |
| Composer.Prepare | src/CRPKG/Composer.cc:249-258 | the string and data tables of the tree, free of duplicates and in the order of first occurrence, and its complete record list |
| Composer.MakeHeader | src/CRPKG/Composer.cc:260-271 | the computed offsets are those at which the layout of the file puts the three tables |
| Composer.WriteData | src/CRPKG/Composer.cc:296-316 | size and contents of one data entry are written, also when the contents are copied in pieces of 1024 bytes; it succeeds if and only if the callback takes that many writes |
| Composer.WriteDatas | src/CRPKG/Composer.cc:290-317 | all data entries in order; it succeeds if and only if all accessors deliver and the callback takes all writes, and reports an accessor exactly if the writes before the first one that does not deliver are taken |
| Composer.WritePackage | src/CRPKG/Composer.cc:260-322 | on success the output has grown by exactly the file image of the tables, with the header in front; exactly when it succeeds and when it reports an accessor |
| Composer.Compose | src/CRPKG/Composer.cc:247-322 | on success all accessors delivered and the output has grown by a package of the given tree and time; exactly when it succeeds and when it reports an accessor, by the number of writes |
| Composer.PackageIsUnique | src/CRPKG/Composer.cc:247-322 | the tree and the time determine the package byte by byte |
| Package.Resolve | src/CRPKG/VirtualDisk.cc:154-184 | an accepted package has the magic bytes and version 1; whatever the bytes and wherever the file is mapped, every string of it lies within the file, and a content does if and only if its size field is at most 2^63 - 8 |
| Package.ResolvedIff | src/CRPKG/VirtualDisk.cc:154-246 | exactly which files are accepted and as what: the header is there, its fields lead to three tables whose entries follow one another and end in the file, and the records describe a tree of at most 1024 levels |
| Package.BadHeaderIsRejected | src/CRPKG/VirtualDisk.cc:157-175 | a file that is too short, or has other magic bytes or another version, is rejected |
| Package.ScannedIff | src/CRPKG/VirtualDisk.cc:198-242 | a table is accepted with these entries if and only if they follow one another, the last ends in the file and they are as many as the header says |
| Package.CorruptedIff | src/CRPKG/VirtualDisk.cc:186-196 | a table is found corrupted if and only if the cursor gets to the end of the file too early or past it |
| Package.BuildsIff | src/CRPKG/VirtualDisk.cc:45-93 | a tree is built if and only if the records describe it, node by node, and it has at most 1024 levels |
| Package.AcceptedLiesInFileIff | src/CRPKG/VirtualDisk.cc:198-242 | which entries of a table that passes the checks lie in the file: all strings and directory records, and exactly the contents with such a size field; for larger ones the end of the entry wraps around |
| Package.WrappingSizeIsAccepted | src/CRPKG/VirtualDisk.cc:215-229 | a file that the reader accepts although its only content claims 2^64 - 8 bytes |
| Package.WrappingOffsetReadsOutside | src/CRPKG/VirtualDisk.cc:202-205 | a table offset that leads past the end of the address space makes the code read below the file |
| Package.Package.BuildTable | src/CRPKG/VirtualDisk.cc:198-242 | the loop over an address that wraps around computes the scan of the table, or reports the failing bounds check or a read outside of the file |
| Package.Package.ResolveContents | src/CRPKG/VirtualDisk.cc:154-184 | the method computes `Resolve` and leaves the tables and the root in its fields |
| Package.HeaderFields | src/CRPKG/Protocol.h:34-55 | every field of a written header, the time stamp included, is read back from its packed offset |
| Package.PackageStarts | src/CRPKG/Protocol.cc:28-45 | every package starts with the magic bytes, version 1 and the time it was composed at; its strings start at byte 54 |
| Package.PackageLayout | src/CRPKG/Composer.cc:260-317 | the header of a package leads to its strings, records and contents, in this order, and tells how many they are |
| Package.RecordEntryAt | src/CRPKG/Protocol.h:77-96 | a written directory record is read back with its flags, name and children |
| Package.ScanStrings | src/CRPKG/VirtualDisk.cc:198-213 | scanning a written string table finds every string |
| Package.ScanDatas | src/CRPKG/VirtualDisk.cc:215-229 | scanning a written data table finds every content |
| Package.ScanRecords | src/CRPKG/VirtualDisk.cc:231-242 | scanning written records finds every record |
| Package.BuildFlattened | src/CRPKG/VirtualDisk.cc:45-93 | from the flattened records the reader rebuilds the subtree, or gives up exactly when it reaches below level 1024 |
| Package.ImageParts | src/CRPKG/Composer.cc:260-271 | the tables of a written file start at the offsets its header gives |
| Package.ResolveImage | src/CRPKG/VirtualDisk.cc:154-246 | reading a written file recovers all tables and the tree its records describe |
| Package.RoundTrip | src/CRPKG/VirtualDisk.cc:154-246 | wherever it is mapped, a package of a tree that fits the format is read back as the same tree of names, kinds and contents, with all tables in the file, if it has at most 1024 levels, and is rejected otherwise |
| Overlay.OverlayLaw | src/CRPKG/VirtualDisk.cc:291-325 | name by name: the lower tree where the upper has none, the upper where the lower has none, the overlay of both otherwise; sibling names stay unique |
| Overlay.OverlayKeepsOrder | src/CRPKG/VirtualDisk.cc:291-325 | the lower siblings keep their places, upper ones with new names follow in their own order |
| Overlay.OverlayPairIsProper | src/CRPKG/VirtualDisk.cc:291-325 | sibling names stay unique at every level |
| Overlay.OverlayPathLaw | src/CRPKG/VirtualDisk.cc:291-325 | for the node at any path, files and directories, of any two trees: the overlay of both layers' nodes where both have one; the upper layer's node where the lower has none; where the upper has none, nothing if an upper node replaced a lower one on the way, else the lower layer's node |
| Overlay.OverlayFileLaw | src/CRPKG/VirtualDisk.cc:291-325 | in particular for files: the upper layer's file; else nothing if an upper node replaced the lower one or a directory above it; else the lower layer's file |
| VirtualDisk.DiskNode.Build | src/CRPKG/VirtualDisk.cc:281-288 | a fresh tree of nodes with the value of the package's tree |
| VirtualDisk.DiskNode.Find | src/CRPKG/VirtualDisk.cc:327-338 | the first child whose id means the name in the directory's own string table, none, or a failing check |
| VirtualDisk.FindsIff | src/CRPKG/VirtualDisk.cc:327-338 | a child is found if and only if its id means the name and all ids before are in range and mean other names; the check fails if an id that is out of range comes first |
| VirtualDisk.DiskNode.MergeChildren | src/CRPKG/VirtualDisk.cc:291-325 | updates the tree in place to the value `Merged` gives, in fresh or owned nodes only |
| VirtualDisk.DiskNode.MergeOne | src/CRPKG/VirtualDisk.cc:293-324 | one child of the merged directory: replaced, merged into or appended |
| VirtualDisk.LookupIsRightIffCoherent | src/CRPKG/VirtualDisk.cc:327-342 | with unique own names, the lookup finds every child under its own name and nothing else if and only if the directory's string table reads every child's id as that name |
| VirtualDisk.LaidShowsOverlay | src/CRPKG/VirtualDisk.cc:291-325 | the merge as it is meant, each child put where its own name says, shows the overlay of the trees |
| VirtualDisk.MergedOneIsOverlay | src/CRPKG/VirtualDisk.cc:293-324 | merging one child succeeds, leaves every lookup right and shows the overlay if and only if, where the child is appended or replaces another, the directory's own table reads its id as its name |
| VirtualDisk.MergedIsOverlay | src/CRPKG/VirtualDisk.cc:291-325 | for layers with unique sibling names: merging a directory succeeds, leaves every lookup right and shows the overlay if and only if that holds for every child, and inside every pair of directories; then it is the merge that is meant |
| VirtualDisk.NewNamesGoWrong | src/CRPKG/VirtualDisk.cc:327-342 | a layer that brings a name into an existing directory whose package does not have that name never gives the overlay |
| LayerDisk.LayerIsOverlay | src/CRPKG/VirtualDisk.cc:378-381 | a single layer over any root: the disk shows the overlay and finds every node if and only if both roots are directories that can be merged, or both are files that show the same |
| LayerDisk.StackIsOverlay | src/CRPKG/VirtualDisk.cc:378-381 | after every layer the disk finds every node and shows the left fold of the overlay over the layers so far if and only if each layer fits in this sense over the intended result of those below it |
| LayerDisk.MountedIsOverlaid | src/CRPKG/VirtualDisk.cc:361-388 | for packages written from any entries, files or directories, with unique sibling names: after every package the mounted disk shows the first tree with the later ones laid over it in order if and only if every package fits |
| LayerDisk.DisagreeingTablesHideAFile | src/CRPKG/VirtualDisk.cc:327-342 | two files the composer writes after whose merge a file is on the disk but is not found under its name |
| LayerDisk.LaterFileIsIgnored | src/CRPKG/VirtualDisk.cc:378-381 | a second package that is a single file changes nothing, whatever the first one is |
| LayerDisk.SecondRootIsIgnored | src/CRPKG/VirtualDisk.cc:378-381 | two written packages, the files "a" and "b": the disk is the file "a", also when asked for "/.", and the overlay would be "b" |
| LayerDisk.ReadsPastEndIff | src/CRPKG/VirtualDisk.cc:400-402 | the path is read past its end exactly if it is not empty and all slashes |
| LayerDisk.NoDiskIff | src/CRPKG/VirtualDisk.cc:361-376 | there is no disk if and only if there are no files or one of them is rejected, all before it having been read |
| LayerDisk.DotOfFile | src/CRPKG/VirtualDisk.cc:350-357 | asking for the root itself: nothing for a directory, a failing check for an id out of range, else the content |
| LayerDisk.LayeredDisk.Step | src/CRPKG/VirtualDisk.cc:408-431 | one path component moves the stack of nodes as the walk on values does |
| LayerDisk.LayeredDisk.GetStorage | src/CRPKG/VirtualDisk.cc:390-434 | for every path the loop over the stack returns what the walk over the path's pieces leads to, or reports the read past the end |
| SplitString.SplitStr | src/Core/Utils.cc:197-215 | the pieces the code's search finds, and they rejoin to the string |
| SplitString.BlindExactlyAtStart | src/Core/Utils.cc:202 | the pieces differ from splitting at every delimiter exactly for strings that start with the delimiter |
| SplitString.LeadingDelimiterStays | src/Core/Utils.cc:202 | a leading delimiter stays at the front of the first piece, and nothing else changes |
| SplitString.SplitRejoins | src/Core/Utils.cc:197-215 | joining the pieces with the delimiter gives the string back |
| SplitString.PiecesAreFree | src/Core/Utils.cc:197-215 | no piece contains the delimiter |
| SplitString.SplitOfJoin | src/Core/Utils.cc:197-215 | splitting undoes joining of pieces without the delimiter |
| PathLookup.WalkIsNormal | src/CRPKG/VirtualDisk.cc:408-431 | the walk succeeds if and only if every prefix of the path, normalised, exists, and then the stack holds the nodes along the normalised path |
| PathLookup.StorageIsNormalisedLookup | src/CRPKG/VirtualDisk.cc:390-434 | for every path on a coherent disk: a content is delivered if and only if the path starts with a slash, is not all slashes, every prefix exists and it is the file at the lexically normalised path; relative paths give nothing |
| PathLookup.NormalIff | src/CRPKG/VirtualDisk.cc:408-431 | normalising fails if and only if some prefix of the names goes up more often than down |
| PathLookup.DetoursCancel | src/CRPKG/VirtualDisk.cc:408-431 | empty names, dots, and going down and up again make no difference to the normalised path |
| PathLookup.NeverAboveRoot | src/CRPKG/VirtualDisk.cc:416-422 | a path that climbs above the root anywhere delivers nothing |
| PathLookup.DotFreeLookup | src/CRPKG/VirtualDisk.cc:390-434 | for paths without dots, exactly the file reached by walking the components |
| PathLookup.DotFreeDelivers | src/CRPKG/VirtualDisk.cc:408-431 | in any tree, for paths without dots, the existence of all prefixes follows from that of the node |
| PathLookup.MountedStorage | src/CRPKG/VirtualDisk.cc:361-434 | end to end, for every path, with dots or without: on the disk mounted from written packages that fit, it yields exactly the file the overlaid trees have at the normalised path, if it starts with a slash and all its prefixes exist there |
| TaskQueue.ConcurrentTaskQueue.Push | src/Core/ConcurrentTaskQueue.h:107-114 | appends, raises the counter, notifies one consumer |
| TaskQueue.ConcurrentTaskQueue.Pop | src/Core/ConcurrentTaskQueue.h:116-125 | the oldest entry or none; the counter stays |
| TaskQueue.ConcurrentTaskQueue.PopAll | src/Core/ConcurrentTaskQueue.h:127-138 | everything in order, and the queue is empty |
| TaskQueue.ConcurrentTaskQueue.WaitPop | src/Core/ConcurrentTaskQueue.h:140-154 | the oldest entry, or none exactly if the queue is disposed |
| TaskQueue.ConcurrentTaskQueue.NotifyOfCompletion | src/Core/ConcurrentTaskQueue.h:156-164 | lowers the counter and notifies the drainers exactly when it gets to zero |
| TaskQueue.ConcurrentTaskQueue.Dispose | src/Core/ConcurrentTaskQueue.h:176-182 | marks the queue and notifies all consumers |
| Platform.PoolStep | src/Gallium/Platform.cc:73-84 | every step of any thread keeps: the counter is queued plus running; tasks are taken in the order pushed; if a worker sleeps, no more are queued than workers are awake |
| Platform.Step | src/Gallium/Platform.cc:330-384 | every step keeps all invariants: also that each task taken is running or has finished once, and that foreground tasks run in the order posted |
| Platform.RunKeepsInv | src/Gallium/Platform.cc:330-384 | the invariants hold in every reachable state of every interleaving |
| Platform.RunsWhereItShould | src/Gallium/Platform.cc:357-370 | in every reachable state the tasks queued for, taken and finished by the workers are those posted to them, and the main thread runs only the others |
| Platform.RunSends | src/Gallium/Platform.cc:485-491 | in every run each queue has got exactly the tasks sent to it: the children of running tasks in the order of their parent, and tasks from outside |
| Platform.NothingTakenAfterDispose | src/Core/ConcurrentTaskQueue.h:140-154 | once the queue is disposed no worker takes a task |
| Platform.WaitDrainWaitsForAll | src/Core/ConcurrentTaskQueue.h:166-174 | at the instant WaitDrain returns, everything pushed up to then has been taken in order and has finished exactly once, and no worker is busy |
| Platform.NoLostWakeup | src/Core/ConcurrentTaskQueue.h:140-154 | if a worker sleeps while something is queued, another worker is about to take it |
| Platform.ConservedStep | src/Gallium/Platform.cc:330-384 | finished plus pending occurrences of any task node stay the same at every step of the drain |
| Platform.DrainIsComplete | src/Gallium/Platform.cc:464-473 | when DrainTasks returns, both queues are empty, no worker is busy, and every node of every task tree has run exactly as often as it occurs: those for the workers on workers, all others on the main thread |
| Platform.PotentialStep | src/Gallium/Platform.cc:464-473 | every step of the drain other than a spurious wakeup lowers the potential, and a spurious wakeup raises it by at most one |
| Platform.NeverStuck | src/Gallium/Platform.cc:464-473 | until the drain is over, a step that lowers the potential is enabled |
| Platform.DrainTerminates | src/Gallium/Platform.cc:464-473 | the number of steps of a drain is bounded by its potential and the number of spurious wakeups |
| Platform.PerformForegroundTasks | src/Gallium/Platform.cc:330-384 | without interference, one batch runs everything that was in the foreground queue in order and leaves, in order, what it has posted to either queue |
| Platform.PostsInOrder | src/Gallium/Platform.cc:330-355 | tasks that run one after the other post in their order |
| ThreadPool.Step | src/Core/StandaloneThreadPool.cc:62-100 | every step keeps: tasks leave in the order they came; no wakeup is lost although the notification comes after the lock; each dequeued task is running or has finished once |
| ThreadPool.RunAcceptsAll | src/Core/StandaloneThreadPool.cc:90-100 | in every run the tasks accepted are those of its Enqueue steps, in order |
| ThreadPool.JoinedMeansAllDone | src/Core/StandaloneThreadPool.cc:50-60 | when the destructor has joined all workers, every task enqueued in the run has run exactly once, in the order of enqueueing, and no worker is asleep |
| ThreadPool.MeasureDecreases | src/Core/StandaloneThreadPool.cc:71-88 | once stopped, every proper step lowers the remaining work |
| ThreadPool.ShutdownNeverStuck | src/Core/StandaloneThreadPool.cc:50-60 | until all workers are joined, a proper step is enabled |
| ThreadPool.ShutdownTerminates | src/Core/StandaloneThreadPool.cc:50-88 | a stopped pool takes at most as many proper steps as its remaining work |
| MessageQueue.AsyncMessageQueue.Enqueue | src/Core/AsyncMessageQueue.h:110-121 | appends the message and leaves a wakeup pending |
| MessageQueue.AsyncMessageQueue.TakeAll | src/Core/AsyncMessageQueue.h:138-146 | all messages in order, and the queue is empty |
| PresentThread.Step | src/Glamor/PresentThread.cc:169-218 | every step of either thread keeps: calls issued are callbacks run, then responses in flight, then calls to execute, then lost ones, in order; a queue that is not empty has a wakeup pending or being served; the goodbye is the last reply |
| PresentThread.RunKeepsInv | src/Glamor/PresentThread.cc:268-318 | these hold in every reachable state |
| PresentThread.RunIsLogged | src/Glamor/PresentThread.cc:268-318 | in every run: the calls issued are those of the HostCall steps before, as long as the queue was there, in order; every request sent is executed in order, in flight or lost, and every response, signal and goodbye is heard in order or in flight; the callbacks run are those of the responses heard |
| PresentThread.CallbacksInOrder | src/Glamor/PresentThread.cc:286-307 | in every reachable state the callbacks run so far are the first calls issued, in order and once each |
| PresentThread.RunKeepsLate | src/Glamor/PresentThread.cc:172-180 | in every reachable state the late calls are those behind the first request to quit; once the queue is destroyed, those taken along in its batch and those lost |
| PresentThread.AllCallbacksRunBeforeExit | src/Glamor/PresentThread.cc:288-299 | in every run: when the exit is known, the lost calls are exactly those enqueued after Dispose while the queue was still there, in order, and all other callbacks have run; so every call has its callback if and only if there was no such call |
| PresentThread.NoneAfterExit | src/Glamor/PresentThread.cc:288-289 | in every run: once the exit is known it stays known, no callback runs and no call is issued |
| PresentThread.MainThread.OnMessageComing | src/Glamor/PresentThread.cc:286-318 | one wakeup of the main thread empties the queue and handles everything in it in order |
| PresentThread.HearAllIsResponses | src/Glamor/PresentThread.cc:286-318 | if the goodbye is the last message, the callbacks run are those of the responses, in order |
| PresentThread.UndefinedIff | src/Glamor/PresentThread.cc:172-180 | in every reachable state: messages are left to handle on the destroyed queue if and only if the queue is destroyed and something was sent while the request to quit was queued and not yet taken; what is left is exactly what was sent then, in order |
| PresentThread.UndefinedForever | src/Core/AsyncMessageQueue.h:153-157 | in every run: once that is so, the exit is never known |
| PresentThread.KnownExitHasNoFollowers | src/Glamor/PresentThread.cc:268-284 | in every run: when the exit is known, nothing was sent while the request to quit was queued and not yet taken, so lost calls were all sent after it was taken |
| PresentThread.NeverUndefined | src/Glamor/PresentThread.cc:172-180 | in particular in no reachable state if nothing was enqueued after Dispose |
| PresentThread.CallBehindQuitIsUndefined | src/Glamor/PresentThread.cc:172-180 | a run in which a call enqueued behind the request to quit is left to the destroyed queue and is not among the lost ones |
| PresentThread.LateCallIsLost | src/Glamor/PresentThread.cc:268-284 | a run in which a call enqueued after the request to quit was taken never gets its callback, and the exit is known |
| PresentThread.MeasureDecreases | src/Glamor/PresentThread.cc:213-218 | every step other than new calls, Dispose, signals and new handles lowers the remaining work |
| PresentThread.ShutdownNeverStuck | src/Glamor/PresentThread.cc:339-355 | in every reachable state after Dispose, unless messages are left for the destroyed queue, some step of the handshake is enabled until the exit is known; it is the closing of another handle only when the loop waits for nothing else |
| PresentThread.ShutdownTerminates | src/Glamor/PresentThread.cc:339-355 | without new work only boundedly many steps remain |
| GProfiler.Profiler.constructor | src/Glamor/GProfiler.cc:28-60 | the empty ring around the sentinel satisfies the invariant; a threshold above 4096 is replaced by 32 |
| GProfiler.Profiler.LinksAreInverse | src/Glamor/GProfiler.cc:70-110 | next and prev are inverse at the sentinel and at every listed sample |
| GProfiler.Profiler.PopFirstSample | src/Glamor/GProfiler.cc:102-110 | takes the oldest sample off the ring and keeps the invariant: links, consecutive frames, alive flags, pool bound |
| GProfiler.Profiler.TakeFromPool | src/Glamor/GProfiler.cc:75-88 | a free sample is recycled if there is one; otherwise, and only then, the pool grows by one |
| GProfiler.Profiler.CreateNewSample | src/Glamor/GProfiler.cc:70-100 | appends a recycled or fresh sample with the next frame number, dropping the oldest exactly when the pool is over the threshold; the pool grows exactly when nothing was dropped and nothing was free, and never exceeds max(1, threshold) + 1 |
| GProfiler.Profiler.BeginFrame | src/Glamor/GProfiler.cc:112-118 | the newest sample is the current, pending one with its begin time; all other listed samples keep their times, and the invariant holds |
| GProfiler.Profiler.MarkMilestoneInFrame | src/Glamor/GProfiler.cc:157-162 | sets one time of the current sample and nothing else |
| GProfiler.Profiler.EndFrame | src/Glamor/GProfiler.cc:120-128 | completes the current sample; all listed samples are completed then |
| GProfiler.Profiler.PurgeRecentHistorySamples | src/Glamor/GProfiler.cc:130-155 | empties the ring, and the pool down to the sentinel if asked to and there was a sample, and keeps the invariant |
| GProfiler.Profiler.LastCompleted | src/Glamor/GProfiler.cc:173-178 | the newest completed sample, or the sentinel if there is none |
| GProfiler.Profiler.MakeReport | src/Glamor/GProfiler.cc:186-210 | the difference of frame numbers plus one is the number of samples up to the last completed one, and each gets its entry |
| GProfiler.Profiler.GenerateCurrentReport | src/Glamor/GProfiler.cc:164-210 | no report exactly when no completed frame is listed; otherwise one entry for each, oldest first |
| Levenshtein.ShortcutIsSound | src/Core/CmdParser.cc:333-336 | taking the diagonal on equal characters computes the same as the minimum over all three neighbours |
| Levenshtein.FullTriangle | src/Core/CmdParser.cc:313-317 | the triangle inequality of the textbook recurrence |
| Levenshtein.ShortestChain | src/Core/CmdParser.cc:313-317 | there is a chain of as many single-character edits as the recurrence says |
| Levenshtein.ChainIsNotShorter | src/Core/CmdParser.cc:313-317 | no chain of insertions, deletions and substitutions, wherever they happen, is shorter |
| Levenshtein.DistanceIsEditDistance | src/Core/CmdParser.cc:313-317 | the recurrence is the least number of single-character edits |
| Levenshtein.DistanceIsMetric | src/Core/CmdParser.cc:318-340 | zero exactly on equal strings, symmetric, triangle inequality |
| Levenshtein.SolveLevenshteinDistance | src/Core/CmdParser.cc:318-340 | whatever the shared table held before, the result is the edit distance |
| Levenshtein.MostPossibleLongOptionSpell | src/Core/CmdParser.cc:342-359 | the first name at the least distance, or none exactly when all are further than four |
| MoeOpcode.CodegenEmitter | script/renpy-codegen-moe-opcode.py:237-278 | the generated emitter asks for two bytes plus the widths of its writes, or generation stops exactly when an operand has no width |
| MoeOpcode.Emit | script/renpy-codegen-moe-opcode.py:265-275 | an emitter writes exactly as many bytes as it asked for |
| MoeOpcode.EmittedStart | script/renpy-codegen-moe-opcode.py:266 | the first two bytes of an emitted instruction are its number, from one on, and its number of operands |
| MoeOpcode.UnknownIsSkipped | script/renpy-codegen-moe-opcode.py:367-380 | a word with the number of no instruction is skipped |
| MoeOpcode.EnumReadIff | script/renpy-codegen-moe-opcode.py:287-298 | a translator yields the member of the value's number, and throws if there is none or the value is taken for negative |
| MoeOpcode.SizeTableAgrees | script/renpy-codegen-moe-opcode.py:343-355 | in particular it is right if no memory operand has a scalar type of another size |
| MoeOpcode.SizeTableAgreesIff | script/renpy-codegen-moe-opcode.py:343-355 | the size in the table is right if and only if four times the memory operands of 8-byte scalar types equal twice those of 2-byte and three times those of 1-byte types |
| MoeOpcode.SizeTableIsWrong | script/renpy-codegen-moe-opcode.py:343-355 | an instruction that takes six bytes and has size three in the table |
| MoeOpcode.RunDispatch | script/renpy-codegen-moe-opcode.py:367-417 | the generated loop over the reader computes `Dispatch` |
| MoeOpcode.ReadOneReplays | script/renpy-codegen-moe-opcode.py:384-405 | the dispatcher reads each operand in the width it was written in, enumerations through their table and null operands as null; the translator throws if and only if the value of an enumeration in a signed type of w bytes is at least 2^(8w-1) |
| MoeOpcode.InvocationReplays | script/renpy-codegen-moe-opcode.py:367-417 | an emitted instruction is dispatched with its own operands, and reading goes on behind it, unless an operand makes a translator throw |
| MoeOpcode.BufferReplays | script/renpy-codegen-moe-opcode.py:367-417 | a sequence of them in one buffer is replayed if no operand makes a translator throw, and stops otherwise |
| MoeOpcode.DispatchReplays | script/renpy-codegen-moe-opcode.py:287-417 | for every accepted table and values that fit the width they are written in, dispatching an emitted stream replays the same instructions and operands, however it was cut between instructions into buffers, if and only if no value of an enumeration in a signed type of w bytes is 2^(8w-1) or more; otherwise it stops at a throw |
| MoeOpcode.LargeMemberThrows | script/renpy-codegen-moe-opcode.py:287-298 | member 150 of 200 in a signed byte can be emitted, and dispatching it stops |
| Journal.StepAt | src/Core/Journal.cc:121-241 | views always end at or after their start, and the index steps back only from the specifier state to the plain one |
| Journal.ParseDecorators | src/Core/Journal.cc:106-244 | the loop, which steps its index back, terminates and computes `Run` |
| Journal.BracketedDecorator | src/Core/Journal.cc:146-224 | a decorator with arguments, blanks before them or before the closing bracket, and a comma after the last one or not, is read as that decorator |
| Journal.BareDecorator | src/Core/Journal.cc:146-177 | so is one without brackets, at the end or before text that does not continue it; the character after it is read again |
| Journal.ParsePrinted | src/Core/Journal.cc:106-244 | parsing any printed list of text and decorators, up to its end or a NUL, gives the same decorators and arguments in the same places with the same text between them |
| Journal.ParsesIff | src/Core/Journal.cc:106-244 | exactly the strings that are printed in this way, up to their end or a NUL, are parsed |
| Journal.CutsOutsideIff | src/Core/Journal.cc:225-232 | a view is cut to a negative length if and only if the string ends in a backslash, parses without it, and was not accepted at a NUL inside before |
| Base64.DecodeBase64 | src/Core/ByteArrayCodecs.cc:46-85 | the loop computes `Decode` with every access in bounds; a length of one modulo four reads past the end, an empty string gives no data |
| Base64.QuadDecodes | src/Core/ByteArrayCodecs.cc:61-67 | a group of four letters of either alphabet gives back its three bytes |
| Base64.RestDecodes | src/Core/ByteArrayCodecs.cc:68-78 | an incomplete last group, padded or cut short, gives back its one or two bytes |
| Base64.DecodeUndoesEncode | src/Core/ByteArrayCodecs.cc:46-85 | for every byte string, both alphabets, with and without padding: decoding gives exactly the bytes encoded |
| Base64.DecodesTo | src/Core/ByteArrayCodecs.cc:46-85 | for every string: how many bytes it decodes to, and each byte from the two sextets it spans |
| Base64.KnownQuads | src/Core/ByteArrayCodecs.cc:26-43 | known groups of letters and the last values of both alphabets |
| Base64.OthersAreZero | src/Core/ByteArrayCodecs.cc:26-43 | characters of neither alphabet count as zero, but for the comma and the dot |
| TileClips.ComputeTileClips | src/Glamor/HWComposeTileFrameGenerator.cc:36-86 | unless a product overflows, every slot is set once, to the tile of its column and row |
| TileClips.TilesPartitionFrame | src/Glamor/HWComposeTileFrameGenerator.cc:36-86 | every pixel of the frame is in exactly one tile, and no tile has a pixel outside |
| TileClips.SlotOfPixel | src/Glamor/HWComposeTileFrameGenerator.cc:55-83 | tiles are stored row by row: a pixel is in the tile of exactly the slot that its row and column of tiles give |
| TileClips.SmallFramesDoNotOverflow | src/Glamor/HWComposeTileFrameGenerator.cc:44-79 | frames of at most 2^31 - 1 pixels do not overflow |

## Left out

- HuffmanCodec.Encode: the bit-packing loop of `HuffmanEncode` is unfinished in the source (src/Core/HuffmanCodec.cc:195); `Encode` and `Decode` are specifications, and reading the input through `Data` is reading a sequence.
- HuffmanCodec.BuildCodes: inputs longer than INT_MAX are left out, because the frequency counters are ints.
- Package.RoundTrip: is about packages the composer wrote, of trees whose sizes fit the format's fields; for other files `Resolve` says what is accepted and what lies in the file, and any unchecked read outside of the file is an outcome of its own.
- Composer.Compose: the time stamp is a parameter, and the write callback fails from some write on.
- Hash values beside strings are not modelled, as equality of the strings decides. The composer's sums are unbounded, as `Fits` keeps them in their fields; files are mapped in the lower half of the 64-bit address space.
- PresentThread.ShutdownNeverStuck: the event loop is taken to leave once the queue's handle and all other handles are closed; which handles the displays keep open, and that they close them, is not modelled.
- LayerDisk.MountedIsOverlaid: the condition is exact for all stages together; a later layer can happen to undo what an earlier one got wrong. Sibling names in the trees are unique.
- PathLookup.MountedStorage: asks for that condition, although a wrong directory without files below it does not change any content.
- LayerDisk.LayerOf: a package with a content that is not in the file makes the whole disk an outcome of its own, whether or not that content is asked for.
- Associativity of the overlay does not hold in general, when a file hides a directory between two directory layers, and is not stated.
- Platform.DrainIsComplete: delayed tasks and the timers of the delayed-task scheduler are not modelled, and neither are other isolates; pushes from outside the drain are, and the claim is for runs without them. Disposed isolates, which drop posts, are left out.
- Start-up barriers and handshakes of the threads, thread names and logging.
- `AsyncMessageQueue::WaitOnce` inside a handler, which can overtake a batch that is being handled, and the listener variant of delivery.
- PresentThread.Step: a handler runs as one step with the sending of its response, and locking the weak pointer to the queue is one step with enqueueing: a main thread that still holds the queue when the present thread resets it, so that the queue dies later on the main thread, is not covered. Profiling milestones and collectable remote objects are not modelled, and messages of unknown kind do not occur.
- GProfiler.Profiler.PurgeRecentHistorySamples: freeing samples that are listed while a frame is open is excluded, as it leaves the current sample dangling.
- Times are numbers; the lock of the profiler is not modelled, and milestones are indices below eight.
- MoeOpcode.DispatchReplays: the opcode is taken to be the low byte of a verb, as VERB_OPCODE itself is not in the repository; the two control opcodes are entries of the table, when a writer switches buffers is arbitrary, and parsing of the definition file is left out.
- MoeOpcode.ValueFits: a table may have an enumeration with more members than its stored type has values. Its generated constants beyond the width are left out, as what the writer does with them is not part of this model (the writer is not in the repository).
- MoeOpcode.ReadOneReplays: apart from enumerations, values of operands are the unsigned contents of their bytes, and their signed or floating-point reading is left to the executor. Tables with an enumeration stored in a floating-point type are not accepted, as the translator generated for it does not compile.
- Base64.DecodeBase64: the decoding table is given by ranges.
- TileClips.ComputeTileClips: an overflowing product has no result.
- The option loop of the command line parser, help output, logging output and colour tables are easy or pure input and output.
