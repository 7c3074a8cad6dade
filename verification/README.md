# Verified cores of a collection of student programs

This project models the algorithms and protocols at the heart of a collection of student programs in C and C++ and
proves what they are for. Each part stands alone.

- **Wave solver** (`WaveSchedule`, `WaveSolver`, `WaveCorrectness`, `WaveEquation`). Threads advance bands of rows
  several time steps at once and synchronize through progress counters. All interleavings end, without race or
  deadlock, with what plain sweeps compute. The first inner row is updated only on the last step of each batch, and
  the reference sweep does the same.
- **Hand-over-hand locked list** (`LockedList`, `LockedListCorrectness`, `LockedListSwaps`). Counters walk a list while
  swappers exchange neighbours. Passes are exact, a swap does what its coin says whatever happens around it, the list is
  always a permutation, and waiting always goes forward in a list whose order changes, so nothing deadlocks.
- **Huffman archiver** (`BitStream`, `HuffmanQueue`, `HuffmanTree`, `HuffmanOptimality`, `HuffmanArchiver`,
  `PrefixCodes`, `ArchiveFormat`). The two-queue construction is optimal among all prefix codes, and compressing and
  decompressing gives back the file.
- **Kruskal's algorithm** (`SpanningTrees`, `Kruskal`) over a disjoint-set union that links in random directions: the
  tree found is shortest.
- **Dijkstra's algorithm** (`PriorityQueue`, `WeightedGraph`, `ShortestPaths`, `LongDistances`, `Dijkstra`) over a heap
  that keeps outdated nodes: distances and path are exact.
- **Topological sort** (`VertexLists`, `TopologicalSort`) by depth-first search over a bit matrix: an order exactly
  when there is no cycle.
- **Red-black tree** (`RedBlackShape`, `RedBlackColors`, `RedBlackOrder`, `RedBlackTree`). Insertion into linked nodes,
  repaired upwards along a stack of ancestors. A tree in memory is a subtree and the frames around it.
- **B-tree** (`BTreeShape`, `BTreeMemory`, `BTreeInsertion`). Insertion that splits full nodes on the way down.
- **Futex mutex** (`FutexMutex`) and the adders that use it, with weak compare-exchange and spurious wake-ups: mutual
  exclusion, no lost wake-up, an exact sum, and termination under every schedule.
- **Bounded queues** (`LinkedQueue`, `CondvarQueue`, `SemaphoreQueue`) for any number of producers and consumers, down
  to every read and write of the links and the counter: first in, first out, no access to freed memory, and nobody
  sleeps who could be served.
- **Coroutines** (`CoroutineRing`, `Coroutines`). The scheduler of the ring terminates, frees every stack once and
  never the one in use, and an active coroutine runs again in time.
- **Substring search** (`SubstringSearch`) over a stream read into a sliding window: all occurrences, wherever the
  window is refilled.
- **Hash map** (`AvlTree`, `AvlRemoval`, `HashMap`, `HashMapGrowth`, `HashCodes`) with AVL trees as buckets: a finite map
  across resizes, exactly as long as the hash tells keys of one length apart, which it does for keys that differ in one
  byte. Removals can lose the balance of a tree; exactly when they do is
  proved, for every balanced tree.

`Options`, `MachineWords`, `ExitCodes`, `Extremes`, `Powers`, `Sorting`, `SortedSequences`, `Sums` and `VertexLists`
are small modules shared by several parts.

Objects that the programs update in place are classes with `modifies` clauses, loops are loops, and threads are state
machines whose steps are single accesses to shared memory, lock operations or loop tests; in the wave solver a step
computes one row. Integers are unbounded except where the
width matters, which is then written out. Allocation never fails. The random numbers, the clock and the scheduler of
the programs are arbitrary choices here. `dafny verify dfyconfig.toml` checks the whole project.

Where the programs do not do what their comments or names say, the model follows the code: the path of Dijkstra's
algorithm is stored from the start although it is printed backwards, a put of a key that is already bound replaces the
data but returns false, and a lookup that meets a key of the same length and hash takes it for its own.

## Model

| member | source | states |
|---|---|---|
| `WaveCorrectness.TiledRunEqualsSweep` | Epsmim/src/WaveEquation.cpp:222-345 | Every finished run, under every interleaving, leaves in both buffers exactly what plain sweeps, one time step after the other, leave there; every (row, step) pair of those sweeps was computed exactly once and no other pair at all. |
| `WaveCorrectness.NeighboursOneStepApart` | Epsmim/src/WaveEquation.cpp:222-304 | In every reachable state two neighbouring rows have been advanced by numbers of steps that differ by at most one. |
| `WaveCorrectness.NoRace` | Epsmim/src/WaveEquation.cpp:222-304 | In no reachable state does one thread write a row of a buffer that another thread is about to read or write. |
| `WaveCorrectness.LeastProgressSteps` | Epsmim/src/WaveEquation.cpp:306-345 | While work is left, a thread whose progress counter is least can always step. |
| `WaveCorrectness.NoDeadlock` | Epsmim/src/WaveEquation.cpp:306-345 | No reachable state of an unfinished run is stuck in the spin loops. |
| `WaveCorrectness.BoundaryPhasesOrdered` | Epsmim/src/WaveEquation.cpp:311-331 | A thread initializes a batch only after the section before has closed all earlier batches, and finalizes it only after the section behind has opened it. |
| `WaveCorrectness.EveryRunEnds` | Epsmim/src/WaveEquation.cpp:306-395 | No run is longer than a bound fixed by the grid, and a run that cannot go on has taken exactly that many steps and finished every thread. |
| `WaveCorrectness.RunInv` | Epsmim/src/WaveEquation.cpp:306-345 | Every step of every run keeps the invariant that ties buffers, versions, log and counters to the sweeps. |
| `WaveCorrectness.NextInv` | Epsmim/src/WaveEquation.cpp:222-345 | One step of any thread that may step keeps that invariant. |
| `WaveCorrectness.ReadyAround` | Epsmim/src/WaveEquation.cpp:222-304 | When a row is computed for a step, the row itself has gone through exactly the steps before it and its neighbours through as many or one more, as the kernel needs. |
| `WaveCorrectness.ComputesSweptRow` | Epsmim/src/WaveEquation.cpp:141-220 | From rows that are at the right versions, the kernel produces the row that the sweep produces. |
| `WaveCorrectness.FinishedBuffers` | Epsmim/src/WaveEquation.cpp:306-345 | When all threads have finished, the buffers are those of the sweeps. |
| `WaveCorrectness.FinishedLog` | Epsmim/src/WaveEquation.cpp:306-345 | When all threads have finished, the log holds each updated (row, step) pair once. |
| `WaveCorrectness.StepTakesWork` | Epsmim/src/WaveEquation.cpp:306-345 | Every step takes one from the work that is left. |
| `WaveSchedule.Geometry` | Epsmim/src/WaveEquation.cpp:373-380 | The first section starts at row 1, each next one where the one before ends, and all end within the inner rows; only the last one stops a batch less one row beyond its end. |
| `WaveSchedule.Owner` | Epsmim/src/WaveEquation.cpp:373-380 | Every inner row lies in the section of a thread. |
| `WaveSchedule.OwnerUnique` | Epsmim/src/WaveEquation.cpp:373-380 | No row lies in the sections of two threads. |
| `WaveSchedule.AdvanceInStep` | Epsmim/src/WaveEquation.cpp:306-345 | A step that the handshake allows keeps neighbouring threads in step with each other. |
| `WaveSchedule.VersionAfterOwn` | Epsmim/src/WaveEquation.cpp:222-304 | A step of a thread advances the version of the row it targets by one and of no other row of its section. |
| `WaveSchedule.VersionAfterNext` | Epsmim/src/WaveEquation.cpp:222-304 | A step of the next thread advances, of the rows of a section, only those shared at its end, by one where it targets them. |
| `WaveSolver.ComputedIsUpdated` | Epsmim/src/WaveEquation.cpp:222-249 | A row is computed exactly on the steps the guard on the first row lets through. |
| `WaveSolver.SweepIsOneStep` | Epsmim/src/WaveEquation.cpp:141-249 | A sweep reads one buffer and writes the other by the parity of the step, and the rows it updates, 2 to ny - 2 always and row 1 at the last step of a batch, become the kernel's value for the row above, the row, the row below and the old row. |
| `WaveSolver.SweepsAreHistory` | Epsmim/src/WaveEquation.cpp:306-395 | Any number of sweeps is that many such time steps. |
| `WaveEquation.Solver.constructor` | Epsmim/src/WaveEquation.cpp:31-72 | Both buffers start blank and all progress counters equal. |
| `WaveEquation.Solver.ComputeRow` | Epsmim/src/WaveEquation.cpp:141-220 | In place: on even steps the row of buf2 becomes the kernel's value for the rows above, at and below it in buf1 and its own old value, on odd steps the other way round; nothing else changes. |
| `WaveEquation.Solver.RunIteration` | Epsmim/src/WaveEquation.cpp:222-345 | One pass of a thread's innermost loop on the shared arrays is one step of the state machine. |
| `WaveEquation.Solver.RunThreads` | Epsmim/src/WaveEquation.cpp:362-395 | Whatever thread is picked at each step, the parallel region terminates with both buffers as after plain sweeps and with all counters equal again. |
| `WaveEquation.Solver.SkipNIterations` | Epsmim/src/WaveEquation.cpp:362-395 | Skipping a number of iterations is that many sweeps from the current buffers and the current global step. The buffers go through a history of that many time steps, numbered on from the steps before: each turns every updated row into the kernel's value for the rows above, at and below it and its old value, and leaves all else. |
| `WaveEquation.Solver.NextIteration` | Epsmim/src/WaveEquation.cpp:347-350 | One call is one batch of sweeps. It is a history of as many time steps as the batch is long. |
| `LockedListCorrectness.ListIsPermutation` | OS-Labs/10.1-linkedlist/main.c:93-220 | With any number of counters and swappers in any interleaving, whenever no swapper is between its writes, following the links from the storage gives a permutation of the original nodes. |
| `LockedListCorrectness.ListIsUnique` | OS-Labs/10.1-linkedlist/storage.h:12-38 | The links determine the list. |
| `LockedListCorrectness.CounterPassIsExact` | OS-Labs/10.1-linkedlist/main.c:93-124 | A counter that completes a pass has visited every node exactly once and made one comparison less than there are nodes, however many swaps went on meanwhile. |
| `LockedListCorrectness.ComparesNeighbours` | OS-Labs/10.1-linkedlist/main.c:97-118 | What a counter compares is a node and its successor at that very moment. |
| `LockedListCorrectness.LockOrder` | OS-Labs/10.1-linkedlist/main.c:93-220 | A thread that waits for a lock waits for one that comes later in the current list than every lock it holds, although swaps reorder the list. |
| `LockedListCorrectness.NoDeadlock` | OS-Labs/10.1-linkedlist/main.c:93-220 | In every reachable state some thread can take its next step, with exclusive and with shared read locks. |
| `LockedListCorrectness.SomeoneCanStep` | OS-Labs/10.1-linkedlist/main.c:93-220 | From any blocked thread the chain of lock holders climbs the list and ends at a thread that can step. |
| `LockedListCorrectness.NoRace` | OS-Labs/10.1-linkedlist/main.c:93-220 | No link is written by one thread while another reads or writes it. |
| `LockedListCorrectness.NextInv` | OS-Labs/10.1-linkedlist/main.c:93-220 | Every step of every thread keeps list, locks, positions and visited nodes consistent. |
| `LockedListCorrectness.RunInv` | OS-Labs/10.1-linkedlist/main.c:93-220 | Every run keeps list, locks, positions and visited nodes consistent and only permutes the nodes. |
| `LockedListCorrectness.LocksKept` | OS-Labs/10.1-linkedlist/storage.h:12-38 | A lock is held by exactly the threads whose program counters say so, across acquiring and releasing. |
| `LockedListCorrectness.SwapIsPrivate` | OS-Labs/10.1-linkedlist/main.c:156-217 | None of the three cells of a swap under way is held by another thread. |
| `LockedListCorrectness.ExchangeIsPermutation` | OS-Labs/10.1-linkedlist/main.c:206-212 | A list with two neighbours exchanged has the same cells. |
| `LockedListSwaps.SwapHappens` | OS-Labs/10.1-linkedlist/main.c:173-209 | When a swapper's coin says swap, it can make its next two steps at any time and whatever the other threads do; then the cell before leads to the second neighbour, that one to the first, and the first to what was behind them. |
| `LockedListSwaps.NoSwapHappens` | OS-Labs/10.1-linkedlist/main.c:173-212 | When the coin says no, the three links stay as they are as long as the swapper holds the cells. |
| `LockedListSwaps.SwapperPassReachesEnd` | OS-Labs/10.1-linkedlist/main.c:185-218 | A pass of a swapper ends at the last cell or the one before it. |
| `HuffmanTree.BuildHuffmanTree` | C-Labs/Huffman_archiver/src/HuffmanTree.c:67-101 | The tree has every byte that occurs as exactly one leaf, and no binary tree over the same leaves has a smaller sum of frequency times depth. At every inner node the left subtree weighs at least as much as the right one. |
| `HuffmanTree.PopMinimum` | C-Labs/Huffman_archiver/src/HuffmanTree.c:50-65 | The node that leaves is a least one of both queues, and both stay sorted. |
| `HuffmanTree.MergeStep` | C-Labs/Huffman_archiver/src/HuffmanTree.c:81-94 | One round keeps both queues sorted, the composite one above all that was merged, and the cost spent so far within the optimum. |
| `HuffmanTree.MergeAll` | C-Labs/Huffman_archiver/src/HuffmanTree.c:79-96 | The loop over both linked queues ends with one tree over the bytes of all leaves, whose cost no tree over the same frequencies undercuts. |
| `HuffmanTree.PrepareLeafNodesQueue` | C-Labs/Huffman_archiver/src/HuffmanTree.c:26-48 | The leaf queue holds one leaf per byte that occurs, by ascending frequency. |
| `HuffmanTree.SortByFrequency` | C-Labs/Huffman_archiver/src/HuffmanTree.c:20-39 | The library sort, as any sorted permutation. |
| `HuffmanTree.OptimalAtEnd` | C-Labs/Huffman_archiver/src/HuffmanTree.c:67-101 | When one node is left, what was spent is its cost and bounds the cost of every other tree over the same leaves. |
| `HuffmanQueue.Queue.constructor` | C-Labs/Huffman_archiver/src/Queue.c:7-13 | An empty list without front and back, which the queue invariant allows. |
| `HuffmanQueue.Queue.Push` | C-Labs/Huffman_archiver/src/Queue.c:15-40 | The linked nodes from the front to the back then hold the old values in order and the new one behind them, in a node of its own. |
| `HuffmanQueue.Queue.Pop` | C-Labs/Huffman_archiver/src/Queue.c:42-56 | The value at the front comes out, the other values stay in order, and no node is changed; the back goes with the last node. |
| `HuffmanQueue.Queue.GetFront` | C-Labs/Huffman_archiver/src/Queue.c:58-62 | The front node holds the value that came first of those still there. |
| `HuffmanQueue.Queue.IsEmpty` | C-Labs/Huffman_archiver/src/Queue.c:68-71 | There is no front node exactly when nothing is queued. |
| `HuffmanOptimality.JoinLeast` | C-Labs/Huffman_archiver/src/HuffmanTree.c:81-94 | From any tree one can pass to a tree with two least weights joined into one leaf whose cost is smaller by at least their sum: the exchange argument. |
| `HuffmanOptimality.SwapToDeeper` | C-Labs/Huffman_archiver/src/HuffmanTree.c:81-94 | Giving the deeper of two leaves the smaller weight does not raise the cost. |
| `HuffmanOptimality.DeepestSiblings` | C-Labs/Huffman_archiver/src/HuffmanTree.c:81-94 | Every tree with two leaves has two deepest leaves that are siblings. |
| `HuffmanOptimality.DominatesAfterJoin` | C-Labs/Huffman_archiver/src/HuffmanTree.c:81-94 | If every tree over the original weights costs at least what is spent more than some tree over the current ones, that holds again after two least weights are joined. |
| `HuffmanOptimality.CostIsPathLength` | C-Labs/Huffman_archiver/src/HuffmanTree.c:67-101 | The sum of the weights of all merged nodes is the sum of weight times depth over the leaves. |
| `HuffmanArchiver.CompressAndDecompress` | C-Labs/Huffman_archiver/src/Compress.c:9-45 | Decompressing what the compressor writes gives back the file, for every file of one to 2^32 - 1 bytes. |
| `HuffmanArchiver.RoundTrip` | C-Labs/Huffman_archiver/src/Decompress.c:5-23 | Every archive with the compressor's layout, padding included, decompresses to the file it was made from. |
| `HuffmanArchiver.Compress` | C-Labs/Huffman_archiver/src/Compress.c:9-45 | The archive decompresses to the file; it is the byte count, the tree, the codes of all bytes and less than a byte of zeros, and the tree is optimal for the file. In it the heavier subtree is always on the left. |
| `HuffmanArchiver.CountBytes` | C-Labs/Huffman_archiver/src/Compress.c:18-24 | The table counts every byte of the file, with the number of different ones and of all. |
| `HuffmanArchiver.WriteArchive` | C-Labs/Huffman_archiver/src/Compress.c:26-45 | The layout of the archive, for any tree whose leaves are the bytes of the file. |
| `HuffmanArchiver.EmitCodes` | C-Labs/Huffman_archiver/src/Compress.c:37-40 | The codes of all bytes, in order, follow what was written before. |
| `HuffmanArchiver.Decompress` | C-Labs/Huffman_archiver/src/Decompress.c:5-23 | The result is the decoding of the archive's bits, also when they end early. |
| `HuffmanArchiver.EncodedLength` | C-Labs/Huffman_archiver/src/HuffmanTree.c:174-187 | The codes of a file take the sum of frequency times depth bits. |
| `PrefixCodes.ShortestPrefixCode` | C-Labs/Huffman_archiver/src/HuffmanTree.c:67-101 | The codes of the tree are a prefix code, and no table at all whose codes for the bytes of the file are a prefix code encodes the file in fewer bits. |
| `PrefixCodes.TreeOfCodes` | C-Labs/Huffman_archiver/src/HuffmanTree.c:67-101 | For every prefix code there is a tree over the same bytes whose weighted path length is no more than frequency times code length. |
| `PrefixCodes.CodesArePrefixCode` | C-Labs/Huffman_archiver/src/HuffmanTree.c:143-149 | No code that leads to a leaf of the tree is the beginning of a code that leads to another leaf. |
| `PrefixCodes.EncodedCost` | C-Labs/Huffman_archiver/src/Compress.c:37-40 | Whatever the codes are, the encoded file takes the sum over all bytes of frequency times code length bits. |
| `HuffmanArchiver.SerializeHuffmanTree` | C-Labs/Huffman_archiver/src/HuffmanTree.c:104-115 | The bits of the tree in pre-order follow what was written before. |
| `HuffmanArchiver.DeserializeHuffmanTree` | C-Labs/Huffman_archiver/src/HuffmanTree.c:117-129 | The tree read is the parse of the unread bits, which are consumed. |
| `HuffmanArchiver.ParseSerialized` | C-Labs/Huffman_archiver/src/HuffmanTree.c:104-129 | Parsing a written tree gives the tree, whatever follows it. |
| `HuffmanArchiver.MakeCodeTable` | C-Labs/Huffman_archiver/src/HuffmanTree.c:143-149 | The entry of every leaf leads from the root to it. |
| `HuffmanArchiver.MakeCodeTableImpl` | C-Labs/Huffman_archiver/src/HuffmanTree.c:151-165 | Below a node, the entry of every leaf is the path to the node and from there to the leaf; other entries stay. |
| `HuffmanArchiver.EmitCode` | C-Labs/Huffman_archiver/src/HuffmanTree.c:174-187 | The bits of the byte's code follow what was written before. |
| `HuffmanArchiver.DecodeByte` | C-Labs/Huffman_archiver/src/HuffmanTree.c:192-209 | The byte at the end of the walk that the unread bits describe, or nothing at the end of the file. |
| `HuffmanArchiver.WalkCode` | C-Labs/Huffman_archiver/src/HuffmanTree.c:174-209 | Walking the code of a byte comes to that byte and leaves what follows: codes are prefix-free. |
| `HuffmanArchiver.DecodeEncoded` | C-Labs/Huffman_archiver/src/Decompress.c:13-19 | Decoding the codes of a file gives the file, whatever follows. |
| `HuffmanArchiver.HeaderRoundTrip` | C-Labs/Huffman_archiver/src/Compress.c:26-27 | The four bytes of the count read back as the count. |
| `HuffmanArchiver.LittleEndianAt` | C-Labs/Huffman_archiver/src/Compress.c:9-45 | Byte k of the header is the count divided by 256 to the k, modulo 256. |
| `ArchiveFormat.ArchiveOfAab` | C-Labs/Huffman_archiver/src/Compress.c:9-45 | The archive of the file aab is C0 00 00 00 61 A8 C4, whatever the sort does: header, bits of a byte, tree and codes stand where the program puts them. |
| `ArchiveFormat.CutArchive` | C-Labs/Huffman_archiver/src/Decompress.c:5-23 | An archive cut off anywhere behind its tree decompresses to a beginning of its file. |
| `BitStream.Stream.constructor` | C-Labs/Huffman_archiver/src/BitStream.c:7-13 | All bits of the file are still to be read, and what is written will come behind them. |
| `BitStream.Stream.WriteBit` | C-Labs/Huffman_archiver/src/BitStream.c:29-37 | The bit follows all bits written so far, across byte borders. |
| `BitStream.Stream.Flush` | C-Labs/Huffman_archiver/src/BitStream.c:15-22 | The file holds all bits written, filled up with zeros to a whole byte. |
| `BitStream.Stream.WriteByte` | C-Labs/Huffman_archiver/src/BitStream.c:39-43 | The eight bits of the byte follow what was written before: the k-th of them is the byte divided by 2 to the k, modulo 2. |
| `BitStream.BitAt` | C-Labs/Huffman_archiver/src/BitStream.c:39-43 | Bit k of a number is the number divided by 2 to the k, modulo 2. |
| `BitStream.FileBitAt` | C-Labs/Huffman_archiver/src/BitStream.c:29-60 | Bit i of a file is bit 7 - i mod 8 of its byte number i div 8: files are written and read from the high bit of each byte down. |
| `BitStream.Stream.WriteByteArray` | C-Labs/Huffman_archiver/src/BitStream.c:45-49 | The bytes follow what was written before. |
| `BitStream.Stream.ReadBit` | C-Labs/Huffman_archiver/src/BitStream.c:51-60 | The first unread bit is taken, or nothing at the end. |
| `BitStream.Stream.ReadByte` | C-Labs/Huffman_archiver/src/BitStream.c:62-72 | The next eight bits as a byte, or nothing when there are fewer. |
| `BitStream.Stream.ReadByteArray` | C-Labs/Huffman_archiver/src/BitStream.c:74-78 | The next bytes; what is missing at the end reads as the low byte of the end-of-file value. |
| `BitStream.TakeWrittenBytes` | C-Labs/Huffman_archiver/src/BitStream.c:39-78 | Bytes written and read back are the same bytes. |
| `Kruskal.FindSpanningTree` | C-Labs/Minimal_spanning_tree_Kruskal_algo/src/spanning_tree.c:14-48 | Null arguments are refused; otherwise success exactly when the graph is connected, and then the first n - 1 edges form a spanning tree whose length is at most that of every spanning tree, whatever the random links. |
| `Kruskal.ChooseEdges` | C-Labs/Minimal_spanning_tree_Kruskal_algo/src/spanning_tree.c:27-40 | The edges chosen connect nothing twice, and every edge passed joins what chosen edges no longer than it connect already. |
| `Kruskal.JoinEnds` | C-Labs/Minimal_spanning_tree_Kruskal_algo/src/spanning_tree.c:27-40 | The edge is taken exactly when it joins two parts, which become one. |
| `Kruskal.LoopResult` | C-Labs/Minimal_spanning_tree_Kruskal_algo/src/spanning_tree.c:27-47 | The loop has n - 1 edges exactly when the graph is connected, and they are greedy. |
| `Kruskal.SortByLength` | C-Labs/Minimal_spanning_tree_Kruskal_algo/src/spanning_tree.c:8-25 | The library sort, as any sorted permutation. |
| `Kruskal.Dsu.constructor` | C-Labs/Minimal_spanning_tree_Kruskal_algo/src/dsu.c:7-25 | Every element is its own representative. |
| `Kruskal.Dsu.Find` | C-Labs/Minimal_spanning_tree_Kruskal_algo/src/dsu.c:37-46 | The representative of the element's class, or -1 out of range. |
| `Kruskal.Dsu.Unite` | C-Labs/Minimal_spanning_tree_Kruskal_algo/src/dsu.c:54-65 | Exactly the classes of the two elements become one, whichever root is linked below the other. |
| `Kruskal.Graph.constructor` | C-Labs/Minimal_spanning_tree_Kruskal_algo/src/graph.c:10-27 | A graph without edges. |
| `Kruskal.Graph.AddEdge` | C-Labs/Minimal_spanning_tree_Kruskal_algo/src/graph.c:38-51 | The edge is appended unless an end is out of range. |
| `SpanningTrees.GreedyIsShortest` | C-Labs/Minimal_spanning_tree_Kruskal_algo/src/spanning_tree.c:14-48 | A greedy choice of n - 1 edges is at most as long as any spanning tree. |
| `SpanningTrees.GreedyHasMost` | C-Labs/Minimal_spanning_tree_Kruskal_algo/src/spanning_tree.c:14-48 | Of the edges up to any length, no spanning tree has more than the greedy choice. |
| `SpanningTrees.ConnectedIsSame` | C-Labs/Minimal_spanning_tree_Kruskal_algo/src/spanning_tree.c:27-40 | Merging labels along edges gives two vertices one label exactly when a walk connects them. |
| `SpanningTrees.LengthIsLayers` | C-Labs/Minimal_spanning_tree_Kruskal_algo/src/spanning_tree.c:14-48 | The length of a set of edges is the sum over all bounds of the number of edges beyond the bound. |
| `Dijkstra.FindShortestPath` | C-Labs/Shortest_path_Dijkstra_algo/src/shortest_path.c:68-140 | A null graph is refused; otherwise every distance is that of a shortest walk, or the maximal value exactly when there is no walk; no path is reported exactly when there is none; overflow is reported for every graph with a finish beyond an int and more than two vertices at or beyond one, only if more than two edges lead a walk that far, and exactly when the finish lies beyond an int and more than two improvements of the run did; on success the path is a shortest walk from start to finish without repeated vertices. |
| `LongDistances.LongIsBounded` | C-Labs/Shortest_path_Dijkstra_algo/src/shortest_path.c:101-131 | However the search goes, the counter of long improvements is at least the number of vertices with a long distance and at most the number of edges that lead a long walk on. |
| `Dijkstra.ConvertToPath` | C-Labs/Shortest_path_Dijkstra_algo/src/shortest_path.c:58-65 | The path array holds the walk that the parents spell, from the start. |
| `Dijkstra.Conclude` | C-Labs/Shortest_path_Dijkstra_algo/src/shortest_path.c:126-133 | No path, overflow or success, from the distance of the finish and the number of long improvements; the path on success. |
| `Dijkstra.ProcessQueue` | C-Labs/Shortest_path_Dijkstra_algo/src/shortest_path.c:102-124 | When the queue is empty every distance is final; the loop terminates although outdated nodes stay in the queue. |
| `Dijkstra.ProcessNode` | C-Labs/Shortest_path_Dijkstra_algo/src/shortest_path.c:102-124 | A nearest node is dropped if its vertex was visited before; otherwise its vertex is visited and its edges are relaxed. |
| `Dijkstra.RelaxEdges` | C-Labs/Shortest_path_Dijkstra_algo/src/shortest_path.c:112-123 | All edges of the vertex visited last are relaxed, in one run of the search. |
| `Dijkstra.RelaxEdge` | C-Labs/Shortest_path_Dijkstra_algo/src/shortest_path.c:114-122 | A shorter walk replaces distance and parent and is queued; a longer one, or one to a visited vertex, changes nothing. |
| `Dijkstra.Prepare` | C-Labs/Shortest_path_Dijkstra_algo/src/shortest_path.c:80-100 | All distances but that of the start are maximal, nothing is visited, and the start alone is queued. |
| `Dijkstra.ShortestPathData.constructor` | C-Labs/Shortest_path_Dijkstra_algo/src/shortest_path.c:11-26 | Arrays of the right length. |
| `ShortestPaths.DistancesFound` | C-Labs/Shortest_path_Dijkstra_algo/src/shortest_path.c:102-126 | In every reachable state with an empty queue, each distance is that of a shortest walk. |
| `ShortestPaths.WalksAreLonger` | C-Labs/Shortest_path_Dijkstra_algo/src/shortest_path.c:102-126 | No walk from the start is shorter than the distance found for its end, and its end has one. |
| `ShortestPaths.PathLeads` | C-Labs/Shortest_path_Dijkstra_algo/src/shortest_path.c:58-65 | The parents of a visited vertex spell a walk from the start whose length is its distance. |
| `ShortestPaths.PathIsSimple` | C-Labs/Shortest_path_Dijkstra_algo/src/shortest_path.c:58-65 | That walk comes to no vertex twice, so it fits its array. |
| `ShortestPaths.NearestIsCurrent` | C-Labs/Shortest_path_Dijkstra_algo/src/shortest_path.c:102-110 | A nearest queued node of an unvisited vertex carries the current distance, whatever outdated nodes are queued. |
| `ShortestPaths.VisitedInv` | C-Labs/Shortest_path_Dijkstra_algo/src/shortest_path.c:106-112 | Visiting the vertex of a nearest node keeps the invariant of the search. |
| `ShortestPaths.ShortenedInv` | C-Labs/Shortest_path_Dijkstra_algo/src/shortest_path.c:114-122 | Replacing distance and parent by a shorter walk over the vertex visited last, and queueing it, keeps the invariant of the search. |
| `ShortestPaths.DroppedInv` | C-Labs/Shortest_path_Dijkstra_algo/src/shortest_path.c:106-108 | Dropping a node whose vertex was visited before keeps the invariant of the search. |
| `ShortestPaths.ReachableInv` | C-Labs/Shortest_path_Dijkstra_algo/src/shortest_path.c:68-126 | Every reachable state of the search has the invariant. |
| `ShortestPaths.NoWrap` | C-Labs/Shortest_path_Dijkstra_algo/src/shortest_path.c:114 | Sums of distances and lengths never wrap around in 64 bits. |
| `PriorityQueue.Queue.constructor` | C-Labs/Shortest_path_Dijkstra_algo/src/priority_queue.c:10-34 | An empty queue with the given room. |
| `PriorityQueue.Queue.Add` | C-Labs/Shortest_path_Dijkstra_algo/src/priority_queue.c:66-95 | The queue gains the node and stays a heap; the array grows by half when it is full. |
| `PriorityQueue.Queue.Grow` | C-Labs/Shortest_path_Dijkstra_algo/src/priority_queue.c:80-88 | The larger array has room and begins with the old contents. |
| `PriorityQueue.Queue.Pop` | C-Labs/Shortest_path_Dijkstra_algo/src/priority_queue.c:117-137 | A nearest node leaves the queue, which stays a heap; an empty queue gives an error. |
| `PriorityQueue.Queue.HeapifyBottomUp` | C-Labs/Shortest_path_Dijkstra_algo/src/priority_queue.c:54-64 | A heap broken only above one node becomes a heap of the same nodes. |
| `PriorityQueue.Queue.HeapifyUpBottom` | C-Labs/Shortest_path_Dijkstra_algo/src/priority_queue.c:98-115 | A heap broken only below one node becomes a heap of the same nodes. |
| `PriorityQueue.Queue.LargestOfFamily` | C-Labs/Shortest_path_Dijkstra_algo/src/priority_queue.c:98-109 | A nearest one of a node and its children, the node itself if none is nearer. |
| `PriorityQueue.NodeCompare` | C-Labs/Shortest_path_Dijkstra_algo/src/shortest_path.c:43-56 | The comparison ranks nearer nodes higher. |
| `PriorityQueue.RootIsLeast` | C-Labs/Shortest_path_Dijkstra_algo/src/priority_queue.c:117-130 | The root of a heap is a nearest node. |
| `WeightedGraph.Graph.constructor` | C-Labs/Shortest_path_Dijkstra_algo/src/graph.c:36-56 | A graph without edges. |
| `WeightedGraph.Graph.AddEdge` | C-Labs/Shortest_path_Dijkstra_algo/src/graph.c:70-80 | Both directions get the length, also of an older edge; the greatest 32-bit length erases the edge; a vertex out of range is refused. |
| `WeightedGraph.Graph.HasEdge` | C-Labs/Shortest_path_Dijkstra_algo/src/graph.c:82-87 | True exactly for the edges of the graph. |
| `WeightedGraph.EdgeIterator.NextEdge` | C-Labs/Shortest_path_Dijkstra_algo/src/graph.c:102-118 | The next neighbour in the matrix with the length of its edge, none skipped, or the end. |
| `TopologicalSort.TopSort` | C-Labs/Topological_sort/src/main.c:48-65 | True exactly for a graph without cycles, and then the result lists every vertex once with every edge pointing forward. |
| `TopologicalSort.TopSortImpl` | C-Labs/Topological_sort/src/main.c:67-87 | Numbers the vertex behind nothing it leads to, keeps all numbers given, or finds a cycle; the white vertices bound the recursion. |
| `TopologicalSort.SearchSuccessors` | C-Labs/Topological_sort/src/main.c:76-82 | Either all successors get numbers or a cycle is found. |
| `TopologicalSort.Number` | C-Labs/Topological_sort/src/main.c:84-85 | The vertex gets the highest number left, before all that it leads to. |
| `TopologicalSort.CycleClosed` | C-Labs/Topological_sort/src/main.c:68-70 | An edge back into the search path closes a cycle. |
| `TopologicalSort.OrderedIsAcyclic` | C-Labs/Topological_sort/src/main.c:48-65 | A graph with a topological order has no cycle. |
| `TopologicalSort.RoomLeft` | C-Labs/Topological_sort/src/main.c:67-87 | Vertices on the path and numbered ones leave room for a white one, so numbers and recursion do not run out. |
| `TopologicalSort.Graph.constructor` | C-Labs/Topological_sort/src/Graph.c:8-22 | A bit matrix of zeros. |
| `TopologicalSort.Graph.AddEdge` | C-Labs/Topological_sort/src/Graph.c:33-39 | Setting one bit adds one edge and changes no other. |
| `TopologicalSort.Graph.HasEdge` | C-Labs/Topological_sort/src/Graph.c:41-47 | The bit is set exactly for the edges of the graph. |
| `TopologicalSort.NextEdge` | C-Labs/Topological_sort/src/Graph.c:61-70 | The next successor, none skipped, or -1. |
| `FutexMutex.MutualExclusion` | OS-Labs/10.2-mylock/mymutex.c:29-53 | In every reachable state at most one thread is between its lock and its unlock, and then the word is locked. |
| `FutexMutex.NoLostWakeUp` | OS-Labs/10.2-mylock/mymutex.c:29-53 | While a thread sleeps on the futex, the word is locked, a wake is pending, or an awake thread is trying. |
| `FutexMutex.NoDeadlock` | OS-Labs/10.2-mylock/mymutex.c:29-53 | While a thread has not ended, some thread has a step that does not depend on a spurious event. |
| `FutexMutex.SumIsExact` | OS-Labs/10.2-mylock/tst-locks.c:28-39 | When all threads have ended, the counter is the sum of all counts in 64 bits, although increments are a load and a store. |
| `FutexMutex.EveryRunEnds` | OS-Labs/10.2-mylock/tst-locks.c:72-88 | Under every schedule a run of n threads with one count each ends within a bound; each spurious failure or wake-up adds at most three steps. |
| `FutexMutex.NextExclusive` | OS-Labs/10.2-mylock/mymutex.c:29-53 | Every step keeps the word locked exactly while one thread is in its critical section. |
| `FutexMutex.NextWakeComing` | OS-Labs/10.2-mylock/mymutex.c:29-53 | Every step keeps somebody responsible for the sleepers. |
| `FutexMutex.NextCounted` | OS-Labs/10.2-mylock/tst-locks.c:33-35 | Every step keeps the counter equal to the increments that were stored. |
| `FutexMutex.NextTakesEffort` | OS-Labs/10.2-mylock/mymutex.c:31-42 | Every step that is not spurious takes some of a measure that an unlock cannot refill. |
| `FutexMutex.RunInv` | OS-Labs/10.2-mylock/tst-locks.c:28-39 | After every run the word, the sleepers, the counter and the loop counts are consistent. |
| `LinkedQueue.AccessOk` | OS-Labs/10-sync/queue-condvar.c:90-134 | Every single read and write of an add or a get, in its order, keeps what holds of links, last node, counter, allocated nodes and values at its place in the call, with the last link dangling after a get that empties the list and addresses used again. |
| `LinkedQueue.LastAccessOk` | OS-Labs/10-sync/queue-condvar.c:106-134 | With the write of the counter the links spell the values given and not returned, in order, and the counter is their number. |
| `LinkedQueue.AccessIsSafe` | OS-Labs/10-sync/queue-condvar.c:90-134 | No call reads, writes or frees a node that is not allocated, so none is freed twice, and no field is read before it was written. |
| `LinkedQueue.SpelledOnce` | OS-Labs/10-sync/queue-condvar.c:96-104 | The links determine the list. |
| `LinkedQueue.AccessListOk` | OS-Labs/10-sync/queue-condvar.c:90-134 | An access by the only call that is at the list keeps the list in order for all threads. |
| `LinkedQueue.ReturnedInOrder` | OS-Labs/10-sync/queue-condvar.c:90-134 | Wherever calls stand, the values returned are the first of the values given. |
| `CondvarQueue.FirstInFirstOut` | OS-Labs/10-sync/queue-condvar.c:79-141 | In every reachable state, also between the accesses of a call, the values returned are the first of the values given, in their order, and the counter lies between zero and the capacity. |
| `CondvarQueue.GetsReturnWhatAddsGave` | OS-Labs/10-sync/queue-condvar.c:79-141 | Over every run: the values that consumers hold when their calls are over are the first of the values that producers were called with, each once, in the order in which their calls started on the list; both are read off the calls of the run and its states, not off the record. |
| `CondvarQueue.LinksSpellTheQueue` | OS-Labs/10-sync/queue-condvar.c:99-134 | While no call is between its accesses, following the links from the first node spells exactly the values given and not returned yet, in their order; the counter is their number, the last link leads to the last node if there is one, and no other node is allocated. |
| `CondvarQueue.ChangesAreSafe` | OS-Labs/10-sync/queue-condvar.c:79-141 | Whoever accesses the list holds the mutex alone, finds a place to fill or an item to take, and touches only allocated nodes and written fields. |
| `CondvarQueue.NoLostWakeUp` | OS-Labs/10-sync/queue-condvar.c:79-141 | No consumer sleeps while items outnumber the consumers woken or about to be, and no producer while free places do. |
| `CondvarQueue.SleepsOnlyWithoutRoom` | OS-Labs/10-sync/queue-condvar.c:79-141 | When all calls in progress are stuck, every one of them sleeps, producers at a full queue and consumers at an empty one. |
| `CondvarQueue.NoDeadlock` | OS-Labs/10-sync/queue-condvar.c:79-141 | A producer and a consumer in a call are never stuck together. |
| `CondvarQueue.NextLockOk` | OS-Labs/10-sync/queue-condvar.c:82-109 | Every step keeps exactly the holder of the mutex between its lock and its unlock; waiting gives the mutex up. |
| `CondvarQueue.NextInOrder` | OS-Labs/10-sync/queue-condvar.c:84-134 | Every step keeps the list as the one accessing call has to have left it, and at rest without one; that accesses of two calls do not mix is due to the mutex. |
| `CondvarQueue.NextCountOk` | OS-Labs/10-sync/queue-condvar.c:84-134 | Every step keeps the counter between zero and the capacity, and what a passed test has established. |
| `LinkedQueue.CountAfter` | OS-Labs/10-sync/queue-condvar.c:106-134 | The write of the counter, which was read in a step of its own, moves it by exactly one. |
| `CondvarQueue.NextWakeOk` | OS-Labs/10-sync/queue-condvar.c:86-136 | Every step keeps wake-ups from being lost, with spurious ones allowed. |
| `CondvarQueue.RunInv` | OS-Labs/10-sync/queue-condvar.c:79-141 | After every run the mutex, the list, the counter and the wake-ups of both sides are in order. |
| `SemaphoreQueue.PermitsAreConserved` | OS-Labs/10-sync/queue-semaphore.c:79-135 | Both semaphores and the calls under way always add up to the capacity. |
| `SemaphoreQueue.FirstInFirstOut` | OS-Labs/10-sync/queue-semaphore.c:79-135 | In every reachable state the values returned are the first of the values given, in their order, and the counter lies between zero and the capacity, as the assertions that read it without the mutex demand. |
| `SemaphoreQueue.GetsReturnWhatAddsGave` | OS-Labs/10-sync/queue-semaphore.c:79-135 | Over every run: the values that consumers hold when their calls are over are the first of the values that producers were called with, each once, in the order in which their calls started on the list. |
| `SemaphoreQueue.LinksSpellTheQueue` | OS-Labs/10-sync/queue-semaphore.c:93-128 | While no call is between its accesses, following the links from the first node spells exactly the values given and not returned yet, in their order; the counter is their number, the last link leads to the last node if there is one, and no other node is allocated. |
| `SemaphoreQueue.ChangesAreSafe` | OS-Labs/10-sync/queue-semaphore.c:84-135 | Whoever accesses the list holds the mutex alone, finds a place to fill or an item to take without a test, and touches only allocated nodes and written fields. |
| `SemaphoreQueue.WaitsOnlyWithoutRoom` | OS-Labs/10-sync/queue-semaphore.c:79-135 | When all calls in progress are stuck, producers wait at a full queue and consumers at an empty one. |
| `SemaphoreQueue.NoDeadlock` | OS-Labs/10-sync/queue-semaphore.c:79-135 | A producer and a consumer in a call are never stuck together. |
| `SemaphoreQueue.NextConserved` | OS-Labs/10-sync/queue-semaphore.c:84-131 | Every step keeps free places and items accounted for, in the semaphore, taken or owed. |
| `SemaphoreQueue.NextInOrder` | OS-Labs/10-sync/queue-semaphore.c:85-131 | Every step keeps the list as the one accessing call has to have left it, and at rest without one; this takes the mutex and the permits. |
| `SemaphoreQueue.AccessFindsRoom` | OS-Labs/10-sync/queue-semaphore.c:84-128 | A permit taken before the mutex guarantees a place or an item when the list is accessed. |
| `SemaphoreQueue.CountInRange` | OS-Labs/10-sync/queue-semaphore.c:82-117 | Conservation keeps the counter between zero and the capacity. |
| `SemaphoreQueue.RunInv` | OS-Labs/10-sync/queue-semaphore.c:79-135 | Mutex, conservation and the list are in order after every run. |
| `CoroutineRing.ResumesInTime` | OS-Labs/9.2-libmycoro/libmycoro.c:49-162 | In every run, while an active coroutine does not run there are fewer switches than its forward distance in the ring, however many coroutines are created meanwhile. |
| `CoroutineRing.StepNearer` | OS-Labs/9.2-libmycoro/libmycoro.c:83-135 | Every step brings a waiting active coroutine no farther away, and every switch at least one place nearer. |
| `CoroutineRing.StepRingOk` | OS-Labs/9.2-libmycoro/libmycoro.c:49-162 | Every step keeps the ring free of repetition, with the main coroutine active in it and an active one running. |
| `Coroutines.Scheduler.constructor` | OS-Labs/9.2-libmycoro/libmycoro.c:100-114 | The ring of the main coroutine alone. |
| `Coroutines.Scheduler.Create` | OS-Labs/9.2-libmycoro/libmycoro.c:63-98 | The new coroutine, active and with a stack of its own, is the last of the ring before the running one. |
| `Coroutines.Scheduler.ScheduleNext` | OS-Labs/9.2-libmycoro/libmycoro.c:122-135 | Terminates at the first active coroutine ahead; exactly the stacks of the finished ones passed are freed, none twice, and never the one still in use. |
| `Coroutines.Scheduler.FindActive` | OS-Labs/9.2-libmycoro/libmycoro.c:124-131 | The loop stops at the first active coroutine, with the stacks of those before it freed. |
| `Coroutines.Scheduler.Free` | OS-Labs/9.2-libmycoro/libmycoro.c:126-129 | May be called only for a block handed out and not freed yet, or for null. |
| `Coroutines.Scheduler.Yield` | OS-Labs/9.2-libmycoro/libmycoro.c:137-140 | The running coroutine gives way to the first active one ahead of it, and keeps its stack. |
| `Coroutines.Scheduler.FinishRoutine` | OS-Labs/9.2-libmycoro/libmycoro.c:49-61 | The running coroutine becomes finished and is left on a stack that is not freed under it. |
| `Coroutines.Scheduler.Join` | OS-Labs/9.2-libmycoro/libmycoro.c:142-162 | One round: a switch while the other coroutine is active, else it leaves the ring and its stack is freed unless it was before. |
| `Coroutines.LinkedWithout` | OS-Labs/9.2-libmycoro/libmycoro.c:149-151 | Unlinking a coroutine leaves a ring of the others. |
| `Coroutines.LinkedBehind` | OS-Labs/9.2-libmycoro/libmycoro.c:83-87 | Linking a coroutine in leaves a ring with it as the last. |
| `RedBlackTree.BuildTree` | C-Labs/Red-black_tree/src/main.c:196-222 | After any sequence of insertions, with equal values allowed, the memory holds a red-black tree with exactly the inserted values in sorted order, and the number printed is the number of black nodes on every path. For n values and the number h printed, 2^(h-1) <= n + 1 <= 4^(h-1). |
| `RedBlackTree.Memory.Insert` | C-Labs/Red-black_tree/src/main.c:156-187 | A red-black tree stays one, and its values in order gain the new one behind all that are not greater. |
| `RedBlackTree.Memory.RBTreeBalance` | C-Labs/Red-black_tree/src/main.c:112-154 | From a red-black tree but for one red node below a red parent, a red-black tree with the same nodes in the same order; its root is the node returned, or the old root if none is returned, and a repair that starts at the root returns one. |
| `RedBlackTree.Memory.RepairClash` | C-Labs/Red-black_tree/src/main.c:130-153 | A red node under a red parent, which then has a black parent itself, is repaired to a red-black tree with the same nodes in order. |
| `RedBlackTree.Memory.RepairByRotation` | C-Labs/Red-black_tree/src/main.c:138-153 | With a black uncle, the repair ends after at most two rotations. |
| `RedBlackTree.Memory.Recolor` | C-Labs/Red-black_tree/src/main.c:131-137 | With a red uncle, black heights stay equal and the clash moves two levels up. |
| `RedBlackTree.Memory.Lift` | C-Labs/Red-black_tree/src/main.c:143-152 | The parent, black, rises above the red grandparent, and no clash is left. |
| `RedBlackTree.Memory.MakeLined` | C-Labs/Red-black_tree/src/main.c:88-98 | Node and parent change places, and the clash is now between the two on one side. |
| `RedBlackTree.Memory.RotateLeft` | C-Labs/Red-black_tree/src/main.c:58-68 | In memory, the rotation relinks parent, node and child so that the same frames hold the rotated subtree. |
| `RedBlackTree.Memory.RotateRight` | C-Labs/Red-black_tree/src/main.c:70-80 | In memory, the rotation to the other side does the same: the same frames hold the rotated subtree, and only an empty stack means a new root. |
| `RedBlackTree.Memory.FindPlace` | C-Labs/Red-black_tree/src/main.c:156-168 | The stack holds the nodes on the way down, and everything before the empty place is not greater, everything behind it greater. |
| `RedBlackTree.Memory.Attach` | C-Labs/Red-black_tree/src/main.c:170-181 | The red leaf takes the empty place, on the side that the comparison with the parent gives. |
| `RedBlackTree.Memory.Family` | C-Labs/Red-black_tree/src/main.c:40-110 | The tests for left and right children and the search for the uncle agree with the shape of the tree. |
| `RedBlackTree.Memory.CalculateBlackHeight` | C-Labs/Red-black_tree/src/main.c:189-194 | The black height, equal on both sides of every node. |
| `RedBlackTree.Memory.constructor` | C-Labs/Red-black_tree/src/main.c:203 | Room for the nodes. |
| `RedBlackColors.PlugIsRedBlack` | C-Labs/Red-black_tree/src/main.c:122-129 | A good subtree that does not clash with its parent in good frames makes a red-black tree. |
| `RedBlackColors.Recolored` | C-Labs/Red-black_tree/src/main.c:131-137 | Painting parent and uncle black and the grandparent red keeps every black height, and only the grandparent and its own parent may clash afterwards. |
| `RedBlackColors.LiftedIsGood` | C-Labs/Red-black_tree/src/main.c:143-152 | With a black uncle, the black parent over the red node and the red grandparent has the black height of the old subtree and clashes with nothing. |
| `RedBlackColors.LinedClash` | C-Labs/Red-black_tree/src/main.c:139-142 | After node and parent have changed places, heights are as before and the same two red nodes clash, now on one side. |
| `RedBlackOrder.EveryPathIsBlack` | C-Labs/Red-black_tree/src/main.c:189-194 | All paths down from a node have the same number of black nodes, and none is longer than twice that. |
| `RedBlackOrder.PathsAreShort` | C-Labs/Red-black_tree/src/main.c:112-194 | No path is longer than twice the binary logarithm of the number of nodes and one. |
| `RedBlackOrder.AllInsertedSorts` | C-Labs/Red-black_tree/src/main.c:206-214 | A series of insertions sorts its values and loses none. |
| `RedBlackShape.RightRotationHeld` | C-Labs/Red-black_tree/src/main.c:70-80 | The four links that the rotation writes turn the tree in memory into the rotated one, for any frames around it. |
| `RedBlackShape.LeftRotationHeld` | C-Labs/Red-black_tree/src/main.c:58-68 | The links that a left rotation writes turn the tree in memory into the rotated one, for any frames around it. |
| `BTreeInsertion.BTree.Insert` | C-Labs/B_tree_insertion/src/b_tree.c:162-207 | The keys in order gain the value before all that are not smaller; sizes stay between t - 1 and 2t - 1 below the root, all leaves at the stored height, and no node is used twice. |
| `BTreeInsertion.BTree.InsertBelow` | C-Labs/B_tree_insertion/src/b_tree.c:182-204 | Below a node that is not full, the keys in order gain the value, shape and height stay, and no node outside is touched. |
| `BTreeInsertion.BTree.ChooseChild` | C-Labs/B_tree_insertion/src/b_tree.c:185-202 | The child between the keys around the value, split before if it was full; keys and shape stay. |
| `BTreeInsertion.BTree.SplitChild` | C-Labs/B_tree_insertion/src/b_tree.c:102-121 | The memory after the split: two halves and the middle key between them in the parent. |
| `BTreeInsertion.BTree.SplitRoot` | C-Labs/B_tree_insertion/src/b_tree.c:123-153 | The memory after the root became the first child of a new root and was split. |
| `BTreeInsertion.BTree.MakeRoom` | C-Labs/B_tree_insertion/src/b_tree.c:175-180 | The root is not full afterwards; keys and shape stay, at one level more if it was. |
| `BTreeInsertion.BTree.InsertValue` | C-Labs/B_tree_insertion/src/b_tree.c:155-160 | A leaf gains the value in its place. |
| `BTreeInsertion.BTree.FindChildIdx` | C-Labs/B_tree_insertion/src/b_tree.c:78-94 | The binary search finds the first place whose value is not smaller. |
| `BTreeMemory.NewNodeIsApart` | C-Labs/B_tree_insertion/src/b_tree.c:18-38 | A new node is an empty leaf that is in no tree held before, and every such tree is still held. |
| `BTreeInsertion.BTree.constructor` | C-Labs/B_tree_insertion/src/b_tree.c:7-16 | A tree without keys. |
| `BTreeInsertion.FewLevels` | C-Labs/B_tree_insertion/src/b_tree.c:162-211 | A tree of height h that is not empty holds at least 2t^(h-1) - 1 and at most (2t)^h - 1 keys. |
| `BTreeInsertion.SplitFacts` | C-Labs/B_tree_insertion/src/b_tree.c:102-121 | A split keeps the keys in order, the nodes apart and all else in memory. |
| `BTreeMemory.SplitHolds` | C-Labs/B_tree_insertion/src/b_tree.c:102-121 | What the split leaves in memory is the tree with the child in two halves. |
| `BTreeMemory.SplitSeparate` | C-Labs/B_tree_insertion/src/b_tree.c:102-121 | After the split no node is used twice. |
| `BTreeMemory.MoveTailMoves` | C-Labs/B_tree_insertion/src/b_tree.c:96-100 | Every value behind the one position comes to the same distance behind the other, with the children around them, and all other places keep what they hold. |
| `BTreeShape.SplitKidInorder` | C-Labs/B_tree_insertion/src/b_tree.c:114-118 | The halves and the middle key hold the keys of the child in order. |
| `BTreeShape.WithKidInorder` | C-Labs/B_tree_insertion/src/b_tree.c:184-204 | Inserting into the child between the keys around a value is inserting into the tree. |
| `BTreeShape.SortedInserted` | C-Labs/B_tree_insertion/src/b_tree.c:155-160 | Inserting keeps the keys sorted. |
| `BTreeShape.InsertedAdds` | C-Labs/B_tree_insertion/src/b_tree.c:155-160 | Inserting adds one occurrence of the value and of no other. |
| `SubstringSearch.FindSubstring` | C-Labs/Find_substring_KMP/src/find_substring.c:163-189 | For a pattern of one character up to the buffer's length and any stream: the prefix table; every place reported has its exact match length; every match is reported or ends inside an earlier reported one; and the pattern occurs exactly at the places reported with its full length. |
| `SubstringSearch.InitPrefixTable` | C-Labs/Find_substring_KMP/src/find_substring.c:29-41 | Every entry is the length of the longest proper border of its prefix. |
| `SubstringSearch.NextEntry` | C-Labs/Find_substring_KMP/src/find_substring.c:31-40 | The next entry, found by trying borders of borders. |
| `SubstringSearch.SearchState.constructor` | C-Labs/Find_substring_KMP/src/find_substring.c:60-90 | The table of the pattern, nothing matched. |
| `SubstringSearch.SearchState.CalculateShift` | C-Labs/Find_substring_KMP/src/find_substring.c:124-134 | The longest border of the matched part stays matched; the shift is the rest, or one. |
| `SubstringSearch.SearchWindow.constructor` | C-Labs/Find_substring_KMP/src/find_substring.c:92-107 | The window shows the beginning of the stream, or the stream is too short. |
| `SubstringSearch.SearchWindow.IsMatch` | C-Labs/Find_substring_KMP/src/find_substring.c:109-118 | The count becomes the length of the longest common prefix; true exactly where the pattern occurs. |
| `SubstringSearch.SearchWindow.MoveForward` | C-Labs/Find_substring_KMP/src/find_substring.c:136-161 | The window moves by the shift, refilled or not, and the border is still matched there. |
| `SubstringSearch.SearchWindow.Advance` | C-Labs/Find_substring_KMP/src/find_substring.c:136-161 | The window shows the text at the new place, or the pattern fits nowhere in the rest. |
| `SubstringSearch.SearchWindow.Refill` | C-Labs/Find_substring_KMP/src/find_substring.c:142-155 | A full buffer goes on showing the text without gap after its rest moved down and new text was read. |
| `SubstringSearch.Stream.Read` | C-Labs/Find_substring_KMP/src/find_substring.c:151 | As many characters as asked for, fewer only at the end. |
| `SubstringSearch.ShiftSkipsNothing` | C-Labs/Find_substring_KMP/src/find_substring.c:124-140 | A match at a place that a shift passes over ends before the match that was just reported. |
| `SubstringSearch.ReportExtended` | C-Labs/Find_substring_KMP/src/find_substring.c:173-184 | One comparison and shift keep the report sound and complete. |
| `SubstringSearch.OccurrencesReported` | C-Labs/Find_substring_KMP/src/find_substring.c:173-184 | At the end, the occurrences are the full matches reported. |
| `HashMap.IsMapIffNoClash` | C-Homework/HashMap/src/hash_map.c:141-223 | For every set of keys: all runs of puts, gets, removals, size queries and changes of the load factor with these keys answer like a finite map if and only if the hash tells all keys of the set that have one length apart. |
| `HashMap.HashMap.Put` | C-Homework/HashMap/src/hash_map.c:141-167 | For any keys the new table is the specified one; where the table stands for a finite map and the hash tells the key and the keys in use apart, it then stands for the map with the key bound, null data are refused, and true means the key was new. |
| `HashMapGrowth.PutGrows` | C-Homework/HashMap/src/hash_map.c:159-166 | A put doubles the capacity exactly when it adds an entry and the size then reaches the threshold. |
| `HashMapGrowth.CapacityFits` | C-Homework/HashMap/src/hash_map.c:106-167 | After every run that leaves the load factor alone, the capacity is ten times a power of two and the size below three quarters of it; without removals it is the least such capacity. |
| `HashMap.HashMap.Get` | C-Homework/HashMap/src/hash_map.c:169-189 | Where the table stands for a finite map without clashing keys: what the map binds to the key, or null. |
| `HashMap.HashMap.Remove` | C-Homework/HashMap/src/hash_map.c:191-214 | Where the table stands for a finite map without clashing keys: it then stands for the map without the key, and what was bound is returned. |
| `HashMap.HashMap.Resize` | C-Homework/HashMap/src/hash_map.c:106-139 | The loops over old buckets and trees re-insert every entry, in order, into twice as many buckets. |
| `HashMap.HashMap.Transfer` | C-Homework/HashMap/src/hash_map.c:98-104 | The visitor inserts the entries of a tree in order. |
| `HashMap.HashMap.constructor` | C-Homework/HashMap/src/hash_map.c:46-73 | The new table stands for the empty map. |
| `HashMap.HashMap.SetLoadFactor` | C-Homework/HashMap/src/hash_map.c:216-219 | Sets the factor and the threshold that follows from it, and changes no binding. |
| `HashMap.RunRefines` | C-Homework/HashMap/src/hash_map.c:141-223 | Without clashing keys every run answers like a finite map, across resizes. |
| `HashMap.PutRefines` | C-Homework/HashMap/src/hash_map.c:141-167 | Without clashing keys a put binds the key in the map that the table stands for, resize included. |
| `HashMap.RemoveRefines` | C-Homework/HashMap/src/hash_map.c:191-214 | Without clashing keys a removal unbinds the key in the map that the table stands for. |
| `HashMap.ResizedRefines` | C-Homework/HashMap/src/hash_map.c:106-139 | Without clashing keys, twice as many buckets stand for the same map. |
| `HashMap.EntryHolds` | C-Homework/HashMap/src/hash_map.c:159 | The bucket of the hash binds the key of the entry, and newness is reported right. |
| `HashMap.ClashShows` | C-Homework/HashMap/src/hash_map.c:18-35 | With two keys of one length and one hash, a put of the one and a get of the other answer unlike every map. |
| `HashMap.SomeKeysClash` | C-Homework/HashMap/src/hash_map.c:37-44 | Two keys of two bytes have the same hash. |
| `HashMap.BucketUpdated` | C-Homework/HashMap/src/hash_map.c:141-214 | Replacing the entry of a key in its bucket replaces its binding in the map. |
| `AvlTree.CompareOrdersKeys` | C-Homework/HashMap/src/hash_map.c:18-35 | The comparison is zero for equal keys only exactly when the hash tells the two keys apart, and then it orders keys by length and bytes. |
| `AvlTree.Djb2Hash` | C-Homework/HashMap/src/hash_map.c:37-44 | The loop computes the hash in 64 bits. |
| `HashCodes.Djb2IsPolynomial` | C-Homework/HashMap/src/hash_map.c:37-44 | The hash of n bytes is 5381 times 33^n plus every byte times a power of 33, the first with the highest, modulo 2^64. |
| `HashCodes.OneByteTells` | C-Homework/HashMap/src/hash_map.c:37-44 | Two keys that differ in one byte have different hashes, at any length. |
| `HashCodes.TailTells` | C-Homework/HashMap/src/hash_map.c:37-44 | The same bytes appended to two keys neither make nor undo a difference of their hashes. |
| `HashCodes.ShortKeysClash` | C-Homework/HashMap/src/hash_map.c:18-44 | Two keys of one length up to twelve bytes clash exactly when their bytes are the same number to the base 33. |
| `HashCodes.OneByteApartIsMap` | C-Homework/HashMap/src/hash_map.c:141-223 | On any set of keys of which two of one length differ in one byte, every run answers like a finite map. |
| `AvlTree.FirstDifference` | C-Homework/HashMap/src/hash_map.c:18-35 | Of two keys of one length the one with the smaller byte at the first difference comes first. |
| `AvlTree.InsertUpdates` | C-Homework/HashMap/src/avl_tree.c:126-152 | The entry takes the place of its key in order, and a new node is reported exactly for a new key. |
| `AvlTree.RemoveUpdates` | C-Homework/HashMap/src/avl_tree.c:176-217 | The entry of the key, and no other, is taken out and returned, also when a successor's data are swapped up. |
| `AvlTree.FindLooksUp` | C-Homework/HashMap/src/avl_tree.c:228-247 | The search returns the entry of the key exactly when there is one. |
| `AvlTree.FindLoop` | C-Homework/HashMap/src/avl_tree.c:228-247 | The loop finds what the recursive search finds. |
| `AvlTree.InsertImpl` | C-Homework/HashMap/src/avl_tree.c:126-152 | Every stored depth is right afterwards. |
| `AvlTree.RemoveImpl` | C-Homework/HashMap/src/avl_tree.c:176-217 | Every stored depth is right afterwards. |
| `AvlTree.InsertBalances` | C-Homework/HashMap/src/avl_tree.c:126-152 | Insertions alone keep a balanced tree balanced, at most one level deeper. |
| `AvlTree.RebalanceBalances` | C-Homework/HashMap/src/avl_tree.c:104-124 | A node whose subtrees are balanced and differ by at most two levels is balanced by the rotations exactly when the deeper child is not even with an inner grandchild leaning inwards. |
| `AvlRemoval.RemovalBalances` | C-Homework/HashMap/src/avl_tree.c:176-217 | A removal from any balanced tree costs at most one level, and exactly when the tree before it loses one along the path; it leaves a balanced tree if and only if no node on the path to the removed node and on to its successor is a trap: the other child deeper by one, even, with its inner child leaning inwards, while the subtree on the path loses a level. An unbalanced result has the depth of the tree. |
| `AvlRemoval.RemovalBecomes` | C-Homework/HashMap/src/avl_tree.c:176-217 | The same for every subtree on the path, with its depth and balance after the way back up. |
| `AvlRemoval.BuiltByInsertions` | C-Homework/HashMap/src/avl_tree.c:126-152 | Eight insertions into an empty tree build the tree with the trap. |
| `AvlRemoval.EightEntries` | C-Homework/HashMap/src/hash_map.c:18-35 | Eight entries that the hash tells apart exist. |
| `AvlRemoval.RemovalUnbalances` | C-Homework/HashMap/src/avl_tree.c:104-217 | The trap is met: inserting any eight entries that the hash tells apart in a certain order gives a balanced tree, and removing the last of them leaves an unbalanced one. |
| `AvlTree.RebalanceKeeps` | C-Homework/HashMap/src/avl_tree.c:64-124 | No rotation changes the entries or their order. |

## Left out

- WaveEquation.Solver.SkipNIterations: takes a batch of at least two steps that divides the number of iterations, and sections of at least 2(batch - 1) rows, as both callers pass; the shorter last batch (Epsmim/src/WaveEquation.cpp:386-389) and a batch of one step are not modelled, because the stop row of the last section and the handshake are set up only for full batches.
- WaveEquation.Solver.NextIteration: takes the same batches and sections.
- Wave solver: the running maximum, floating point and SIMD lanes, the source term and the choice of the buffer to show; a row is one value and the kernel an arbitrary function of step, row, three rows and the old row.
- Locked list: thread cancellation, the statistics counters, the generation of the list and the random generator; a coin decides each swap, and a flag says whether read locks are shared.
- HuffmanArchiver.Compress: takes between one byte and 2^32 - 1 bytes, the range in which the program accepts a file and its 32-bit count is right.
- HuffmanArchiver.CompressAndDecompress: takes the same files as Compress; a longer one does not come back, since the header holds 32 bits.
- Huffman: file handling and messages. The comparison given to the library sort never returns a negative number; it is treated as the ascending order that is meant.
- Kruskal: reading and checking the input.
- Dijkstra.FindShortestPath: takes fewer than 2^31 vertices, for which 64-bit distances cannot wrap around; the main program allows 5000. The counter of long improvements does not wrap around.
- PriorityQueue.Queue.Add: needs a free place or room for two nodes, since growing by half does not enlarge an array of one; the search provides it. The factor is taken as three halves exactly, not in floating point. Nodes are compared by place where the program compares their addresses.
- PriorityQueue.Queue.Grow: takes a capacity of at least two, for the same reason.
- Topological sort and Dijkstra: checking and printing in the main programs.
- FutexMutex: interrupted waits, which abort the program, and the spin lock of the same client.
- Bounded queues: the statistics, the monitor thread, the destruction of a queue and memory that runs out.
- Coroutines.Scheduler.Join: is one round of its loop, because other coroutines run between two rounds; a coroutine is joined once and not by itself.
- Coroutines: contexts, return values and failing allocations.
- Red-black tree: nodes lie in the one array that the program allocates, so an address is an index; the blocks of the ancestor stack, which is a sequence here.
- BTreeInsertion.BTree.InsertBelow: the loop of the descent as tail recursion. The branch that creates a missing child of an inner node is left out: children of inner nodes are never null. Nodes are records in a growing sequence; a degree below two and failing allocations are not modelled.
- BTreeInsertion.BTree.constructor: takes a half degree of at least two, the least for which both halves of a full node hold a value; the program does not check what it reads.
- SubstringSearch.FindSubstring: an empty pattern, for which the program writes outside its table, and a pattern longer than the buffer; the main program never passes one.
- AvlTree.InsertImpl: trees are values, so the relinking of nodes in place and their freeing are not modelled; nor is the width of the stored depth, eight bits.
- AvlTree.RemoveImpl: trees are values here too, so nodes are neither overwritten nor freed. When a removal keeps the balance is stated by AvlRemoval.RemovalBalances.
- Hash map: calls without a map or a key, and failing allocations. The load factor is a real number that is not negative, and sizes do not wrap around. The size of a key is the length of its bytes. The sizes of single buckets are only printed and not modelled.
- The other programs of the repository: proxies, graphics, database, microcontroller and numerical code, the calculator, the circular buffer, other sorting and searching exercises.
