# AA laboratories — a verified Dafny model

This project models the algorithmic core of the AA laboratory series, a
Java repository of classic algorithms:

- **lab 1**: six integer Fibonacci generators.
- **lab 2**: an in-place sorting library: quick sort with a last-element or
  median-of-three pivot, recursive and bottom-up merge sort, binary and
  ternary heap sort, insertion sort and shell sort.
- **lab 3**: an unweighted adjacency-list `Graph` with component
  discovery, breadth- and depth-first search reporting the largest
  frontier they held, and the parameter checks, label builders and
  deterministic parts of three random graph generators (bipartite,
  directed/undirected, k-regular), the k-regular tester's validation and
  key, and the density-to-edge-count formulas. The k-regular
  generator's createDefaultLabels and string label builder
  (KRegularGraphGenerator.java:155-172) repeat the directed/undirected
  generator's code line for line and share its members.
- **lab 4**: a `WeightedGraph` of (target, weight) entries, the converter
  that weights an unweighted graph, Dijkstra's single-source search with
  a lazy-deletion priority queue, and Floyd–Warshall all-pairs distances
  with path reconstruction and negative-cycle detection.
- **lab 5**: `MinimumSpanningTreeGraph`, which copies a weighted graph and
  computes a spanning forest with Prim's algorithm (a heap of
  vertex/parent/weight entries) or Kruskal's (edges sorted by weight plus
  a union-find with path compression and union by rank), and returns the
  tree as a fresh graph.

Objects whose fields the Java code updates in place are Dafny classes:
`Graph`, `WeightedGraph`, `DijkstraAlgorithm`, `DisjointSets` and
`MinimumSpanningTreeGraph`. Their collections are `map` and `seq` fields
that the methods reassign. The sorters and the matrix code work on
`array`s in place. The Java loops are `while`/`for` loops with
invariants, with three exceptions. `Collections.sort` is the recursive
stable insertion sort `EdgeSort.SortByWeight`. DepthFirstSearch's
findConnectedComponent (DepthFirstSearch.java:146-164) repeats Graph's
loop apart from a print, so it calls `AdjacencyGraph.FindConnectedComponent`.
The quick sorter's partitionMot (QuickSorter.java:59-73) repeats
partition's loop after one swap, so `QuickSorter.PartitionMot` swaps and
calls `QuickSorter.Partition`.
Each method is proved against a specification function or predicate,
whose properties are proved as lemmas.
Exceptions are the `Thrown` case of a `Result`. Weights are reals, with an
explicit infinity (`Dist`) where Java uses `Double.POSITIVE_INFINITY`.

Java `int` arithmetic is modelled where it decides an outcome of the
generators' checks: the wrap-around of `JavaInt.Wrap`, truncating
division, `Integer.toString` and `String.compareTo`. Index arithmetic in
the sorters is unbounded (see "Left out"). HashMap iteration order, `PriorityQueue` tie
breaking and the random numbers are parameters or nondeterministic
choices, so every property holds for every order and every draw.

## Model

| member | source | states |
|---|---|---|
| FibonacciGenerator.RecursiveFib | AA_lab_1/src/main/java/FibonacciGenerator.java:9-14 | F(n) for every n >= 0; a negative n is returned unchanged |
| FibonacciGenerator.TopDownDPFib | AA_lab_1/src/main/java/FibonacciGenerator.java:16-26 | F(n) for 0 <= n < Integer.MAX_VALUE, read from a list holding F(0..n); a negative n throws IndexOutOfBounds, and so does Integer.MAX_VALUE, whose bound n + 1 wraps so that the list stays [0, 1] |
| FibonacciGenerator.BottomUpDPFib | AA_lab_1/src/main/java/FibonacciGenerator.java:28-42 | F(n) for every n >= 0 below Integer.MAX_VALUE from the two running values; a negative n is returned unchanged |
| FibonacciGenerator.Multiply | AA_lab_1/src/main/java/FibonacciGenerator.java:75-85 | A becomes the product of the old A and B, also when A and B are the same array |
| FibonacciGenerator.MatrixToPower | AA_lab_1/src/main/java/FibonacciGenerator.java:59-73 | the matrix becomes its old value to the power exp; a negative exp leaves the identity |
| FibonacciGenerator.CopyInto | AA_lab_1/src/main/java/FibonacciGenerator.java:70-72 | the closing copy loop makes dst equal to src |
| FibonacciGenerator.MatrixPowerFib | AA_lab_1/src/main/java/FibonacciGenerator.java:44-57 | F(n) for n >= 0, the top-left entry of Q^(n-1); 1 for a negative n above Integer.MIN_VALUE, and F(2^31) for Integer.MIN_VALUE, whose exponent n-1 wraps to Integer.MAX_VALUE |
| FibonacciGenerator.QPower | AA_lab_1/src/main/java/FibonacciGenerator.java:44-57 | Q^k = [[F(k+1), F(k)], [F(k), F(k-1)]], the identity the matrix method rests on |
| FibonacciGenerator.PowAdd | AA_lab_1/src/main/java/FibonacciGenerator.java:59-73 | m^a · m^b = m^(a+b), which square-and-multiply relies on |
| FibonacciGenerator.MulAssoc | AA_lab_1/src/main/java/FibonacciGenerator.java:75-85 | the 2×2 product is associative |
| FibonacciGenerator.FastDoublingFib | AA_lab_1/src/main/java/FibonacciGenerator.java:110-128 | the pair (F(n), F(n+1)) |
| FibonacciGenerator.FastDoublingFibHelper | AA_lab_1/src/main/java/FibonacciGenerator.java:130-133 | F(n), the first component of the pair |
| FibonacciGenerator.FibDoubling | AA_lab_1/src/main/java/FibonacciGenerator.java:115-127 | F(2k) = F(k)(2F(k+1) - F(k)) and F(2k+1) = F(k)² + F(k+1)² |
| FibonacciGenerator.DoublingStep | AA_lab_1/src/main/java/FibonacciGenerator.java:137-147 | one round of the bit loop turns (F(m/2), F(m/2+1)) into (F(m), F(m+1)), by the lowest bit of m |
| FibonacciGenerator.BitwiseDoublingFib | AA_lab_1/src/main/java/FibonacciGenerator.java:135-149 | F(n) for every non-negative int n; for a negative int, F(n + 2^32), the two's complement bits |
| QuickSorter.Swap | AA_lab_2/src/main/java/QuickSorter.java:2-10 | exchanges arr[a] and arr[b] and changes nothing else; a == b is a no-op even outside the array |
| QuickSorter.Partition | AA_lab_2/src/main/java/QuickSorter.java:19-33 | p in [low, high] holds the old arr[high]; [low, p) is below it, (p, high] at least it; a permutation touching only [low, high] |
| QuickSorter.QuickSort | AA_lab_2/src/main/java/QuickSorter.java:35-41 | arr[low..high] ascending and permuted, everything else unchanged; low >= high changes nothing |
| QuickSorter.SortBothSides | AA_lab_2/src/main/java/QuickSorter.java:38-39 | sorting both sides of a partition sorts the whole range |
| QuickSorter.QuickSortHelper | AA_lab_2/src/main/java/QuickSorter.java:15-17 | the whole array ascending and a permutation of its old contents, an empty one included |
| QuickSorter.MedianOfThree | AA_lab_2/src/main/java/QuickSorter.java:75-83 | returns low + (high-low)/2, with arr[low] <= arr[mid] <= arr[high]; only those three places are permuted |
| QuickSorter.PartitionMot | AA_lab_2/src/main/java/QuickSorter.java:59-73 | the partition property around the value first at pivotIndex, touching only [low, high] |
| QuickSorter.QuickSortMot | AA_lab_2/src/main/java/QuickSorter.java:50-57 | arr[low..high] ascending and permuted, everything else unchanged |
| QuickSorter.QuickSortMotHelper | AA_lab_2/src/main/java/QuickSorter.java:46-48 | the whole array ascending and permuted |
| MergeSorter.MergeSeqsSpec | AA_lab_2/src/main/java/MergeSorter.java:7-42 | the merge holds exactly the values of both runs, and is ascending when both runs are |
| MergeSorter.MergeSuffix | AA_lab_2/src/main/java/MergeSorter.java:21-41 | the value-by-value merge agrees with the textbook recursive merge, ties taken from the left run |
| MergeSorter.CopyRest | AA_lab_2/src/main/java/MergeSorter.java:33-41 | a closing loop copies the rest of one run into place and writes nothing else |
| MergeSorter.MergeRuns | AA_lab_2/src/main/java/MergeSorter.java:21-41 | the main loop and the closing loops write the merge of the two copied runs from start on |
| MergeSorter.Merge | AA_lab_2/src/main/java/MergeSorter.java:7-42 | arr[start..end] becomes the merge of the old arr[start..mid] and arr[mid+1..end]; nothing outside is written |
| MergeSorter.MergeSortsRange | AA_lab_2/src/main/java/MergeSorter.java:7-42 | merging two adjacent sorted ranges sorts their union |
| MergeSorter.MergeKeepsValues | AA_lab_2/src/main/java/MergeSorter.java:7-42 | a merge keeps the multiset of the whole array |
| MergeSorter.Divide | AA_lab_2/src/main/java/MergeSorter.java:44-51 | arr[start..end] ascending and permuted, everything else unchanged |
| MergeSorter.MergeSortHelper | AA_lab_2/src/main/java/MergeSorter.java:3-5 | the whole array ascending and permuted, an empty one included |
| MergeSorter.MergeStep | AA_lab_2/src/main/java/MergeSorter.java:63-68 | after merging the runs at leftStart, every aligned block of 2·size up to there is sorted and the values are kept |
| MergeSorter.MergeSortIterative | AA_lab_2/src/main/java/MergeSorter.java:55-71 | bottom-up passes leave the array ascending and a permutation of its old contents |
| HeapSorter.HeapMax | AA_lab_2/src/main/java/HeapSorter.java:26-35 | the root of a max-heap holds its largest value |
| HeapSorter.Heapify | AA_lab_2/src/main/java/HeapSorter.java:7-24 | the sift-down restores the max-heap order below i; only [i, n) is permuted |
| HeapSorter.TernaryHeapify | AA_lab_2/src/main/java/HeapSorter.java:40-59 | the same sift-down over children 3i+1..3i+3 |
| HeapSorter.ExtractStep | AA_lab_2/src/main/java/HeapSorter.java:31-34 | each extraction grows the tail of largest values, ascending, by one |
| HeapSorter.HeapSort | AA_lab_2/src/main/java/HeapSorter.java:26-35 | arr[0..n) ascending and a permutation of its old contents, arr[n..] unchanged |
| HeapSorter.HeapSortHelper | AA_lab_2/src/main/java/HeapSorter.java:3-5 | the whole array ascending and permuted |
| HeapSorter.TernaryHeapSort | AA_lab_2/src/main/java/HeapSorter.java:61-71 | the whole array ascending and permuted, the empty array included |
| InsertionSorter.InsertionSort | AA_lab_2/src/main/java/InsertionSorter.java:7-17 | arr[0..n) ascending and permuted, arr[n..] unchanged; n <= 1 changes nothing |
| InsertionSorter.MoveHole | AA_lab_2/src/main/java/InsertionSorter.java:11-14 | shifting a larger value up keeps the values the array would hold with the key in the hole |
| InsertionSorter.InsertionSortHelper | AA_lab_2/src/main/java/InsertionSorter.java:3-5 | as written: only arr[0..length-1) is sorted and the last element keeps its place |
| InsertionSorter.InsertionSortWhole | AA_lab_2/src/main/java/InsertionSorter.java:3-5 | with the whole length the array ends ascending and permuted |
| InsertionSorter.GapInsert | AA_lab_2/src/main/java/InsertionSorter.java:27-34 | one gapped insertion keeps every chain of the gap ascending up to i and the values kept |
| InsertionSorter.ShellSort | AA_lab_2/src/main/java/InsertionSorter.java:24-37 | after each gap pass every chain of that gap is ascending; the gap-1 pass leaves arr[0..n) ascending and permuted |
| InsertionSorter.ShellSortHelper | AA_lab_2/src/main/java/InsertionSorter.java:20-22 | as written: the last element keeps its place |
| InsertionSorter.ShellSortWhole | AA_lab_2/src/main/java/InsertionSorter.java:20-22 | with the whole length the array ends ascending and permuted |
| InsertionSorter.HelperLeavesUnsorted | AA_lab_2/src/main/java/InsertionSorter.java:3-5 | on [2, 1] the helpers' contract forces the unsorted result [2, 1] |
| SortSpec.SortedUnique | AA_lab_2/src/main/java/QuickSorter.java:15-17 | two ascending arrays with the same values are equal, so all the sorters return the same array |
| AdjacencyGraph.Graph.constructor | AA_lab_3/src/main/java/lab_3/Graph/Graph.java:9-12 | an empty graph with the given direction |
| AdjacencyGraph.Graph.Copy | AA_lab_3/src/main/java/lab_3/Graph/Graph.java:14-20 | the same direction and, for every vertex, a list with the same neighbours |
| AdjacencyGraph.Graph.AddVertex | AA_lab_3/src/main/java/lab_3/Graph/Graph.java:23-25 | putIfAbsent: an existing list is kept; the graph stays closed |
| AdjacencyGraph.Graph.AddEdge | AA_lab_3/src/main/java/lab_3/Graph/Graph.java:27-32 | both ends become vertices and only from's list grows, by to, even in an undirected graph |
| AdjacencyGraph.Graph.RemoveEdge | AA_lab_3/src/main/java/lab_3/Graph/Graph.java:34-46 | drops the first from -> to entry and, when undirected, the first to -> from entry; missing lists are left alone |
| AdjacencyGraph.RemoveFirstCuts | AA_lab_3/src/main/java/lab_3/Graph/Graph.java:37 | List.remove keeps a list without x and otherwise cuts out exactly its first x |
| AdjacencyGraph.RemoveFirstMultiset | AA_lab_3/src/main/java/lab_3/Graph/Graph.java:37 | List.remove takes away one copy of x if there is one, and nothing else |
| AdjacencyGraph.RemoveUndoesAdd | AA_lab_3/src/main/java/lab_3/Graph/Graph.java:27-46 | on a directed graph removeEdge undoes addEdge; no other list changes |
| AdjacencyGraph.AddKeepsClosed | AA_lab_3/src/main/java/lab_3/Graph/Graph.java:23-32 | adding a vertex or an edge keeps every listed neighbour a vertex |
| AdjacencyGraph.FindConnectedComponent | AA_lab_3/src/main/java/lab_3/Graph/Graph.java:88-105 | visited grows by exactly the vertices reachable from startNode without passing through what it held before |
| AdjacencyGraph.PushUnmarked | AA_lab_3/src/main/java/lab_3/Graph/Graph.java:97-102 | pushes the unmarked neighbours in list order |
| AdjacencyGraph.FindDisconnectedComponents | AA_lab_3/src/main/java/lab_3/Graph/Graph.java:66-86 | each component is the reachable set of a seed that no earlier component holds; every vertex is covered; components are disjoint when the lists are symmetric |
| Reachability.SharedVertexJoins | AA_lab_3/src/main/java/lab_3/Graph/Graph.java:66-86 | with symmetric lists two components sharing a vertex reach each other |
| BreadthFirstSearch.Bfs | AA_lab_3/src/main/java/BFS/BreadthFirstSearch.java:14-37 | each vertex is enqueued once and exactly the reachable ones are visited. The result is LargestQueue from startNode alone: the largest size the queue reaches when each step polls the head and enqueues the unmarked neighbours in list order. It lies between 1 and the number of reachable vertices |
| BreadthFirstSearch.EnqueueFresh | AA_lab_3/src/main/java/BFS/BreadthFirstSearch.java:26-33 | the unmarked neighbours are marked and enqueued in list order, a missing list counting as empty, and the maximum follows the queue size |
| BreadthFirstSearch.BfsWithOutput | AA_lab_3/src/main/java/BFS/BreadthFirstSearch.java:39-66 | the same visited set, and a result equal to LargestQueue from startNode, which is what bfs returns |
| BfsInvariant.LargestQueueStep | AA_lab_3/src/main/java/BFS/BreadthFirstSearch.java:23-34 | one loop pass keeps LargestQueue of the remaining run equal to its value before the pass |
| BfsInvariant.BfsDone | AA_lab_3/src/main/java/BFS/BreadthFirstSearch.java:23-34 | once the queue is empty the visited set is exactly the reachable set |
| DepthFirstSearch.Dfs | AA_lab_3/src/main/java/DFS/DepthFirstSearch.java:15-40 | each vertex is pushed once and exactly the reachable ones are visited. The result is LargestStack from startNode alone: the largest size the stack reaches when each step pops the top and pushes the unmarked neighbours back to front. It lies between 1 and the number of reachable vertices |
| DepthFirstSearch.PushFreshReversed | AA_lab_3/src/main/java/DFS/DepthFirstSearch.java:29-36 | the unmarked neighbours are pushed back to front, so the first-listed one ends on top |
| DepthFirstSearch.DfsWithOutput | AA_lab_3/src/main/java/DFS/DepthFirstSearch.java:42-73 | the same visited set, and a result equal to LargestStack from startNode, which is what dfs returns |
| DfsInvariant.LargestStackStep | AA_lab_3/src/main/java/DFS/DepthFirstSearch.java:24-37 | one loop pass keeps LargestStack of the remaining run equal to its value before the pass |
| DepthFirstSearch.FindConnectedComponent | AA_lab_3/src/main/java/DFS/DepthFirstSearch.java:147-165 | lazy marking adds to visited exactly the vertices reachable from startNode outside the set it was given |
| DfsInvariant.DfsDone | AA_lab_3/src/main/java/DFS/DepthFirstSearch.java:24-37 | once the stack is empty the visited set is exactly the reachable set |
| Frontier.FirstOnTop | AA_lab_3/src/main/java/DFS/DepthFirstSearch.java:29-36 | pushing in reverse list order leaves the first unmarked neighbour on top |
| BipartiteGenerator.ValidateParameters | AA_lab_3/src/main/java/Bipartite/BipartiteGraphGenerator.java:205-232 | the first failing check in source order: fewer than two vertices, a part size outside 1..n-1, fewer than n-1 edges, more than \|U\|·\|V\| edges |
| BipartiteGenerator.ValidateParametersAsWritten | AA_lab_3/src/main/java/Bipartite/BipartiteGraphGenerator.java:217-231 | the checks with the int product wrapping; it agrees with ValidateParameters whenever the product fits in an int |
| BipartiteGenerator.OverflowRefusesTree | AA_lab_3/src/main/java/Bipartite/BipartiteGraphGenerator.java:220-231 | n = 100000, sizeOfU = 50000, m = 99999 is refused as too many edges |
| BipartiteGenerator.TreeEdgesAccepted | AA_lab_3/src/main/java/Bipartite/BipartiteGraphGenerator.java:214-231 | n-1 edges always pass for valid n and sizeOfU |
| BipartiteGenerator.BipartiteLabelsDistinct | AA_lab_3/src/main/java/Bipartite/BipartiteGraphGenerator.java:259-269 | the labels "U1".."Uk", "V1".. are pairwise distinct |
| BipartiteGenerator.BipartiteLabels | AA_lab_3/src/main/java/Bipartite/BipartiteGraphGenerator.java:258-269 | label i is "U"+(i+1) below sizeOfU and "V"+(i-sizeOfU+1) otherwise; the array errors for bad n or sizeOfU |
| BipartiteGenerator.GetBipartitePartitions | AA_lab_3/src/main/java/Bipartite/BipartiteGraphGenerator.java:274-289 | "U" names go in the first set, "V" names in the second, others in neither; disjoint subsets of the vertices |
| BipartiteGenerator.PartitionSizes | AA_lab_3/src/main/java/Bipartite/BipartiteGraphGenerator.java:258-289 | on the generator's labels the parts have sizeOfU and n - sizeOfU vertices |
| BipartiteGenerator.GetIncludedVertices | AA_lab_3/src/main/java/Bipartite/BipartiteGraphGenerator.java:153-161 | the list members in the included set, in list order |
| BipartiteGenerator.IncludedCounts | AA_lab_3/src/main/java/Bipartite/BipartiteGraphGenerator.java:153-161 | each included member kept as often as listed, nothing else |
| BipartiteGenerator.IncludedAll | AA_lab_3/src/main/java/Bipartite/BipartiteGraphGenerator.java:153-161 | when everything is included the list comes back unchanged |
| DirectedUndirectedGenerator.CheckEdgeCount | AA_lab_3/src/main/java/DirectedAndUndirected/DirectedUndirectedGraphGenerator.java:21-31 | fewer than n-1 edges or more than n(n-1) (directed) or n(n-1)/2 (undirected) is refused, and nothing else |
| DirectedUndirectedGenerator.ProductOfConsecutive | AA_lab_3/src/main/java/DirectedAndUndirected/DirectedUndirectedGraphGenerator.java:22 | n(n-1) is never negative and always even, so the halving is exact |
| DirectedUndirectedGenerator.TreeEdgeCountAccepted | AA_lab_3/src/main/java/DirectedAndUndirected/DirectedUndirectedGraphGenerator.java:21-31 | n-1 edges pass for every n >= 1 |
| DirectedUndirectedGenerator.CheckEdgeCountAsWritten | AA_lab_3/src/main/java/DirectedAndUndirected/DirectedUndirectedGraphGenerator.java:21-31 | the guards with n - 1 and n·(n-1) in wrapping int arithmetic, for int n and m. They agree with the unbounded check whenever the product fits. At n = Integer.MIN_VALUE, n - 1 wraps to Integer.MAX_VALUE, so every m below Integer.MAX_VALUE is refused as too few edges |
| DirectedUndirectedGenerator.OverflowRefusesTree | AA_lab_3/src/main/java/DirectedAndUndirected/DirectedUndirectedGraphGenerator.java:22-31 | for n = 46342 a spanning tree is refused as too many edges |
| DirectedUndirectedGenerator.LetterLabelsDistinct | AA_lab_3/src/main/java/DirectedAndUndirected/DirectedUndirectedGraphGenerator.java:213 | letter labels 'A'+i%26 followed by i/26 from 26 on are pairwise distinct |
| DirectedUndirectedGenerator.StringLabels | AA_lab_3/src/main/java/DirectedAndUndirected/DirectedUndirectedGraphGenerator.java:210-216 | label i is the letter label of i; a negative n throws (the k-regular generator builds the same labels) |
| DirectedUndirectedGenerator.CreateDefaultLabels | AA_lab_3/src/main/java/DirectedAndUndirected/DirectedUndirectedGraphGenerator.java:171-177 | 0..n-1 in order; a negative n throws (the k-regular generator has the same builder) |
| DirectedUndirectedGenerator.CandidateEdges | AA_lab_3/src/main/java/DirectedAndUndirected/DirectedUndirectedGraphGenerator.java:92-111 | the index pairs that are not self-loops, not listed yet and, when undirected, have i < j; labels fewer than n throw IndexOutOfBounds when n >= 2, and a non-positive n gives no candidates |
| DirectedUndirectedGenerator.CandidatesAreNew | AA_lab_3/src/main/java/DirectedAndUndirected/DirectedUndirectedGraphGenerator.java:92-111 | no candidate is a self-loop or already listed; an undirected pair occurs once |
| DirectedUndirectedGenerator.EnsureUndirectedEdge | AA_lab_3/src/main/java/DirectedAndUndirected/DirectedUndirectedGraphGenerator.java:139-151 | both directions end up listed, each added only where missing; a vertex without a list throws NullPointerException |
| DirectedUndirectedGenerator.EnsureBothListed | AA_lab_3/src/main/java/DirectedAndUndirected/DirectedUndirectedGraphGenerator.java:139-151 | both directions listed, each list grown by at most one, and a second call changes nothing |
| KRegularGenerator.CheckParameters | AA_lab_3/src/main/java/KRegular/KRegularGraphGenerator.java:26-41 | k >= n, k < 1, k = 1 with n != 2 and odd n·k are refused in that order, with the int product's parity |
| KRegularGenerator.WrapKeepsParity | AA_lab_3/src/main/java/KRegular/KRegularGraphGenerator.java:39-41 | a wrapped int product has the parity of the true one |
| KRegularGenerator.AcceptedShape | AA_lab_3/src/main/java/KRegular/KRegularGraphGenerator.java:26-41 | an accepted pair has n >= 2, and k = 1 only with n = 2 |
| KRegularGenerator.MakeStubs | AA_lab_3/src/main/java/KRegular/KRegularGraphGenerator.java:89-94 | k copies of each vertex in order; a negative capacity throws |
| KRegularGenerator.StubCounts | AA_lab_3/src/main/java/KRegular/KRegularGraphGenerator.java:89-94 | each vertex has exactly k stubs |
| KRegularGenerator.PairsAreRegular | AA_lab_3/src/main/java/KRegular/KRegularGraphGenerator.java:97-113 | with an even stub count every vertex is an end of exactly k pairs, whatever the shuffle |
| KRegularGenerator.EdgeExistsEither | AA_lab_3/src/main/java/KRegular/KRegularGraphGenerator.java:147-150 | listed in either direction; a missing list throws |
| KRegularGenerator.EdgeExistsSymmetric | AA_lab_3/src/main/java/KRegular/KRegularGraphGenerator.java:147-150 | the answer does not depend on the order of the ends |
| KRegularGenerator.MatchStubs | AA_lab_3/src/main/java/KRegular/KRegularGraphGenerator.java:100-113 | pairs are added until one is a self-loop or already listed, which gives false |
| KRegularGenerator.MatchFirst | AA_lab_3/src/main/java/KRegular/KRegularGraphGenerator.java:100-113 | a fully added matching added its first pair as a fresh, non-loop edge |
| KRegularGenerator.MatchAppends | AA_lab_3/src/main/java/KRegular/KRegularGraphGenerator.java:100-113 | each vertex's list gains exactly its pair targets, in pair order |
| KRegularGenerator.MatchAcceptedFresh | AA_lab_3/src/main/java/KRegular/KRegularGraphGenerator.java:100-113 | no added pair is a loop or was listed either way before |
| KRegularGenerator.MatchAcceptedDistinct | AA_lab_3/src/main/java/KRegular/KRegularGraphGenerator.java:100-113 | no unordered pair is added twice |
| KRegularGenerator.MatchNeverThrows | AA_lab_3/src/main/java/KRegular/KRegularGraphGenerator.java:100-113 | matching cannot throw when every paired vertex has a list |
| KRegularGenerator.MatchKeepsKeys | AA_lab_3/src/main/java/KRegular/KRegularGraphGenerator.java:100-113 | a full matching leaves the vertex set unchanged |
| KRegularGenerator.IsConnected | AA_lab_3/src/main/java/KRegular/KRegularGraphGenerator.java:122-142 | true exactly when every vertex of a distinct allVertices is reachable from start |
| KRegularGenerator.MarkReachable | AA_lab_3/src/main/java/KRegular/KRegularGraphGenerator.java:124-138 | the marked set ends as the reachable set; it throws only on a reachable vertex without a list |
| KRegularGenerator.CountMeansAll | AA_lab_3/src/main/java/KRegular/KRegularGraphGenerator.java:141 | the size comparison holds exactly when every vertex is reached |
| KRegularGenerator.GenerateConfigurationModel | AA_lab_3/src/main/java/KRegular/KRegularGraphGenerator.java:85-117 | a negative wrapped stub count throws; otherwise the graph becomes the matching of the given shuffle, false or a throw as that matching reports, and after a full matching whether every vertex is reachable from vertices[0] |
| KRegularTester.ValidateParameters | AA_lab_3/src/main/java/KRegular/KRegularGraphTester.java:92-119 | false for k >= n, k < 1, k = 1 with n != 2, odd n·k, or k = 2 with n < 3; true otherwise |
| KRegularTester.SecondDegreeCheckUnreachable | AA_lab_3/src/main/java/KRegular/KRegularGraphTester.java:114-116 | the k = 2, n < 3 test never decides anything |
| KRegularTester.ValidateAgreesWithGenerator | AA_lab_3/src/main/java/KRegular/KRegularGraphTester.java:92-119 | the tester accepts exactly the pairs the generator's guards accept |
| KRegularTester.SkipMissesZeroDegree | AA_lab_3/src/main/java/KRegular/KRegularGraphTester.java:226 | the skip test of both test loops is the negated validation without k < 1: (4, 0) is not skipped |
| KRegularTester.GraphKeyInjective | AA_lab_3/src/main/java/KRegular/KRegularGraphTester.java:292-294 | n + "-" + k identifies the pair for non-negative n and k |
| DecimalLabels.ParseDecimalString | AA_lab_3/src/main/java/KRegular/KRegularGraphTester.java:292-294 | reading the digits back gives the number that Integer.toString wrote |
| DensityConverter.Undirected | AA_lab_3/src/main/java/Graph/DensityToEdgeConverter.java:4-6 | twice the count is density·v·(v-1): the halving is exact, and the count is never negative |
| DensityConverter.Directed | AA_lab_3/src/main/java/Graph/DensityToEdgeConverter.java:8-10 | twice the undirected count |
| DensityConverter.BipartiteSymmetric | AA_lab_3/src/main/java/Graph/DensityToEdgeConverter.java:12-14 | swapping the sides gives the same count |
| DensityConverter.NoEdges | AA_lab_3/src/main/java/Graph/DensityToEdgeConverter.java:4-14 | density 0 gives no edges, nor do zero or one vertices |
| WeightedGraphs.WeightedGraph.constructor | AA_lab_3/src/main/java/lab_4/WeightedGraph/WeightedGraph.java:11-14 | an empty graph with the given direction |
| WeightedGraphs.WeightedGraph.AddVertex | AA_lab_3/src/main/java/lab_4/WeightedGraph/WeightedGraph.java:16-18 | putIfAbsent; closedness and, when undirected, symmetry are kept |
| WeightedGraphs.AddVertexIdempotent | AA_lab_3/src/main/java/lab_4/WeightedGraph/WeightedGraph.java:16-18 | adding a present vertex changes nothing and never clears a list |
| WeightedGraphs.WeightedGraph.AddEdge | AA_lab_3/src/main/java/lab_4/WeightedGraph/WeightedGraph.java:20-28 | both ends become vertices; (to, w) is appended to from's list and, when undirected, (from, w) to to's list |
| WeightedGraphs.CountsAfterEdge | AA_lab_3/src/main/java/lab_4/WeightedGraph/WeightedGraph.java:20-28 | addEdge adds exactly one entry each way it writes, no deduplication, and no other count changes |
| WeightedGraphs.UndirectedEdgeKeepsSymmetric | AA_lab_3/src/main/java/lab_4/WeightedGraph/WeightedGraph.java:24-27 | an undirected addEdge keeps the u→v and v→u counts of every weight equal |
| WeightedGraphs.WeightedGraph.GetNeighbors | AA_lab_3/src/main/java/lab_4/WeightedGraph/WeightedGraph.java:30-32 | an absent vertex has an empty list and is not added |
| WeightedGraphs.WeightedGraph.IsDirected | AA_lab_3/src/main/java/lab_4/WeightedGraph/WeightedGraph.java:58-60 | the constructor's direction |
| WeightedGraphs.WeightedGraph.HasVertex | AA_lab_3/src/main/java/lab_4/WeightedGraph/WeightedGraph.java:62-64 | true exactly for a member of getVertices |
| WeightedGraphConverter.NextWeight | AA_lab_3/src/main/java/lab_4/WeightedGraph/GraphToWeightedGraphConverter.java:68 | a value in [minWeight, maxWeight]; IllegalArgumentException when the int bound wraps |
| WeightedGraphConverter.WeightFor | AA_lab_3/src/main/java/lab_4/WeightedGraph/GraphToWeightedGraphConverter.java:54-75 | undirected: the weight stored for either orientation, else a fresh one stored; directed: a fresh one; always in range |
| WeightedGraphConverter.AddVertices | AA_lab_3/src/main/java/lab_4/WeightedGraph/GraphToWeightedGraphConverter.java:39-41 | every vertex gets an empty list |
| WeightedGraphConverter.AddWeightedEdges | AA_lab_3/src/main/java/lab_4/WeightedGraph/GraphToWeightedGraphConverter.java:50-80 | one addEdge per adjacency entry, row by row, each weight in range and consistent for undirected pairs |
| WeightedGraphConverter.AddRow | AA_lab_3/src/main/java/lab_4/WeightedGraph/GraphToWeightedGraphConverter.java:51-79 | the same for one row |
| WeightedGraphConverter.AddEntry | AA_lab_3/src/main/java/lab_4/WeightedGraph/GraphToWeightedGraphConverter.java:54-77 | the same for one entry |
| WeightedGraphConverter.ConvertToWeightedGraph | AA_lab_3/src/main/java/lab_4/WeightedGraph/GraphToWeightedGraphConverter.java:25-83 | null or min > max throws; otherwise a fresh graph with the same direction and every vertex, one addEdge per entry, weights in range, the same weight both ways when undirected |
| WeightedGraphConverter.ConvertWithDefaultRange | AA_lab_3/src/main/java/lab_4/WeightedGraph/GraphToWeightedGraphConverter.java:118-120 | the same with weights from 1 to 100 |
| WeightedConversion.KeysOfEntries | AA_lab_3/src/main/java/lab_4/WeightedGraph/GraphToWeightedGraphConverter.java:35-80 | the converted graph's vertices are the input's keys and every vertex its lists name |
| Dijkstra.DijkstraAlgorithm.constructor | AA_lab_3/src/main/java/lab_4/Dijkstra/DijkstraAlgorithm.java:21-23 | keeps the graph |
| Dijkstra.InitialDistances | AA_lab_3/src/main/java/lab_4/Dijkstra/DijkstraAlgorithm.java:54-57 | zero at the source and infinity at every other vertex |
| Dijkstra.Relax | AA_lab_3/src/main/java/lab_4/Dijkstra/DijkstraAlgorithm.java:76-97 | settled targets are skipped; a shorter distance is lowered, the previous vertex set and the target queued |
| Dijkstra.Visit | AA_lab_3/src/main/java/lab_4/Dijkstra/DijkstraAlgorithm.java:65-97 | a settled vertex is skipped; another is settled once and its entries relaxed |
| Dijkstra.SettleAll | AA_lab_3/src/main/java/lab_4/Dijkstra/DijkstraAlgorithm.java:63-98 | polling until the queue is empty leaves the final distances |
| Dijkstra.SettleUntil | AA_lab_3/src/main/java/lab_4/Dijkstra/DijkstraAlgorithm.java:141-180 | stops when the destination is polled, by then no farther than any walk to it when no weight is negative |
| Dijkstra.Trace | AA_lab_3/src/main/java/lab_4/Dijkstra/DijkstraAlgorithm.java:189-197 | following previous vertices back and reversing gives the walk kept for the destination |
| Dijkstra.DijkstraAlgorithm.FindShortestPaths | AA_lab_3/src/main/java/lab_4/Dijkstra/DijkstraAlgorithm.java:32-101 | throws for an absent source; every vertex has a distance, 0 at the source, infinite exactly when unreachable, each finite one a walk's weight and, with no negative weight, the least |
| Dijkstra.DijkstraAlgorithm.FindShortestPath | AA_lab_3/src/main/java/lab_4/Dijkstra/DijkstraAlgorithm.java:110-200 | throws for an absent end; empty exactly when unreachable; otherwise a walk from source to destination, the lightest one when no weight is negative |
| DijkstraSearch.Finished | AA_lab_3/src/main/java/lab_4/Dijkstra/DijkstraAlgorithm.java:63-98 | once the queue is empty the distances are final and least |
| DijkstraSearch.Recorded | AA_lab_3/src/main/java/lab_4/Dijkstra/DijkstraAlgorithm.java:88-91 | a reached vertex's distance is the weight of the walk its previous vertices trace |
| DijkstraSearch.PolledSettled | AA_lab_3/src/main/java/lab_4/Dijkstra/DijkstraAlgorithm.java:68-70 | dropping a stale queue entry keeps the search invariant |
| DijkstraSearch.Improvement | AA_lab_3/src/main/java/lab_4/Dijkstra/DijkstraAlgorithm.java:85-96 | lowering a target's distance to the settled vertex's distance plus the entry's weight, recording the previous vertex and queueing the target keeps the search invariant |
| FloydWarshall.IndexVertices | AA_lab_3/src/main/java/lab_4/FloydWarshall/FloydWarshall.java:20-23 | each vertex maps to its position |
| FloydWarshall.NewMatrices | AA_lab_3/src/main/java/lab_4/FloydWarshall/FloydWarshall.java:28-34 | zero on the diagonal, infinity elsewhere, -1 as every hop |
| FloydWarshall.LoadEntries | AA_lab_3/src/main/java/lab_4/FloydWarshall/FloydWarshall.java:36-43 | each entry u→v writes its weight and hop v, the last listed entry winning, a self-loop overwriting the 0 |
| FloydWarshallMatrix.BaseEntries | AA_lab_3/src/main/java/lab_4/FloydWarshall/FloydWarshall.java:36-43 | a loaded entry is finite exactly on the diagonal or where an entry leads, holding that entry's weight |
| FloydWarshall.RelaxAll | AA_lab_3/src/main/java/lab_4/FloydWarshall/FloydWarshall.java:45-54 | the triple loop leaves the matrices of the specification |
| FloydWarshallMatrix.Step | AA_lab_3/src/main/java/lab_4/FloydWarshall/FloydWarshall.java:48-51 | a distance never rises; when it drops the hop becomes the hop towards k |
| FloydWarshall.FindAllPairsShortestPaths | AA_lab_3/src/main/java/lab_4/FloydWarshall/FloydWarshall.java:16-61 | fresh distance and next matrices equal to the final matrices whose meaning the Final lemmas state |
| FloydWarshallMatrix.FinalWitnessed | AA_lab_3/src/main/java/lab_4/FloydWarshall/FloydWarshall.java:45-58 | every finite distance is the weight of a route that starts with the pair's hop |
| FloydWarshallMatrix.FinalFinite | AA_lab_3/src/main/java/lab_4/FloydWarshall/FloydWarshall.java:45-58 | a distance is finite exactly when some route has a finite weight |
| FloydWarshallMatrix.FinalLeast | AA_lab_3/src/main/java/lab_4/FloydWarshall/FloydWarshall.java:45-58 | with no negative cycle each distance is the least route weight |
| FloydWarshallMatrix.FinalSimpleLeast | AA_lab_3/src/main/java/lab_4/FloydWarshall/FloydWarshall.java:45-58 | no simple route weighs less than the distance, even with negative cycles |
| FloydWarshallMatrix.FinalHop | AA_lab_3/src/main/java/lab_4/FloydWarshall/FloydWarshall.java:45-58 | off the diagonal a hop exists exactly for a finite distance, and is a neighbour of the origin |
| MatrixRoutes.RelaxBounded | AA_lab_3/src/main/java/lab_4/FloydWarshall/FloydWarshall.java:48-51 | one relaxation extends the bound to routes through indices below k+1 |
| FloydWarshall.FollowHops | AA_lab_3/src/main/java/lab_4/FloydWarshall/FloydWarshall.java:88-92 | follows next until the end index, listing each vertex; a bad index throws, and a revisited index never stops |
| FloydWarshall.ReconstructPath | AA_lab_3/src/main/java/lab_4/FloydWarshall/FloydWarshall.java:71-95 | a missing vertex throws; hop -1 gives the empty path; otherwise the path follows the hops from start to end |
| FloydWarshallMatrix.FinalWalk | AA_lab_3/src/main/java/lab_4/FloydWarshall/FloydWarshall.java:88-92 | on the final matrices the hops never leave the vertices and each step is an edge of the graph |
| FloydWarshall.GetShortestDistance | AA_lab_3/src/main/java/lab_4/FloydWarshall/FloydWarshall.java:191-205 | the final matrix's entry for the pair; a missing vertex throws NullPointerException |
| FloydWarshall.NewDistances | AA_lab_3/src/main/java/lab_4/FloydWarshall/FloydWarshall.java:145-150 | zero on the diagonal, infinity elsewhere |
| FloydWarshall.LoadDistances | AA_lab_3/src/main/java/lab_4/FloydWarshall/FloydWarshall.java:153-159 | the loaded distances |
| FloydWarshall.GuardedAll | AA_lab_3/src/main/java/lab_4/FloydWarshall/FloydWarshall.java:162-172 | the relaxation skipping infinite operands changes the distances as the unguarded one does |
| FloydWarshall.NegativeDiagonal | AA_lab_3/src/main/java/lab_4/FloydWarshall/FloydWarshall.java:175-179 | whether some diagonal entry is negative |
| FloydWarshall.HasNegativeCycle | AA_lab_3/src/main/java/lab_4/FloydWarshall/FloydWarshall.java:131-182 | true exactly when some route returns to its start with negative weight |
| FloydWarshallMatrix.NegativeCycleDiagonal | AA_lab_3/src/main/java/lab_4/FloydWarshall/FloydWarshall.java:175-179 | a negative diagonal entry exactly when a negative cycle exists |
| MinimumSpanningTrees.MinimumSpanningTreeGraph.constructor | AA_lab_3/src/main/java/lab_5/Algorithms/MinimumSpanningTreeGraph.java:47-68 | the vertices, then each undirected pair once from the end whose name is not greater; no tree yet |
| MinimumSpanningTrees.CopyVertices | AA_lab_3/src/main/java/lab_5/Algorithms/MinimumSpanningTreeGraph.java:54-56 | every vertex with an empty list |
| MinimumSpanningTrees.CopyEdges | AA_lab_3/src/main/java/lab_5/Algorithms/MinimumSpanningTreeGraph.java:59-67 | addEdge for every entry the undirected rule keeps |
| SpanningEdges.CopiedEntries | AA_lab_3/src/main/java/lab_5/Algorithms/MinimumSpanningTreeGraph.java:59-67 | a directed copy has the original's entries; an undirected symmetric copy has them, doubled between equal names |
| SpanningEdges.CompareFlip | AA_lab_3/src/main/java/lab_5/Algorithms/MinimumSpanningTreeGraph.java:62 | swapping the strings negates compareTo |
| MinimumSpanningTrees.MinimumSpanningTreeGraph.ComputePrimMST | AA_lab_3/src/main/java/lab_5/Algorithms/MinimumSpanningTreeGraph.java:77-132 | an absent start throws and changes nothing; otherwise the tree lists, cost and flags are rebuilt as a Prim run and the warning condition is returned; without the warning, on a graph with entries in both directions, the tree is a minimum spanning tree |
| MinimumSpanningTrees.RunPrim | AA_lab_3/src/main/java/lab_5/Algorithms/MinimumSpanningTreeGraph.java:81-129 | reset, then the heap loop: a forest of graph entries on all vertices. When every vertex is reached and every entry has a reverse of the same weight, it is a minimum spanning tree |
| Prim.PushAll | AA_lab_3/src/main/java/lab_5/Algorithms/MinimumSpanningTreeGraph.java:96-98 | a heap entry per entry of the start's list |
| Prim.PushUnvisited | AA_lab_3/src/main/java/lab_5/Algorithms/MinimumSpanningTreeGraph.java:120-124 | a heap entry per entry into an unvisited vertex |
| Prim.Poll | AA_lab_3/src/main/java/lab_5/Algorithms/MinimumSpanningTreeGraph.java:101 | takes out an entry no heavier than any other, ties broken arbitrarily |
| Prim.PollStep | AA_lab_3/src/main/java/lab_5/Algorithms/MinimumSpanningTreeGraph.java:101-124 | stale entries are dropped; a fresh one joins the tree, adds its weight and pushes new entries |
| Prim.GrowTree | AA_lab_3/src/main/java/lab_5/Algorithms/MinimumSpanningTreeGraph.java:100-129 | each tree entry is a lightest one leaving the tree; it reaches exactly the vertices connected to start, one edge per vertex besides start; spanning iff all are connected |
| PrimInvariant.PrimDone | AA_lab_3/src/main/java/lab_5/Algorithms/MinimumSpanningTreeGraph.java:100 | when the loop stops the tree's vertices are the connected ones |
| SpanningForests.GrownAcyclic | AA_lab_3/src/main/java/lab_5/Algorithms/MinimumSpanningTreeGraph.java:110-118 | accepting only into unvisited vertices builds a forest |
| PrimMinimum.PrimCut | AA_lab_3/src/main/java/lab_5/Algorithms/MinimumSpanningTreeGraph.java:100-124 | the k-th tree edge is a lightest entry leaving the vertices reached before it, and no earlier tree edge crosses that cut |
| PrimMinimum.GrownLinksAll | AA_lab_3/src/main/java/lab_5/Algorithms/MinimumSpanningTreeGraph.java:110-124 | the tree grown from start links every two of its vertices |
| PrimMinimum.PrimMinimal | AA_lab_3/src/main/java/lab_5/Algorithms/MinimumSpanningTreeGraph.java:77-132 | a tree reaching every vertex of a graph whose entries come in both directions is a minimum spanning tree: no spanning tree of graph entries costs less |
| MinimumTrees.Exchange | AA_lab_3/src/main/java/lab_5/Algorithms/MinimumSpanningTreeGraph.java:100-118 | the exchange: a spanning tree can give up one of its edges crossing a cut for a crossing entry no heavier than them, and still span at no greater cost |
| MinimumTrees.CutsMinimal | AA_lab_3/src/main/java/lab_5/Algorithms/MinimumSpanningTreeGraph.java:100-118 | the cut property: a spanning tree whose every edge was a lightest entry across a cut its earlier edges do not cross costs no more than any spanning tree |
| MinimumTrees.CutStep | AA_lab_3/src/main/java/lab_5/Algorithms/MinimumSpanningTreeGraph.java:100-118 | one exchange: a spanning tree holding the edges chosen so far also takes the next one, at no greater cost |
| MinimumTrees.CostPermutation | AA_lab_3/src/main/java/lab_5/Algorithms/MinimumSpanningTreeGraph.java:114 | the summed cost does not depend on the order of the edges |
| MinimumTrees.LightAcross | AA_lab_3/src/main/java/lab_5/Algorithms/MinimumSpanningTreeGraph.java:101 | with entries in both directions, a lightest entry leaving a cut is no heavier than any entry crossing it either way |
| MinimumSpanningTrees.MinimumSpanningTreeGraph.ComputeKruskalMST | AA_lab_3/src/main/java/lab_5/Algorithms/MinimumSpanningTreeGraph.java:211-252 | the tree lists and cost are rebuilt as a Kruskal run and the cost returned; on a connected graph with entries in both directions the tree is a minimum spanning tree |
| MinimumSpanningTrees.RunKruskal | AA_lab_3/src/main/java/lab_5/Algorithms/MinimumSpanningTreeGraph.java:212-248 | reset, list, sort, accept: a forest of listed entries in weight order linking the ends of every entry. When every entry has a reverse of the same weight and some spanning tree exists, it is a minimum spanning tree |
| MinimumSpanningTrees.EntryListed | AA_lab_3/src/main/java/lab_5/Algorithms/MinimumSpanningTreeGraph.java:219-227 | every entry is listed, or its reverse when the undirected rule skips it |
| MinimumSpanningTrees.EntriesLinked | AA_lab_3/src/main/java/lab_5/Algorithms/MinimumSpanningTreeGraph.java:219-248 | the accepted edges link the ends of every entry of the graph |
| MinimumSpanningTrees.GreedyEntries | AA_lab_3/src/main/java/lab_5/Algorithms/MinimumSpanningTreeGraph.java:219-248 | every graph entry lighter than an accepted edge was linked by the edges accepted before it |
| MinimumSpanningTrees.KruskalSpans | AA_lab_3/src/main/java/lab_5/Algorithms/MinimumSpanningTreeGraph.java:211-252 | on a graph with entries in both directions and some spanning tree, the accepted edges link every vertex and are a minimum spanning tree |
| MinimumSpanningTrees.PrimKruskalSameCost | AA_lab_3/src/main/java/lab_5/Algorithms/MinimumSpanningTreeGraph.java:77-252 | on a graph with entries in both directions, when Prim reaches every vertex, computePrimMST and computeKruskalMST return the same cost |
| Kruskal.ListEdges | AA_lab_3/src/main/java/lab_5/Algorithms/MinimumSpanningTreeGraph.java:219-227 | the triples of every entry the undirected rule keeps, in vertex order |
| EdgeSort.SortByWeight | AA_lab_3/src/main/java/lab_5/Algorithms/MinimumSpanningTreeGraph.java:229 | a stable sort: the same triples, in non-decreasing weight, and for every weight the triples of that weight in their original order (OfWeight) |
| EdgeSort.InsertStable | AA_lab_3/src/main/java/lab_5/Algorithms/MinimumSpanningTreeGraph.java:229 | inserting a triple behind the equal weights keeps each weight's triples in order, the new one last |
| Kruskal.ScanEdge | AA_lab_3/src/main/java/lab_5/Algorithms/MinimumSpanningTreeGraph.java:233-248 | an edge is accepted and its sets merged exactly when isSameSet says its ends are apart |
| Kruskal.AcceptEdges | AA_lab_3/src/main/java/lab_5/Algorithms/MinimumSpanningTreeGraph.java:231-248 | accepted edges are listed edges in weight order, form a forest, link every edge's ends and number at most \|V\|-1, exactly \|V\|-1 when they link every vertex; every edge lighter than an accepted one was linked before it (Greedy) |
| KruskalInvariant.AcceptKeepsForest | AA_lab_3/src/main/java/lab_5/Algorithms/MinimumSpanningTreeGraph.java:236-246 | an edge between different sets never closes a cycle |
| KruskalInvariant.GreedyAccept | AA_lab_3/src/main/java/lab_5/Algorithms/MinimumSpanningTreeGraph.java:236-246 | after accepting an edge, every scanned edge lighter than an accepted one was linked by the edges accepted before that one |
| KruskalInvariant.OneSet | AA_lab_3/src/main/java/lab_5/Algorithms/MinimumSpanningTreeGraph.java:236-246 | accepted edges linking every vertex leave a single set |
| KruskalInvariant.AcceptDone | AA_lab_3/src/main/java/lab_5/Algorithms/MinimumSpanningTreeGraph.java:231-248 | after the last edge the ends of every edge are linked; the accepted edges number at most \|V\|-1, and exactly that when they link every vertex |
| KruskalMinimum.KruskalCut | AA_lab_3/src/main/java/lab_5/Algorithms/MinimumSpanningTreeGraph.java:233-246 | each accepted edge is a lightest entry leaving the vertices the earlier accepted edges link to its source, and no earlier edge crosses that cut |
| KruskalMinimum.KruskalMinimal | AA_lab_3/src/main/java/lab_5/Algorithms/MinimumSpanningTreeGraph.java:211-252 | a greedy forest of entries that links every vertex with \|V\|-1 edges is a minimum spanning tree |
| MinimumSpanningTrees.MinimumSpanningTreeGraph.RecordTree | AA_lab_3/src/main/java/lab_5/Algorithms/MinimumSpanningTreeGraph.java:130-131 | stores the lists, the cost and the computed flag |
| MinimumSpanningTrees.MinimumSpanningTreeGraph.GetMSTAsGraph | AA_lab_3/src/main/java/lab_5/Algorithms/MinimumSpanningTreeGraph.java:157-188 | throws before any run; otherwise a fresh graph with the tree's vertices and every tree entry exactly as often as the tree lists hold it |
| MinimumSpanningTrees.AddTreeEdges | AA_lab_3/src/main/java/lab_5/Algorithms/MinimumSpanningTreeGraph.java:170-187 | addEdge for each tree entry, an undirected pair once |
| TreeGraphs.NameKeyCollision | AA_lab_3/src/main/java/lab_5/Algorithms/MinimumSpanningTreeGraph.java:177-183 | as written: names "a-b"/"c" and "a"/"b-c" share the key "a-b-c", so the second tree edge is dropped |
| TreeGraphs.NameKeyIsPair | AA_lab_3/src/main/java/lab_5/Algorithms/MinimumSpanningTreeGraph.java:177-183 | for injective names without '-', two edges get the same string key exactly when they join the same pair of vertices |
| TreeGraphs.NameKeyAgrees | AA_lab_3/src/main/java/lab_5/Algorithms/MinimumSpanningTreeGraph.java:177-183 | for such names, deduplicating by the string key keeps exactly the edges that deduplicating by the pair keeps |
| TreeGraphs.MaterializedCounts | AA_lab_3/src/main/java/lab_5/Algorithms/MinimumSpanningTreeGraph.java:162-187 | keyed by the pair of ends, the returned graph holds every tree entry exactly as often as the tree lists |
| MinimumSpanningTrees.MinimumSpanningTreeGraph.IsMSTComputed | AA_lab_3/src/main/java/lab_5/Algorithms/MinimumSpanningTreeGraph.java:195-197 | the computed flag |
| DisjointSetForest.DisjointSets.constructor | AA_lab_3/src/main/java/lab_5/Algorithms/MinimumSpanningTreeGraph.java:281-290 | every vertex its own root, rank 0 |
| DisjointSetForest.DisjointSets.Find | AA_lab_3/src/main/java/lab_5/Algorithms/MinimumSpanningTreeGraph.java:296-301 | the representative, a root; path compression changes no set, rank or root |
| DisjointSetForest.DisjointSets.Union | AA_lab_3/src/main/java/lab_5/Algorithms/MinimumSpanningTreeGraph.java:306-322 | the two sets merge and no other changes; a rank rises only on equal ranks; the root count drops by one unless already joined |
| DisjointSetForest.DisjointSets.IsSameSet | AA_lab_3/src/main/java/lab_5/Algorithms/MinimumSpanningTreeGraph.java:327-329 | true exactly when both have the same representative |
| DisjointSetForest.RelabelSame | AA_lab_3/src/main/java/lab_5/Algorithms/MinimumSpanningTreeGraph.java:306-322 | after a union x and y share a set, and other vertices share one exactly as before or through x and y |
| DisjointSetForest.RootsAreReps | AA_lab_3/src/main/java/lab_5/Algorithms/MinimumSpanningTreeGraph.java:296-301 | the representatives are exactly the roots, vertices that are their own parent |

## Left out

- Printing: printGraph, printMST, the Dijkstra and Floyd–Warshall print helpers, the BFS queue-size output and the DFS vertex output are not modelled. The disconnected-graph warning of computePrimMST is the `disconnected` result of `ComputePrimMST`.
- Minimality of the spanning trees is proved only for graphs whose entries come in both directions with equal weights, which every undirected graph satisfies. On other directed graphs both algorithms still build the stated forests, but the minimum there would be an arborescence, which the model does not define.
- HashMap and HashSet iteration order is a parameter: `order`, `vertices` or a nondeterministic choice. PriorityQueue ties are an arbitrary choice among the lightest entries.
- Weights are exact reals with an explicit infinity. IEEE doubles, NaN, rounding and `Double.compare` are not modelled. Floyd–Warshall's `next` matrix is a `double[][]` in Java and an `int` matrix here.
- FloydWarshall.FindAllPairsShortestPaths: the triangle inequality dist[i][j] <= dist[i][k] + dist[k][j] is not stated. The final distances are characterised as least route weights instead.
- FloydWarshall.ReconstructPath: reaching the end and the path weight are not proved for arbitrary `next` matrices. FinalWalk states that on the final matrices every hop stays among the vertices along graph edges. The `main` sample graph is not evaluated.
- Dijkstra.DijkstraAlgorithm.FindShortestPath: the result is a walk with weights proved least, not a simple path.
- Dijkstra: the live-keyed comparator is modelled as "poll a queued vertex of least current distance".
- Overflow of Java `long` in the Fibonacci generators and of `int` in DensityToEdgeConverter is not modelled. The methods are proved equal to F(n) over unbounded integers; the `int` argument and the wrapping of the loop bounds and exponents are modelled.
- FibonacciGenerator.BottomUpDPFib: requires n < Integer.MAX_VALUE. For Integer.MAX_VALUE the loop test i <= n holds for every int and i++ wraps, so the Java loop never ends; a terminating method cannot return for it.
- binetFormulaFib and binetFormulaFib2 use floating point and BigDecimal, so they are not modelled.
- FibonacciGenerator.FastDoublingFib: requires n >= 0, because for a negative n the Java recursion never terminates.
- FibonacciGenerator.FastDoublingFibHelper: requires n >= 0. The Java helper accepts a negative n and recurses until a StackOverflowError, which the model does not capture.
- MergeSorter.Divide: `(start + end) / 2` is computed on unbounded integers; Java's int sum wraps once start + end exceeds 2^31 - 1, which is not modelled.
- MergeSorter.MergeSortIterative: `size *= 2` and `leftStart += 2 * size` are unbounded; Java's int wraps for arrays above about 2^30 elements, which is not modelled.
- HeapSorter.Heapify: the children `2 * i + 1` and `2 * i + 2` are unbounded; Java's int wraps for heaps above about 2^30 elements, which is not modelled. The same holds for HeapSorter.HeapSort and HeapSorter.HeapSortHelper, which call it.
- HeapSorter.TernaryHeapify: the children `3 * i + 1..3` are unbounded; Java's int wraps for heaps above about 7·10^8 elements, which is not modelled. The same holds for HeapSorter.TernaryHeapSort, which calls it.
- MergeSorter.MergeSortHelper: inherits the unbounded index arithmetic of MergeSorter.Divide.
- MinimumSpanningTrees.MinimumSpanningTreeGraph.GetMSTAsGraph: undirected tree edges are deduplicated by the pair of ends (AddTreeEdges), not by the string key name + "-" + name. TreeGraphs.NameKeyAgrees proves the two agree when names are injective and contain no '-'. The string key as written is modelled by TreeGraphs.NameKeyCollision (see Findings).
- Randomness in the generators:
  - generateConnectedGraph's random spanning tree and shuffled extra edges, createBipartiteSpanningTree, addRandomBipartiteEdges and the k-regular retry loop are not modelled.
  - The k-regular shuffle is a parameter equal to the stubs as a multiset.
  - The converter's random weight is any value in range.
- String.compareTo is modelled on `seq<char>` code units, the same order as Java's UTF-16 comparison.
- getVertices of both graph classes is the adjacency map's key set, read directly. `HasVertex` states how the two relate.
- Reflection access to the adjacency list in DirectedUndirectedGraphGenerator is modelled as direct field access.
- KRegularGraphTester's file storage, Gson and object streams, KRegularGraphStorage and KRegularGraphExample are not modelled: they are I/O.
- The Swing visualizers, benchmark drivers and console menus are not modelled: they are GUI, timing and input code.
- MergeSorter.Merge: the two temporary arrays are sequence values here. Aliasing of those fresh arrays is not modelled.

## Findings

| source | as written | input that shows it | evidently intended | confidence | as-written member | corrected member |
|---|---|---|---|---|---|---|
| AA_lab_2/src/main/java/InsertionSorter.java:3-5, 20-22 | both helpers pass arr.length - 1 as n, so the last element is never sorted | [2, 1] stays [2, 1] | pass arr.length and sort the whole array | high, not executed | InsertionSorter.HelperLeavesUnsorted | InsertionSorter.InsertionSortWhole |
| AA_lab_3/src/main/java/Bipartite/BipartiteGraphGenerator.java:220-231 | maxEdges = sizeOfU * sizeOfV is an int product that wraps | n = 100000, sizeOfU = 50000, m = 99999 is refused as too many edges | compare against the true product; n-1 edges always pass | high, not executed | BipartiteGenerator.OverflowRefusesTree | BipartiteGenerator.TreeEdgesAccepted |
| AA_lab_3/src/main/java/DirectedAndUndirected/DirectedUndirectedGraphGenerator.java:22-31 | n * (n - 1) is an int product that wraps | n = 46342, m = 46341 is refused as too many edges | compare against the true product; n-1 edges always pass | high, not executed | DirectedUndirectedGenerator.OverflowRefusesTree | DirectedUndirectedGenerator.TreeEdgeCountAccepted |
| AA_lab_3/src/main/java/lab_5/Algorithms/MinimumSpanningTreeGraph.java:177-183 | undirected tree edges are deduplicated by the string key name + "-" + name | tree edges a-b–c and a–b-c both get the key "a-b-c", so the second one is dropped | one key per unordered pair of vertices | medium, not executed | TreeGraphs.NameKeyCollision | TreeGraphs.MaterializedCounts |
