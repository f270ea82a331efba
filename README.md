# Bitwise graph traversals and colouring checks, modelled in Dafny

This project models the computational core of a study of bit-packed graph storage. The study has three parts:

- Breadth-first and depth-first search over an adjacency matrix stored as 64-bit words (`BFSBtwTemp`, `DFSBtwTemp`), beside the same searches over adjacency lists (`BFSCstm`, `DFSCstm`).
- The variable-width packed value array of the equitable-colouring code (`bitwiseCustom.hpp`).
- The Python script that checks a graph colouring (`checkValidation.py`).

All of it is modelled in the source's own form. The C++ classes become Dafny classes with `modifies` clauses, and their loops become `while`/`for` loops with invariants. The Python helpers that compute values become functions, and the loops that build lists and dictionaries become methods proved equal to those functions.

Modules, one concern each:

- `Words`: 64-bit words as integers in [0, 2^64), with `&`, `|`, `~`, `<<`, `>>` each specified bit by bit. `__builtin_ctzll` and `__builtin_clzll` are specified by the lowest and highest set bit.
- `Bitwise`: the bitset macros (`BLOCK_INDEX`, `MASK_INDEX`, `MASK`, `TOTAL_BLOCK_NUM`, `CHECK_BIT`, `SET_TRUE`, `SET_EDGE`). They are written on word sequences, and `SET_TRUE` and `SET_EDGE` are also methods that update arrays in place. The module also holds the graph a bit matrix denotes, and the ids a row scan emits.
- `Graphs`: neighbour-set graphs, the breadth layers `Within(g, s, k)`, reachability and shortest distance.
- `AdjLists`: the `resize` and `push_back` updates of adjacency lists, and the graph the lists denote.
- `BfsTheory` and `DfsTheory`: the invariants that both BFS and both DFS variants keep, and what the invariants give when the search ends.
- `BfsList`, `BfsBitset`, `DfsList`, `DfsBitset`: the four classes. Each has edge loading and the search loop.
- `Packed`: `var::init`, `SET_VALUE`, `GET_VALUE` and the two bulk operations. The global `config` becomes a `Config` object.
- `PyText`: the Python text built-ins the checker uses: `strip`, `split`, `split('\n')`, `startswith`, `int()` and `str()`.
- `Validation`: `parse_graph_file` over the lines of a file, `parse_coloring_string`, `verify_coloring_validity` and `verify_equitable_coloring`. An exception that the script does not catch is the outcome `Raised`.

Three behaviours are modelled exactly as the code has them:

- The DFS over the bit matrix pushes a neighbour under the guard `~CHECK_BIT(visited, v)`. That guard is never zero, so every neighbour is pushed and the skip at the top of the loop does the filtering. `DfsBitset.PushGuard` proves that the guard is always nonzero.
- The BFS over the bit matrix stops scanning a word at the first id `>= num_nodes`.
- Both DFS of `compute` start from vertex 0.

## Model

| member | source | states |
|---|---|---|
| Bitwise.BlockIndex | EquitableGraphColoring/bitwise.hpp:4 | bit b lies in the 64-bit block r with 64·r ≤ b < 64·r + 64 |
| Bitwise.MaskIndex | EquitableGraphColoring/bitwise.hpp:6 | the position r inside the block is below 64 and b == 64·BLOCK_INDEX(b) + r |
| Bitwise.TotalBlockNum | EquitableGraphColoring/bitwise.hpp:5 | for 1 ≤ n < 2^64 the row length is ceil(n/64); for n = 0 the unsigned wrap of `n-1` gives 2^58 |
| Bitwise.BlocksCover | EquitableGraphColoring/bitwise.hpp:4-5 | every index below n lies in a block below TOTAL_BLOCK_NUM(n) |
| Bitwise.Mask | EquitableGraphColoring/bitwise.hpp:7 | MASK(b) has exactly one set bit, at position MASK_INDEX(b) |
| Bitwise.CheckBit | EquitableGraphColoring/bitwise.hpp:9 | the result is nonzero exactly when bit index is set, and it is either 0 or MASK(index) |
| Bitwise.WithBit | EquitableGraphColoring/bitwise.hpp:10 | SET_TRUE changes only word BLOCK_INDEX(index); afterwards the set bits are the old ones plus index |
| Bitwise.SetTrue | EquitableGraphColoring/bitwise.hpp:10 | the in-place `|=` on an array leaves it equal to WithBit of its old contents |
| Bitwise.AddEdge | EquitableGraphColoring/bitwise.hpp:8 | SET_EDGE keeps every row length; bit y of row x is set afterwards exactly when it was set before or (x, y) is (u, v) or (v, u) |
| Bitwise.SetEdge | EquitableGraphColoring/bitwise.hpp:8 | the in-place update of the matrix leaves its rows equal to AddEdge of the old rows |
| Bitwise.BitGraph | EquitableGraphColoring/bitwise.hpp:9 | the graph a matrix denotes: y is a neighbour of x exactly when bit y of row x is set |
| Bitwise.ZeroMatrix | Bfs-DfsTransformation/bfsLib/bfsBtwTemp.hpp:45 | n zeroed rows of TOTAL_BLOCK_NUM(n) words are symmetric, have no padding bit at or above n, and have no bit set |
| Bitwise.AddEdgeKeepsMatrix | EquitableGraphColoring/bitwise.hpp:5-8 | SET_EDGE with ends in [0, n) keeps the row lengths, keeps the matrix symmetric, and sets no padding bit |
| Bitwise.AddEdgeGraph | EquitableGraphColoring/bitwise.hpp:8 | after SET_EDGE the matrix denotes the old graph with the undirected edge {u, v} added |
| Bitwise.Shifted | Bfs-DfsTransformation/dfsLib/dfsBtwTemp.hpp:99 | an offset inside block b names vertex `(b << 6) + offset` |
| Bitwise.RowIdsSpec | Bfs-DfsTransformation/dfsLib/dfsBtwTemp.hpp:95-104 | the ids a row scan emits are below 64·(row length), are exactly the set bits of the row, and are strictly ascending |
| Words.And | EquitableGraphColoring/bitwiseCustom.hpp:39 | bit j of `a & b` is set exactly when it is set in both, so the result is at most either operand |
| Words.Or | EquitableGraphColoring/bitwiseCustom.hpp:40 | bit j of `a \| b` is set exactly when it is set in either; the result stays below any power of two both are below |
| Words.OrWord | EquitableGraphColoring/bitwiseCustom.hpp:40 | `\|` of two words is a word with the union of their bits |
| Words.Not | EquitableGraphColoring/bitwiseCustom.hpp:39 | `~a` on a 64-bit word flips exactly the 64 bit positions |
| Words.Shl | EquitableGraphColoring/bitwiseCustom.hpp:38 | `a << k` moves bit j to j + k and drops the bits that pass position 63 |
| Words.Shr | EquitableGraphColoring/bitwiseCustom.hpp:45 | `a >> k` moves bit j + k to j |
| Words.Ctz | Bfs-DfsTransformation/bfsLib/bfsBtwTemp.hpp:73 | `__builtin_ctzll(w)` for w ≠ 0 is the position of a set bit with no set bit below it |
| Words.ClearLowestAll | Bfs-DfsTransformation/bfsLib/bfsBtwTemp.hpp:80 | `bits & (bits - 1)` clears the lowest set bit and keeps every other bit |
| Words.ScanOrderSpec | Bfs-DfsTransformation/bfsLib/bfsBtwTemp.hpp:72-81 | the `while (bits)` scan emits exactly the set bits of the word, each once, in ascending order |
| Words.Clz | EquitableGraphColoring/bitwiseCustom.hpp:20 | `__builtin_clzll(x)` for x ≠ 0 counts the zero bits above the highest set bit |
| Words.TopBit | EquitableGraphColoring/bitwiseCustom.hpp:20 | the bit length of a nonzero word is between 1 and 64, its top bit is set, and no bit above it is set |
| Graphs.AddUndirected | Bfs-DfsTransformation/bfsLib/bfsCstm.hpp:46-47 | adding {u, v} adds v to u's neighbours and u to v's, and keeps graphs well formed and undirected |
| Graphs.Walks | Bfs-DfsTransformation/bfsLib/bfsBtwTemp.hpp:107-108 | v is within k layers of s exactly when some walk of at most k edges leads from s to v, so distances are hop counts |
| Graphs.ShortestUnique | Bfs-DfsTransformation/bfsLib/bfsBtwTemp.hpp:107-108 | a vertex has at most one shortest distance |
| Graphs.ShortestPredecessor | Bfs-DfsTransformation/bfsLib/bfsBtwTemp.hpp:107-108 | a vertex at shortest distance d > 0 is in the neighbour set of some vertex at shortest distance d - 1 |
| AdjLists.AddEdge | Bfs-DfsTransformation/bfsLib/bfsCstm.hpp:46-47 | v goes to the end of u's list and u to the end of v's (a self-loop is appended twice); every other list is unchanged |
| AdjLists.AddEdgeInRange | Bfs-DfsTransformation/bfsLib/bfsCstm.hpp:46-47 | appending an edge with ends in range keeps every list entry a vertex |
| AdjLists.AddEdgeSymmetric | Bfs-DfsTransformation/bfsLib/bfsCstm.hpp:46-47 | appending both ends keeps "v in list u exactly when u in list v" |
| AdjLists.Resize | Bfs-DfsTransformation/bfsLib/bfsCstm.hpp:38 | `resize(n)` keeps the first lists and adds empty ones up to n |
| AdjLists.ResizeKeeps | Bfs-DfsTransformation/bfsLib/bfsCstm.hpp:38 | growing the vector keeps the lists in range and symmetric |
| AdjLists.ListGraph | Bfs-DfsTransformation/bfsLib/bfsCstm.hpp:16 | the graph the lists denote: in-range lists give a well formed graph and symmetric lists an undirected one |
| AdjLists.AddEdgeGraph | Bfs-DfsTransformation/bfsLib/bfsCstm.hpp:46-47 | after the two `push_back`s the lists denote the old graph with {u, v} added |
| BfsTheory.BfsStart | Bfs-DfsTransformation/bfsLib/bfsCstm.hpp:55-58 | `dist` all -1 except start = 0, with start queued, satisfies the BFS invariant |
| BfsTheory.BfsDiscover | Bfs-DfsTransformation/bfsLib/bfsCstm.hpp:64-67 | an undiscovered neighbour of the queue head is at shortest distance dist[head] + 1, and recording and queuing it keeps the invariant |
| BfsTheory.NextLayer | Bfs-DfsTransformation/bfsLib/bfsCstm.hpp:64-65 | a neighbour of the head that is still -1 is exactly one layer further out |
| BfsTheory.BelowNextLayer | Bfs-DfsTransformation/bfsLib/bfsCstm.hpp:60-67 | no queued vertex is more than one layer beyond the head |
| BfsTheory.PushKeepsQueueOk | Bfs-DfsTransformation/bfsLib/bfsCstm.hpp:64-66 | queuing a vertex at its shortest distance keeps the queue distinct, in range and non-decreasing in dist |
| BfsTheory.ScanVisit | Bfs-DfsTransformation/bfsLib/bfsCstm.hpp:63-67 | looking at one more neighbour during an expansion keeps the invariant, whether it is discovered or already known |
| BfsTheory.ScanFinish | Bfs-DfsTransformation/bfsLib/bfsCstm.hpp:63-68 | once every neighbour of the head has been looked at, the head counts as expanded |
| BfsTheory.QueueBound | Bfs-DfsTransformation/bfsLib/bfsCstm.hpp:60-69 | every vertex is queued at most once, so at most n vertices are ever queued |
| BfsTheory.BfsDone | Bfs-DfsTransformation/bfsLib/bfsCstm.hpp:54-71 | with the queue drained: dist[start] = 0; dist[v] is -1 exactly when v is unreachable and is otherwise its shortest distance; every v at d > 0 has a neighbour at d - 1 |
| BfsTheory.DoneReachable | Bfs-DfsTransformation/bfsLib/bfsCstm.hpp:60-69 | with the queue drained, every reachable vertex has a distance |
| BfsTheory.DonePredecessor | Bfs-DfsTransformation/bfsLib/bfsCstm.hpp:64-65 | every vertex at distance d > 0 was discovered from a neighbour at distance d - 1 |
| BfsList.BfsCstm.constructor | Bfs-DfsTransformation/bfsLib/bfsCstm.hpp:21 | a new object has no vertices, no edges and no lists |
| BfsList.BfsCstm.ReadHeader | Bfs-DfsTransformation/bfsLib/bfsCstm.hpp:34-38 | the `p` line records both counts and resizes the lists, keeping them in range and symmetric |
| BfsList.BfsCstm.ReadArc | Bfs-DfsTransformation/bfsLib/bfsCstm.hpp:39-47 | an edge line with 1-based ends appends each 0-based end to the other's list, and the graph gains {u-1, v-1} |
| BfsList.BfsCstm.Bfs | Bfs-DfsTransformation/bfsLib/bfsCstm.hpp:54-71 | length num_nodes, dist[start] = 0; -1 exactly for the unreachable vertices; every other entry is the shortest hop count; every v at d > 0 is in the list of a vertex at d - 1; the final queue `pushed` starts with start, holds each discovered vertex exactly once and is ordered by distance |
| BfsList.ScanList | Bfs-DfsTransformation/bfsLib/bfsCstm.hpp:63-68 | the loop over the head's list looks at every neighbour and keeps the BFS invariant |
| BfsBitset.BfsBtwTemp.Graph | Bfs-DfsTransformation/bfsLib/bfsBtwTemp.hpp:26 | the matrix denotes a well formed, undirected graph whose edges are its set bits |
| BfsBitset.BfsBtwTemp.constructor | Bfs-DfsTransformation/bfsLib/bfsBtwTemp.hpp:29 | a new object has no vertices, no edges and an empty matrix |
| BfsBitset.BfsBtwTemp.ReadHeader | Bfs-DfsTransformation/bfsLib/bfsBtwTemp.hpp:41-45 | the `p` line records both counts and allocates n zeroed rows of TOTAL_BLOCK_NUM(n) words, so there are no edges yet |
| BfsBitset.BfsBtwTemp.ReadArc | Bfs-DfsTransformation/bfsLib/bfsBtwTemp.hpp:46-53 | an edge line applies SET_EDGE to the 0-based ends, and the graph gains {u-1, v-1} |
| BfsBitset.BfsBtwTemp.BfsMatrix | Bfs-DfsTransformation/bfsLib/bfsBtwTemp.hpp:59-85 | length num_nodes, dist[start] = 0; -1 exactly for the unreachable vertices; every other entry is the shortest hop count; every v at d > 0 has bit v set in the row of a vertex at d - 1; the final queue `pushed` starts with start, holds each discovered vertex exactly once and is ordered by distance |
| BfsBitset.ScanWord | Bfs-DfsTransformation/bfsLib/bfsBtwTemp.hpp:71-81 | scanning one word of the head's row looks at every neighbour in that block and keeps the BFS invariant |
| BfsBitset.ScanBit | Bfs-DfsTransformation/bfsLib/bfsBtwTemp.hpp:73-80 | one pass of `while (bits)` handles the id of the lowest set bit and clears exactly that bit |
| BfsBitset.BitInRow | Bfs-DfsTransformation/bfsLib/bfsBtwTemp.hpp:74 | `block_index * 64 + offset` of a set bit, when below n, is a neighbour of the head |
| BfsBitset.BlockTail | Bfs-DfsTransformation/bfsLib/bfsBtwTemp.hpp:75 | the `break` at the first id ≥ num_nodes skips no neighbour |
| BfsBitset.RowSeen | Bfs-DfsTransformation/bfsLib/bfsBtwTemp.hpp:70 | once all TOTAL_BLOCK_NUM(n) blocks are scanned, every neighbour has been looked at |
| DfsTheory.DfsStart | Bfs-DfsTransformation/dfsLib/dfsCstm.hpp:68-69 | the stack holding only vertex 0 satisfies the DFS invariant |
| DfsTheory.DfsSkip | Bfs-DfsTransformation/dfsLib/dfsCstm.hpp:78 | popping an already visited vertex and continuing keeps the invariant |
| DfsTheory.VisitBound | Bfs-DfsTransformation/dfsLib/dfsCstm.hpp:78-80 | an unvisited vertex still exists when one is popped, so fewer than n vertices have been visited |
| DfsTheory.DfsVisit | Bfs-DfsTransformation/dfsLib/dfsCstm.hpp:80-91 | visiting the popped vertex and pushing neighbours that, together with the visited ones, cover all of its neighbours keeps the invariant |
| DfsTheory.DfsDone | Bfs-DfsTransformation/dfsLib/dfsCstm.hpp:71-93 | when the stack is empty, vertex 0 was visited first and the visited vertices are exactly those reachable from 0 |
| DfsTheory.RanksArePermutation | Bfs-DfsTransformation/dfsLib/dfsCstm.hpp:80-84 | a vertex has a rank exactly when it was visited; ranks lie in 1..counter, are pairwise distinct, and every rank in 1..counter is used |
| DfsTheory.RanksOfStep | Bfs-DfsTransformation/dfsLib/dfsCstm.hpp:80-84 | a newly visited vertex still had -1 and gets rank counter + 1 |
| DfsTheory.RanksOverSpec | Bfs-DfsTransformation/dfsLib/dfsBtwTemp.hpp:72-93 | with `nodePos` kept across passes, ranks already given never change; a pass over an all -1 vector assigns the permutation 1..counter |
| DfsTheory.PoppedFlags | Bfs-DfsTransformation/dfsLib/dfsCstm.hpp:75-81 | the visited flags after a sequence of pops: one flag per vertex |
| DfsTheory.PopOrder | Bfs-DfsTransformation/dfsLib/dfsCstm.hpp:75-84 | the vertices a pass finalizes, in order: each popped top not popped before; all are vertices |
| DfsTheory.PopOrderFlags | Bfs-DfsTransformation/dfsLib/dfsCstm.hpp:75-84 | a vertex is flagged exactly when it has been finalized, and no vertex is finalized twice |
| DfsTheory.RanksOverStep | Bfs-DfsTransformation/dfsLib/dfsBtwTemp.hpp:89-93 | visiting one more vertex keeps its old rank, or gives it rank counter + 1 if it had none |
| DfsList.Unvisited | Bfs-DfsTransformation/dfsLib/dfsCstm.hpp:87-91 | the neighbours pushed are exactly the list entries not yet visited, each a vertex |
| DfsList.PushUnvisited | Bfs-DfsTransformation/dfsLib/dfsCstm.hpp:87-91 | the push loop puts the unvisited neighbours on top of the stack in list order |
| DfsList.MaxOf | Bfs-DfsTransformation/dfsLib/dfsCstm.hpp:72-74 | the running maximum is at least the value carried in and every stack size seen, and it is one of them |
| DfsList.SkipStep | Bfs-DfsTransformation/dfsLib/dfsCstm.hpp:78 | `if (visited[u]) continue;` keeps the invariant with nothing else changed |
| DfsList.VisitStep | Bfs-DfsTransformation/dfsLib/dfsCstm.hpp:80-91 | a popped unvisited vertex had no rank, and marking it, ranking it counter + 1 and pushing its unvisited neighbours keeps every loop invariant |
| DfsList.RunUnique | Bfs-DfsTransformation/dfsLib/dfsCstm.hpp:68-93 | a pass has exactly one sequence of stacks from [0] to the empty stack, each the loop body's result on the one before, so the stack sizes that `maxsize` ranges over are determined by the lists |
| DfsList.TraceStep | Bfs-DfsTransformation/dfsLib/dfsCstm.hpp:71-92 | one pass of the loop body extends the recorded run by the stack it leaves: the top popped, and its unvisited neighbours pushed when it was not yet visited |
| DfsList.PathRun | Bfs-DfsTransformation/dfsLib/dfsCstm.hpp:68-93 | on the path 0 - 1 - 2 the stacks of a pass are [0], [1], [2] and then empty |
| DfsList.PathOrder | Bfs-DfsTransformation/dfsLib/dfsCstm.hpp:75-84 | on that path the pass finalizes 0, 1, 2 in that order |
| DfsList.PathRanks | Bfs-DfsTransformation/dfsLib/dfsCstm.hpp:61-93 | every run over the path 0 - 1 - 2 gives nodePos = [1, 2, 3]: the contract of Dfs admits no other ranking |
| DfsList.DfsCstm.constructor | Bfs-DfsTransformation/dfsLib/dfsCstm.hpp:21 | a new object has no vertices, no edges and no lists |
| DfsList.DfsCstm.ReadHeader | Bfs-DfsTransformation/dfsLib/dfsCstm.hpp:33-37 | the `p` line records both counts and resizes the lists, keeping them in range and symmetric |
| DfsList.DfsCstm.ReadArc | Bfs-DfsTransformation/dfsLib/dfsCstm.hpp:38-46 | an edge line appends each 0-based end to the other's list, and the graph gains {u-1, v-1} |
| DfsList.DfsCstm.Dfs | Bfs-DfsTransformation/dfsLib/dfsCstm.hpp:61-93 | one pass: `stacks` is the one run of the loop (DfsRun) and `order` is its pop order (PopOrder), so the order the lists impose is the one ranked; `order[i]` gets rank i + 1 and unvisited vertices keep -1; vertex 0 comes first with rank 1; the visited vertices are exactly those reachable from 0; maxsize is the largest of the value carried in and the stack sizes at every loop check, so it bounds `s.size()` at each check |
| DfsBitset.PushGuard | Bfs-DfsTransformation/dfsLib/dfsBtwTemp.hpp:101 | the guard `~CHECK_BIT(visited, v)` is nonzero whatever visited holds |
| DfsBitset.PushBlock | Bfs-DfsTransformation/dfsLib/dfsBtwTemp.hpp:96-103 | one word of the row pushes the ids of its set bits, lowest first |
| DfsBitset.PushRow | Bfs-DfsTransformation/dfsLib/dfsBtwTemp.hpp:95-104 | the block loop pushes every set bit of the row, block by block and lowest bit first |
| DfsBitset.ScanOrderStep | Bfs-DfsTransformation/dfsLib/dfsBtwTemp.hpp:98-102 | a scan emits ctz(bits) first, then the scan of `bits & (bits - 1)` |
| DfsBitset.RowIdsPrefix | Bfs-DfsTransformation/dfsLib/dfsBtwTemp.hpp:95-104 | scanning one more block appends that block's ids |
| DfsBitset.MarksStart | Bfs-DfsTransformation/dfsLib/dfsBtwTemp.hpp:75 | a fresh zeroed visited bitset marks no vertex |
| DfsBitset.SkipStep | Bfs-DfsTransformation/dfsLib/dfsBtwTemp.hpp:87 | popping a vertex whose bit is set and continuing keeps the invariant |
| DfsBitset.VisitStep | Bfs-DfsTransformation/dfsLib/dfsBtwTemp.hpp:87-104 | a popped vertex with a clear bit is a vertex; SET_TRUE, the rank update and pushing its whole row keep every loop invariant |
| DfsBitset.RowNeighbours | Bfs-DfsTransformation/dfsLib/dfsBtwTemp.hpp:95-104 | with no padding bit set, the ids pushed from a row are exactly the vertex's neighbours, so they stay below num_nodes without a guard |
| DfsBitset.RunUnique | Bfs-DfsTransformation/dfsLib/dfsBtwTemp.hpp:80-106 | a pass has exactly one sequence of stacks from [0] to the empty stack, each the loop body's result on the one before, so its pop order is determined by the matrix |
| DfsBitset.FlagsAgree | Bfs-DfsTransformation/dfsLib/dfsBtwTemp.hpp:87 | the `CHECK_BIT(visited, u)` test agrees with the flags of the recorded run |
| DfsBitset.TraceStep | Bfs-DfsTransformation/dfsLib/dfsBtwTemp.hpp:84-104 | one pass of the loop body extends the recorded run: the top popped and, when it was not yet visited, every id of its row pushed |
| DfsBitset.DfsBtwTemp.Graph | Bfs-DfsTransformation/dfsLib/dfsBtwTemp.hpp:26 | the matrix denotes a well formed, undirected graph whose edges are its set bits |
| DfsBitset.DfsBtwTemp.constructor | Bfs-DfsTransformation/dfsLib/dfsBtwTemp.hpp:30 | a new object has no vertices, no edges and an empty matrix |
| DfsBitset.DfsBtwTemp.ReadHeader | Bfs-DfsTransformation/dfsLib/dfsBtwTemp.hpp:42-47 | the `p` line records both counts and allocates n zeroed rows of TOTAL_BLOCK_NUM(n) words |
| DfsBitset.DfsBtwTemp.ReadArc | Bfs-DfsTransformation/dfsLib/dfsBtwTemp.hpp:49-56 | an edge line applies SET_EDGE to the 0-based ends, and the graph gains {u-1, v-1} |
| DfsBitset.DfsBtwTemp.Dfs | Bfs-DfsTransformation/dfsLib/dfsBtwTemp.hpp:72-106 | one pass: vertex 0 is visited first; the visited vertices are exactly those reachable from 0; counter is their number; `stacks` is the one run of the loop (DfsRun, pushing each row's ids in ascending order) and `order` is its pop order (PopOrder); a rank from an earlier pass never changes, `order[i]` otherwise gets rank i + 1, an unranked vertex 0 gets rank 1, and unreachable vertices keep their old entry |
| Packed.CDiv | EquitableGraphColoring/bitwiseCustom.hpp:22 | C integer division truncates toward zero: the remainder has the sign of a and is smaller than b |
| Packed.BitWidthFor | EquitableGraphColoring/bitwiseCustom.hpp:20 | bitWidth is between 1 and 31, 2^bitWidth ≥ vertexAmount, and for vertexAmount ≥ 2 it is the least such width |
| Packed.WidthOfCount | EquitableGraphColoring/bitwiseCustom.hpp:20 | `64 - clz(x)` is the bit length of x |
| Packed.BitWidthLeast | EquitableGraphColoring/bitwiseCustom.hpp:20 | any width w with 2^(w-1) < n ≤ 2^w is the width init picks |
| Packed.BitWidthExamples | EquitableGraphColoring/bitwiseCustom.hpp:20 | widths 1, 1, 1, 3, 6, 7 for 0, 1, 2, 5, 64, 65 vertices |
| Packed.SlotsFor | EquitableGraphColoring/bitwiseCustom.hpp:21 | insideOfBlock fields of bitWidth bits fit into 64 bits and one more would not, so a field never crosses a word |
| Packed.BlocksFor | EquitableGraphColoring/bitwiseCustom.hpp:22 | totalBlockAmount is ceil(vertexAmount / insideOfBlock) |
| Packed.FieldBlockInRange | EquitableGraphColoring/bitwiseCustom.hpp:22-31 | every index below vertexAmount lies in a block below totalBlockAmount |
| Packed.FieldOnes | EquitableGraphColoring/bitwiseCustom.hpp:38 | `(1ULL << w) - 1` has exactly the low w bits set |
| Packed.LowBits | EquitableGraphColoring/bitwiseCustom.hpp:40 | `value & ((1U << w) - 1)` is the value modulo 2^w, negative values included |
| Packed.StoreFieldBits | EquitableGraphColoring/bitwiseCustom.hpp:38-40 | the clear-then-or writes the field bits at shift..shift+w-1 and keeps every other bit of the word |
| Packed.LoadFieldBits | EquitableGraphColoring/bitwiseCustom.hpp:45-46 | the shift-and-mask read yields bits shift..shift+w-1 of the word, below 2^w |
| Packed.LoadStore | EquitableGraphColoring/bitwiseCustom.hpp:35-47 | reading a field just written returns what was written |
| Packed.LoadStoreOther | EquitableGraphColoring/bitwiseCustom.hpp:35-47 | writing one field leaves a disjoint field of the same word unchanged |
| Packed.FieldBlock | EquitableGraphColoring/bitwiseCustom.hpp:31 | index i lies in word r with insideOfBlock·r ≤ i < insideOfBlock·(r + 1) |
| Packed.FieldSlot | EquitableGraphColoring/bitwiseCustom.hpp:32 | the slot is below insideOfBlock and i == insideOfBlock·BLOCK_INDEX(i) + slot |
| Packed.SlotFits | EquitableGraphColoring/bitwiseCustom.hpp:37-38 | the field of every index ends within its 64-bit word |
| Packed.SlotsApart | EquitableGraphColoring/bitwiseCustom.hpp:37 | different slots of one word occupy disjoint bit ranges |
| Packed.GetAt | EquitableGraphColoring/bitwiseCustom.hpp:44-47 | GET_VALUE(a, index) reads the field of index in its word, and it is always below 2^bitWidth |
| Packed.SetAt | EquitableGraphColoring/bitwiseCustom.hpp:35-41 | SET_VALUE(a, index, value) keeps the array's length and changes only the word holding the field |
| Packed.GetSetSame | EquitableGraphColoring/bitwiseCustom.hpp:35-47 | after SET_VALUE(a, i, x), GET_VALUE(a, i) is x modulo 2^bitWidth |
| Packed.GetSetOther | EquitableGraphColoring/bitwiseCustom.hpp:35-47 | SET_VALUE at i leaves GET_VALUE at every other index unchanged |
| Packed.GetSetVertexId | EquitableGraphColoring/bitwiseCustom.hpp:20-47 | with the width init derives from n, every value 0..n-1 round-trips exactly |
| Packed.CompressAll | EquitableGraphColoring/bitwiseCustom.hpp:56-65 | writing the values in turn keeps the number of words |
| Packed.CompressAllGet | EquitableGraphColoring/bitwiseCustom.hpp:56-65 | after the bulk load, field i holds source[i] modulo 2^bitWidth for every i below vertexAmount |
| Packed.CompressAllKeeps | EquitableGraphColoring/bitwiseCustom.hpp:56-65 | the bulk load leaves every word past the written fields unchanged |
| Packed.Capacity | EquitableGraphColoring/bitwiseCustom.hpp:22 | totalBlockAmount words hold at least vertexAmount fields |
| Packed.Config.constructor | EquitableGraphColoring/bitwiseCustom.hpp:12-28 | the zero-initialized global record, with bitWidth 1 |
| Packed.Config.Init | EquitableGraphColoring/bitwiseCustom.hpp:18-23 | init derives the width, the fields per word and the word count from vertexAmount; fields fit a word and every index below vertexAmount has a word |
| Packed.Config.GetValue | EquitableGraphColoring/bitwiseCustom.hpp:44-47 | GET_VALUE under the current config is below 2^bitWidth |
| Packed.Config.SetValue | EquitableGraphColoring/bitwiseCustom.hpp:35-41 | the in-place mask-clear-or leaves the array equal to SetAt of its old contents |
| Packed.Config.BulkCopy | EquitableGraphColoring/bitwiseCustom.hpp:50-54 | the first totalBlockAmount words of dest become those of source, and nothing past them is written |
| Packed.Config.BulkCompress | EquitableGraphColoring/bitwiseCustom.hpp:56-65 | the loop leaves dest equal to CompressAll of its old contents, the effect of SET_VALUE per index; a negative vertexAmount writes nothing |
| PyText.IsSpace | EquitableGraphColoring/checkValidation.py:25 | the whitespace `strip()` and `split()` remove: it includes space, tab, newline and carriage return, and never a digit, a sign or an underscore |
| PyText.StripLeft | EquitableGraphColoring/checkValidation.py:25 | the result is a suffix of s that does not start with whitespace |
| PyText.StripLeftDrops | EquitableGraphColoring/checkValidation.py:25 | what `lstrip` removes is all whitespace |
| PyText.StripRight | EquitableGraphColoring/checkValidation.py:25 | the result is a prefix of s that does not end with whitespace |
| PyText.StripRightDrops | EquitableGraphColoring/checkValidation.py:25 | what `rstrip` removes is all whitespace |
| PyText.Strip | EquitableGraphColoring/checkValidation.py:25 | `strip()` neither starts nor ends with whitespace |
| PyText.StripKeeps | EquitableGraphColoring/checkValidation.py:58 | stripping text without surrounding whitespace changes nothing |
| PyText.Split | EquitableGraphColoring/checkValidation.py:29 | `split()` yields non-empty words without whitespace |
| PyText.SplitStrip | EquitableGraphColoring/checkValidation.py:57-60 | `split()` of the stripped text equals `split()` of the text |
| PyText.SplitAround | EquitableGraphColoring/checkValidation.py:60 | a whitespace character separates the words before it from those after it |
| PyText.SplitJoin | EquitableGraphColoring/checkValidation.py:60 | splitting words joined by spaces gives the words back |
| PyText.JoinedWords | EquitableGraphColoring/checkValidation.py:25-29 | words joined by spaces form a stripped line that starts with the first word's first character and splits back into the words |
| PyText.SplitOn | EquitableGraphColoring/checkValidation.py:57 | `split('\n')` yields at least one part, and no part holds the separator |
| PyText.JoinSplitOn | EquitableGraphColoring/checkValidation.py:57 | joining the parts of `split(sep)` with sep gives the text back |
| PyText.SplitOnNone | EquitableGraphColoring/checkValidation.py:57 | text without the separator is one part |
| PyText.IntToString | EquitableGraphColoring/checkValidation.py:60 | the reference printer for the tokens `int()` reads: `str(n)` is a non-empty token without whitespace that ends in a digit |
| PyText.ParseInt | EquitableGraphColoring/checkValidation.py:31-37 | `int(text)`: surrounding whitespace ignored, a sign and digit groups, otherwise ValueError (None); accepted text is one non-empty word after stripping |
| PyText.AcceptedNoSpace | EquitableGraphColoring/checkValidation.py:60 | a token `int` accepts contains no whitespace |
| PyText.ParseIntToString | EquitableGraphColoring/checkValidation.py:31 | `int(str(n)) == n` for every integer n; in current Python this holds for n with at most 4300 digits (see Left out) |
| PyText.ParseIntLeadingZero | EquitableGraphColoring/checkValidation.py:31 | `int` ignores a leading zero |
| PyText.ParseIntMinus | EquitableGraphColoring/checkValidation.py:31 | a leading `-` negates |
| PyText.ParseIntPlus | EquitableGraphColoring/checkValidation.py:31 | a leading `+` is accepted |
| PyText.ParseIntUnderscore | EquitableGraphColoring/checkValidation.py:31 | a single underscore between digits is accepted and ignored |
| PyText.ParseIntRejectsDouble | EquitableGraphColoring/checkValidation.py:31 | a double underscore raises ValueError |
| PyText.ParseIntRejectsSign | EquitableGraphColoring/checkValidation.py:31 | a sign without digits raises ValueError |
| Validation.ParseTokens | EquitableGraphColoring/checkValidation.py:60 | `[int(x) for x in tokens]`, or None when some `int(x)` raises; on success there is one value per token |
| Validation.ParseTokensMeaning | EquitableGraphColoring/checkValidation.py:60 | the comprehension succeeds exactly when every token is an integer, and then holds their values in order |
| Validation.ParseTokensAppend | EquitableGraphColoring/checkValidation.py:60 | converting two token lists one after the other gives the concatenation, or fails if either fails |
| Validation.LineTokensAppend | EquitableGraphColoring/checkValidation.py:57-60 | the tokens of two groups of lines are the tokens of the first followed by those of the second |
| Validation.ParseLinesMeaning | EquitableGraphColoring/checkValidation.py:56-61 | extending line by line gives the integer conversion of all tokens in line-then-token order |
| Validation.ParseLinesStops | EquitableGraphColoring/checkValidation.py:55-64 | once a line fails to convert, the whole call returns None |
| Validation.ParseLine | EquitableGraphColoring/checkValidation.py:58-60 | one line's comprehension converts its words, or fails |
| Validation.ParseLines | EquitableGraphColoring/checkValidation.py:56-61 | the `extend` loop computes the left fold of the lines |
| Validation.ParseColoringString | EquitableGraphColoring/checkValidation.py:53-64 | the result is all integer tokens of the text in line-then-token order, or None when some token is not an integer |
| Validation.ColoringTokensAreWords | EquitableGraphColoring/checkValidation.py:57-60 | splitting into lines, stripping and splitting each gives the whitespace words of the whole text |
| Validation.ParseShow | EquitableGraphColoring/checkValidation.py:60 | the tokens `str(c)` of a colouring convert back to the colouring |
| Validation.ParseColoringRoundTrip | EquitableGraphColoring/checkValidation.py:53-64 | a colouring written space-separated parses back to itself |
| Validation.ReadLinesRaised | EquitableGraphColoring/checkValidation.py:22-38 | a ValueError on one line ends the whole read |
| Validation.ReadOneLine | EquitableGraphColoring/checkValidation.py:25-38 | one pass of the loop: strip, skip `c` lines, read `p` and `e` lines, skip every other line |
| Validation.ReadProblemLine | EquitableGraphColoring/checkValidation.py:28-32 | `p edge n m` sets both counts, a shorter or other `p` line is skipped, and a non-integer count raises |
| Validation.ReadEdgeLine | EquitableGraphColoring/checkValidation.py:33-38 | `e u v` appends (u-1, v-1), a shorter `e` line is skipped, and a non-integer end raises |
| Validation.ReadGraphLines | EquitableGraphColoring/checkValidation.py:24-38 | the loop over the lines computes the left fold of the per-line step |
| Validation.Adjacency | EquitableGraphColoring/checkValidation.py:45-49 | n lists (none for negative n) whose entries are all vertices |
| Validation.AdjacencyMembers | EquitableGraphColoring/checkValidation.py:45-49 | v is in u's list exactly when some read edge with both ends in [0, n) joins u and v |
| Validation.AdjacencySymmetric | EquitableGraphColoring/checkValidation.py:45-49 | v is in u's list exactly when u is in v's |
| Validation.BuildAdjacency | EquitableGraphColoring/checkValidation.py:44-49 | the edge loop builds Adjacency(n, edges) |
| Validation.ParseGraphFile | EquitableGraphColoring/checkValidation.py:16-51 | the lists, the vertex count and the number of `e` lines read, dropped edges included, or the ValueError raised |
| Validation.ReadHeader | EquitableGraphColoring/checkValidation.py:28-32 | the line `p edge n m` sets the counts to n and m |
| Validation.ReadEdge | EquitableGraphColoring/checkValidation.py:33-38 | the line `e u v` appends (u-1, v-1) |
| Validation.ReadFromConcat | EquitableGraphColoring/checkValidation.py:24-38 | reading two groups of lines is reading the second from the state after the first |
| Validation.ReadFromAppending | EquitableGraphColoring/checkValidation.py:33-38 | lines that each append one edge append all of them in order |
| Validation.ReadDimacs | EquitableGraphColoring/checkValidation.py:24-38 | a header followed by edge lines reads back as the counts and the 0-based edges |
| Validation.ParseDimacs | EquitableGraphColoring/checkValidation.py:16-51 | the graph file of a header and edge lines parses to the adjacency of its 0-based edges, its vertex count and its number of edges |
| Validation.ScanRow | EquitableGraphColoring/checkValidation.py:80-82 | the inner loop raises IndexError exactly when an entry past u is not a vertex of the colouring, and otherwise collects that row's conflicts |
| Validation.RowConflictsMembers | EquitableGraphColoring/checkValidation.py:80-82 | a triple is collected exactly when it is (u+1, v+1, colour) for an entry v > u of u's list with the same colour as u |
| Validation.ConflictsOfRow | EquitableGraphColoring/checkValidation.py:79-82 | the same, stated with the SameColour test on u's list |
| Validation.ConflictsEmpty | EquitableGraphColoring/checkValidation.py:78-84 | no conflict is collected exactly when no entry v > u in any list has u's colour |
| Validation.Report | EquitableGraphColoring/checkValidation.py:84-87 | valid with "All adjacent vertices have different colors" exactly when there is no conflict; otherwise the count, at most five conflicts shown as a prefix, and `...` exactly when some are left out |
| Validation.ReportMeaning | EquitableGraphColoring/checkValidation.py:84-87 | the result is valid exactly when the colouring is proper; otherwise it reports the count, the first five conflicts and whether more exist |
| Validation.ProperOnSymmetric | EquitableGraphColoring/checkValidation.py:81 | on symmetric in-range lists, the `u < v` test still checks every edge apart from self-loops |
| Validation.VerifyColoringValidity | EquitableGraphColoring/checkValidation.py:66-87 | None or an empty graph gives "Graph not loaded"; a length mismatch gives that message; otherwise the result reports the conflicts, or raises IndexError on an out-of-range entry |
| Validation.FirstOccurrences | EquitableGraphColoring/checkValidation.py:94-95 | the dictionary's keys are exactly the colours used |
| Validation.FirstOccurrencesDistinct | EquitableGraphColoring/checkValidation.py:94-95 | every key occurs once |
| Validation.Values | EquitableGraphColoring/checkValidation.py:98 | `values()` lists the count of each key in key order |
| Validation.CountMap | EquitableGraphColoring/checkValidation.py:94-95 | `color_counts` after the counting loop: no more keys than colours read |
| Validation.CountMapCounts | EquitableGraphColoring/checkValidation.py:94-95 | the counted colours are exactly those of the colouring, and each count is its number of occurrences |
| Validation.CountMapTotal | EquitableGraphColoring/checkValidation.py:91-98 | there is one count per key, and the counts sum to the number of vertices |
| Validation.ClassSizes | EquitableGraphColoring/checkValidation.py:98 | `color_counts.values()` as a function of the colouring: one entry per colour used |
| Validation.ClassSizesCount | EquitableGraphColoring/checkValidation.py:91-98 | entry i is the number of vertices with the i-th colour in first-occurrence order |
| Validation.CountColors | EquitableGraphColoring/checkValidation.py:91-95 | the counting loop builds those keys in first-occurrence order and that dictionary |
| Validation.Least | EquitableGraphColoring/checkValidation.py:100 | `min` is an element and bounds every element from below |
| Validation.Greatest | EquitableGraphColoring/checkValidation.py:101 | `max` is an element and bounds every element from above |
| Validation.Insert | EquitableGraphColoring/checkValidation.py:99 | inserting into a sorted list keeps it sorted and adds exactly one element |
| Validation.Sort | EquitableGraphColoring/checkValidation.py:99 | `sorted` is ascending and a permutation of its input |
| Validation.SortKeeps | EquitableGraphColoring/checkValidation.py:119 | sorting keeps the length, the elements and the sum |
| Validation.SpreadMeaning | EquitableGraphColoring/checkValidation.py:105 | `max - min <= 1` holds exactly when every two class sizes differ by at most one |
| Validation.CountExtremes | EquitableGraphColoring/checkValidation.py:98-101 | the min and max of the counts are sizes of actual classes and bound every class size |
| Validation.VerifyEquitableColoring | EquitableGraphColoring/checkValidation.py:89-120 | an empty colouring raises ValueError (from `min([])`). Otherwise: color_counts has the colours used as keys and their occurrence counts as values; colors_used is sorted with the same colours and num_colors_used is their count; min/max are attained bounds; is_equitable means every two class sizes differ by at most one; correct_k is true for falsy expected_k and otherwise compares; count_distribution is sorted, one entry per colour, summing to the vertex count, and as a multiset equal to the class sizes `color_counts.values()` (ClassSizes) |

## Left out

- File reading in the four C++ classes is not modelled: `ifstream`, `getline`, `stringstream`, `exit(1)` and the skip of `c` lines. `ReadHeader` and `ReadArc` take the numbers a `p` line and an `a` line carry.
- The `compute` harnesses are not modelled: timing with `chrono`, averaging, the repeated iterations and writing the output and `result.txt` files. Each `Dfs` method is one pass of the loop inside `compute`. The state that passes share comes in as a parameter: `maxsize` for `DfsCstm`, `nodePos` for `DFSBtwTemp`.
- `bfsBgl.hpp`, `dfsBgl.hpp`, `main.cpp` and `main.py` are not modelled. They use Boost, orchestrate runs, and parse and plot timings.
- In `checkValidation.py` the model leaves out `main`, `print_analysis`, console output, `open()` and the `FileNotFoundError` branch. A file is given as its list of lines.
- Messages are datatypes (`Message`, `Conflict`) rather than formatted strings.
- `expected_k` is modelled as `Option<int>`, and falsy means `None` or `0`. Other falsy Python values are not modelled.
- Dictionary key order is modelled as first-occurrence order (`FirstOccurrences`).
- `printInfo` (console output only) is not modelled.
- The global `config` is modelled as a `Config` object passed explicitly, not as process-wide state.
- `__builtin_ctzll` and `__builtin_clzll` are specified by their results (`Words.Ctz`, `Words.Clz`), not modelled as instructions.
- BfsBitset.BfsBtwTemp.ReadHeader: requires a first header with at least one vertex. A second header that resizes into a ragged matrix is not modelled. Neither is n = 0, where `TOTAL_BLOCK_NUM(0)` wraps to 2^58 words and the allocation fails.
- DfsBitset.DfsBtwTemp.ReadHeader: the same restriction as `BfsBtwTemp.ReadHeader`, for the same reason.
- BfsList.BfsCstm.ReadHeader: requires the new vertex count to be at least the old one. A later, smaller `p` line would make `resize` drop lists while other lists still name the dropped vertices, so that case is not modelled.
- DfsList.DfsCstm.ReadHeader: the same restriction as `BfsCstm.ReadHeader`, for the same reason.
- DfsBitset.DfsBtwTemp.Dfs: `visited` is a local `seq<Word>` updated with `Bitwise.WithBit`, not an array updated in place. `Bitwise.SetTrue` proves that the in-place `SET_TRUE` gives the same words.
- The BFS methods keep `dist` as a local sequence. The queue is the sequence of every vertex pushed, with a head index.
- Packed.Config.Init: requires `vertexAmount < INT_MAX`, because `vertexAmount + insideOfBlock - 1` overflows `int` at INT_MAX.
- The model's `int()` accepts only ASCII digits. Python also accepts other Unicode decimal digits.
- PyText.ParseInt: does not model the limit on integer string conversion (`sys.get_int_max_str_digits()`, 4300 digits by default; in CPython since 3.11, and in 3.10.7, 3.9.14 and 3.8.14). Over that limit, Python's `int(text)` raises ValueError, so `parse_coloring_string` returns None and `parse_graph_file` raises, while the model parses the token.
- PyText.IntToString: under the same limit, `str(n)` raises ValueError for an n of more than 4300 digits, and the model prints it. So `PyText.ParseIntToString` holds in current Python only for n of at most 4300 digits.
- The C++ code indexes its vectors and bitsets without checks, which is undefined behaviour out of range. The model's `requires` exclude exactly those cases: `ReadArc` requires both ends in 1..num_nodes, `Bfs`/`BfsMatrix` require `0 <= start < num_nodes`, both `Dfs` methods require `num_nodes >= 1` (with no vertices, `visited[0]` is out of range), `Packed.Config.GetValue` and `SetValue` require the word of `index` to lie in the array, `BulkCopy` requires both arrays to hold `totalBlockAmount` words, and `BulkCompress` requires `dest` to hold `totalBlockAmount` words and `source` `vertexAmount` entries.
- The vertex counts of the C++ classes are bounded by INT_MAX. 32-bit overflow of `dist[node] + 1`, of `counter` and of the vertex id `(block_index << 6) + offset` cannot occur under that bound, so it is not modelled.
