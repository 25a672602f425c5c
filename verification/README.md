# Interval graph recognition, modelled in Dafny

This project models the algorithmic core of `interval_graphs.py`, which decides
whether an undirected graph is an interval graph. The core is a pipeline of
four functions over integer adjacency lists:

- `findLexOrder`: lexicographic breadth-first search (Lex-BFS) by partition
  refinement. It keeps a sequence of cells, repeatedly outputs the head of
  the first cell, and splits every cell so that the neighbours of that vertex
  come first.
- `isChordal`: reverses the order and tests it as a perfect elimination
  order. Every later neighbour of a vertex, other than the nearest one, must
  be adjacent to that nearest one.
- `bfs`: labels the connected components of the subgraph left after removing
  the closed neighbourhood of one vertex. It writes one row of the label
  matrix `C`. The labels come from a registry keyed by the exact visitation
  list.
- `is_AT_free`: the Lekkerkerker–Boland test. It rejects a graph that fails
  the chordality test, fills `C` row by row, and rejects when some triple
  `x, y, z` carries matching nonzero labels in all three rows.

The model has seven modules, one per file:

- `Seqs`: sequence helpers, including `list.remove`, `list.index` and
  `list.reverse`.
- `Graphs`: graphs as `seq<seq<nat>>` over the dense ids `0..n-1`, the error
  outcomes, and walks and asteroidal triples.
- `LexBfs`: `findLexOrder`.
- `Chordal`: `isChordal`.
- `Labels`: the registry `components`/`componentsAdd` and the row write.
- `Components`: `bfs`.
- `Interval`: `is_AT_free` and the `interval` mode of the main block.

The Python globals `C`, `components` and `componentsAdd` become values that
are threaded through the calls. Each `IndexError` the code can raise becomes
an `Err` outcome:

- `EmptyGraph`: `popleft` on the empty seed cell of `findLexOrder`.
- `NoLaterNeighbour(i)`: `nodeNeighbors.popleft()` in `isChordal` at
  position `i` of the reversed order.

## Model

| member | source | states |
|---|---|---|
| Seqs.Range | interval_graphs.py:44 | `range(n)` is `0, ..., n-1` in increasing order |
| Seqs.RangeCount | interval_graphs.py:44 | `range(n)` holds each of `0..n-1` exactly once and nothing else |
| Seqs.Reverse | interval_graphs.py:73 | the in-place reversal puts the element at distance `i` from the end at position `i` and keeps the length |
| Seqs.RemoveFirst | interval_graphs.py:60 | `deque.remove(x)` removes one occurrence of `x` and nothing else (multiset difference) |
| Seqs.RemoveFirstDistinct | interval_graphs.py:60 | on a cell without repeats, removing the first occurrence removes the vertex entirely |
| Seqs.IndexOf | interval_graphs.py:102 | `list.index(x)` is the position of the first occurrence of `x` |
| Seqs.FilterOut | interval_graphs.py:157-158 | the list comprehension keeps exactly the elements not in the excluded list, and never grows |
| Seqs.FilterOutAppend | interval_graphs.py:157-158 | filtering a concatenation is the concatenation of the filtered parts, so the kept elements stay in their order, repeats included |
| Seqs.FilterOutCompose | interval_graphs.py:58-61 | removing by `b` and then by `c` is removing by `b + c` |
| LexBfs.ExtractPartition | interval_graphs.py:57-62 | one pass of the neighbour loop over a cell splits it into the moved part and the rest (same multiset), and only listed neighbours move |
| LexBfs.ExtractFindsAll | interval_graphs.py:57-62 | every listed neighbour that is in the cell is moved |
| LexBfs.ExtractSplits | interval_graphs.py:57-62 | on a cell without repeats, the rest is the cell with the neighbours filtered out, in cell order; the new cell has no repeats and is in adjacency-list order |
| LexBfs.RefinePartition | interval_graphs.py:56-65 | splitting every cell only rearranges the vertices |
| LexBfs.RefineUntouched | interval_graphs.py:56-65 | cells that hold no neighbour are left as they are |
| LexBfs.ScanCellsFrom | interval_graphs.py:56-65 | the position loop, resumed after any prefix of cells, refines the remaining cells |
| LexBfs.ScanCellsIsRefine | interval_graphs.py:54-65 | the inner loop as written, with its rescan of a split cell and its early stop on `countNeighbours`, equals splitting every cell by the adjacency list |
| LexBfs.RemoveEmpty | interval_graphs.py:68 | dropping the empty deques leaves no empty cell and the same vertices in the same order; a deque is kept exactly when it is in the input and nonempty |
| LexBfs.RemoveEmptyCons | interval_graphs.py:68 | a deque in front of the others is kept exactly when it is nonempty, and the rest are filtered alone |
| LexBfs.RemoveEmptyAppend | interval_graphs.py:68 | dropping empty deques works deque by deque: each nonempty one is kept whole and in its place relative to the others |
| LexBfs.CoversFacts | interval_graphs.py:51-68 | when output and cells together hold each vertex once, the cells have no repeats, hold only vertices, and their size is `n` minus the output |
| LexBfs.PopFacts | interval_graphs.py:52-53 | the popped head is a vertex, and the remaining cells are the rest of the old cells |
| LexBfs.LexStep | interval_graphs.py:51-68 | one round appends the head of the first cell to the output and leaves no empty cell |
| LexBfs.LexStepRefines | interval_graphs.py:52-68 | a round's cells are the remaining cells split by the head's adjacency list, with empties dropped |
| LexBfs.LexStepCovers | interval_graphs.py:51-68 | a round keeps every not-yet-output vertex in the cells exactly once |
| LexBfs.LexRunFacts | interval_graphs.py:51-69 | the outer loop outputs each vertex exactly once and only extends the output it was given |
| LexBfs.LexRunFirst | interval_graphs.py:45-53 | the first vertex output is the head of the seed cell |
| LexBfs.FindLexOrder | interval_graphs.py:42-69 | the order lists each of `0..n-1` exactly once and starts with 0; the empty graph raises |
| LexBfs.DisjointEdgesOrder | interval_graphs.py:42-69 | on two disjoint edges `0-1`, `2-3` the order is `0, 1, 2, 3` |
| Chordal.LaterInMembers | interval_graphs.py:84-86 | `neighborsOfNeighbor` holds exactly the neighbours of `rev[j]` found after position `j` |
| Chordal.ScanLaterNeighbours | interval_graphs.py:78-87 | `nodeNeighbors` ends as all later neighbours of `rev[i]`, in order |
| Chordal.ScanLaterKeeps | interval_graphs.py:82-86 | once a later neighbour is found, `neighborsOfNeighbor` is not rebuilt |
| Chordal.ScanLaterFirst | interval_graphs.py:82-86 | `neighborsOfNeighbor` is built from the nearest later neighbour |
| Chordal.CheckAtIsOutcome | interval_graphs.py:76-91 | the scan at a position raises exactly when it has no later neighbour, and fails exactly when some later neighbour beyond the nearest is not adjacent to the nearest |
| Chordal.ChordalFromDecides | interval_graphs.py:75-92 | the position loop stops at the first position that does not pass |
| Chordal.DecideTrue | interval_graphs.py:75-92 | the loop returns True exactly when every position passes |
| Chordal.DecideFalse | interval_graphs.py:90-91 | the loop returns False exactly when the first position that does not pass fails |
| Chordal.DecideRaise | interval_graphs.py:88 | the loop raises at `p` exactly when `p` is the first position that does not pass and has no later neighbour |
| Chordal.IsChordal | interval_graphs.py:72-92 | the argument is reversed in place and stays within the graph; an order of length at most 1 is chordal |
| Chordal.IsChordalVerdict | interval_graphs.py:72-92 | True iff every position passes, False iff the first non-passing position fails, the `IndexError` at `p` iff that position has no later neighbour |
| Chordal.ChordalDecides | interval_graphs.py:75-92 | when every position but the last has a later neighbour, the test never raises and returns False exactly when some position violates the elimination-order test |
| Chordal.DecideAllHaveLater | interval_graphs.py:75-92 | the same statement on the reversed order |
| Chordal.DisjointEdgesRaise | interval_graphs.py:88 | on two disjoint edges with order `0, 1, 2, 3`, the test as written raises at position 1; the corrected test accepts |
| Chordal.IsChordalFixed | interval_graphs.py:72-92 | the corrected test accepts every order of length at most 1 |
| Chordal.ChordalFromFixedNoFail | interval_graphs.py:75-92 | the corrected loop passes exactly when no position fails |
| Chordal.IsChordalFixedDecides | interval_graphs.py:72-92 | the corrected test returns True exactly when the reversed order is a perfect elimination order |
| Chordal.ChordalFromAgrees | interval_graphs.py:75-92 | where the loop as written returns a verdict, the corrected loop returns the same |
| Chordal.IsChordalAgrees | interval_graphs.py:72-92 | where `isChordal` as written returns a verdict, the corrected test returns the same |
| Labels.Empty | interval_graphs.py:187-188 | the registry starts with no entries and counter 0, and is well formed |
| Labels.FindKey | interval_graphs.py:127-129 | the key loop finds the first label, in allocation order, registered for the list |
| Labels.Register | interval_graphs.py:121-129 | an unseen list gets the label `counter + 1`; a registered list gets its label back and the registry is unchanged; entries are kept, the counter never decreases, labels stay distinct per list |
| Labels.RegisterIdempotent | interval_graphs.py:121-129 | registering the same list twice changes nothing and yields the same label |
| Labels.RegisterSeparates | interval_graphs.py:121-129 | two lists registered in turn share a label exactly when they are equal, and the first keeps its label |
| Labels.Write | interval_graphs.py:131-132 | the row gets the key at the kept vertices and keeps every other entry |
| Components.Pos | interval_graphs.py:102 | `list(graph).index(v)` is a position holding `v` |
| Components.Neighbours | interval_graphs.py:111 | every listed neighbour in the subgraph is a key |
| Components.FirstFalse | interval_graphs.py:136-137 | `visited.index(False)` is the first unvisited position |
| Components.CountFalseSet | interval_graphs.py:109 | marking an unvisited key visited lowers the number of unvisited keys by one |
| Components.Pop | interval_graphs.py:107-110 | taking the front of the queue keeps the state well formed |
| Components.Expand | interval_graphs.py:111-116 | after the neighbour loop, a key is queued exactly when it was queued before or is a listed neighbour not yet visited; other fields are unchanged |
| Components.ExpandQueue | interval_graphs.py:111-116 | the queue stays without repeats and gains exactly the listed, unvisited neighbours |
| Components.VisitGood | interval_graphs.py:106-116 | one pass keeps the queue and `keepNodes` reachable from the root and the neighbours of kept vertices visited or queued, and leaves the finished part, the row and the registry unchanged |
| Components.Complete | interval_graphs.py:118-132 | completing a component leaves the queue and flags unchanged |
| Components.CompleteFrame | interval_graphs.py:118-132 | completion writes only entries of subgraph vertices and only adds to the registry |
| Components.CompleteClosed | interval_graphs.py:118-132 | with the queue empty, the finished part plus `keepNodes` is closed under adjacency |
| Components.CompleteLabels | interval_graphs.py:118-132 | after completion, two finished vertices share a label exactly when they are connected, and every label is registered for a list holding its vertex |
| Components.Restart | interval_graphs.py:136-140 | the restart keeps the state well formed |
| Components.RestartLive | interval_graphs.py:136-140 | the restart from the first unvisited key gives a nonempty, well-formed queue |
| Components.Run | interval_graphs.py:106-140 | the loop ends with every key visited and the queue empty; it writes only subgraph entries of the row and only adds to the registry |
| Components.Finish | interval_graphs.py:118-140 | the same after a pass whose queue ran empty |
| Components.RunFacts | interval_graphs.py:106-140 | at the end of the loop, two keys share a label exactly when they are connected, and each label is registered for a list holding the key |
| Components.Bfs | interval_graphs.py:95-140 | `bfs` changes only the subgraph's entries of row `start`, and the registry stays well formed and only grows |
| Components.BfsLabels | interval_graphs.py:95-140 | every subgraph vertex gets a label of at least 1, and two share a label exactly when they are connected in the subgraph |
| Components.ConnectedSym | interval_graphs.py:111-116 | in a symmetric subgraph, connectivity is symmetric |
| Components.ConnectedTrans | interval_graphs.py:111-116 | connectivity is transitive |
| Interval.SubgraphOf | interval_graphs.py:151-158 | the subgraph has one adjacency list per key |
| Interval.SubgraphKeys | interval_graphs.py:154-156 | the keys are exactly the vertices outside `N(v) + {v}` |
| Interval.SubgraphNeighbours | interval_graphs.py:157-158 | a key's list is its list in the graph restricted to the keys |
| Interval.SubgraphValid | interval_graphs.py:151-158 | the subgraph has distinct keys and lists only keys |
| Interval.SubgraphSymmetric | interval_graphs.py:151-158 | a symmetric graph gives a symmetric subgraph |
| Interval.SubPathIff | interval_graphs.py:151-158 | a walk of the subgraph is exactly a walk of the graph avoiding `N(v) + {v}` |
| Interval.ConnectedIff | interval_graphs.py:151-161 | connectivity in the subgraph for `v` is joinability by a walk avoiding `N(v) + {v}` |
| Interval.AvoidingEnds | interval_graphs.py:156 | the ends of such a walk lie outside `N(v) + {v}` |
| Interval.Zeros | interval_graphs.py:186 | `C` starts as the `n` by `n` zero matrix |
| Interval.FillRow | interval_graphs.py:150-161 | one pass of the row loop keeps the row length and only adds to the registry |
| Interval.FillRowOk | interval_graphs.py:150-161 | from a zero row, an entry is nonzero exactly off `N(v) + {v}`, and two nonzero entries agree exactly when their vertices are joined avoiding `N(v) + {v}` |
| Interval.FillRows | interval_graphs.py:150-161 | the row loop keeps `C` square and leaves the rows already filled unchanged |
| Interval.FillRowsOk | interval_graphs.py:150-161 | every row filled by the loop records the components of its subgraph |
| Interval.LabelMatrix | interval_graphs.py:150-161 | the filled `C` is `n` by `n` |
| Interval.LabelMatrixOk | interval_graphs.py:150-161 | every row of the filled `C` records its components, and the diagonal is zero |
| Interval.FindZ | interval_graphs.py:166-169 | the `z` loop finds a match exactly when one exists |
| Interval.FindY | interval_graphs.py:165-169 | the `y` loop finds a match exactly when one exists |
| Interval.FindX | interval_graphs.py:164-170 | the triple loop finds a match exactly when one exists |
| Interval.MatchIsTriple | interval_graphs.py:167-168 | on the filled `C`, a matching triple is exactly an asteroidal triple, and a triple with a repeated vertex never matches |
| Interval.ScanFindsTriple | interval_graphs.py:164-170 | the triple scan finds a match exactly when the graph has an asteroidal triple |
| Interval.IsAtFree | interval_graphs.py:143-170 | `is_AT_free` raises exactly when `isChordal` raises |
| Interval.IsAtFreeDecides | interval_graphs.py:143-170 | it passes on the `IndexError`; otherwise True iff chordal and asteroidal-triple-free, False iff not chordal or chordal with an asteroidal triple |
| Interval.LexOrderInGraph | interval_graphs.py:179 | the Lex-BFS order lists vertices of the graph |
| Interval.IsInterval | interval_graphs.py:185-189 | the `interval` mode on the empty graph raises in `findLexOrder` |
| Interval.IsIntervalDecides | interval_graphs.py:185-189 | when every position but the last of the reversed order has a later neighbour, the mode returns True exactly when that order is a perfect elimination order and there is no asteroidal triple |
| Interval.DisjointEdgesInterval | interval_graphs.py:185-189 | on two disjoint edges, an interval graph, the mode as written raises at position 1 |
| Interval.DisjointEdgesFixed | interval_graphs.py:185-189 | on the same two disjoint edges the corrected `interval` mode answers that the graph is an interval graph |
| Interval.DisjointEdgesElimination | interval_graphs.py:72-92 | the reversed order `3, 2, 1, 0` of the two disjoint edges has no position that violates the elimination test |
| Interval.DisjointEdgesNoTriple | interval_graphs.py:185-189 | two disjoint edges have no asteroidal triple |
| Interval.IsAtFreeFixedDecides | interval_graphs.py:143-170 | the corrected test accepts exactly when the reversed order is a perfect elimination order and there is no asteroidal triple |
| Interval.IsIntervalFixed | interval_graphs.py:185-189 | with the corrected test, only the empty graph is an error |
| Interval.IsIntervalFixedDecides | interval_graphs.py:185-189 | on every nonempty graph, the corrected mode returns whether the reversed Lex-BFS order is a perfect elimination order and the graph has no asteroidal triple |
| Interval.IsIntervalAgrees | interval_graphs.py:185-189 | where the mode as written returns a verdict, the corrected mode returns the same |

## Left out

- Reading the graph (`getNeighbors`, interval_graphs.py:19-38) is file I/O. So are the argument parsing and mode dispatch (interval_graphs.py:13-16, 173-191), including the `FileNotFoundError` handling and the bare `raise Exception()`. The model takes the adjacency lists as its input.
- Vertex ids must be dense, `0..n-1` (`ValidGraph`). With other ids, `neighbors[u]` raises `KeyError` and `neighbors.get` returns `None`. Neither case is modelled.
- Symmetry of the adjacency lists is a precondition where it is needed (`Symmetric`). The model does not derive it from how the lists are read.
- Python dicts iterate in insertion order, which here is the order vertices first appear in the input. The model uses ascending id order for `for node in graph`, `for x in graph` and `list(conn_Component.keys())[0]`. The verdict does not depend on this choice, because labels are only compared within one row.
- The subgraph's position lookups `list(graph).index(...)` are modelled as `IndexOf` on the key sequence. The module-level globals are modelled as values passed in and returned.
- Running time is not modelled. This covers the linear membership scans and the cubic triple loop.
- LexBfs.FindLexOrder: not proved is that the order has the lexicographic property that characterises Lex-BFS orders.
- Chordal.ChordalDecides and Interval.IsIntervalDecides: they assume that every position of the reversed order, except the last, has a later neighbour. They do not prove that a Lex-BFS order of a connected graph meets this. Interval.IsIntervalFixedDecides needs no such assumption.
- Not proved are the theorems that make the verdict meaningful. One is that a graph is chordal exactly when its reversed Lex-BFS order is a perfect elimination order. The other is the Lekkerkerker–Boland theorem itself. The model proves what the code decides, in terms of the elimination-order test and asteroidal triples.
- New cells are in the order of `u`'s adjacency list, because the neighbour loop runs over `neighbors[u]` and appends. They are not in the order the vertices had in the old cell. The model follows the code.

## Findings

| source | as written | input that shows it | evidently intended | confidence | as-written member | corrected member |
|---|---|---|---|---|---|---|
| interval_graphs.py:88 | `nodeNeighbors.popleft()` runs even when a vertex has no later neighbour in the reversed order. It then raises `IndexError` at the first position of the reversed order whose vertex has no later neighbour. On a disconnected graph such a position always exists, and the crash happens unless an earlier position fails the test first: for example when the component Lex-BFS visits last is chordal. Then `isChordal`, and with it the `chordal` and `interval` modes, crash instead of answering. | two disjoint edges `0 1` and `2 3`: the Lex-BFS order is `0, 1, 2, 3`, and vertex 2, at position 1 of the reversed order, has no later neighbour | a vertex without later neighbours passes the test trivially, so the two disjoint edges, an interval graph, are accepted | high; not executed | Chordal.DisjointEdgesRaise | Chordal.IsChordalFixedDecides |

The corrected test is `Chordal.IsChordalFixed`. The corrected `interval` mode is `Interval.IsIntervalFixed`. It never raises on a nonempty graph (`Interval.IsIntervalFixedDecides`). Wherever the code as written returns a verdict, the corrected mode returns the same one (`Interval.IsIntervalAgrees`). `Interval.DisjointEdgesInterval` shows the whole pipeline as written raising on the example input, and `Interval.DisjointEdgesFixed` shows the corrected mode accepting it.
