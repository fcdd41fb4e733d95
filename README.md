# 100 prisoners problem: cycle structure of the drawers

This project models the computational core of a small web app about the
100 prisoners problem. Drawer `i` (1-based) holds the number
`prisoner_numbers[i-1]`. The app builds an undirected graph with one edge
per drawer, from the drawer to the number inside it. It takes the
connected components, sorted largest first, and records how many there
are and how big each one is. Across reruns of the page it keeps a running
list of all component sizes in the session state.

When the drawer contents are a permutation of 1..n, the components of that
graph are the cycles of the permutation. A prisoner who starts at their
own drawer and keeps opening the drawer whose number they just found walks
the cycle that contains their number.

Modules, one per concern:

- `Seqs` (`seqs.dfy`): helpers for distinct lists, concatenating a list of
  lists (`Flatten`) and sums.
- `Permutation` (`permutation.dfy`): the drawer contents (`IsPermutation`),
  the step from a drawer to the number in it (`Next`), and repeated steps
  (`Iterate`).
- `Cycles` (`cycles.dfy`): what a cycle is and what a decomposition into
  cycles is. It finds the cycles by walking each unvisited drawer in
  increasing order over a visited array. It also holds the partition and
  cycle lemmas.
- `NetworkGraph` (`network_graph.dfy`): the drawer dictionary, the edge
  set, the sort by size, the size list and the `Graph` class whose
  constructor fills `edges`, `connectedComponents`, `numComponents` and
  `subgraphNodesNum`.
- `App` (`app.dfy`): the session state as a class with an optional list. A
  rerun builds a `Graph` and records its sizes.

A decomposition `cs` of `p` (`Cycles.IsDecomposition`) means two things.
Every entry is a cycle: distinct drawers, each holding the next one, the
last holding the first. And the concatenation of all entries is a
rearrangement of 1..n, so every drawer appears exactly once across all
components.

The graph library's `connected_components` is a general graph search. Here
it is replaced by the cycle walk, and the lemma
`ComponentsAreConnectedComponents` shows that what the walk finds are the
graph's connected components. Consecutive drawers of a component are
joined by an edge, and no edge, in either direction, leaves a component.

Source and design disagree in places; the model follows the source:

- The source does no input validation. It raises no malformed-permutation
  error, no size error and no error for non-positive lengths. "Is a
  permutation of 1..n" is therefore a precondition.
- The source never computes the "every cycle at most 50" success check.
  It appears only in the page's prose.
- The source sorts the components themselves by size, largest first. The
  size list is read off that sorted order.

## Model

| member | source | states |
|---|---|---|
| `NetworkGraph.DrawerMap` | network_graph.py:13-15 | the dictionary maps exactly the drawers 1..n, and drawer `i` to the number in it |
| `NetworkGraph.EdgesOfDrawers` | network_graph.py:17 | an edge is exactly a pair (drawer, number in that drawer); for a permutation both ends are drawer labels |
| `Cycles.WalkCycle` | network_graph.py:19-20 | walking from an unvisited drawer returns a cycle that starts there, shares no drawer with earlier cycles, and marks exactly its own drawers as visited |
| `Cycles.Decompose` | network_graph.py:13-20 | for a permutation, the cycles found form a decomposition: each is a cycle, and together they hold every drawer 1..n exactly once |
| `Cycles.CyclePredecessor` | network_graph.py:17 | a drawer whose number lies in a cycle lies in that cycle too (closure against the edge direction) |
| `Cycles.ComponentsDisjoint` | network_graph.py:19-20 | two different components of a decomposition share no drawer |
| `Cycles.ExactlyOneComponent` | network_graph.py:13-20 | a value lies in some component iff it is a drawer 1..n, and it lies in only one |
| `Cycles.ComponentLengths` | network_graph.py:21-23 | the components' lengths add up to n, and each is between 1 and n |
| `Cycles.IterateInCycle` | network_graph.py:13-17 | k steps from position j of a cycle reach position j+k, wrapping past the end |
| `Cycles.CycleReturns` | network_graph.py:13-17 | from any drawer of a component, following the numbers as many times as the component's size returns to that drawer, and no fewer steps do |
| `Cycles.CycleIsOrbit` | network_graph.py:13-17 | the drawers of a cycle are exactly those reached from any one of them in fewer steps than its length |
| `Cycles.CycleUnique` | network_graph.py:19-20 | two cycles that share a drawer have the same length and the same drawers, so the partition does not depend on how it was found |
| `Cycles.FixedPointCycle` | network_graph.py:17 | a drawer holding its own number (a self-loop) is a component of size 1 by itself |
| `NetworkGraph.ComponentsAreConnectedComponents` | network_graph.py:17-20 | each component is connected by edges along its cycle order and closed under edges in both directions, i.e. a connected component of the undirected graph |
| `NetworkGraph.InsertBySize` | network_graph.py:19-20 | inserting a component adds exactly that component to the list |
| `NetworkGraph.InsertKeepsSorted` | network_graph.py:19-20 | inserting into a list sorted largest first keeps it sorted |
| `NetworkGraph.SortBySize` | network_graph.py:19-20 | the sorted list is a rearrangement of the components and is ordered by size, largest first |
| `NetworkGraph.SortKeepsElements` | network_graph.py:19-20 | sorting keeps every drawer of every component |
| `NetworkGraph.DecompositionReordered` | network_graph.py:19-20 | any rearrangement of a decomposition is still a decomposition |
| `NetworkGraph.Sizes` | network_graph.py:23 | the size list has one entry per component, equal to that component's size |
| `NetworkGraph.SumOfSizes` | network_graph.py:23 | the size list sums to the total number of drawers in the components |
| `NetworkGraph.SizesFacts` | network_graph.py:21-23 | for a decomposition sorted by size, the size list sums to n, each size is between 1 and n, and the list is non-increasing |
| `NetworkGraph.Graph.constructor` | network_graph.py:9-23 | the new graph satisfies `Describes`: the edges are the drawer pairs, the components are a decomposition sorted largest first, `numComponents` equals both list lengths, the sizes are the components' sizes, non-increasing, each between 1 and n, summing to n |
| `NetworkGraph.IdentityComponents` | network_graph.py:17-23 | the identity arrangement (so also a single drawer) yields n components of size 1 |
| `NetworkGraph.UniformSizes` | network_graph.py:21-23 | if all components have the same size s, there are n / s of them and every size entry is s |
| `NetworkGraph.CyclesOfTwoPairs` | network_graph.py:13-20 | every cycle of [2,1,4,3] is {1,2} or {3,4} |
| `NetworkGraph.ExampleTwoPairs` | network_graph.py:13-23 | drawers [2,1,4,3] give exactly two components, each {1,2} or {3,4}, with drawers 1 and 3 both covered (so both pairs appear), and sizes [2,2] |
| `NetworkGraph.CyclesOfThreeCycle` | network_graph.py:13-20 | the only cycle of [2,3,1] is {1,2,3} |
| `NetworkGraph.ExampleOneCycle` | network_graph.py:13-23 | drawers [2,3,1] give the single component {1,2,3} with sizes [3] |
| `App.SessionState.constructor` | app.py:71 | a new session has no "subgraph_nodes_num" key |
| `App.SessionState.Record` | app.py:71-74 | on the first run the stored list becomes this run's sizes; later runs append them; the old list is a prefix of the new one |
| `App.SessionState.Rerun` | app.py:68-74 | the rerun's graph holds the components of `prisonerNumbers` as a decomposition sorted largest first, with their sizes and their count; those sizes are appended to the stored list, which grows by exactly `numComponents` entries and whose sum grows by n |
| `App.FirstRunExample` | app.py:68-72 | a fresh session rerun over the drawers [2,1,4,3] stores exactly [2,2] |
| `App.TallyStep` | app.py:71-74 | if the stored sizes so far sum to k·n with each between 1 and n, a rerun that appends a size list summing to n with entries in that range leaves a tally of k+1 runs |
| `App.RunsStep` | app.py:68-74 | one more run's sorted decomposition extends the recorded runs, and its size list is appended to the runs' size lists |
| `App.SimulateRuns` | app.py:68-74 | after k reruns over permutations of 1..n the key is present iff k > 0; the stored list is the concatenation of each run's size list, read off a decomposition of that run's drawers sorted largest first; the stored sizes sum to k·n, and each lies between 1 and n |

## Left out

- Shuffling the drawers (`grid_boxes` in plots.py) uses library randomness. The drawer contents are an input, assumed to be a permutation of 1..n.
- `Graph.draw_graph`, `nodes_histogram` and the whole page layout (markdown, images, columns, charts, the shuffle button) are presentation only.
- The success condition "every cycle at most 50" is not modelled. The source never computes it.
- The order among components of equal size is not pinned. The model's walk finds components in order of their smallest drawer and then sorts stably. The source's tie order depends on the order in which the graph library visits nodes, which is not part of this model. Only the ordering by size is proved.
- Components are kept as lists in cycle order; the source keeps them as sets of nodes. Membership and size are what the model relates to the source.
- `NetworkGraph.Graph.constructor`: the graph object itself is reduced to its edge set. The library's node set is not a separate field. For a permutation the nodes are exactly 1..n, as `EdgesOfDrawers` shows.
- `App.SessionState.Rerun`: line 72 stores the graph's own size list object, which line 74 then extends in place on later runs. Each rerun builds a new graph and the old one is discarded, so this sharing is not observable. The model copies the list as a value.
- Session isolation between users and concurrent reruns are not modelled. Streamlit runs one script at a time per session.
- Non-permutation input, where the graph would hold values outside 1..n, is not modelled: every member requires a permutation.
