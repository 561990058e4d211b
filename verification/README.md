# Graph loading, degree filter, search tree and spatial hash — a Dafny model

This project models the original logic in `graph.py` of a small social-network
graph viewer. It covers four parts:

- **Edge-list loading** (`load_graph_with_attributes`). Each line of the file
  is split on whitespace. The first two tokens are the endpoints of an
  undirected edge. Every further `key=value` token becomes an edge attribute.
  A malformed line aborts the whole load.
- **Degree filter** (`highlight_nodes`). It lists, in node order, the nodes
  that have a truthy value for the requested node attribute, or that have at
  least `min_connections` incident edges.
- **Binary search tree** (`TreeNode`, `insert_node`, `in_order_traversal`,
  `create_binary_search_tree`, `search_node`). This is an unbalanced tree over
  node labels, linked through heap nodes that are updated in place.
- **Spatial hash table** (`SpatialHashTable`). It maps grid cells to lists of
  nodes, and the lists grow in place.

Files:

- `wrappers.dfy`: `Option` and `Result`.
- `tokens.dfy` (module `Tokens`): Python's `str.split()` with no separator.
- `edge_list.dfy` (module `EdgeList`): parsing of one line and of a sequence of lines.
- `graphs.dfy` (module `Graphs`): class `Graph` holds the state the loader
  mutates. That state is the node list in insertion order, the node attribute
  maps, and an adjacency map from each node to its neighbours. Each neighbour
  entry carries the attribute map of the shared edge. The module also has the
  `LoadGraph` loop, the `HighlightNodes` loop, and reference definitions of
  the graph a list of lines describes.
- `search_tree.dfy` (module `SearchTree`): class `TreeNode` with a `Repr`
  footprint and a ghost `Model` of datatype `Tree`. It also holds pure
  specifications of insertion, in-order listing and the search walk, and the
  string-label model behind the finding below.
- `spatial_hash.dfy` (module `SpatialHash`): truncating division, and class
  `SpatialHashTable` with a ghost log of inserts.

Three things the library does are taken from its documented behaviour. The
graph library (networkx) is not part of this model.

- `add_edge` creates missing endpoints with empty attribute maps.
- `add_edge` merges the new attributes into an existing edge's map with
  `dict.update`.
- Degree counts a self-loop twice.

Details of the code the model keeps:

- `highlight_nodes` returns a list in node order. A node qualifies by a
  truthy node attribute or by the degree threshold.
- A repeated edge's attributes are merged key by key. Keys that only the
  earlier line gave are kept, not replaced.
- An attribute token needs exactly one `=`. Its key or value may be empty:
  `=` gives the key `""` with the value `""`.
- A blank line has no tokens, so it aborts the load like any other line with
  fewer than two tokens.

## Model

| member | source | states |
|---|---|---|
| `Tokens.Split` | graph.py:9 | every token of a line is non-empty and free of whitespace |
| `Tokens.SplitKeepsContent` | graph.py:9 | the tokens, concatenated, are exactly the line's non-whitespace characters |
| `Tokens.SplitSkipsSpace` | graph.py:9 | leading whitespace never starts or changes a token |
| `Tokens.SplitTokenThen` | graph.py:9 | a whitespace-free run followed by whitespace or the end of the line is one whole token: tokens are the maximal runs |
| `Tokens.SplitInterleave` | graph.py:9 | tokens written with any non-empty whitespace runs between them, and any whitespace before and after, split back into exactly those tokens |
| `Tokens.SplitIsInterleaving` | graph.py:9 | every line is its tokens interleaved with whitespace runs that are non-empty between two tokens; with `SplitInterleave` this fixes the tokens of every line |
| `EdgeList.SplitOn` | graph.py:11 | `tok.split('=')` gives one more piece than there are `=`, no piece contains `=`, and joining the pieces with `=` gives back the token |
| `EdgeList.SplitAttribute` | graph.py:11 | an attribute token unpacks into a key and a value iff it has exactly one `=`; then it is `key=value` and neither part holds `=` |
| `EdgeList.ParseAttributes` | graph.py:11 | the attribute tokens parse iff every one is well formed; a failure reports one of the malformed tokens |
| `EdgeList.FirstMalformedToken` | graph.py:11 | the token a failed parse reports is the first malformed one |
| `EdgeList.AttributeKeys` | graph.py:11 | the parsed map has exactly the keys some token names |
| `EdgeList.LastKeyWins` | graph.py:11 | a key repeated in one line keeps the value of its last occurrence |
| `EdgeList.ParseLine` | graph.py:9-11 | a line parses iff it has at least two tokens and well-formed attribute tokens; the endpoints are the first two tokens; otherwise the error says which check failed, and a malformed attribute is the one the attribute parse reports (the first, by `FirstMalformedToken`) |
| `EdgeList.ParseWrittenLine` | graph.py:9-11 | a line written as two endpoint tokens and well-formed attribute tokens, separated by any whitespace, parses back to those endpoints and the parse of those attribute tokens; with only two tokens the attribute map is empty |
| `EdgeList.ParseLines` | graph.py:8-11 | a successful parse gives one edge per line; a failure names a line that exists |
| `EdgeList.ParseLinesSucceeds` | graph.py:8-11 | the load parses iff every line parses, and edge `i` is line `i`'s edge |
| `EdgeList.ParseLinesFirstError` | graph.py:8-11 | a failed load reports the first failing line with that line's own error |
| `EdgeList.ParseLinesStopsAtFailure` | graph.py:8-11 | once a prefix of the lines fails, the later lines do not change the outcome |
| `Graphs.Graph.constructor` | graph.py:6 | a new graph has no nodes and no edges |
| `Graphs.Graph.AddEdge` | graph.py:12 | missing endpoints are appended to the node list with empty attributes; exactly the pair `{u, v}` becomes linked; its attributes are the old ones updated by the new; nothing else changes; symmetry and distinct nodes are kept |
| `Graphs.EdgeAdded` | graph.py:12 | the adjacency after adding an edge has both ends as keys, links exactly one more pair, merges that pair's attributes, and stays symmetric |
| `Graphs.LoadGraph` | graph.py:5-13 | the load fails iff some line fails, with the first failing line's error; otherwise a fresh, valid graph holds exactly the nodes, edges and merged edge attributes the lines describe |
| `Graphs.EndpointsExact` | graph.py:6-12 | the loaded nodes are the lines' endpoints, each listed once, and nothing else |
| `Graphs.EndpointsInFirstOrder` | graph.py:8-12 | the nodes are listed in order of first appearance: of two nodes, the one listed first is named by a line no later than the first line naming the other |
| `Graphs.LoadedLinesAreEdges` | graph.py:10-12 | after a load, both ends of every line are nodes, linked from either end |
| `Graphs.EdgeDataSymmetric` | graph.py:12 | an edge's attributes are the same read from either end |
| `Graphs.EdgeDataNeedsLine` | graph.py:12 | a pair that no line joins has no attributes |
| `Graphs.ReAddMerges` | graph.py:12 | a line repeating an existing edge adds no node and no edge, and merges its attributes into that edge's |
| `Graphs.HighlightNodes` | graph.py:19-26 | the result is the nodes that pass the attribute or degree test, in node order |
| `Graphs.SelectedMembers` | graph.py:21-25 | a node is highlighted iff it is a node of the graph and passes the test |
| `Graphs.SelectedDistinct` | graph.py:21-25 | no node is highlighted twice |
| `Graphs.DegreeThreshold` | graph.py:24 | with no attribute and threshold `k`, exactly the nodes of degree at least `k` are highlighted |
| `Graphs.NothingRequested` | graph.py:19-26 | with neither an attribute nor a threshold nothing is highlighted |
| `Graphs.ThresholdAtMostZero` | graph.py:24 | a threshold of zero or less highlights every node, in node order |
| `SearchTree.InsertAddsOne` | graph.py:47-56 | insertion adds exactly one occurrence of the value and loses no key |
| `SearchTree.InsertKeepsOrder` | graph.py:47-56 | insertion keeps the tree ordered: smaller keys to the left, equal or larger ones to the right |
| `SearchTree.FlattenSortedPermutation` | graph.py:58-64 | the in-order sequence is a permutation of the tree's keys, and it is sorted when the tree is ordered |
| `SearchTree.InsertAllOrdered` | graph.py:66-70 | inserting a list into an empty tree gives an ordered tree |
| `SearchTree.InsertAllElements` | graph.py:66-70 | the tree built from a list holds exactly the list's elements, with their multiplicities |
| `SearchTree.BuiltTreeSorted` | graph.py:66-70 | the in-order sequence of the built tree is the list sorted: sorted and a permutation of it |
| `SearchTree.WalkFindsMembers` | graph.py:72-80 | on an ordered tree the search walk succeeds iff the target is a key |
| `SearchTree.SearchBuiltTree` | graph.py:66-80 | searching the tree built from a list finds exactly the list's elements |
| `SearchTree.TreeNode.constructor` | graph.py:42-45 | a new node holds its key and has no children |
| `SearchTree.InsertNode` | graph.py:47-56 | an empty tree becomes a fresh node; otherwise the same root is returned, still valid, with only fresh nodes added, and the tree's value is the pure insertion |
| `SearchTree.InOrderTraversal` | graph.py:58-64 | the traversal is the in-order listing of the tree, a permutation of its keys, sorted on an ordered tree |
| `SearchTree.CreateBinarySearchTree` | graph.py:66-70 | the built tree is empty iff there are no labels; otherwise it is fresh and valid; it is the labels inserted in order, it is ordered, and its in-order listing is the labels sorted |
| `SearchTree.SearchNode` | graph.py:72-80 | the answer is the search walk over the tree; on an ordered tree it is true iff the target is a key |
| `SearchTree.LabelLess` | graph.py:51 | Python's string `<`: `a` is a proper prefix of `b`, or at the first position where they differ `a` has the smaller character |
| `SearchTree.InsertLabel` | graph.py:47-56 | `insert_node` as written, ordering by `LabelLess`: it adds exactly the one label to the tree |
| `SearchTree.LabelOrderMismatch` | graph.py:47-80 | the tree built as written from labels "9" then "10" holds 10, but the integer search for 10 fails; the integer-keyed tree finds it |
| `SearchTree.SameWidthOrdersAgree` | graph.py:51 | for decimal labels of equal length, string order and integer order agree |
| `SearchTree.InsertLabelAgrees` | graph.py:47-56 | with decimal labels of one length, one insertion as written agrees with the integer-keyed insertion |
| `SearchTree.InsertAllLabelsAgree` | graph.py:66-70 | with decimal labels of one length, the tree built as written is the integer-keyed tree of their values |
| `SearchTree.SearchSameWidthLabels` | graph.py:66-80 | with decimal labels of one length, searching the tree built as written finds exactly the labels' values |
| `SpatialHash.TruncDiv` | graph.py:96 | `int(a / b)`: the magnitude is how many whole times `|b|` fits in `|a|`, and the result is positive or negative exactly when `|a| >= |b|` and the exact quotient has that sign; `TruncDivBounds` and `CellColumn` give the cells it draws |
| `SpatialHash.SpatialHashTable.Hash` | graph.py:95-96 | each coordinate of the cell, times the cell size, lies between zero and the point's coordinate and less than one cell size from it; `TruncDivUnique` shows no other cell does |
| `SpatialHash.TruncDivBounds` | graph.py:96 | the cell index `q` of a coordinate `a` has `q * size` between 0 and `a`, and `q * size` is less than one cell size away from `a` |
| `SpatialHash.TruncDivUnique` | graph.py:96 | no other integer meets those bounds |
| `SpatialHash.CellColumn` | graph.py:96 | for a positive cell size `c`, column `k > 0` holds coordinates `[k*c, k*c + c)`, column `k < 0` holds `(k*c - c, k*c]`, and column 0 holds `(-c, c)` |
| `SpatialHash.TruncDivNonNegative` | graph.py:96 | for non-negative coordinates the cell index is the floor quotient |
| `SpatialHash.TruncDivNegative` | graph.py:96 | for a negative coordinate off a cell boundary the cell index is one above the floor quotient |
| `SpatialHash.NodesInMembers` | graph.py:98-106 | a node is listed under a cell iff it was inserted at a point of that cell |
| `SpatialHash.SpatialHashTable.constructor` | graph.py:91-93 | a new table is empty |
| `SpatialHash.SpatialHashTable.Insert` | graph.py:98-102 | the node is appended to its cell's list, which is created empty first if absent; no other cell changes; with a zero cell size nothing changes and the insert fails |
| `SpatialHash.SpatialHashTable.Query` | graph.py:104-106 | the result is the nodes inserted at points of the same cell, in insertion order, or empty for a cell never inserted into; a zero cell size fails |
| `SpatialHash.SpatialHashTable.SameCellSameQuery` | graph.py:104-106 | two points in the same cell get the same list |

## Findings

| source | as written | input that shows it | evidently intended | confidence | as-written member | corrected member |
|---|---|---|---|---|---|---|
| graph.py:51 | `insert_node` orders the string labels by string comparison. `search_node` (graph.py:74-76) steers by `int()` of the labels and the target. | labels "9" then "10" (string order puts "10" left of "9"); searching for 10 turns right at 9 and returns False | insertion and search compare keys in the same integer order | high; not executed | `SearchTree.LabelOrderMismatch` | `SearchTree.SearchNode` |

The corrected model keys the tree by integers, so insertion and search share
one order. With that order, `SearchTree.WalkFindsMembers` and
`SearchTree.SearchBuiltTree` prove that the search finds exactly the inserted
keys. When every label is a decimal string of the same length, the code as
written is already correct. `SearchTree.InsertLabelAgrees` shows one
insertion agrees. `SearchTree.InsertAllLabelsAgree` shows the built tree is
the integer-keyed tree. `SearchTree.SearchSameWidthLabels` shows the search
then finds exactly the labels' values.

## Left out

- `identify_clusters`, `bfs_traversal`, `detect_communities` and
  `calculate_centrality` (graph.py:15-17, 37-39, 82-88) only call the graph
  library, which is not part of this model. Centrality is also
  floating point.
- `visualize_graph` (graph.py:28-35) is plotting.
- Opening and reading the file is not modelled. The loader takes the file's
  lines as a sequence of strings.
- `Tokens.IsSpace` covers only the ASCII characters that Python's `split()`
  treats as whitespace. Unicode whitespace is not modelled.
- `EdgeList.ParseLine` and `Graphs.LoadGraph` accept every attribute key.
  In the source, `add_edge` is a bound method with parameters `self`,
  `u_of_edge` and `v_of_edge`. An attribute key equal to any of those three
  names is passed twice, so the call at graph.py:12 raises TypeError and the
  whole load aborts. A line such as `A B self=1` shows it (not executed). This
  is not modelled.
- Node attribute values are modelled as strings, with Python string
  truthiness. The loader never sets node attributes. Other value types and
  their truthiness are not modelled.
- Python exceptions become error values. IndexError becomes `TooFewTokens`,
  ValueError becomes `MalformedAttribute`, each tagged with the line index.
  A zero cell size's ZeroDivisionError becomes a `false` or `None` result.
- `SearchTree.AsInts` models `int()` only on decimal digit strings. Signs,
  surrounding whitespace, underscores, and the ValueError on non-numeric
  labels are not modelled. The heap tree takes labels already converted to
  integers.
- `SearchTree.InsertNode` and `SearchTree.InOrderTraversal` have no recursion
  limit. In the source, `insert_node` and `in_order_traversal` (graph.py:52,
  54, 61, 63) recurse once per tree level. Python stops at a depth of about
  1000 with RecursionError. Labels inserted in ascending order build a tree
  as deep as the number of labels, so a graph with a few thousand nodes,
  e.g. labels "1000" to "2999", fails there (not executed).
- `SpatialHash.TruncDiv` assumes integer coordinates and an integer cell
  size. The source divides in floating point. The results agree while the
  operands stay below 2^53 in magnitude. Larger or fractional coordinates are
  not modelled.
- `SpatialHash.SpatialHashTable.Query` returns the cell's list as a value.
  The source returns the table's own list, so a caller that appends to the
  result changes the table. That aliasing is not modelled.
- The GUI modules (`ui.py`, `UI.py`) and `graphy.py` are not part of this
  model. This includes the global highlighted-node state and the 80%-of-maximum
  centrality threshold.
