# Graph State Machine, modelled in Dafny

This project models the core of Graph-State-Machine, a small Python library.
A typed, undirected graph is built from a nested adjacency dictionary
`{node type: {node: [neighbours]}}`. A *scanner* scores the neighbours of the
nodes currently in a *state*. An *updater* folds the best candidate into the
state. A controller (`GSM`) repeats scan-then-update, either one step after
another or "in parallel" (all scans against the same state, then all updates).

The model follows the Python code as written. Each Python exception is an
`Err` value of a `Result`, and each controller call ends in an `Outcome`.
Where the code raises, the model raises the same exception on the same input:
- `AssertionError` from `consistent`;
- `NetworkXError` for the neighbours of a node missing from the graph;
- `KeyError`;
- `TypeError` for a non-list type filter, or for `reduce` of an empty list;
- `ZeroDivisionError`;
- `IndexError`.

Modules (one per source file, plus shared helpers):

| file | module | models |
|---|---|---|
| `types.dfy` | `Types` | `Node`/`NodeType`, the exceptions, `Result`, `Outcome`, Python arguments that may be `None`, a string or a list |
| `generic_util.dfy` | `GenericUtil` | set views, de-duplication in first-occurrence order, `flatten`, `group_by`, `snd` |
| `order.dfy` | `Order` | string order, a stable insertion sort (Python's `sorted`), uniqueness of strictly sorted lists |
| `nx.dfy` | `Nx` | the networkx graph operations used: `add_nodes_from`, `add_edges_from`, `neighbors`, `compose` |
| `graph.dfy` | `TypedGraph` | `Graph`: two-pass construction, `consistent`, `_set_graph`, `group_nodes`, `extend_with` |
| `misc.dfy` | `Misc` | `relevant_neighbours`, `adjacencies_lossy_reverse`, `strs_as_keys` |
| `scores.dfy` | `Scores` | Jaccard, presence, reverse presence, and the three 0/1 scorers |
| `counters.dfy` | `Counters` | `collections.Counter`: construction, `+`, `most_common` |
| `scanners.dfy` | `Scanners` | `by_score`/`scan_closure` and `neighbour_intersection` |
| `steps.dfy` | `Steps` | the older `by_score`/`step_closure` and `neighbour_intersection` |
| `selectors.dfy` | `Selectors` | `identity`, `last_only`, `dict_fields_getter` and both of its closures |
| `updaters.dfy` | `Updaters` | `list_accumulator` |
| `gsm.dfy` | `Gsm` | class `GSM`: constructor, `_scan`, `step`, `consecutive_steps`, `parallel_steps`, `extend_with` |
| `gsm_defaults.dfy` | `GsmDefaults` | the default controller, and what any controller that uses `list_accumulator` does |

Design choices:
- **Graph.** A `Graph` is an immutable value, because the code never mutates
  one after construction: `extend_with` deep-copies first. It holds:
  - the networkx graph: nodes in insertion order, the type attribute, and
    adjacency lists without repeats;
  - `nodes_to_types`;
  - the sorted list of types.
  Its subset-type invariant holds that the graph is undirected and
  consistent, and that the two derived fields are what `_set_graph`
  computes.
- **Python dicts** are sequences of key/value pairs in insertion order, so
  dict order decides whatever it decides in Python. Two examples: the type of
  a node declared under two types, and the order of `state.values()`.
- **Python sets.** `set(...)` iteration order is not specified. The model
  fixes it as first-occurrence order and claims nothing that depends on it:
  - the `by_score` result is proved to be the only strictly ordered list of
    its entries, so it does not depend on that order;
  - the ties in the older scanner are left unordered.
- **Type filters.** `scanners.py` calls `relevant_neighbours` with a list of
  wanted and a list of unwanted types. The `misc.py` shown takes one
  optional type. The filter is therefore a predicate on `NodeType`:
  - `TypeListFilter` for the newer call;
  - `OldTypeFilter` for "`not node_type` or equal type".
- **The controller** is a generic class `GSM<S, A, R>` with mutable fields
  `state` and `graph` and three function-typed fields. Each method is
  proved against a function of the old state: `StepOf`, `ConsecutiveOf`
  and `ParallelOf`. A Python exception ends a method with
  `Fail(error)`, keeping the field updates made before it.
- **Edge cases follow the code as written:**
  - `jaccard_similarity([], [])` raises `ZeroDivisionError`
    (`Scores.Jaccard`);
  - `list_accumulator` raises `IndexError` on an empty scan result
    (`Updaters.ListAccumulator`). The showcase scripts expect a step of a
    type with no candidates to "trigger a warning and no State changes"
    (`Tests/self_contained_showcase.py:43`,
    `Tests/self_contained_showcase_dict_state.py:36`). In the model the
    state is indeed unchanged, but the controller call ends in
    `Fail(IndexError)` rather than a warning.
- **The default controller raises on a plain `step()`.** It uses
  `by_score()`, and a plain `step()` passes `node_type=None` positionally as
  `node_types`. That fails the scanner's list check with `TypeError`
  (`GsmDefaults.DefaultStepNeedsList`). Steps with a list of types work.
- **`neighbour_intersection`'s sum.** `Scanners.Tally` is
  `reduce(add, [Counter(ns) for ns in rn])`: the counters of the lists,
  added from the left.

## Model

| member | source | states |
|---|---|---|
| `Nx.AddNodesFrom` | Graph_State_Machine/graph.py:41 | the given keys become nodes with the given type; other types and all edges stay as they were |
| `Nx.AddEdgesFromFacts` | Graph_State_Machine/graph.py:42 | after adding the pairs, a node exists iff it existed or is an endpoint; two nodes are adjacent iff they were or are listed as a pair in either orientation; types unchanged |
| `Nx.AddEdgesFromWF` | Graph_State_Machine/graph.py:42 | adding edges keeps the graph well formed: undirected, no repeated neighbour |
| `Nx.Neighbors` | Graph_State_Machine/Util/misc.py:8 | `neighbors(n)` raises NetworkXError exactly for a node not in the graph; otherwise it lists exactly the nodes adjacent to `n` |
| `Nx.Compose` | Graph_State_Machine/graph.py:82 | `compose(G, H)`: node set, types (H wins) and edges are the unions |
| `Nx.ComposeWF` | Graph_State_Machine/graph.py:82 | composing two well-formed graphs gives a well-formed graph |
| `Nx.ComposeSelf` | Graph_State_Machine/graph.py:82 | composing a graph with itself gives the same graph |
| `TypedGraph.ReadTypedAdjacencyList` | Graph_State_Machine/graph.py:39-43 | the two loops (typing pass, then edge pass) build exactly `ReadSpec(tas)` |
| `TypedGraph.TypeNodes` | Graph_State_Machine/graph.py:41 | the typing loop, entry by entry, leaves the graph the typing pass describes |
| `TypedGraph.AddAllEdges` | Graph_State_Machine/graph.py:42 | the edge loop, entry by entry, leaves the graph the edge pass describes |
| `TypedGraph.ReadSpecFacts` | Graph_State_Machine/graph.py:41-42 | nodes are the declared keys and listed endpoints; a node is typed iff it is declared, with the type of the last entry declaring it; `a`–`b` is an edge iff one is listed under the other |
| `TypedGraph.TypePassLastType` | Graph_State_Machine/graph.py:41 | a key declared under several types ends with the type of the last declaring entry |
| `TypedGraph.ReadSpecConsistent` | Graph_State_Machine/graph.py:45-47 | the built graph is consistent iff every listed neighbour is also declared as a key |
| `TypedGraph.SetGraph` | Graph_State_Machine/graph.py:21-33 | `Graph(G)` for a networkx `G` (which goes straight to `_set_graph`) raises AssertionError with exactly the untyped nodes iff some node is untyped; otherwise keeps `G` and sets `nodes_to_types`, defined on exactly the node set |
| `TypedGraph.FromAdjacencies` | Graph_State_Machine/graph.py:15-23 | the constructor from adjacencies succeeds iff every listed neighbour is declared, and its graph is the two-pass construction |
| `TypedGraph.SortedTypesFacts` | Graph_State_Machine/graph.py:33 | `types` is strictly ascending, holds exactly the node types, and is the only such list |
| `TypedGraph.GroupNodes` | Graph_State_Machine/graph.py:77 | raises KeyError, naming an untyped input node, exactly when some input node is untyped |
| `TypedGraph.GroupNodesKeys` | Graph_State_Machine/graph.py:77 | on success the groups are keyed by exactly the types of the input nodes |
| `TypedGraph.GroupNodesGroups` | Graph_State_Machine/graph.py:77 | on success each group holds only input nodes whose type is the group's key |
| `TypedGraph.GroupNodesCounts` | Graph_State_Machine/graph.py:77 | on success each input node is typed and appears in its type's group exactly as often as in the input |
| `TypedGraph.ExtendWith` | Graph_State_Machine/graph.py:79-82 | never raises; nodes and edges are the unions of both graphs; types come from both, the extension winning; the original value is untouched |
| `TypedGraph.ExtendWithSelf` | Graph_State_Machine/graph.py:79-82 | extending a graph with itself gives the same graph |
| `Misc.OldTypeFilterMeaning` | Graph_State_Machine/Util/misc.py:8 | a falsy `node_type` keeps every type; a non-empty type name keeps exactly that type |
| `Misc.TypeListFilterMeaning` | Graph_State_Machine/scanners.py:21 | a type passes iff it is wanted (or no type is named as wanted) and is not unwanted |
| `Misc.FilteredNeighbours` | Graph_State_Machine/Util/misc.py:8 | exactly the neighbours of the node whose type passes the filter |
| `Misc.FilteredNeighboursAll` | Graph_State_Machine/Util/misc.py:8 | under any filter that keeps every type, exactly the node's neighbour list, in order |
| `Misc.FilteredNeighboursUnfiltered` | Graph_State_Machine/Util/misc.py:8 | with no type given (`node_type=None`), and under the scanners' filter with no wanted and no unwanted types, exactly the node's neighbour list, in order |
| `Misc.FilteredNeighboursViaNeighbors` | Graph_State_Machine/Util/misc.py:8 | the model's adjacency lookup is `G.neighbors(n)`: it raises NetworkXError for exactly the nodes `neighbors` raises for, and otherwise the filtered neighbours are `neighbors(n)` filtered by type |
| `Misc.RelevantNeighbours` | Graph_State_Machine/Util/misc.py:6-8 | one filtered neighbour list per state node, in state order; NetworkXError for the first state node not in the graph, iff there is one |
| `Misc.RelevantNeighboursError` | Graph_State_Machine/Util/misc.py:8 | the error `relevant_neighbours` raises is the one `G.neighbors` raises for the first state node missing from the graph |
| `Misc.RelevantNeighboursMember` | Graph_State_Machine/Util/misc.py:8 | `m` is in the i-th list iff it is a neighbour of `state_list[i]` whose type passes the filter; no list repeats a node |
| `Misc.AdjacenciesLossyReverse` | Graph_State_Machine/Util/misc.py:10-15 | the nested loops build exactly `ReverseSpec(d)` |
| `Misc.ReverseSpecFacts` | Graph_State_Machine/Util/misc.py:12-15 | a key of the result is exactly a value listed somewhere; its list is the sources in input order |
| `Misc.SourcesOfCount` | Graph_State_Machine/Util/misc.py:13-14 | source `v` occurs in `result[t]` once for each occurrence of `t` in `d[v]` |
| `Misc.NotASource` | Graph_State_Machine/Util/misc.py:13-14 | a node that is not a source never occurs in a reversed list |
| `Misc.ReverseDocExample` | Graph_State_Machine/Util/misc.py:11 | `{A: [B, C], D: []}` reverses to `{B: [A], C: [A]}`; `D` disappears |
| `Misc.StrsAsKeys` | Graph_State_Machine/Util/misc.py:17-19 | the keys are exactly the given strings, each mapped to the given value |
| `Scores.Jaccard` | Graph_State_Machine/scores.py:13 | raises ZeroDivisionError iff both lists are empty; otherwise lies in [0, 1] |
| `Scores.JaccardSymmetric` | Graph_State_Machine/scores.py:13 | symmetric in its arguments |
| `Scores.JaccardOne` | Graph_State_Machine/scores.py:13 | equals 1 iff the lists are not both empty and have the same elements, so `jaccard(a, a) == 1` for non-empty `a` |
| `Scores.Presence` | Graph_State_Machine/scores.py:15 | raises ZeroDivisionError iff `a` is empty; otherwise lies in [0, 1] |
| `Scores.PresenceOne` | Graph_State_Machine/scores.py:15 | equals 1 iff `a` is non-empty, has no repeats, and all its elements are in `b` |
| `Scores.ReversePresence` | Graph_State_Machine/scores.py:17 | raises ZeroDivisionError iff `b` is empty; otherwise lies in [0, 1] |
| `Scores.PresenceReverse` | Graph_State_Machine/scores.py:15-17 | `presence_score(a, b) == reverse_presence_score(b, a)` |
| `Scores.DiscreteScores` | Graph_State_Machine/scores.py:23-27 | each returns 0 or 1; `perfect_match` is symmetric and is the product of the two subset checks; `all_left_match(a, b) == all_right_match(b, a)` |
| `Scores.ScoresSeeSets` | Graph_State_Machine/scores.py:13-27 | every built-in scorer depends only on the set views, except the list-length divisor of the presence scores |
| `Counters.CounterOfFacts` | Graph_State_Machine/scanners.py:29 | `Counter(ns)` gives each element its number of occurrences, lists each element once, and has only positive counts |
| `Counters.AddGet` | Graph_State_Machine/scanners.py:29 | the count of any element in `c + d` is its count in `c` plus its count in `d` |
| `Counters.AddProper` | Graph_State_Machine/scanners.py:29 | `c + d` lists each element once, with positive counts only |
| `Counters.MostCommonFacts` | Graph_State_Machine/scanners.py:30 | `most_common()` is a permutation of the entries, sorted by count non-increasing, each with its own count, no element twice |
| `Scanners.RelevantCandidatesDedup` | Graph_State_Machine/scanners.py:21 | a candidate is exactly a neighbour, passing the node filters, of some state node |
| `Scanners.ScoredOk` | Graph_State_Machine/scanners.py:21-22 | the comprehension keeps exactly the candidates with a positive score, each paired with its score |
| `Scanners.ScoredErr` | Graph_State_Machine/scanners.py:22 | a raising comprehension raises the error of some candidate's score |
| `Scanners.ByScore` | Graph_State_Machine/scanners.py:19-20 | raises TypeError unless all four type-filter arguments are lists |
| `Scanners.ByScoreOk` | Graph_State_Machine/scanners.py:21-23 | see below the table |
| `Scanners.ByScoreUnique` | Graph_State_Machine/scanners.py:23 | the result is the only strictly ordered list of its entries, so it does not depend on set iteration order |
| `Scanners.ByScoreErr` | Graph_State_Machine/scanners.py:21-22 | with list filters, raises iff a state node is missing (NetworkXError for the first) or some candidate's score raises |
| `Scanners.CandidateScoreNeighbors` | Graph_State_Machine/scanners.py:22 | a candidate's score raises the error `G.neighbors(c)` raises, and otherwise scores the list `G.neighbors(c)` gives, filtered by type |
| `Scanners.CandidateScoreIn` | Graph_State_Machine/scanners.py:22 | a candidate's score is `score_function(list_state, its neighbours filtered by the neighbour filters)` |
| `Scanners.ScoreBeforeTotal` | Graph_State_Machine/scanners.py:23 | the sort key `(-score, name)` is a strict total order on distinct pairs |
| `Scanners.DefaultByScoreOnlyMissingNodes` | Graph_State_Machine/scanners.py:11-22 | with the default Jaccard score and list filters, the scan raises iff a state node is not in the graph |
| `Scanners.ByScoreScannerNeedsList` | Graph_State_Machine/scanners.py:19-20 | called, as `_scan` calls it, with `None` or a string as `node_types`, the scanner raises TypeError |
| `Scanners.TallyFacts` | Graph_State_Machine/scanners.py:29 | the summed Counters count, for each node, the neighbour lists that contain it |
| `Scanners.Intersection` | Graph_State_Machine/scanners.py:29 | raises TypeError for an empty state (`reduce` has no initial value) and NetworkXError for the first missing state node, and only then |
| `Scanners.IntersectionOk` | Graph_State_Machine/scanners.py:29-30 | each entry's count is the number of state nodes whose filtered neighbours include it; every such node is listed; counts non-increasing, no node twice |
| `Scanners.NeighbourIntersectionFacts` | Graph_State_Machine/scanners.py:27-30 | `neighbour_intersection` with wanted/unwanted type lists: the errors and ranking of `Intersection` |
| `Steps.OldByScoreOk` | Graph_State_Machine/steps.py:22-23 | see below the table |
| `Steps.OldByScoreErr` | Graph_State_Machine/steps.py:22 | raises iff a state node is missing (NetworkXError for the first) or some candidate's score raises |
| `Steps.OldDefaultOnlyMissingNodes` | Graph_State_Machine/steps.py:19-22 | with the default presence score, the scan raises iff a state node is not in the graph |
| `Steps.OldNeighbourIntersectionFacts` | Graph_State_Machine/steps.py:27-30 | counts per node the state nodes adjacent to it under the single-type filter, sorted by count; raises on an empty state or a missing node |
| `Selectors.Identity` | Graph_State_Machine/selectors.py:7 | returns the state unchanged |
| `Selectors.LastOnly` | Graph_State_Machine/selectors.py:9 | raises IndexError iff the state is empty; otherwise the one-element list of the last state node |
| `Selectors.LastOnlyAppend` | Graph_State_Machine/selectors.py:9 | after a node is appended, `last_only` selects exactly that node |
| `Selectors.Fields` | Graph_State_Machine/selectors.py:16 | `[state[k] for k in dict_keys]`: KeyError for the first missing key, iff any is missing; otherwise the stored values in key order |
| `Selectors.SelectedFieldsFacts` | Graph_State_Machine/selectors.py:16 | the keyed closure raises KeyError for the first missing key; else it returns exactly the nodes stored under the keys, its length the sum of their lengths |
| `Selectors.AllFieldsFacts` | Graph_State_Machine/selectors.py:17 | the every-field closure raises TypeError iff the dict is empty; else exactly the stored nodes, its length the sum of all value lengths |
| `Selectors.SelectAllKeys` | Graph_State_Machine/selectors.py:16-17 | naming every key in insertion order selects what naming none selects |
| `Selectors.SelectedFieldsNewField` | Graph_State_Machine/selectors.py:12-16 | a field added later under a key not named is ignored by the keyed closure |
| `Selectors.AllFieldsNewField` | Graph_State_Machine/selectors.py:14-17 | a field added later is appended to what the every-field closure returns |
| `Selectors.DictFieldsGetterChoice` | Graph_State_Machine/selectors.py:18 | the keyed closure is returned exactly when the key list is non-empty |
| `Updaters.ListAccumulator` | Graph_State_Machine/updaters.py:5-7 | raises IndexError iff the scan result is empty; otherwise the graph is returned unchanged, and the new state is the old one (a prefix) plus the first entry's node |
| `Gsm.GSM.constructor` | Graph_State_Machine/gsm.py:12-25 | stores the given graph, state, scanner, updater and selector unchanged |
| `Gsm.GSM.Scan` | Graph_State_Machine/gsm.py:38-40 | `_scan` returns `scanner(graph, selector(state), node_type)` and modifies nothing |
| `Gsm.GSM.Step` | Graph_State_Machine/gsm.py:48-51 | state and graph become the updater's result on the scan; on an exception nothing changes |
| `Gsm.GSM.ConsecutiveSteps` | Graph_State_Machine/gsm.py:58-61 | equals a step per argument in order, each seeing the previous update, stopping at the first exception |
| `Gsm.GSM.ScanAll` | Graph_State_Machine/gsm.py:65 | the list of scans, all against the current state and graph |
| `Gsm.GSM.UpdateAll` | Graph_State_Machine/gsm.py:66 | the scan results folded through the updater in list order |
| `Gsm.GSM.ParallelSteps` | Graph_State_Machine/gsm.py:63-67 | all scans against the state and graph from before the call, then the updates in order; a raising scan changes nothing |
| `Gsm.GSM.ExtendWith` | Graph_State_Machine/gsm.py:32-36 | a fresh controller with the same state and operations and the graph `graph.extend_with(ext)`; the original is untouched |
| `Gsm.ScansOfFacts` | Graph_State_Machine/gsm.py:65 | the scans succeed iff every scan does; the i-th result is the i-th argument's scan of the initial state; otherwise the error of the first raising scan |
| `GsmDefaults.DefaultGSM` | Graph_State_Machine/gsm.py:12-13 | the defaults are `by_score()` with Jaccard, `list_accumulator` and `identity` |
| `GsmDefaults.AccumulatorStep` | Graph_State_Machine/gsm.py:50 | with `list_accumulator`: see below the table |
| `GsmDefaults.AccumulatorConsecutive` | Graph_State_Machine/gsm.py:58-61 | with `list_accumulator`: see below the table |
| `GsmDefaults.AccumulatorFold` | Graph_State_Machine/gsm.py:66 | with `list_accumulator`: see below the table |
| `GsmDefaults.AccumulatorParallel` | Graph_State_Machine/gsm.py:63-67 | with `list_accumulator`: see below the table |
| `GsmDefaults.DefaultStepNeedsList` | Graph_State_Machine/gsm.py:48-50 | a default step with `None` or a single type name raises TypeError and changes nothing |
| `GsmDefaults.DefaultStepAppendsBest` | Graph_State_Machine/gsm.py:50 | a successful default step appends one candidate; it beats every other on score, then on lower name |
| `GsmDefaults.DefaultStepFails` | Graph_State_Machine/gsm.py:50 | a default step with a type list raises iff a state node is missing or no candidate scores above 0 |

Notes on the longer rows:
- **`Scanners.ByScoreOk`.** Every entry is a relevant neighbour, with its own
  positive score. Every relevant candidate with a positive score is listed.
  No node appears twice. The entries are strictly ordered by score
  descending, then by name ascending.
- **`Steps.OldByScoreOk`.**
  - The candidates are the single-type relevant neighbours.
  - Each score compares the state with *all* of the candidate's
    neighbours.
  - Only positive scores are kept, and no node appears twice.
  - The scores are non-increasing.
- **`GsmDefaults.AccumulatorStep`.** The step appends the first entry's node
  and keeps the graph. It raises, changing nothing, iff the scan raises or
  is empty (IndexError).
- **`GsmDefaults.AccumulatorConsecutive`.**
  - The graph is kept, and the old state is a prefix of the new one.
  - At most one node is added per argument.
  - The call completes iff every argument added one.
- **`GsmDefaults.AccumulatorFold`.** The update loop appends each result's top
  node in order. It raises IndexError at the first empty result, keeping the
  nodes appended before it.
- **`GsmDefaults.AccumulatorParallel`.**
  - The graph is kept, and the old state is a prefix of the new one.
  - The i-th node appended is the top of the i-th argument's scan of the
    *initial* state.
  - The call completes iff every scan succeeds and is non-empty.
- **`GsmDefaults.DefaultStepAppendsBest`.** The appended candidate is a
  relevant neighbour with a positive Jaccard score. Every other relevant
  neighbour has a lower score, or the same score and a greater name.
- **`GsmDefaults.DefaultStepFails`.** A missing state node raises
  NetworkXError for the first one. No candidate scoring above 0 raises
  IndexError. Either way the step changes nothing.

## Left out

- Plotting and colours, which are matplotlib drawing and palettes:
  `_set_colours`, `get_node_colours` and `plot` in graph.py, and `GSM.plot`.
- The `type_attr` attribute name: nodes carry one type attribute.
- The `__str__` methods.
- Floating-point rounding: the score ratios are exact reals.
- networkx adjacency iteration order. Neighbour lists are some fixed order
  without repeats. The composition of two graphs lists the first graph's
  neighbours first, then the new ones from the second.
- The unseen `Util/generic_util` helpers (`flatten`, `group_by`, `snd`,
  `diff`). They are specified by their evident meaning, and `diff` is not
  used by the core.
- The newer four-argument `relevant_neighbours` is not part of this model.
  Its filter is taken to keep the wanted types (all, when none are named)
  minus the unwanted ones. What it does with non-list arguments beyond the
  scanner's own list check is not modelled.
- The commented-out `_scan_by_type` and `step_by_type` in gsm.py.
- The showcase scripts, and what they call that the shown sources lack
  (logs, warnings, necessity and sufficiency, dictionary accumulators):
  they only print and plot.
- Packaging (`setup.py`, `__init__.py`), and the type aliases of `types.py`,
  which appear here as Dafny type synonyms.
- Python `set` iteration order is modelled as first-occurrence order.
  Suppose several candidate scores raise. Which exception `by_score` raises
  first then depends on that order, so only "the error of some candidate"
  is claimed.
- Steps.OldByScoreOk: the older `by_score` passes the `G.neighbors(n)`
  iterator to the score function. The model passes the neighbour list.
  With an iterator, the default `presence_score` still works, but
  `reverse_presence_score` would raise TypeError on `len()`. Tie order
  among equal scores comes from set iteration and is not claimed.
- `deepcopy` in `GSM.extend_with` and `Graph.extend_with` is a value copy.
  Graphs and states are values, so no aliasing can be observed. The
  scanner, updater and selector are shared, as `deepcopy` shares functions.
- `strs_as_keys`: the default `unique_value=[]` is one shared list object,
  so every key aliases it. The model has values only.
- `adjacencies_lossy_reverse` returns a `defaultdict`. The model returns the
  plain mapping, in which looking up a missing key is not modelled.
- Dict states are lists of key/value pairs with distinct keys. Changing the
  value of an existing key is not modelled, since no modelled operation
  does it.
