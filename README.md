# Route planning over a rail timetable — a verified Dafny model

This project models the route-planning layer of a rail-network planner, `functions.py`. It covers these steps:

- **Station indexing** (`get_unique_stations`, `reverse_lookup`). Every station named in the timetable gets an index 0 .. n-1, in ascending name order. Reverse lookup finds a station's name from its index.
- **Edge deduplication** (`map_stations_to_indices`). The timetable rows are folded into one dictionary entry per unordered station pair. The entry keeps the least journey time and a stop count of 1.
- **Graph construction** (`create_graph`). Builds an undirected graph weighted by time or by stops.
- **Route queries** (`reconstruct_path`, `find_shortest_path`). A route is rebuilt from the predecessor list that a shortest-path search returns.
- **All-pairs statistics** (`calculate_all_journeys`). Journey times or stop counts between every pair of reachable stations.
- **Closure simulation** (`identify_edges_to_remove`, `simulate_closure`). Deletes every edge that is not in the minimum spanning tree.

The files and their modules:

- `wrappers.dfy` (`Wrappers`): `Option`, `Result`, and the two Python exceptions the core raises, `KeyError` and `ValueError`.
- `stations.dfy` (`Stations`): timetable rows and the station dictionary. Python's string ordering and `sorted(set(...))`, dictionary lookup, reverse lookup, `get_unique_stations`.
- `edges.dfy` (`Edges`): canonical pair keys and `map_stations_to_indices`, modelled as an imperative loop. It is proved equal to a fold, and the fold is characterised independently of row order.
- `graphs.dfy` (`Graphs`): the adjacency-list graph as a class with the four operations the core calls, and `create_graph`.
- `routes.dfy` (`Routes`): `reconstruct_path` as a `while` loop, proved against a backward-walk function, and `find_shortest_path`.
- `journeys.dfy` (`Journeys`): `calculate_all_journeys` as nested loops filling two sets.
- `closure.dfy` (`Closure`): `identify_edges_to_remove` and `simulate_closure`.

Modelling choices:

- The station dictionary is an ordered list of `name: index` items (`StationMap`), not a Dafny `map`. This is because `reverse_lookup` returns the first matching item in insertion order. The edge dictionary is a Dafny `map`. Its contents do not depend on the order of the rows (`Edges.FoldOrderFree`). Its insertion order is not modelled, although Python iterates a dictionary in that order (see `Graphs.CreateGraph` under "Left out").
- The adjacency-list graph, Dijkstra, BFS and Kruskal are imported by `functions.py:4-7` and are not part of this model.
  - The graph is the class `Graphs.Graph`. Its state is the vertex count and the weight of each undirected edge, stored under the canonical key `(min, max)`.
  - A shortest-path search is a function parameter. `Routes.WellFormed` states what the planner relies on it to return:
    - one entry per vertex;
    - the source has distance 0 and no predecessor;
    - every predecessor is a reached vertex no farther from the source (a zero-weight edge keeps the distance);
    - every reached vertex other than the source has a predecessor;
    - the predecessor links have no cycle, because a search records a predecessor only after settling it.
  - The spanning tree is a second `Graph`.
- Times are natural numbers, and an infinite distance is `None`.
- A path is a list of `Option<string>`. The last name `reconstruct_path` inserts is `reverse_lookup(start)`, which can be `None`.

The model keeps these behaviours of the code, which a reader might not expect:

- `reconstruct_path` returns `[]` when a walked index has the empty (falsy) name. Its loop ends whenever the walk from the end reaches the start or an unnamed index, even if the predecessor list has a cycle elsewhere (`Routes.CycleOffTheWalk`).
- `calculate_all_journeys` returns two lists for every calculation type other than `'time'` and `'stops'`. For a type other than `'both'`, both lists are empty.
- `calculate_all_journeys` deduplicates on the pair and its value together. A pair contributes two observations when its two searches report different finite distances. With symmetric distances it contributes one (`Journeys.OneObservationPerPair`).
- `find_shortest_path` answers `([], 0)` for a query from a station to itself, because the start has no predecessor.

## Model

| member | source | states |
|---|---|---|
| Stations.LexLess | functions.py:31 | `a < b` on strings holds exactly when `a` is below `b` at some position: the two agree before it, and there `a` has ended while `b` has not, or `a` has the smaller code point |
| Stations.LexTransitive | functions.py:31 | Python's string order is transitive |
| Stations.LexTotal | functions.py:31 | Python's string order is total: two different strings are ordered one way or the other |
| Stations.InsertSorted | functions.py:30-31 | inserting a name into a strictly ascending list keeps it strictly ascending; its members are the old members plus the name |
| Stations.SortedDistinct | functions.py:30-31 | `sorted(set(xs))` is strictly ascending and holds exactly the names of `xs` |
| Stations.SortedIsUnique | functions.py:30-31 | two strictly ascending lists with the same members are equal, so the sorted station list is determined by the set of names |
| Stations.ColumnNames | functions.py:30 | the union of the two columns holds exactly the names some row mentions, as origin or destination |
| Stations.Get | functions.py:44-45 | dictionary lookup answers None exactly when no item has the name; otherwise it answers the index of an item with that name |
| Stations.ReverseLookup | functions.py:97-101 | None exactly when no item has the index; otherwise the name of the first item, in insertion order, whose index matches |
| Stations.GetUniqueStations | functions.py:28-34 | item i maps to i; names are strictly ascending; a name is a key exactly when some row mentions it |
| Stations.UniqueStationsAreTheSortedNames | functions.py:30-33 | the dictionary is item by item `(sorted[i], i)` for the sorted list of distinct names of both columns |
| Stations.UniqueStationsBijective | functions.py:28-34 | keys and indices are distinct; every mentioned name has an index in 0 .. n-1 that reverse-looks up to the name; every index reverse-looks up to a name that looks up to the index |
| Stations.ReverseLookupOfIndexing | functions.py:97-101 | in a dictionary where item i maps to i, reverse lookup of i is the name of item i |
| Stations.ReverseLookupInvertsGet | functions.py:97-101 | with distinct keys and indices, `reverse_lookup(m, m[s]) == s` |
| Stations.GetInvertsReverseLookup | functions.py:97-101 | with distinct keys, the name reverse lookup finds looks up to the index it started from |
| Edges.Canon | functions.py:47 | the key is ordered (`k.0 <= k.1`) and is the pair or the pair swapped |
| Edges.CanonIsOrderFree | functions.py:47 | rows (u, v) and (v, u) share one key, and an ordered pair is its own key |
| Edges.RowKey | functions.py:44-47 | KeyError for an unknown from-station; otherwise KeyError for an unknown to-station; a key exactly when both stations are known, and then the key is the ordered pair of their two indices |
| Edges.AddRow | functions.py:49-59 | the key joins the dictionary with stop count 1 and the smaller of the row's time and the stored time; every other entry is unchanged |
| Edges.KeyRows | functions.py:40-47 | the rows are keyed exactly when every row names two known stations. The keys and times are those of the rows, in row order. Otherwise the KeyError is the one for the first failing row, from-column first |
| Edges.FoldSummarizes | functions.py:50-59 | the folded dictionary has exactly the keys of the rows. Every stop count is 1. Every time is the least time among the rows of its key, and some row has that time |
| Edges.AddRowSummarizes | functions.py:49-59 | one more row keeps the dictionary a summary of the rows seen so far |
| Edges.SummaryIsUnique | functions.py:50-59 | only one dictionary meets that description |
| Edges.FoldOrderFree | functions.py:40-59 | two row sequences with the same keyed rows, in any order and with any repetition, give the same dictionary |
| Edges.DedupMeaning | functions.py:38-61 | `map_stations_to_indices` raises exactly when some row names an unknown station. Otherwise its result keeps the least time and one stop per unordered pair |
| Edges.PreparedRowKey | functions.py:44-47 | every row of the sheet is keyed by two indices of the dictionary built from the same sheet |
| Edges.PreparedRowsDedup | functions.py:73-74 | on the dictionary built from the same sheet, `map_stations_to_indices` never raises, and every key is an ordered pair of indices in 0 .. n-1 |
| Edges.MapStationsToIndices | functions.py:38-61 | the row loop returns the dictionary of `Dedup`, or the KeyError of the first row naming an unknown station |
| Graphs.Graph.constructor | functions.py:85 | a graph with n vertices and no edges |
| Graphs.Graph.InsertEdge | functions.py:89 | fails and changes nothing when an endpoint is not a vertex. Otherwise the undirected edge carries the weight; other edges are unchanged |
| Graphs.Graph.DeleteEdge | functions.py:210 | removes the undirected edge; deleting an absent edge changes nothing |
| Graphs.Graph.HasEdge | functions.py:199 | true exactly when the edge is present, in either orientation |
| Graphs.Graph.EdgeList | functions.py:197 | every edge once, each as an ordered pair |
| Graphs.CreateGraph | functions.py:80-93 | ValueError for a weight type other than 'time' or 'stops', before anything is built. Otherwise a fresh graph with one vertex per station, holding every entry whose endpoints are vertices, weighted by the chosen weight. A failed insertion is skipped |
| Graphs.PreparedGraphKeepsEveryEdge | functions.py:87-91 | on the dictionaries built from one sheet no insertion fails. The graph has exactly the deduplicated pairs as edges, with stop weight 1 |
| Routes.WellFormed | functions.py:133-136 | what the planner relies on `dijkstra` and `bfs` to return: one entry per vertex, and a vertex is reached exactly when it is the source or has a predecessor |
| Routes.Named | functions.py:110-111 | the test `if current_station:` passes exactly when the index is not None and the first item holding it has a non-empty name |
| Routes.Backtrack | functions.py:108-117 | a successful backward walk runs from the start to the current vertex. Each later vertex is a named vertex other than the start, and its predecessor is the vertex before it |
| Routes.BacktrackStep | functions.py:110-114 | from a named vertex other than the start, the walk is the walk from its predecessor followed by the vertex |
| Routes.ReconstructPath | functions.py:105-119 | the loop returns [] when the walk meets an index without a name (a None predecessor, an unknown index or an empty name). Otherwise it returns the start's reverse lookup followed by the names of the walk |
| Routes.EndsWithMoreFuel | functions.py:109-113 | a walk that stops within some number of steps stops within any larger number |
| Routes.OrderedWalkEnds | functions.py:109-113 | when the predecessor links have no cycle and every named index is a position of the list, the walk from any index stops |
| Routes.SearchWalksTerminate | functions.py:134-146 | on well-formed search results, the loop of `reconstruct_path` terminates for every target |
| Routes.CycleOffTheWalk | functions.py:109-113 | the loop needs no order on the whole predecessor list: with 1 and 2 each other's predecessor, the walk from 3 to 0 still ends and yields [0, 3] |
| Routes.WalkReachesSource | functions.py:108-117 | on well-formed search results and a bijective dictionary of non-empty names, the walk from any reached vertex arrives at the source |
| Routes.ReconstructedPathEnds | functions.py:105-119 | on such inputs, the path to a target with a predecessor has at least two entries. It starts with the source's name, ends with the target's name, and names each vertex of the walk |
| Routes.IndexIsVertex | functions.py:129-130 | a station found in the dictionary has an index that is a vertex of the graph |
| Routes.Query | functions.py:123-150 | a ValueError exactly when both stations are known and the algorithm is neither `dijkstra` nor `bfs`, with the message 'Unsupported algorithm'; every other case answers a route |
| Routes.FindShortestPath | functions.py:123-150 | the query answers `Query`: ([], 0) for an unknown station (`Routes.UnknownStationHasNoRoute`); ValueError for an unsupported algorithm (`Routes.Query`); ([], 0) when the target has no predecessor (`Routes.UnreachedHasNoRoute`); otherwise the reconstructed path and the target's distance (`Routes.QueryFindsRoute`) |
| Routes.UnknownStationHasNoRoute | functions.py:124-126 | a query naming a station missing from the dictionary answers ([], 0), whatever the algorithm |
| Routes.UnreachedHasNoRoute | functions.py:141-143 | a supported query between known stations answers ([], 0) when the search records no predecessor for the end |
| Routes.SameStationHasNoRoute | functions.py:141-143 | a query from a known station to itself answers ([], 0), because the start has no predecessor |
| Routes.QueryFindsRoute | functions.py:123-150 | on a bijective dictionary of non-empty names, a supported query between known stations returns a non-empty path exactly when the stations differ and the end is reached. The path then runs from the start's name to the end's name, and the total is the end's distance |
| Journeys.ValuesRemove | functions.py:175-180 | the values of a set of observations do not depend on the order in which its elements are taken |
| Journeys.ValuesCount | functions.py:175-180 | each observation contributes one value |
| Journeys.ValuesOf | functions.py:175-180 | the list comprehension over a set of observations holds the values of the set, with multiplicity |
| Journeys.FromPrefixStep | functions.py:162-165 | one more target adds at most its own observation: none for the source itself or an infinite distance |
| Journeys.CollectFrom | functions.py:162-165 | the inner loop adds exactly the observations of one search to the set |
| Journeys.CalculateAllJourneys | functions.py:154-180 | 'time' and 'stops' give one list of that metric's values; 'both' gives both lists; any other type gives two empty lists |
| Journeys.CollectedMeaning | functions.py:158-173 | an observation is in the set exactly when it is the finite distance from a dictionary station to another vertex, under their canonical pair |
| Journeys.ObservedMeaning | functions.py:158-173 | the same, for the whole dictionary |
| Journeys.NoSelfPairs | functions.py:163-164 | no observation is a self-pair: every key is strictly ordered, and every value is finite by construction |
| Journeys.EveryReachablePairObserved | functions.py:162-165 | every pair with a finite distance is recorded with that distance |
| Journeys.OneObservationPerPair | functions.py:164-165 | with symmetric distances, two observations with the same pair are the same observation |
| Closure.Removable | functions.py:193-202 | the entries of the edge list that `has_edge` does not find in the tree, in list order. There are no more entries than in the edge list and no duplicates when the list has none |
| Closure.IdentifyEdgesToRemove | functions.py:193-202 | the result filters the graph's edge list by tree membership, has no duplicates, and holds exactly the graph's edges that are not in the tree |
| Closure.RemovableSplitsEdgeList | functions.py:198-200 | each entry of an ordered edge list is removable exactly when it is not in the tree |
| Closure.SimulateClosure | functions.py:206-210 | the graph loses exactly the listed edges, none of them remains, and every other edge keeps its weight |
| Closure.ClosureLeavesTree | functions.py:193-210 | when the tree's edges are edges of the graph, closing the removable edges leaves exactly the tree's edges |

## Left out

- `load_data`, `clean_station_names` and `prepare_data` (functions.py:11-24, 65-76). These are spreadsheet I/O and column stripping. A timetable row is given as a value. The composition that `prepare_data` performs is stated by `Edges.PreparedRowsDedup` and `Graphs.PreparedGraphKeepsEveryEdge`.
- `generate_mst`, `print_edges_to_remove`, the histogram plotting functions, and the console messages printed along the way. They are a call into Kruskal, console output, and plotting.
- The internals of the adjacency-list graph, Dijkstra, BFS and Kruskal are not part of this model. Each is specified only by its contract, as above.
- Graphs.Graph.InsertEdge: a second insertion of an existing edge replaces its weight instead of adding a parallel adjacency record. `Graphs.CreateGraph` therefore requires ordered keys, which `map_stations_to_indices` guarantees; under that requirement every pair is inserted once.
- Graphs.CreateGraph: the `directed=False, weighted=True` flags are not modelled; the graph is always undirected and weighted. Exceptions other than an invalid endpoint inside `insert_edge` are not modelled.
- Routes.ReconstructPath: requires that the walk from the end stops, at the start or at an unnamed index, and that every index it steps back from is a position of the list (`Routes.Terminates`). Input where the Python loop never ends, a cycle of named indices that avoids the start, is not represented. Nor is a named negative index, from which Python steps back through its wrap-around indexing. Well-formed search results always meet the requirement (`Routes.SearchWalksTerminate`).
- Routes.FindShortestPath: requires every dictionary index to be a vertex and every search result to be well-formed (`Routes.WellFormed`). The searches themselves are not part of this model, so these are their assumed guarantees. Outside them Python may raise IndexError, which is not modelled. The `graph` argument is represented by the search function already applied to it.
- Journeys.CalculateAllJourneys: the list order of the results follows Python's set iteration order, so the contract states the lists as multisets. The algorithm argument is represented by the two distance functions, one for the time graph and one for the stops graph.
- Graphs.CreateGraph and Graphs.Graph.EdgeList: the order in which Python iterates the edge dictionary, and with it the order of each vertex's adjacency list, is not modelled. `CreateGraph` inserts the keys in an arbitrary order and `EdgeList` may list the edges in any order. That order decides the order of `identify_edges_to_remove`'s result and which predecessor `dijkstra` and `bfs` record between equally short routes. The contracts state the edge set, which does not depend on that order.
- Floating-point times and `float('inf')`: times are natural numbers and infinite distances are `None`.
