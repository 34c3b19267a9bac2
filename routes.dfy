/**
 * Route queries: rebuilding a route from a predecessor list
 * (`reconstruct_path`) and the guarded shortest-path query
 * (`find_shortest_path`).
 *
 * Dijkstra's algorithm and breadth-first search are not part of this model.
 * A query receives their results through `search(algorithm, source)`, and
 * `WellFormed` is what the route planner relies on them to deliver.
 * Infinite distances are `None`.
 */
module Routes {
  import opened Wrappers
  import opened Stations

  /** `(distances, predecessors)` as returned by `dijkstra(graph, source)` or `bfs(graph, source)`. */
  datatype ShortestPaths = ShortestPaths(dist: seq<Option<nat>>, pred: seq<Option<int>>)

  /** The algorithm argument: one of the two imported functions, or any other value. */
  datatype Algorithm = Dijkstra | Bfs | Unsupported

  /**
   * Every predecessor comes strictly earlier in the order `rank`: the
   * predecessor links have no cycle. Both searches record a vertex's
   * predecessor only once the predecessor has been settled, so the order in
   * which they settle vertices is such a rank.
   */
  ghost predicate Ordered(pred: seq<Option<int>>, rank: seq<nat>)
  {
    && |rank| == |pred|
    && forall v :: 0 <= v < |pred| && pred[v].Some? && 0 <= pred[v].value < |pred| ==>
         rank[pred[v].value] < rank[v]
  }

  /**
   * The shortest-path results of a graph with `n` vertices and non-negative
   * weights, from `source`: one entry per vertex; the source has distance 0
   * and no predecessor; a predecessor is a reached vertex no farther from the
   * source (a zero-weight edge keeps the distance); every other reached vertex
   * has a predecessor; and the predecessor links have no cycle.
   */
  ghost predicate WellFormed(sp: ShortestPaths, n: nat, source: int)
    ensures WellFormed(sp, n, source) ==>
              && |sp.dist| == n && |sp.pred| == n
              && forall v :: 0 <= v < n ==> (sp.dist[v].Some? <==> v == source || sp.pred[v].Some?)
  {
    && 0 <= source < n
    && |sp.dist| == n && |sp.pred| == n
    && sp.dist[source] == Some(0)
    && sp.pred[source] == None
    && (forall v :: 0 <= v < n && sp.pred[v].Some? ==>
          && 0 <= sp.pred[v].value < n
          && sp.dist[v].Some? && sp.dist[sp.pred[v].value].Some?
          && sp.dist[sp.pred[v].value].value <= sp.dist[v].value)
    && (forall v :: 0 <= v < n && v != source && sp.dist[v].Some? ==> sp.pred[v].Some?)
    && exists rank :: Ordered(sp.pred, rank)
  }

  /** Every index of the dictionary is a position of the predecessor list. */
  predicate NamesIndexed(m: StationMap, n: nat)
  {
    forall i :: 0 <= i < |m| ==> 0 <= m[i].index < n
  }

  /** No station name is the empty (falsy) string. */
  predicate AllNamed(m: StationMap)
  {
    forall i :: 0 <= i < |m| ==> m[i].name != ""
  }

  /** `reverse_lookup(station_map, current_index)`, where the index may be None. */
  function NameOf(m: StationMap, current: Option<int>): Option<string>
  {
    match current
    case None => None
    case Some(c) => ReverseLookup(m, c)
  }

  /** Item `i` is the first item of the dictionary whose index is `c`. */
  predicate FirstHolder(m: StationMap, c: int, i: int)
  {
    0 <= i < |m| && m[i].index == c && forall j :: 0 <= j < i ==> m[j].index != c
  }

  /**
   * The test `if current_station:` — it passes exactly when the index is not
   * None and the first item holding that index has a non-empty name.
   */
  predicate Named(m: StationMap, current: Option<int>)
    ensures Named(m, current) <==>
              current.Some? && exists i :: FirstHolder(m, current.value, i) && m[i].name != ""
  {
    if current.None? || ReverseLookup(m, current.value).None? then false
    else
      var c := current.value;
      var k :| 0 <= k < |m| && m[k].index == c && m[k].name == ReverseLookup(m, c).value
               && forall j :: 0 <= j < k ==> m[j].index != c;
      assert FirstHolder(m, c, k);
      assert forall i :: FirstHolder(m, c, i) ==> i == k;
      ReverseLookup(m, c).value != ""
  }

  /**
   * The backward walk from `current` stops within `fuel` steps: it reaches
   * `start` or an index without a name, and every index it steps back from is
   * a position of `pred`.
   */
  ghost predicate Ends(pred: seq<Option<int>>, m: StationMap, start: int, current: Option<int>, fuel: nat)
    decreases fuel
  {
    || current == Some(start)
    || !Named(m, current)
    || (fuel > 0 && 0 <= current.value < |pred| && Ends(pred, m, start, pred[current.value], fuel - 1))
  }

  /** The `while` loop of `reconstruct_path` terminates when started at `end`. */
  ghost predicate Terminates(pred: seq<Option<int>>, m: StationMap, start: int, end: int)
  {
    exists fuel :: Ends(pred, m, start, Some(end), fuel)
  }

  /**
   * The vertices the backward walk from `current` visits, listed from `start`
   * to `current`, or None when the walk meets an index without a name first.
   */
  ghost function Backtrack(pred: seq<Option<int>>, m: StationMap, start: int, current: Option<int>, fuel: nat)
    : (r: Option<seq<int>>)
    requires Ends(pred, m, start, current, fuel)
    ensures r.Some? ==> |r.value| >= 1 && r.value[0] == start && current == Some(r.value[|r.value| - 1])
    ensures r.Some? ==> forall i :: 1 <= i < |r.value| ==>
                          && 0 <= r.value[i] < |pred| && r.value[i] != start
                          && pred[r.value[i]] == Some(r.value[i - 1])
                          && Named(m, Some(r.value[i]))
    decreases fuel
  {
    if current == Some(start) then Some([start])
    else if !Named(m, current) then None
    else
      var c := current.value;
      match Backtrack(pred, m, start, pred[c], fuel - 1)
      case None => None
      case Some(vs) => Some(vs + [c])
  }

  /** A number of steps within which the walk from `end` stops. */
  ghost function WalkFuel(pred: seq<Option<int>>, m: StationMap, start: int, end: int): (fuel: nat)
    requires Terminates(pred, m, start, end)
    ensures Ends(pred, m, start, Some(end), fuel)
  {
    var fuel :| Ends(pred, m, start, Some(end), fuel);
    fuel
  }

  /** The backward walk from `end` to `start`. */
  ghost function Walk(pred: seq<Option<int>>, m: StationMap, start: int, end: int): Option<seq<int>>
    requires Terminates(pred, m, start, end)
  {
    Backtrack(pred, m, start, Some(end), WalkFuel(pred, m, start, end))
  }

  function Append(walk: Option<seq<int>>, suffix: seq<int>): Option<seq<int>>
  {
    match walk
    case None => None
    case Some(vs) => Some(vs + suffix)
  }

  /** The path of station names for a walk: the start's name, then the name of every later vertex. */
  function Render(m: StationMap, start: int, walk: Option<seq<int>>): seq<Option<string>>
    requires walk.Some? ==> |walk.value| >= 1
  {
    match walk
    case None => []
    case Some(vs) => [ReverseLookup(m, start)] + Names(m, vs[1..])
  }

  /** `reverse_lookup` of each index. */
  function Names(m: StationMap, vs: seq<int>): seq<Option<string>>
  {
    seq(|vs|, i requires 0 <= i < |vs| => ReverseLookup(m, vs[i]))
  }

  /**
   * `reconstruct_path`: walks the predecessors back from `end` to `start`,
   * prepending each name, and answers [] as soon as an index has no name.
   */
  method ReconstructPath(pred: seq<Option<int>>, m: StationMap, start: int, end: int)
    returns (path: seq<Option<string>>)
    requires Terminates(pred, m, start, end)
    ensures path == Render(m, start, Walk(pred, m, start, end))
  {
    ghost var fuel := WalkFuel(pred, m, start, end);
    path := [];
    var current: Option<int> := Some(end);
    ghost var walked: seq<int> := [];
    ghost var left := fuel;
    AppendNothing(Backtrack(pred, m, start, current, left));
    while current != Some(start)
      invariant Ends(pred, m, start, current, left)
      invariant path == Names(m, walked)
      invariant Backtrack(pred, m, start, Some(end), fuel) == Append(Backtrack(pred, m, start, current, left), walked)
      decreases left
    {
      var currentStation := NameOf(m, current);
      if currentStation.Some? && currentStation.value != "" {
        BacktrackStep(pred, m, start, current.value, left);
        AppendTwice(Backtrack(pred, m, start, pred[current.value], left - 1), [current.value], walked);
        NamesCons(m, current.value, walked);
        path := [currentStation] + path;
        walked := [current.value] + walked;
        current := pred[current.value];
        left := left - 1;
      } else {
        return [];
      }
    }
    NamesCons(m, start, walked);
    path := [ReverseLookup(m, start)] + path;
  }

  lemma AppendNothing(walk: Option<seq<int>>)
    ensures Append(walk, []) == walk
  {
    if walk.Some? {
      assert walk.value + [] == walk.value;
    }
  }

  lemma AppendTwice(walk: Option<seq<int>>, a: seq<int>, b: seq<int>)
    ensures Append(Append(walk, a), b) == Append(walk, a + b)
  {
    if walk.Some? {
      assert walk.value + a + b == walk.value + (a + b);
    }
  }

  lemma NamesCons(m: StationMap, v: int, vs: seq<int>)
    ensures Names(m, [v] + vs) == [ReverseLookup(m, v)] + Names(m, vs)
    ensures ([v] + vs)[1..] == vs
  {
  }

  /** One step of the backward walk from a named vertex other than `start`. */
  lemma BacktrackStep(pred: seq<Option<int>>, m: StationMap, start: int, c: int, fuel: nat)
    requires Ends(pred, m, start, Some(c), fuel)
    requires c != start && Named(m, Some(c))
    ensures fuel > 0 && 0 <= c < |pred| && Ends(pred, m, start, pred[c], fuel - 1)
    ensures Backtrack(pred, m, start, Some(c), fuel) == Append(Backtrack(pred, m, start, pred[c], fuel - 1), [c])
  {
  }

  /** A walk that stops within some number of steps stops within any larger number. */
  lemma {:induction false} EndsWithMoreFuel(pred: seq<Option<int>>, m: StationMap, start: int, current: Option<int>,
                                            fuel: nat, more: nat)
    requires Ends(pred, m, start, current, fuel) && fuel <= more
    ensures Ends(pred, m, start, current, more)
    decreases fuel
  {
    if current != Some(start) && Named(m, current) {
      EndsWithMoreFuel(pred, m, start, pred[current.value], fuel - 1, more - 1);
    }
  }

  /** The number of steps the walk from `current` takes at most when `rank` orders the predecessors. */
  function Height(pred: seq<Option<int>>, rank: seq<nat>, current: Option<int>): nat
    requires |rank| == |pred|
  {
    if current.Some? && 0 <= current.value < |pred| then rank[current.value] + 1 else 0
  }

  /**
   * Predecessor links without a cycle make the walk from every index stop,
   * provided every named index is a position of the predecessor list.
   */
  lemma {:induction false} OrderedWalkEnds(pred: seq<Option<int>>, m: StationMap, start: int, rank: seq<nat>,
                                           current: Option<int>)
    requires Ordered(pred, rank) && NamesIndexed(m, |pred|)
    ensures Ends(pred, m, start, current, Height(pred, rank, current))
    decreases Height(pred, rank, current)
  {
    if current != Some(start) && Named(m, current) {
      var c := current.value;
      var k :| FirstHolder(m, c, k) && m[k].name != "";
      assert 0 <= c < |pred|;
      var p := pred[c];
      if p.Some? && 0 <= p.value < |pred| {
        OrderedWalkEnds(pred, m, start, rank, p);
        EndsWithMoreFuel(pred, m, start, p, Height(pred, rank, p), rank[c]);
      } else if p.Some? {
        assert forall h :: !FirstHolder(m, p.value, h);
      }
    }
  }

  /** Well-formed search results make `reconstruct_path` terminate, whatever the target. */
  lemma SearchWalksTerminate(sp: ShortestPaths, m: StationMap, s: int, t: int)
    requires WellFormed(sp, |sp.pred|, s) && NamesIndexed(m, |sp.pred|)
    ensures Terminates(sp.pred, m, s, t)
  {
    var rank :| Ordered(sp.pred, rank);
    OrderedWalkEnds(sp.pred, m, s, rank, Some(t));
  }

  /**
   * The walk needs no order on the whole predecessor list: here 1 and 2 are
   * each other's predecessor, yet the walk from 3 reaches 0 at once.
   */
  lemma CycleOffTheWalk()
    ensures var pred := [None, Some(2), Some(1), Some(0)];
            var m := [Entry("a", 0), Entry("b", 1), Entry("c", 2), Entry("d", 3)];
            && (forall rank :: !Ordered(pred, rank))
            && Terminates(pred, m, 0, 3) && Walk(pred, m, 0, 3) == Some([0, 3])
  {
    var pred := [None, Some(2), Some(1), Some(0)];
    var m := [Entry("a", 0), Entry("b", 1), Entry("c", 2), Entry("d", 3)];
    forall rank
      ensures !Ordered(pred, rank)
    {
      assert pred[1] == Some(2) && pred[2] == Some(1);
    }
    assert ReverseLookup(m, 3) == Some("d");
    assert Named(m, Some(3)) by {
      assert FirstHolder(m, 3, 3);
    }
    assert Ends(pred, m, 0, Some(0), 0);
    assert Ends(pred, m, 0, Some(3), 1);
    var fuel := WalkFuel(pred, m, 0, 3);
    assert fuel > 0;
    BacktrackStep(pred, m, 0, 3, fuel);
    assert Backtrack(pred, m, 0, pred[3], fuel - 1) == Some([0]);
    assert [0] + [3] == [0, 3];
    assert Walk(pred, m, 0, 3) == Some([0, 3]);
  }

  /** On well-formed results and a bijective dictionary of non-empty names, the walk from a reached vertex arrives at the source. */
  lemma {:induction false} WalkReachesSource(sp: ShortestPaths, m: StationMap, s: int, rank: seq<nat>, v: int, fuel: nat)
    requires WellFormed(sp, |m|, s) && IsIndexing(m) && AllNamed(m) && Ordered(sp.pred, rank)
    requires 0 <= v < |m| && sp.dist[v].Some? && Ends(sp.pred, m, s, Some(v), fuel)
    ensures Backtrack(sp.pred, m, s, Some(v), fuel).Some?
    decreases rank[v]
  {
    if v != s {
      var u := sp.pred[v].value;
      ReverseLookupOfIndexing(m, v);
      assert FirstHolder(m, v, v);
      BacktrackStep(sp.pred, m, s, v, fuel);
      WalkReachesSource(sp, m, s, rank, u, fuel - 1);
    }
  }

  /** `path` names the walk `vs` from `s` to `t`, vertex by vertex. */
  predicate NamesTheWalk(m: StationMap, s: int, t: int, vs: seq<int>, path: seq<Option<string>>)
    requires 0 <= s < |m| && 0 <= t < |m|
  {
    && |vs| >= 2 && |path| == |vs|
    && path[0] == Some(m[s].name) && path[|path| - 1] == Some(m[t].name)
    && forall i :: 1 <= i < |path| ==> 0 <= vs[i] < |m| && path[i] == Some(m[vs[i]].name)
  }

  /**
   * With a bijective dictionary of non-empty names and well-formed search
   * results, the route to a target `t` with a predecessor starts at the
   * source's name, ends at the target's name, and names every vertex of the
   * walk, each of which has the one before it as predecessor.
   */
  lemma ReconstructedPathEnds(sp: ShortestPaths, m: StationMap, s: int, t: int)
    requires WellFormed(sp, |m|, s) && IsIndexing(m) && AllNamed(m)
    requires 0 <= t < |m| && sp.pred[t].Some?
    requires Terminates(sp.pred, m, s, t)
    ensures Walk(sp.pred, m, s, t).Some?
    ensures NamesTheWalk(m, s, t, Walk(sp.pred, m, s, t).value, Render(m, s, Walk(sp.pred, m, s, t)))
  {
    var rank :| Ordered(sp.pred, rank);
    WalkReachesSource(sp, m, s, rank, t, WalkFuel(sp.pred, m, s, t));
    var vs := Walk(sp.pred, m, s, t).value;
    var path := Render(m, s, Some(vs));
    ReverseLookupOfIndexing(m, s);
    forall i | 1 <= i < |path|
      ensures path[i] == Some(m[vs[i]].name)
    {
      ReverseLookupOfIndexing(m, vs[i]);
    }
  }

  /** The route and its total metric: `(path, total_value)`. */
  datatype Route = Route(path: seq<Option<string>>, total: nat)

  const UnsupportedAlgorithmError := "Unsupported algorithm"

  /** Every search from every vertex delivers well-formed results. */
  ghost predicate SearchesWellFormed(search: (Algorithm, int) -> ShortestPaths, n: nat)
  {
    forall s :: 0 <= s < n ==> WellFormed(search(Dijkstra, s), n, s) && WellFormed(search(Bfs, s), n, s)
  }

  lemma SearchIsWellFormed(search: (Algorithm, int) -> ShortestPaths, n: nat, algorithm: Algorithm, s: int)
    requires SearchesWellFormed(search, n) && algorithm != Unsupported && 0 <= s < n
    ensures WellFormed(search(algorithm, s), n, s)
  {
  }

  /** A name found in the dictionary has an index that is a vertex. */
  lemma IndexIsVertex(m: StationMap, n: nat, name: string)
    requires NamesIndexed(m, n)
    ensures Get(m, name).Some? ==> 0 <= Get(m, name).value < n
  {
  }

  /**
   * The answer of `find_shortest_path`: ([], 0) for a station missing from
   * the dictionary; ValueError for an algorithm other than dijkstra and bfs;
   * ([], 0) when the target has no predecessor; otherwise the reconstructed
   * path and the target's distance.
   */
  ghost function Query(search: (Algorithm, int) -> ShortestPaths, n: nat, m: StationMap,
                       startStation: string, endStation: string, algorithm: Algorithm): (r: Result<Route>)
    requires NamesIndexed(m, n) && SearchesWellFormed(search, n)
    ensures r.Err? <==> Get(m, startStation).Some? && Get(m, endStation).Some? && algorithm == Unsupported
    ensures r.Err? ==> r.error == ValueError(UnsupportedAlgorithmError)
  {
    IndexIsVertex(m, n, startStation);
    IndexIsVertex(m, n, endStation);
    if Get(m, startStation).None? || Get(m, endStation).None? then Ok(Route([], 0))
    else if algorithm == Unsupported then Err(ValueError(UnsupportedAlgorithmError))
    else
      var s, t := Get(m, startStation).value, Get(m, endStation).value;
      var sp := search(algorithm, s);
      SearchIsWellFormed(search, n, algorithm, s);
      if sp.pred[t].None? then Ok(Route([], 0))
      else
        SearchWalksTerminate(sp, m, s, t);
        Ok(Route(Render(m, s, Walk(sp.pred, m, s, t)), sp.dist[t].value))
  }

  /**
   * `find_shortest_path`: looks both stations up, runs the chosen search from
   * the start and rebuilds the route to the end.
   */
  method FindShortestPath(search: (Algorithm, int) -> ShortestPaths, n: nat, m: StationMap,
                          startStation: string, endStation: string, algorithm: Algorithm)
    returns (r: Result<Route>)
    requires NamesIndexed(m, n) && SearchesWellFormed(search, n)
    ensures r == Query(search, n, m, startStation, endStation, algorithm)
  {
    var startIndex := Get(m, startStation);
    var endIndex := Get(m, endStation);
    if startIndex.None? || endIndex.None? {
      return Ok(Route([], 0));
    }
    IndexIsVertex(m, n, startStation);
    IndexIsVertex(m, n, endStation);
    var s, t := startIndex.value, endIndex.value;
    var sp: ShortestPaths;
    if algorithm == Dijkstra {
      sp := search(Dijkstra, s);
    } else if algorithm == Bfs {
      sp := search(Bfs, s);
    } else {
      return Err(ValueError(UnsupportedAlgorithmError));
    }
    if sp.pred[t].None? {
      return Ok(Route([], 0));
    }
    SearchWalksTerminate(sp, m, s, t);
    var path := ReconstructPath(sp.pred, m, s, t);
    r := Ok(Route(path, sp.dist[t].value));
  }

  /** A query from a station to itself finds no route, whatever the search: the start has no predecessor. */
  lemma SameStationHasNoRoute(search: (Algorithm, int) -> ShortestPaths, n: nat, m: StationMap,
                              station: string, algorithm: Algorithm)
    requires NamesIndexed(m, n) && SearchesWellFormed(search, n)
    requires Get(m, station).Some? && algorithm != Unsupported
    ensures Query(search, n, m, station, station, algorithm) == Ok(Route([], 0))
  {
    var s := Get(m, station).value;
    IndexIsVertex(m, n, station);
    SearchIsWellFormed(search, n, algorithm, s);
    UnreachedHasNoRoute(search, n, m, station, station, algorithm);
  }

  /** A query naming a station missing from the dictionary answers ([], 0), whatever the algorithm. */
  lemma UnknownStationHasNoRoute(search: (Algorithm, int) -> ShortestPaths, n: nat, m: StationMap,
                                 startStation: string, endStation: string, algorithm: Algorithm)
    requires NamesIndexed(m, n) && SearchesWellFormed(search, n)
    requires Get(m, startStation).None? || Get(m, endStation).None?
    ensures Query(search, n, m, startStation, endStation, algorithm) == Ok(Route([], 0))
  {
  }

  /**
   * A supported query between two known stations answers ([], 0) when the
   * search from the start records no predecessor for the end.
   */
  lemma UnreachedHasNoRoute(search: (Algorithm, int) -> ShortestPaths, n: nat, m: StationMap,
                            startStation: string, endStation: string, algorithm: Algorithm)
    requires NamesIndexed(m, n) && SearchesWellFormed(search, n)
    requires Get(m, startStation).Some? && Get(m, endStation).Some? && algorithm != Unsupported
    requires var sp, t := search(algorithm, Get(m, startStation).value), Get(m, endStation).value;
             0 <= t < |sp.pred| && sp.pred[t].None?
    ensures Query(search, n, m, startStation, endStation, algorithm) == Ok(Route([], 0))
  {
  }

  /**
   * On a bijective dictionary of non-empty names, a query between two known
   * stations with a supported algorithm answers a route exactly when the end
   * is reached from a different start; the route then runs from the start's
   * name to the end's name (each step along a predecessor edge, by
   * `ReconstructedPathEnds`), and its total is the end's distance.
   */
  lemma QueryFindsRoute(search: (Algorithm, int) -> ShortestPaths, m: StationMap,
                        startStation: string, endStation: string, algorithm: Algorithm)
    requires IsIndexing(m) && AllNamed(m) && SearchesWellFormed(search, |m|)
    requires Get(m, startStation).Some? && Get(m, endStation).Some? && algorithm != Unsupported
    ensures NamesIndexed(m, |m|)
    ensures var s, t := Get(m, startStation).value, Get(m, endStation).value;
            var sp := search(algorithm, s);
            var r := Query(search, |m|, m, startStation, endStation, algorithm);
            && r.Ok?
            && (r.value.path != [] <==> startStation != endStation && sp.dist[t].Some?)
            && (r.value.path != [] ==> RouteBetween(r.value.path, startStation, endStation) && r.value.total == sp.dist[t].value)
  {
    IndexIsVertex(m, |m|, startStation);
    IndexIsVertex(m, |m|, endStation);
    var s, t := Get(m, startStation).value, Get(m, endStation).value;
    var sp := search(algorithm, s);
    SearchIsWellFormed(search, |m|, algorithm, s);
    var i :| 0 <= i < |m| && m[i].name == startStation && m[i].index == s;
    var j :| 0 <= j < |m| && m[j].name == endStation && m[j].index == t;
    assert m[i].index == i && m[j].index == j;
    if sp.pred[t].Some? {
      SearchWalksTerminate(sp, m, s, t);
      ReconstructedPathEnds(sp, m, s, t);
    }
  }

  /** A non-empty route: at least two names, from `start` to `end`. */
  predicate RouteBetween(path: seq<Option<string>>, start: string, end: string)
  {
    |path| >= 2 && path[0] == Some(start) && path[|path| - 1] == Some(end)
  }
}
