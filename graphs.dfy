/**
 * The undirected weighted graph the route planner builds (`create_graph`).
 *
 * The adjacency-list graph class itself is not part of this model; `Graph`
 * stands for it through the contracts of the four operations the route
 * planner calls: insert_edge, delete_edge, has_edge and get_edge_list. Its
 * state is the vertex count and, per undirected edge, the weight, keyed by
 * the canonical pair `(min, max)` so that both orientations are one edge.
 */
module Graphs {
  import opened Wrappers
  import opened Stations
  import opened Edges

  predicate NoDuplicates<T(==)>(s: seq<T>)
  {
    forall i, j :: 0 <= i < j < |s| ==> s[i] != s[j]
  }

  /** `es` lists every key of `keys` exactly once. */
  ghost predicate Enumerates(es: seq<Key>, keys: set<Key>)
  {
    NoDuplicates(es) && forall k :: k in es <==> k in keys
  }

  predicate IsVertex(u: int, n: nat)
  {
    0 <= u < n
  }

  class Graph {
    /** The number of vertices; they are 0 .. n-1. */
    const n: nat
    /** The weight of each undirected edge, under its canonical key. */
    var edges: map<Key, nat>

    ghost predicate Valid()
      reads this
    {
      forall k :: k in edges ==> IsVertex(k.0, n) && IsVertex(k.1, n) && k.0 <= k.1
    }

    /** `AdjacencyListGraph(n, directed=False, weighted=True)`: no edges yet. */
    constructor (n: nat)
      ensures this.n == n && edges == map[] && Valid()
    {
      this.n := n;
      edges := map[];
    }

    /**
     * `insert_edge(u, v, weight)`: raises IndexError (here: `ok` is false and
     * nothing changes) when an endpoint is not a vertex; otherwise both
     * orientations now carry `weight`.
     */
    method InsertEdge(u: int, v: int, weight: nat) returns (ok: bool)
      requires Valid()
      modifies this
      ensures Valid()
      ensures ok <==> IsVertex(u, n) && IsVertex(v, n)
      ensures edges == if ok then old(edges)[Canon(u, v) := weight] else old(edges)
    {
      ok := IsVertex(u, n) && IsVertex(v, n);
      if ok {
        edges := edges[Canon(u, v) := weight];
      }
    }

    /** `delete_edge(u, v)`: removes both orientations; deleting an absent edge changes nothing. */
    method DeleteEdge(u: int, v: int)
      requires Valid()
      modifies this
      ensures Valid()
      ensures edges == old(edges) - {Canon(u, v)}
    {
      edges := edges - {Canon(u, v)};
    }

    /** `has_edge(u, v)`, in either orientation. */
    method HasEdge(u: int, v: int) returns (b: bool)
      ensures b <==> Canon(u, v) in edges
    {
      b := Canon(u, v) in edges;
    }

    /** `get_edge_list()`: every undirected edge once, as its canonical pair. */
    method EdgeList() returns (es: seq<Key>)
      requires Valid()
      ensures Enumerates(es, edges.Keys)
      ensures forall i :: 0 <= i < |es| ==> es[i].0 <= es[i].1
    {
      es := [];
      var rest := edges.Keys;
      while rest != {}
        invariant rest <= edges.Keys
        invariant NoDuplicates(es)
        invariant forall k :: k in es <==> k in edges && k !in rest
        decreases rest
      {
        var k :| k in rest;
        es := es + [k];
        rest := rest - {k};
      }
    }
  }

  /** `weights[weight_type]`. */
  function WeightOf(w: Weights, weightType: string): nat
    requires weightType == "time" || weightType == "stops"
  {
    if weightType == "time" then w.time else w.stops
  }

  /** The edges `create_graph` manages to insert: those whose endpoints are both vertices. */
  function Inserted(edges: map<Key, Weights>, weightType: string, n: nat): map<Key, nat>
    requires weightType == "time" || weightType == "stops"
  {
    map k | k in edges && IsVertex(k.0, n) && IsVertex(k.1, n) :: WeightOf(edges[k], weightType)
  }

  const WeightTypeError := "weight_type must be either 'time' or 'stops'"

  /**
   * `create_graph`: rejects any weight type other than 'time' and 'stops'
   * before building anything; otherwise inserts every dictionary entry with
   * the chosen weight into a graph with one vertex per station, skipping the
   * entries whose insertion fails.
   */
  method CreateGraph(m: StationMap, edges: map<Key, Weights>, weightType: string) returns (r: Result<Graph>)
    requires forall k :: k in edges ==> k.0 <= k.1
    ensures weightType != "time" && weightType != "stops" ==> r == Err(ValueError(WeightTypeError))
    ensures weightType == "time" || weightType == "stops" ==>
              && r.Ok? && fresh(r.value) && r.value.Valid() && r.value.n == |m|
              && r.value.edges == Inserted(edges, weightType, |m|)
  {
    if weightType != "time" && weightType != "stops" {
      return Err(ValueError(WeightTypeError));
    }
    var graph := new Graph(|m|);
    var rest := edges.Keys;
    while rest != {}
      invariant rest <= edges.Keys
      invariant fresh(graph) && graph.Valid() && graph.n == |m|
      invariant graph.edges == Inserted(edges - rest, weightType, |m|)
      decreases rest
    {
      var k :| k in rest;
      var ok := graph.InsertEdge(k.0, k.1, WeightOf(edges[k], weightType));
      assert Canon(k.0, k.1) == k;
      rest := rest - {k};
      assert graph.edges == Inserted(edges - rest, weightType, |m|);
    }
    assert edges - rest == edges;
    return Ok(graph);
  }

  /**
   * On the dictionaries built from one sheet, `create_graph` skips nothing:
   * every deduplicated pair becomes an edge, weighted by its least time or
   * by one stop.
   */
  lemma PreparedGraphKeepsEveryEdge(rows: seq<Row>, weightType: string)
    requires weightType == "time" || weightType == "stops"
    ensures var m := GetUniqueStations(rows);
            var d := Dedup(m, rows).value;
            && Inserted(d, weightType, |m|).Keys == d.Keys
            && (forall k :: k in d ==> Inserted(d, weightType, |m|)[k] == WeightOf(d[k], weightType))
            && (weightType == "stops" ==> forall k :: k in d ==> Inserted(d, weightType, |m|)[k] == 1)
  {
    var m := GetUniqueStations(rows);
    PreparedRowsDedup(rows);
    DedupMeaning(m, rows);
    var d := Dedup(m, rows).value;
    assert forall k :: k in d ==> d[k].stops == 1;
    InsertedKeepsVertexEdges(d, weightType, |m|);
  }

  /** Edges between vertices are all inserted, each with its weight. */
  lemma InsertedKeepsVertexEdges(d: map<Key, Weights>, weightType: string, n: nat)
    requires weightType == "time" || weightType == "stops"
    requires forall k :: k in d ==> 0 <= k.0 <= k.1 < n
    ensures Inserted(d, weightType, n).Keys == d.Keys
    ensures forall k :: k in d ==> Inserted(d, weightType, n)[k] == WeightOf(d[k], weightType)
  {
  }
}
