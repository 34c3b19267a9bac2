/**
 * Network closure simulation: the edges of the graph that are not in its
 * minimum spanning tree (`identify_edges_to_remove`) and their deletion from
 * the graph (`simulate_closure`).
 *
 * Kruskal's algorithm is not part of this model: the spanning tree is a
 * second `Graph` whose edges are given.
 */
module Closure {
  import opened Edges
  import opened Graphs

  /**
   * The entries of the edge list `es`, in list order, that `has_edge` does
   * not find in the tree with edge keys `tree`.
   */
  function Removable(es: seq<Key>, tree: set<Key>): (r: seq<Key>)
    ensures |r| <= |es|
    ensures forall k :: k in r <==> k in es && Canon(k.0, k.1) !in tree
    ensures NoDuplicates(es) ==> NoDuplicates(r)
  {
    if es == [] then []
    else
      var init, last := es[..|es| - 1], es[|es| - 1];
      assert es == init + [last];
      var r0 := Removable(init, tree);
      if Canon(last.0, last.1) in tree then r0 else r0 + [last]
  }

  /**
   * `identify_edges_to_remove`: walks the graph's edge list `listed` and keeps,
   * in order, every entry the tree does not contain.
   */
  method IdentifyEdgesToRemove(graph: Graph, mst: Graph) returns (r: seq<Key>, ghost listed: seq<Key>)
    requires graph.Valid()
    ensures Enumerates(listed, graph.edges.Keys)
    ensures r == Removable(listed, mst.edges.Keys)
    ensures NoDuplicates(r)
    ensures forall k :: k in r <==> k in graph.edges && k !in mst.edges
  {
    var es := graph.EdgeList();
    listed := es;
    r := [];
    var i := 0;
    while i < |es|
      invariant 0 <= i <= |es|
      invariant r == Removable(es[..i], mst.edges.Keys)
    {
      var u, v := es[i].0, es[i].1;
      assert es[..i + 1] == es[..i] + [(u, v)];
      var inTree := mst.HasEdge(u, v);
      if !inTree {
        r := r + [(u, v)];
      }
      i := i + 1;
    }
    assert es[..i] == es;
    forall k | k in graph.edges
      ensures Canon(k.0, k.1) == k
    {
    }
  }

  /** The keys `delete_edge` removes for the listed pairs. */
  function Closed(pairs: seq<Key>): set<Key>
  {
    set i | 0 <= i < |pairs| :: Canon(pairs[i].0, pairs[i].1)
  }

  /**
   * `simulate_closure`: deletes every listed edge from the graph, in place;
   * every other edge keeps its weight.
   */
  method SimulateClosure(graph: Graph, pairs: seq<Key>)
    requires graph.Valid()
    modifies graph
    ensures graph.Valid()
    ensures graph.edges == old(graph.edges) - Closed(pairs)
    ensures forall i :: 0 <= i < |pairs| ==> Canon(pairs[i].0, pairs[i].1) !in graph.edges
  {
    var i := 0;
    while i < |pairs|
      invariant 0 <= i <= |pairs|
      invariant graph.Valid()
      invariant graph.edges == old(graph.edges) - Closed(pairs[..i])
    {
      assert Closed(pairs[..i + 1]) == Closed(pairs[..i]) + {Canon(pairs[i].0, pairs[i].1)} by {
        assert forall j :: 0 <= j < i ==> pairs[..i + 1][j] == pairs[..i][j];
      }
      graph.DeleteEdge(pairs[i].0, pairs[i].1);
      i := i + 1;
    }
    assert pairs[..i] == pairs;
  }

  /**
   * Closing the removable edges of a graph whose edge list enumerates its
   * canonical keys leaves exactly the edges of a spanning tree drawn from the
   * graph.
   */
  lemma ClosureLeavesTree(edges: set<Key>, es: seq<Key>, tree: set<Key>)
    requires Enumerates(es, edges) && forall k :: k in edges ==> k.0 <= k.1
    requires tree <= edges
    ensures edges - Closed(Removable(es, tree)) == tree
  {
    var closed := Closed(Removable(es, tree));
    forall k | k in edges
      ensures k in closed <==> k !in tree
    {
      assert Canon(k.0, k.1) == k;
      if k !in tree {
        assert Removable(es, tree)[..] == Removable(es, tree);
        var i :| 0 <= i < |Removable(es, tree)| && Removable(es, tree)[i] == k;
        assert k == Canon(Removable(es, tree)[i].0, Removable(es, tree)[i].1);
      }
    }
  }

  /** The removable edges and the tree's edges split the edge list: every entry is in exactly one. */
  lemma RemovableSplitsEdgeList(es: seq<Key>, tree: set<Key>, k: Key)
    requires forall i :: 0 <= i < |es| ==> es[i].0 <= es[i].1
    requires k in es
    ensures k in Removable(es, tree) <==> k !in tree
  {
    var i :| 0 <= i < |es| && es[i] == k;
  }
}
