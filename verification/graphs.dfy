/**
 * The undirected graph that `load_graph_with_attributes` fills edge by edge
 * (graph.py:5-13) and the degree filter `highlight_nodes` (graph.py:19-26).
 *
 * A `Graph` holds the state of the graph object the loader mutates: the node
 * labels in insertion order (the order in which nodes are iterated), an
 * attribute map per node, and an adjacency map from each node to its
 * neighbours, each neighbour carrying the attribute map of the shared edge.
 */
module Graphs {
  import opened Wrappers
  import opened EdgeList

  type AdjMap = map<Label, map<Label, Attrs>>

  predicate Distinct<T(==)>(s: seq<T>) {
    forall i, j :: 0 <= i < j < |s| ==> s[i] != s[j]
  }

  /** `b` is a neighbour of `a`. */
  predicate Linked(adj: AdjMap, a: Label, b: Label) {
    a in adj && b in adj[a]
  }

  /** The attributes of the edge between `a` and `b`; empty where there is no edge. */
  function DataOf(adj: AdjMap, a: Label, b: Label): Attrs {
    if Linked(adj, a, b) then adj[a][b] else map[]
  }

  /** `{a, b}` and `{u, v}` are the same unordered pair. */
  predicate Ends(a: Label, b: Label, u: Label, v: Label) {
    (a == u && b == v) || (a == v && b == u)
  }

  /** The endpoints of edge `{u, v}` not yet among `ns`, in the order they are added. */
  function NewEnds(ns: seq<Label>, u: Label, v: Label): seq<Label> {
    (if u in ns then [] else [u]) + (if v in ns || v == u then [] else [v])
  }

  /** Appending the new endpoints keeps the node list free of repeats and in step with the keys. */
  lemma NodesAdded(nodes: seq<Label>, keys: set<Label>, u: Label, v: Label)
    requires Distinct(nodes)
    requires forall n :: n in keys <==> n in nodes
    ensures Distinct(nodes + NewEnds(nodes, u, v))
    ensures forall n :: n in keys + {u, v} <==> n in nodes + NewEnds(nodes, u, v)
  {
  }

  /** Every edge is seen, with the same attributes, from both of its ends. */
  ghost predicate Symmetric(adj: AdjMap) {
    forall a, b :: Linked(adj, a, b) ==> Linked(adj, b, a) && adj[a][b] == adj[b][a]
  }

  /** `m` with key `n` bound to `blank`, unless `n` is a key already. */
  function WithKey<V>(m: map<Label, V>, n: Label, blank: V): (r: map<Label, V>)
    ensures r.Keys == m.Keys + {n}
    ensures forall k :: k in m ==> r[k] == m[k]
  {
    if n in m then m else m[n := blank]
  }

  /** The edge `{u, v}` with attribute map `data`, written at both ends. */
  function WithEdge(adj: AdjMap, u: Label, v: Label, data: Attrs): (r: AdjMap)
    requires u in adj && v in adj
    ensures r.Keys == adj.Keys
  {
    var half := adj[u := adj[u][v := data]];
    half[v := half[v][u := data]]
  }

  lemma WithNodeKeepsEdges(adj: AdjMap, n: Label)
    ensures forall a, b :: Linked(WithKey(adj, n, map[]), a, b) <==> Linked(adj, a, b)
    ensures forall a, b :: DataOf(WithKey(adj, n, map[]), a, b) == DataOf(adj, a, b)
    ensures Symmetric(adj) ==> Symmetric(WithKey(adj, n, map[]))
  {
  }

  lemma WithEdgeAdds(adj: AdjMap, u: Label, v: Label, data: Attrs)
    requires u in adj && v in adj
    ensures forall a, b :: Linked(WithEdge(adj, u, v, data), a, b) <==> Linked(adj, a, b) || Ends(a, b, u, v)
    ensures forall a, b :: DataOf(WithEdge(adj, u, v, data), a, b) == if Ends(a, b, u, v) then data else DataOf(adj, a, b)
    ensures Symmetric(adj) ==> Symmetric(WithEdge(adj, u, v, data))
  {
    var r := WithEdge(adj, u, v, data);
    forall a, b
      ensures Linked(r, a, b) <==> Linked(adj, a, b) || Ends(a, b, u, v)
      ensures DataOf(r, a, b) == if Ends(a, b, u, v) then data else DataOf(adj, a, b)
    {
      if a == v {
        assert r[a] == (adj[u := adj[u][v := data]])[v][u := data];
      } else if a == u {
        assert r[a] == adj[u][v := data];
      } else if a in adj {
        assert r[a] == adj[a];
      }
    }
  }

  /**
   * The adjacency after adding edge `{u, v}` with `attrs` to `adj`: both ends
   * present, that one pair newly linked, its attributes merged, symmetry kept.
   */
  function AddedEdge(adj: AdjMap, u: Label, v: Label, attrs: Attrs): AdjMap {
    var ends := WithKey(WithKey(adj, u, map[]), v, map[]);
    WithEdge(ends, u, v, DataOf(ends, u, v) + attrs)
  }

  lemma {:induction false} EdgeAdded(adj: AdjMap, u: Label, v: Label, attrs: Attrs)
    requires Symmetric(adj)
    ensures var r := AddedEdge(adj, u, v, attrs);
      && r.Keys == adj.Keys + {u, v}
      && Symmetric(r)
      && (forall a, b :: Linked(r, a, b) <==> Linked(adj, a, b) || Ends(a, b, u, v))
      && (forall a, b :: DataOf(r, a, b) ==
                         if Ends(a, b, u, v) then DataOf(adj, a, b) + attrs else DataOf(adj, a, b))
  {
    var mid := WithKey(adj, u, map[]);
    var ends := WithKey(mid, v, map[]);
    WithNodeKeepsEdges(adj, u);
    WithNodeKeepsEdges(mid, v);
    var data := DataOf(ends, u, v) + attrs;
    WithEdgeAdds(ends, u, v, data);
    forall a, b | Ends(a, b, u, v) ensures DataOf(adj, a, b) == DataOf(adj, u, v) {
      if a == v && b == u {
        assert Linked(adj, v, u) ==> Linked(adj, u, v) && adj[v][u] == adj[u][v];
        assert Linked(adj, u, v) ==> Linked(adj, v, u);
      }
    }
  }

  class Graph {
    var nodes: seq<Label>
    var nodeAttrs: map<Label, Attrs>
    var adj: AdjMap

    /** Nodes are listed once each, and every edge is seen, with the same data, from both ends. */
    ghost predicate Valid()
      reads this
    {
      && Distinct(nodes)
      && (forall n :: n in adj <==> n in nodes)
      && nodeAttrs.Keys == adj.Keys
      && Symmetric(adj)
    }

    /** An empty graph. */
    constructor ()
      ensures Valid()
      ensures nodes == [] && nodeAttrs == map[] && adj == map[]
    {
      nodes, nodeAttrs, adj := [], map[], map[];
    }

    /**
     * Adds edge `{u, v}`: a missing endpoint becomes a new node with no
     * attributes, and `attrs` is merged into the edge's attribute map, a key
     * already there taking the new value; an existing edge gets no twin.
     */
    method AddEdge(u: Label, v: Label, attrs: Attrs)
      requires Valid()
      modifies this
      ensures Valid()
      ensures nodes == old(nodes) + NewEnds(old(nodes), u, v)
      ensures nodeAttrs == WithKey(WithKey(old(nodeAttrs), u, map[]), v, map[])
      ensures adj == AddedEdge(old(adj), u, v, attrs)
      ensures forall a, b :: Linked(adj, a, b) <==> Linked(old(adj), a, b) || Ends(a, b, u, v)
      ensures forall a, b :: DataOf(adj, a, b) ==
                             if Ends(a, b, u, v) then DataOf(old(adj), a, b) + attrs else DataOf(old(adj), a, b)
    {
      NodesAdded(nodes, adj.Keys, u, v);
      EdgeAdded(adj, u, v, attrs);
      nodes := nodes + NewEnds(nodes, u, v);
      nodeAttrs := WithKey(WithKey(nodeAttrs, u, map[]), v, map[]);
      adj := AddedEdge(adj, u, v, attrs);
    }
  }

  // ---------------------------------------------------------------------------
  // What a sequence of parsed lines makes of an empty graph.

  /** The endpoints of the lines, each once, in order of first appearance. */
  function Endpoints(es: seq<EdgeLine>): (ns: seq<Label>) {
    if es == [] then []
    else
      var prev := Endpoints(es[..|es| - 1]);
      var e := es[|es| - 1];
      prev + NewEnds(prev, e.u, e.v)
  }

  /** Some line joins `a` and `b`. */
  ghost predicate Connects(es: seq<EdgeLine>, a: Label, b: Label) {
    exists i :: 0 <= i < |es| && Ends(a, b, es[i].u, es[i].v)
  }

  /** The attribute maps of the lines joining `a` and `b`, merged in file order. */
  function EdgeData(es: seq<EdgeLine>, a: Label, b: Label): Attrs {
    if es == [] then map[]
    else
      var e := es[|es| - 1];
      EdgeData(es[..|es| - 1], a, b) + (if Ends(a, b, e.u, e.v) then e.attrs else map[])
  }

  /** What one more line adds to the lines' endpoints, edges and edge attributes. */
  lemma LinesSnoc(es: seq<EdgeLine>, e: EdgeLine)
    ensures Endpoints(es + [e]) == Endpoints(es) + NewEnds(Endpoints(es), e.u, e.v)
    ensures forall a, b :: Connects(es + [e], a, b) <==> Connects(es, a, b) || Ends(a, b, e.u, e.v)
    ensures forall a, b :: EdgeData(es + [e], a, b) ==
                           EdgeData(es, a, b) + (if Ends(a, b, e.u, e.v) then e.attrs else map[])
  {
    var es' := es + [e];
    assert es'[..|es|] == es;
    forall a, b ensures Connects(es', a, b) <==> Connects(es, a, b) || Ends(a, b, e.u, e.v) {
      if Connects(es', a, b) && !Ends(a, b, e.u, e.v) {
        var k :| 0 <= k < |es'| && Ends(a, b, es'[k].u, es'[k].v);
        assert es'[k] == es[k];
      }
      if Connects(es, a, b) {
        var k :| 0 <= k < |es| && Ends(a, b, es[k].u, es[k].v);
        assert es'[k] == es[k];
      }
      if Ends(a, b, e.u, e.v) {
        assert es'[|es|] == e;
      }
    }
  }

  /** The node list, node attributes and adjacency are exactly the graph the lines `es` describe. */
  ghost predicate Describes(nodes: seq<Label>, nodeAttrs: map<Label, Attrs>, adj: AdjMap, es: seq<EdgeLine>) {
    && nodes == Endpoints(es)
    && (forall n :: n in nodeAttrs ==> nodeAttrs[n] == map[])
    && (forall a, b :: Linked(adj, a, b) <==> Connects(es, a, b))
    && (forall a, b :: DataOf(adj, a, b) == EdgeData(es, a, b))
  }

  ghost predicate Built(g: Graph, es: seq<EdgeLine>)
    reads g
  {
    Describes(g.nodes, g.nodeAttrs, g.adj, es)
  }

  lemma LinksStep(adj: AdjMap, es: seq<EdgeLine>, e: EdgeLine)
    requires Symmetric(adj)
    requires forall a, b :: Linked(adj, a, b) <==> Connects(es, a, b)
    ensures forall a, b :: Linked(AddedEdge(adj, e.u, e.v, e.attrs), a, b) <==> Connects(es + [e], a, b)
  {
    LinesSnoc(es, e);
    EdgeAdded(adj, e.u, e.v, e.attrs);
  }

  lemma DataStep(adj: AdjMap, es: seq<EdgeLine>, e: EdgeLine)
    requires Symmetric(adj)
    requires forall a, b :: DataOf(adj, a, b) == EdgeData(es, a, b)
    ensures forall a, b :: DataOf(AddedEdge(adj, e.u, e.v, e.attrs), a, b) == EdgeData(es + [e], a, b)
  {
    LinesSnoc(es, e);
    EdgeAdded(adj, e.u, e.v, e.attrs);
  }

  /** Adding the edge of one more line to the graph of `es` gives the graph of `es + [e]`. */
  lemma DescribesStep(nodes: seq<Label>, nodeAttrs: map<Label, Attrs>, adj: AdjMap, es: seq<EdgeLine>, e: EdgeLine)
    requires Symmetric(adj)
    requires Describes(nodes, nodeAttrs, adj, es)
    ensures Describes(nodes + NewEnds(nodes, e.u, e.v), WithKey(WithKey(nodeAttrs, e.u, map[]), e.v, map[]),
                      AddedEdge(adj, e.u, e.v, e.attrs), es + [e])
  {
    assert (es + [e])[..|es|] == es;
    LinksStep(adj, es, e);
    DataStep(adj, es, e);
  }

  /**
   * `load_graph_with_attributes` over the lines of a file: a fresh graph
   * receives the edge of each line in turn; the first line that does not
   * parse aborts the load and no graph is returned.
   */
  method LoadGraph(lines: seq<string>) returns (r: Result<Graph, LoadError>)
    ensures r.Failure? <==> ParseLines(lines).Failure?
    ensures r.Failure? ==> r.error == ParseLines(lines).error
    ensures r.Success? ==> fresh(r.value) && r.value.Valid() && Built(r.value, ParseLines(lines).value)
  {
    var g := new Graph();
    ghost var es: seq<EdgeLine> := [];
    var i := 0;
    while i < |lines|
      invariant 0 <= i <= |lines|
      invariant ParseLines(lines[..i]) == Success(es)
      invariant fresh(g) && g.Valid() && Built(g, es)
    {
      ParseLinesStep(lines, i);
      match ParseLine(lines[i])
      case Failure(why) =>
        ParseLinesStopsAtFailure(lines, i + 1);
        return Failure(LoadError(i, why));
      case Success(e) =>
        DescribesStep(g.nodes, g.nodeAttrs, g.adj, es, e);
        g.AddEdge(e.u, e.v, e.attrs);
        es := es + [e];
        i := i + 1;
    }
    assert lines[..i] == lines;
    r := Success(g);
  }

  // ---------------------------------------------------------------------------
  // Properties of the loaded graph.

  /** The nodes are the lines' endpoints, each listed once and nothing else. */
  lemma {:induction false} EndpointsExact(es: seq<EdgeLine>)
    ensures Distinct(Endpoints(es))
    ensures forall n :: n in Endpoints(es) <==> exists i :: 0 <= i < |es| && (es[i].u == n || es[i].v == n)
    decreases |es|
  {
    if es != [] {
      var init, e := es[..|es| - 1], es[|es| - 1];
      var prev := Endpoints(init);
      EndpointsExact(init);
      assert Endpoints(es) == prev + NewEnds(prev, e.u, e.v);
      var keys := set n | n in prev;
      NodesAdded(prev, keys, e.u, e.v);
      forall n | n in Endpoints(es)
        ensures exists i :: 0 <= i < |es| && (es[i].u == n || es[i].v == n)
      {
        if n in prev {
          var k :| 0 <= k < |init| && (init[k].u == n || init[k].v == n);
          assert es[k] == init[k];
        } else {
          assert es[|es| - 1].u == n || es[|es| - 1].v == n;
        }
      }
      forall n | exists i :: 0 <= i < |es| && (es[i].u == n || es[i].v == n)
        ensures n in Endpoints(es)
      {
        var k :| 0 <= k < |es| && (es[k].u == n || es[k].v == n);
        if k < |init| {
          assert init[k] == es[k];
        }
      }
    }
  }

  /** Line `e` names node `n` as one of its ends. */
  predicate Names(e: EdgeLine, n: Label) {
    e.u == n || e.v == n
  }

  /**
   * The nodes are listed in order of first appearance: whenever a line names a
   * later-listed node, the earlier-listed node was named by that line or an
   * earlier one.
   */
  lemma {:induction false} EndpointsInFirstOrder(es: seq<EdgeLine>, i: nat, j: nat, k: nat)
    requires i < j < |Endpoints(es)|
    requires k < |es| && Names(es[k], Endpoints(es)[j])
    ensures exists k' :: 0 <= k' <= k && Names(es[k'], Endpoints(es)[i])
    decreases |es|
  {
    var init, e := es[..|es| - 1], es[|es| - 1];
    var prev := Endpoints(init);
    var ns := Endpoints(es);
    assert ns == prev + NewEnds(prev, e.u, e.v);
    EndpointsExact(init);
    assert forall m :: 0 <= m < |init| ==> init[m] == es[m];
    if j < |prev| {
      assert ns[i] == prev[i] && ns[j] == prev[j];
      if k < |init| {
        EndpointsInFirstOrder(init, i, j, k);
      } else {
        assert prev[j] in prev;
        var k0 :| 0 <= k0 < |init| && (init[k0].u == prev[j] || init[k0].v == prev[j]);
        EndpointsInFirstOrder(init, i, j, k0);
      }
    } else {
      assert ns[j] !in prev;
      assert k == |es| - 1;
      if i < |prev| {
        assert ns[i] == prev[i] && prev[i] in prev;
        var k0 :| 0 <= k0 < |init| && (init[k0].u == prev[i] || init[k0].v == prev[i]);
        assert Names(es[k0], ns[i]);
      } else {
        assert NewEnds(prev, e.u, e.v) == [e.u, e.v];
        assert ns[i] == e.u;
        assert Names(es[k], ns[i]);
      }
    }
  }

  /** An edge's attributes do not depend on the direction it is read in. */
  lemma {:induction false} EdgeDataSymmetric(es: seq<EdgeLine>, a: Label, b: Label)
    ensures EdgeData(es, a, b) == EdgeData(es, b, a)
    decreases |es|
  {
    if es != [] {
      EdgeDataSymmetric(es[..|es| - 1], a, b);
    }
  }

  /** A pair that no line joins carries no attributes. */
  lemma {:induction false} EdgeDataNeedsLine(es: seq<EdgeLine>, a: Label, b: Label)
    requires !Connects(es, a, b)
    ensures EdgeData(es, a, b) == map[]
    decreases |es|
  {
    if es != [] {
      var init := es[..|es| - 1];
      assert forall i :: 0 <= i < |init| ==> init[i] == es[i];
      EdgeDataNeedsLine(init, a, b);
      assert !Ends(a, b, es[|es| - 1].u, es[|es| - 1].v);
    }
  }

  /**
   * A line repeating an existing edge adds no node and no edge; its
   * attributes are merged into that edge's, overriding equal keys.
   */
  lemma ReAddMerges(es: seq<EdgeLine>, e: EdgeLine)
    requires Connects(es, e.u, e.v)
    ensures Endpoints(es + [e]) == Endpoints(es)
    ensures forall a, b :: Connects(es + [e], a, b) <==> Connects(es, a, b)
    ensures EdgeData(es + [e], e.u, e.v) == EdgeData(es, e.u, e.v) + e.attrs
  {
    LinesSnoc(es, e);
    EndpointsExact(es);
    var i :| 0 <= i < |es| && Ends(e.u, e.v, es[i].u, es[i].v);
    assert e.u in Endpoints(es) && e.v in Endpoints(es);
    forall a, b | Ends(a, b, e.u, e.v) ensures Connects(es, a, b) {
      assert Ends(a, b, es[i].u, es[i].v);
    }
  }

  /** After a load, both ends of every line are nodes, joined by an edge seen from either end. */
  lemma LoadedLinesAreEdges(g: Graph, es: seq<EdgeLine>)
    requires g.Valid() && Built(g, es)
    ensures forall i :: 0 <= i < |es| ==>
      && es[i].u in g.nodes && es[i].v in g.nodes
      && Linked(g.adj, es[i].u, es[i].v) && Linked(g.adj, es[i].v, es[i].u)
  {
    forall i | 0 <= i < |es|
      ensures Linked(g.adj, es[i].u, es[i].v) && Linked(g.adj, es[i].v, es[i].u)
    {
      assert Ends(es[i].u, es[i].v, es[i].u, es[i].v);
      assert Connects(es, es[i].u, es[i].v);
    }
  }

  // ---------------------------------------------------------------------------
  // highlight_nodes

  /** Node degree as the graph reports it: a self-loop counts twice. */
  function Degree(adj: AdjMap, n: Label): nat {
    if n in adj then |adj[n]| + (if n in adj[n] then 1 else 0) else 0
  }

  /** Python truthiness of a string. */
  predicate Truthy(s: string) {
    s != ""
  }

  /** The test of graph.py:22-24 for one node. */
  predicate Qualifies(nodeAttrs: map<Label, Attrs>, adj: AdjMap, n: Label,
                      attribute: Option<string>, minConnections: Option<int>)
  {
    || (&& attribute.Some? && Truthy(attribute.value)
        && n in nodeAttrs && attribute.value in nodeAttrs[n] && Truthy(nodeAttrs[n][attribute.value]))
    || (minConnections.Some? && Degree(adj, n) >= minConnections.value)
  }

  /** The nodes that qualify, in node order. */
  function Selected(nodes: seq<Label>, nodeAttrs: map<Label, Attrs>, adj: AdjMap,
                    attribute: Option<string>, minConnections: Option<int>): seq<Label>
  {
    if nodes == [] then []
    else
      var n := nodes[|nodes| - 1];
      Selected(nodes[..|nodes| - 1], nodeAttrs, adj, attribute, minConnections)
        + (if Qualifies(nodeAttrs, adj, n, attribute, minConnections) then [n] else [])
  }

  /** `highlight_nodes`: one pass over the nodes, appending each that qualifies. */
  method HighlightNodes(g: Graph, attribute: Option<string>, minConnections: Option<int>)
    returns (highlighted: seq<Label>)
    ensures highlighted == Selected(g.nodes, g.nodeAttrs, g.adj, attribute, minConnections)
  {
    highlighted := [];
    var i := 0;
    while i < |g.nodes|
      invariant 0 <= i <= |g.nodes|
      invariant highlighted == Selected(g.nodes[..i], g.nodeAttrs, g.adj, attribute, minConnections)
    {
      var node := g.nodes[i];
      assert g.nodes[..i + 1][..i] == g.nodes[..i];
      if attribute.Some? && Truthy(attribute.value) && node in g.nodeAttrs
         && attribute.value in g.nodeAttrs[node] && Truthy(g.nodeAttrs[node][attribute.value])
      {
        highlighted := highlighted + [node];
      } else if minConnections.Some? && Degree(g.adj, node) >= minConnections.value {
        highlighted := highlighted + [node];
      }
      i := i + 1;
    }
    assert g.nodes[..i] == g.nodes;
  }

  /** A node is highlighted iff it is a node and passes the test. */
  lemma {:induction false} SelectedMembers(nodes: seq<Label>, nodeAttrs: map<Label, Attrs>, adj: AdjMap,
                                           attribute: Option<string>, minConnections: Option<int>, n: Label)
    ensures n in Selected(nodes, nodeAttrs, adj, attribute, minConnections)
        <==> n in nodes && Qualifies(nodeAttrs, adj, n, attribute, minConnections)
    decreases |nodes|
  {
    if nodes != [] {
      var init := nodes[..|nodes| - 1];
      SelectedMembers(init, nodeAttrs, adj, attribute, minConnections, n);
      assert nodes == init + [nodes[|nodes| - 1]];
    }
  }

  /** No node is highlighted twice. */
  lemma {:induction false} SelectedDistinct(nodes: seq<Label>, nodeAttrs: map<Label, Attrs>, adj: AdjMap,
                                            attribute: Option<string>, minConnections: Option<int>)
    requires Distinct(nodes)
    ensures Distinct(Selected(nodes, nodeAttrs, adj, attribute, minConnections))
    decreases |nodes|
  {
    if nodes != [] {
      var init, n := nodes[..|nodes| - 1], nodes[|nodes| - 1];
      SelectedDistinct(init, nodeAttrs, adj, attribute, minConnections);
      SelectedMembers(init, nodeAttrs, adj, attribute, minConnections, n);
      assert n !in init;
    }
  }

  /** With no attribute and threshold `k`, exactly the nodes of degree at least `k` are highlighted. */
  lemma DegreeThreshold(g: Graph, k: int, n: Label)
    ensures n in Selected(g.nodes, g.nodeAttrs, g.adj, None, Some(k)) <==> n in g.nodes && Degree(g.adj, n) >= k
  {
    SelectedMembers(g.nodes, g.nodeAttrs, g.adj, None, Some(k), n);
  }

  /** With neither an attribute nor a threshold nothing is highlighted. */
  lemma {:induction false} NothingRequested(nodes: seq<Label>, nodeAttrs: map<Label, Attrs>, adj: AdjMap)
    ensures Selected(nodes, nodeAttrs, adj, None, None) == []
    decreases |nodes|
  {
    if nodes != [] {
      NothingRequested(nodes[..|nodes| - 1], nodeAttrs, adj);
    }
  }

  /** A threshold of zero or less highlights every node, in node order. */
  lemma {:induction false} ThresholdAtMostZero(nodes: seq<Label>, nodeAttrs: map<Label, Attrs>, adj: AdjMap,
                                               attribute: Option<string>, k: int)
    requires k <= 0
    ensures Selected(nodes, nodeAttrs, adj, attribute, Some(k)) == nodes
    decreases |nodes|
  {
    if nodes != [] {
      ThresholdAtMostZero(nodes[..|nodes| - 1], nodeAttrs, adj, attribute, k);
      assert nodes == nodes[..|nodes| - 1] + [nodes[|nodes| - 1]];
    }
  }
}
