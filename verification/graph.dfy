/**
 A weighted undirected graph kept as an adjacency table: every node name maps
 to the list of `(neighbour, weight)` pairs recorded for it, and an undirected
 edge is recorded once in each endpoint's list. Graphs are values here: the
 mutating operations return the updated graph.
 */
module Graphs {
  import opened Wrappers

  /** Edge weights are `i32` in the table; no operation does arithmetic on them. */
  newtype i32 = x: int | -0x8000_0000 <= x < 0x8000_0000

  type Node = string
  type Neighbour = (Node, i32)
  type Table = map<Node, seq<Neighbour>>
  type Edge = (Node, Node, i32)

  datatype UndirectedGraph = UndirectedGraph(adjacency: Table)

  // ---------------------------------------------------------------------------
  // The edge view: how many times each directed triple is recorded
  // ---------------------------------------------------------------------------

  /** How many times `e.1` with weight `e.2` appears in the list of `e.0`, counting only nodes in `keys`. */
  function EdgeCountIn(t: Table, keys: set<Node>, e: Edge): nat {
    if e.0 in keys && e.0 in t then multiset(t[e.0])[(e.1, e.2)] else 0
  }

  function EdgeCount(t: Table, e: Edge): nat {
    EdgeCountIn(t, t.Keys, e)
  }

  /** The triples contributed by one node's list. */
  function RowBag(from: Node, row: seq<Neighbour>): (r: multiset<Edge>)
    ensures |r| == |row|
    ensures forall e :: r[e] == if e.0 == from then multiset(row)[(e.1, e.2)] else 0
  {
    if row == [] then
      multiset{}
    else
      var last := row[|row| - 1];
      assert row == row[..|row| - 1] + [last];
      RowBag(from, row[..|row| - 1]) + multiset{(from, last.0, last.1)}
  }

  /** Total length of the lists of the nodes in `keys`. */
  ghost function SumLengths(t: Table, keys: set<Node>): nat
    requires keys <= t.Keys
    decreases keys
  {
    if keys == {} then 0 else var k :| k in keys; |t[k]| + SumLengths(t, keys - {k})
  }

  /** `SumLengths` does not depend on the order in which it visits the keys. */
  lemma {:induction false} SumLengthsRemove(t: Table, keys: set<Node>, k: Node)
    requires keys <= t.Keys && k in keys
    ensures SumLengths(t, keys) == |t[k]| + SumLengths(t, keys - {k})
    decreases keys
  {
    var j :| j in keys && SumLengths(t, keys) == |t[j]| + SumLengths(t, keys - {j});
    if j != k {
      SumLengthsRemove(t, keys - {j}, k);
      SumLengthsRemove(t, keys - {k}, j);
      assert keys - {j} - {k} == keys - {k} - {j};
    }
  }

  /** Every triple `(n, m, w)` with `(m, w)` in the list of some `n` in `keys`, with multiplicity. */
  ghost function EdgeBagOver(t: Table, keys: set<Node>): (r: multiset<Edge>)
    requires keys <= t.Keys
    ensures forall e :: r[e] == EdgeCountIn(t, keys, e)
    ensures |r| == SumLengths(t, keys)
    decreases keys
  {
    if keys == {} then
      multiset{}
    else
      var k :| k in keys;
      SumLengthsRemove(t, keys, k);
      RowBag(k, t[k]) + EdgeBagOver(t, keys - {k})
  }

  ghost function EdgeBag(g: UndirectedGraph): multiset<Edge> {
    EdgeBagOver(g.adjacency, g.adjacency.Keys)
  }

  /** Each triple is recorded as often as its reverse. */
  ghost predicate Symmetric(g: UndirectedGraph) {
    forall from, to, w :: EdgeCount(g.adjacency, (from, to, w)) == EdgeCount(g.adjacency, (to, from, w))
  }

  // ---------------------------------------------------------------------------
  // Operations
  // ---------------------------------------------------------------------------

  /** `UndirectedGraph::new`. */
  function New(): (g: UndirectedGraph)
    ensures Nodes(g) == {} && EdgeBag(g) == multiset{} && Symmetric(g)
  {
    UndirectedGraph(map[])
  }

  /** `HashMap::get`. */
  function Lookup(t: Table, n: Node): (r: Option<seq<Neighbour>>)
    ensures r.Some? <==> n in t
    ensures r.Some? ==> r.value == t[n]
  {
    if n in t then Some(t[n]) else None
  }

  /** `contains`: whether `n` has an entry in the table. */
  function Contains(g: UndirectedGraph, n: Node): (r: bool)
    ensures r <==> n in g.adjacency
  {
    Lookup(g.adjacency, n).Some?
  }

  /** `nodes`: the set of table keys. */
  function Nodes(g: UndirectedGraph): (r: set<Node>)
    ensures forall n :: n in r <==> Contains(g, n)
  {
    g.adjacency.Keys
  }

  /**
   `add_node`: inserts `n` with an empty list when it is absent and reports
   whether it did; a present node leaves the graph as it is.
   */
  function AddNode(g: UndirectedGraph, n: Node): (r: (bool, UndirectedGraph))
    ensures r.0 <==> !Contains(g, n)
    ensures Nodes(r.1) == Nodes(g) + {n}
    ensures r.0 ==> r.1.adjacency[n] == [] && forall m :: m in g.adjacency ==> r.1.adjacency[m] == g.adjacency[m]
    ensures !r.0 ==> r.1 == g
  {
    if n in g.adjacency then
      (false, g)
    else
      (true, UndirectedGraph(g.adjacency[n := []]))
  }

  /** A second `add_node` of the same name reports `false` and changes nothing. */
  lemma AddNodeTwice(g: UndirectedGraph, n: Node)
    ensures AddNode(AddNode(g, n).1, n) == (false, AddNode(g, n).1)
  {
  }

  /** The list `entry(n).or_insert_with(Vec::new)` yields: the recorded one, or a fresh empty one. */
  function Row(t: Table, n: Node): seq<Neighbour> {
    if n in t then t[n] else []
  }

  /** `entry(n).or_insert_with(Vec::new).push(nb)`. */
  function Push(t: Table, n: Node, nb: Neighbour): (r: Table)
    ensures r.Keys == t.Keys + {n}
    ensures r[n] == Row(t, n) + [nb]
    ensures forall m :: m in t && m != n ==> r[m] == t[m]
  {
    t[n := Row(t, n) + [nb]]
  }

  /**
   `add_edge`: adds both endpoints when missing, then appends `(to, weight)`
   to the list of `from` and `(from, weight)` to the list of `to`. Self-loops and
   repeated edges are recorded like any other.
   */
  function AddEdge(g: UndirectedGraph, edge: Edge): (r: UndirectedGraph)
    ensures Nodes(r) == Nodes(g) + {edge.0, edge.1}
  {
    var from, to, weight := edge.0, edge.1, edge.2;
    var withBoth := AddNode(AddNode(g, from).1, to).1;
    var t := Push(withBoth.adjacency, from, (to, weight));
    UndirectedGraph(Push(t, to, (from, weight)))
  }

  /** What `add_edge` leaves in the list of one node `n`. */
  function RowAfterAddEdge(g: UndirectedGraph, edge: Edge, n: Node): seq<Neighbour> {
    if n == edge.0 && n == edge.1 then Row(g.adjacency, n) + [(edge.1, edge.2), (edge.0, edge.2)]
    else if n == edge.0 then Row(g.adjacency, n) + [(edge.1, edge.2)]
    else if n == edge.1 then Row(g.adjacency, n) + [(edge.0, edge.2)]
    else Row(g.adjacency, n)
  }

  /**
   `add_edge` appends `(to, weight)` to the list of `from` and `(from, weight)`
   to the list of `to` (both to the same list for a self-loop) and leaves every
   other list as it was.
   */
  lemma AddEdgeRow(g: UndirectedGraph, edge: Edge, n: Node)
    ensures Row(AddEdge(g, edge).adjacency, n) == RowAfterAddEdge(g, edge, n)
  {
    var from, to, weight := edge.0, edge.1, edge.2;
    var withBoth := AddNode(AddNode(g, from).1, to).1;
    assert Row(withBoth.adjacency, n) == Row(g.adjacency, n);
    var t := Push(withBoth.adjacency, from, (to, weight));
    if n == from && n == to {
      assert Row(g.adjacency, n) + [(to, weight)] + [(from, weight)] == Row(g.adjacency, n) + [(to, weight), (from, weight)];
    }
  }

  /**
   `edges`: every triple `(from, to, weight)` recorded in the table. The table
   is visited in an unspecified key order, so only the multiset of the result
   is determined.
   */
  method Edges(g: UndirectedGraph) returns (es: seq<Edge>)
    ensures multiset(es) == EdgeBag(g)
    ensures |es| == SumLengths(g.adjacency, g.adjacency.Keys)
  {
    var t := g.adjacency;
    es := [];
    var pending := t.Keys;
    while pending != {}
      invariant pending <= t.Keys
      invariant forall e :: multiset(es)[e] == EdgeCountIn(t, t.Keys - pending, e)
      decreases pending
    {
      var from :| from in pending;
      var row := t[from];
      var j := 0;
      while j < |row|
        invariant 0 <= j <= |row|
        invariant forall e ::
                    multiset(es)[e] == EdgeCountIn(t, t.Keys - pending, e) + (if e.0 == from then multiset(row[..j])[(e.1, e.2)] else 0)
      {
        assert row[..j + 1] == row[..j] + [row[j]];
        es := es + [(from, row[j].0, row[j].1)];
        j := j + 1;
      }
      assert row[..j] == row;
      pending := pending - {from};
    }
    assert multiset(es) == EdgeBag(g) by {
      assert forall e :: multiset(es)[e] == EdgeBag(g)[e];
    }
  }

  // ---------------------------------------------------------------------------
  // What the mutators do to the edge view
  // ---------------------------------------------------------------------------

  /** Adding a node never changes the edges, so symmetry is kept. */
  lemma AddNodeKeepsEdges(g: UndirectedGraph, n: Node)
    ensures EdgeBag(AddNode(g, n).1) == EdgeBag(g)
    ensures Symmetric(g) ==> Symmetric(AddNode(g, n).1)
  {
  }

  /** Both directions of an undirected edge. */
  function BothWays(edge: Edge): (r: multiset<Edge>)
    ensures |r| == 2
    ensures edge in r && (edge.1, edge.0, edge.2) in r
  {
    multiset{edge, (edge.1, edge.0, edge.2)}
  }

  /** Adding a node leaves every multiplicity as it was. */
  lemma AddNodeCount(g: UndirectedGraph, n: Node, e: Edge)
    ensures EdgeCount(AddNode(g, n).1.adjacency, e) == EdgeCount(g.adjacency, e)
  {
  }

  /** Appending `nb` to the list of `n` records the triple `(n, nb.0, nb.1)` once more. */
  lemma PushCount(t: Table, n: Node, nb: Neighbour, e: Edge)
    ensures EdgeCount(Push(t, n, nb), e) == EdgeCount(t, e) + (if e == (n, nb.0, nb.1) then 1 else 0)
  {
  }

  /** How often `add_edge` leaves one triple recorded. */
  lemma AddEdgeCount(g: UndirectedGraph, edge: Edge, e: Edge)
    ensures EdgeCount(AddEdge(g, edge).adjacency, e) == EdgeCount(g.adjacency, e) + BothWays(edge)[e]
  {
    var (from, to, weight) := edge;
    var withFrom := AddNode(g, from).1;
    var withBoth := AddNode(withFrom, to).1;
    AddNodeCount(g, from, e);
    AddNodeCount(withFrom, to, e);
    var t := Push(withBoth.adjacency, from, (to, weight));
    PushCount(withBoth.adjacency, from, (to, weight), e);
    PushCount(t, to, (from, weight), e);
    assert AddEdge(g, edge).adjacency == Push(t, to, (from, weight));
  }

  /** `add_edge` records exactly the edge and its reverse, and nothing else. */
  lemma AddEdgeAddsBothWays(g: UndirectedGraph, edge: Edge)
    ensures EdgeBag(AddEdge(g, edge)) == EdgeBag(g) + BothWays(edge)
  {
    var g' := AddEdge(g, edge);
    forall e: Edge
      ensures EdgeBag(g')[e] == (EdgeBag(g) + BothWays(edge))[e]
    {
      AddEdgeBagAt(g, edge, e);
    }
    BagGrows(g, g', BothWays(edge));
  }

  /** Multisets with the same multiplicities are equal. */
  lemma BagGrows(before: UndirectedGraph, after: UndirectedGraph, extra: multiset<Edge>)
    requires forall e :: EdgeBag(after)[e] == EdgeBag(before)[e] + extra[e]
    ensures EdgeBag(after) == EdgeBag(before) + extra
  {
  }

  lemma AddEdgeBagAt(g: UndirectedGraph, edge: Edge, e: Edge)
    ensures EdgeBag(AddEdge(g, edge))[e] == EdgeBag(g)[e] + BothWays(edge)[e]
  {
    AddEdgeCount(g, edge, e);
  }

  /** `add_edge` keeps every triple recorded as often as its reverse. */
  lemma AddEdgeKeepsSymmetry(g: UndirectedGraph, edge: Edge)
    requires Symmetric(g)
    ensures Symmetric(AddEdge(g, edge))
  {
    var g' := AddEdge(g, edge);
    forall a, b, w
      ensures EdgeCount(g'.adjacency, (a, b, w)) == EdgeCount(g'.adjacency, (b, a, w))
    {
      assert EdgeCount(g.adjacency, (a, b, w)) == EdgeCount(g.adjacency, (b, a, w));
      AddEdgeKeepsPair(g, edge, a, b, w);
    }
  }

  lemma AddEdgeKeepsPair(g: UndirectedGraph, edge: Edge, a: Node, b: Node, w: i32)
    requires EdgeCount(g.adjacency, (a, b, w)) == EdgeCount(g.adjacency, (b, a, w))
    ensures EdgeCount(AddEdge(g, edge).adjacency, (a, b, w)) == EdgeCount(AddEdge(g, edge).adjacency, (b, a, w))
  {
    AddEdgeCount(g, edge, (a, b, w));
    AddEdgeCount(g, edge, (b, a, w));
    BothWaysReversed(edge, a, b, w);
  }

  lemma BothWaysReversed(edge: Edge, a: Node, b: Node, w: i32)
    ensures BothWays(edge)[(a, b, w)] == BothWays(edge)[(b, a, w)]
  {
  }

  // ---------------------------------------------------------------------------
  // Sequences of `add_edge` calls
  // ---------------------------------------------------------------------------

  /** Calls `add_edge` once per edge, in order. */
  function AddEdges(g: UndirectedGraph, edges: seq<Edge>): UndirectedGraph
    decreases |edges|
  {
    if edges == [] then g else AddEdges(AddEdge(g, edges[0]), edges[1..])
  }

  /** Every endpoint mentioned in `edges`. */
  function Endpoints(edges: seq<Edge>): set<Node>
    decreases |edges|
  {
    if edges == [] then {} else {edges[0].0, edges[0].1} + Endpoints(edges[1..])
  }

  /** Both directions of every edge in `edges`. */
  function AllBothWays(edges: seq<Edge>): multiset<Edge>
    decreases |edges|
  {
    if edges == [] then multiset{} else BothWays(edges[0]) + AllBothWays(edges[1..])
  }

  /** After a sequence of `add_edge` calls the nodes are the old ones plus every endpoint mentioned. */
  lemma {:induction false} AddEdgesNodes(g: UndirectedGraph, edges: seq<Edge>)
    ensures Nodes(AddEdges(g, edges)) == Nodes(g) + Endpoints(edges)
    decreases |edges|
  {
    if edges != [] {
      AddEdgesNodes(AddEdge(g, edges[0]), edges[1..]);
    }
  }

  /** After a sequence of `add_edge` calls the edges are the old ones plus both directions of every call. */
  lemma {:induction false} AddEdgesBag(g: UndirectedGraph, edges: seq<Edge>)
    ensures EdgeBag(AddEdges(g, edges)) == EdgeBag(g) + AllBothWays(edges)
    decreases |edges|
  {
    if edges != [] {
      AddEdgeAddsBothWays(g, edges[0]);
      AddEdgesBag(AddEdge(g, edges[0]), edges[1..]);
    }
  }

  lemma {:induction false} AllBothWaysSize(edges: seq<Edge>)
    ensures |AllBothWays(edges)| == 2 * |edges|
    decreases |edges|
  {
    if edges != [] {
      AllBothWaysSize(edges[1..]);
    }
  }

  /** A sequence of `add_edge` calls keeps every triple recorded as often as its reverse. */
  lemma {:induction false} AddEdgesKeepSymmetry(g: UndirectedGraph, edges: seq<Edge>)
    requires Symmetric(g)
    ensures Symmetric(AddEdges(g, edges))
    decreases |edges|
  {
    if edges != [] {
      AddEdgeKeepsSymmetry(g, edges[0]);
      AddEdgesKeepSymmetry(AddEdge(g, edges[0]), edges[1..]);
    }
  }

  /**
   From an empty graph, `k` calls of `add_edge` leave exactly the endpoints
   mentioned as nodes and `2 * k` recorded edges (the sum of the list lengths),
   every one recorded as often as its reverse.
   */
  lemma BuiltGraph(edges: seq<Edge>)
    ensures Nodes(AddEdges(New(), edges)) == Endpoints(edges)
    ensures EdgeBag(AddEdges(New(), edges)) == AllBothWays(edges)
    ensures |EdgeBag(AddEdges(New(), edges))| == 2 * |edges|
    ensures SumLengths(AddEdges(New(), edges).adjacency, Nodes(AddEdges(New(), edges))) == 2 * |edges|
    ensures Symmetric(AddEdges(New(), edges))
  {
    AddEdgesNodes(New(), edges);
    AddEdgesBag(New(), edges);
    AllBothWaysSize(edges);
    AddEdgesKeepSymmetry(New(), edges);
  }
}
