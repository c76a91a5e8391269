/** The worked cases the graph exercise checks, stated over the model. */
module GraphExamples {
  import opened Graphs

  /** Edges a–b (5), b–c (10), c–a (7) are recorded in both directions. */
  lemma TriangleHasSixDirectedEdges()
    ensures var g := AddEdges(New(), [("a", "b", 5), ("b", "c", 10), ("c", "a", 7)]);
      && ("a", "b", 5) in EdgeBag(g) && ("b", "a", 5) in EdgeBag(g)
      && ("c", "a", 7) in EdgeBag(g) && ("a", "c", 7) in EdgeBag(g)
      && ("b", "c", 10) in EdgeBag(g) && ("c", "b", 10) in EdgeBag(g)
      && |EdgeBag(g)| == 6
  {
    BuiltGraph([("a", "b", 5), ("b", "c", 10), ("c", "a", 7)]);
  }

  /** The first `add_node("a")` inserts, the second reports it is already there. */
  method AddNodeScenario() returns (first: bool, second: bool, present: bool)
    ensures first && !second && present
  {
    var g := New();
    first, g := AddNode(g, "a").0, AddNode(g, "a").1;
    second, g := AddNode(g, "a").0, AddNode(g, "a").1;
    present := Contains(g, "a");
  }

  const Path: seq<Edge> := [("a", "b", 5), ("b", "c", 10)]

  /** After a–b (5) and b–c (10): nodes a, b, c and both directions of each edge. */
  lemma PathGraph()
    ensures Nodes(AddEdges(New(), Path)) == {"a", "b", "c"}
    ensures EdgeBag(AddEdges(New(), Path)) == multiset{("a", "b", 5), ("b", "a", 5), ("b", "c", 10), ("c", "b", 10)}
  {
    BuiltGraph(Path);
    PathEndpoints();
    PathBothWays();
  }

  lemma PathEndpoints()
    ensures Endpoints(Path) == {"a", "b", "c"}
  {
  }

  lemma PathBothWays()
    ensures AllBothWays(Path) == multiset{("a", "b", 5), ("b", "a", 5), ("b", "c", 10), ("c", "b", 10)}
  {
  }

  /** After a–b (5) and b–c (10) there are three nodes and four recorded edges. */
  method NodesAndEdgesScenario() returns (nodes: set<Node>, edges: seq<Edge>)
    ensures |nodes| == 3 && "a" in nodes && "b" in nodes && "c" in nodes
    ensures |edges| == 4
    ensures ("a", "b", 5) in edges && ("b", "a", 5) in edges
    ensures ("b", "c", 10) in edges && ("c", "b", 10) in edges
  {
    var g := AddEdges(New(), Path);
    PathGraph();
    nodes := Nodes(g);
    assert "a" != "b" && "b" != "c" && "a" != "c";
    ThreeDistinct("a", "b", "c");
    edges := Edges(g);
    assert ("a", "b", 5) in multiset(edges) && ("b", "a", 5) in multiset(edges);
    assert ("b", "c", 10) in multiset(edges) && ("c", "b", 10) in multiset(edges);
  }

  /** After a–b (5), a–c (7), b–c (10), the lists of `a` and `b` hold the expected pairs. */
  lemma NeighbourLists()
    ensures var g := AddEdges(New(), [("a", "b", 5), ("a", "c", 7), ("b", "c", 10)]);
      && "a" in g.adjacency && "b" in g.adjacency
      && g.adjacency["a"] == [("b", 5), ("c", 7)]
      && g.adjacency["b"] == [("a", 5), ("c", 10)]
  {
    var edges: seq<Edge> := [("a", "b", 5), ("a", "c", 7), ("b", "c", 10)];
    assert edges[1..][1..][1..] == [];
    assert AddEdges(New(), edges) == AddEdge(AddEdge(AddEdge(New(), edges[0]), edges[1]), edges[2]);
    TriangleRowOfA(New());
    TriangleRowOfB(New());
  }

  /** Starting from an empty list at `a`, the three edges leave `(b, 5), (c, 7)` there. */
  lemma TriangleRowOfA(g: UndirectedGraph)
    requires Row(g.adjacency, "a") == []
    ensures var g' := AddEdge(AddEdge(AddEdge(g, ("a", "b", 5)), ("a", "c", 7)), ("b", "c", 10));
      "a" in g'.adjacency && g'.adjacency["a"] == [("b", 5), ("c", 7)]
  {
    var g1 := AddEdge(g, ("a", "b", 5));
    var g2 := AddEdge(g1, ("a", "c", 7));
    assert "a" != "b" && "a" != "c";
    AddEdgeRow(g, ("a", "b", 5), "a");
    assert Row(g1.adjacency, "a") == [("b", 5)];
    AddEdgeRow(g1, ("a", "c", 7), "a");
    TwoInARow(("b", 5), ("c", 7));
    assert Row(g2.adjacency, "a") == [("b", 5), ("c", 7)];
    AddEdgeRow(g2, ("b", "c", 10), "a");
    assert Row(AddEdge(g2, ("b", "c", 10)).adjacency, "a") == [("b", 5), ("c", 7)];
  }

  /** Starting from an empty list at `b`, the three edges leave `(a, 5), (c, 10)` there. */
  lemma TriangleRowOfB(g: UndirectedGraph)
    requires Row(g.adjacency, "b") == []
    ensures var g' := AddEdge(AddEdge(AddEdge(g, ("a", "b", 5)), ("a", "c", 7)), ("b", "c", 10));
      "b" in g'.adjacency && g'.adjacency["b"] == [("a", 5), ("c", 10)]
  {
    var g1 := AddEdge(g, ("a", "b", 5));
    var g2 := AddEdge(g1, ("a", "c", 7));
    assert "a" != "b" && "b" != "c";
    AddEdgeRow(g, ("a", "b", 5), "b");
    assert Row(g1.adjacency, "b") == [("a", 5)];
    AddEdgeRow(g1, ("a", "c", 7), "b");
    assert Row(g2.adjacency, "b") == [("a", 5)];
    AddEdgeRow(g2, ("b", "c", 10), "b");
    TwoInARow(("a", 5), ("c", 10));
    assert Row(AddEdge(g2, ("b", "c", 10)).adjacency, "b") == [("a", 5), ("c", 10)];
  }

  lemma TwoInARow(x: Neighbour, y: Neighbour)
    ensures [x] + [y] == [x, y]
  {
  }

  lemma ThreeDistinct(x: Node, y: Node, z: Node)
    requires x != y && y != z && x != z
    ensures |{x, y, z}| == 3
  {
  }
}
