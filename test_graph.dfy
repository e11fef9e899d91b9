/**
 * The weighted graph of the shortest-path tests (graph_path_testing.py):
 * nodes A to E joined by A-B 5, B-C 3, A-C 9, C-D 2, D-E 4 and E-A 7.
 * The direct edge `['A', 'E']` of weight 7 is the one lightest walk from
 * A to E, so Dijkstra's search returns it with distance 7; A* with the
 * test's heuristic is shown to find some walk from A to E.
 */
module Examples {
  import opened Wrappers
  import opened Walks
  import opened Queues
  import opened Search
  import Graphs
  import ShortestPaths

  /** The weighted adjacency that the test's five `add_node` and six `add_edge` calls build. */
  function TestWeights(): Weights {
    map[
      "A" := map["B" := 5, "C" := 9, "E" := 7],
      "B" := map["A" := 5, "C" := 3],
      "C" := map["B" := 3, "A" := 9, "D" := 2],
      "D" := map["C" := 2, "E" := 4],
      "E" := map["D" := 4, "A" := 7]
    ]
  }

  /** The distance of each node to E; no edge lets it drop by more than the edge weighs. */
  function ToE(): map<string, nat> {
    map["A" := 7, "B" := 9, "C" := 6, "D" := 4, "E" := 0]
  }

  lemma ToEIsPotential()
    ensures forall u :: u in TestWeights() ==> u in ToE()
    ensures forall u, v :: u in TestWeights() && v in TestWeights()[u] ==>
      v in ToE() && ToE()[u] <= TestWeights()[u][v] + ToE()[v]
  {
  }

  /** Building the test graph call by call gives `TestWeights()`. */
  lemma TestGraphWeights()
    ensures Graphs.Connect(Graphs.Connect(Graphs.Connect(Graphs.Connect(Graphs.Connect(Graphs.Connect(
              Graphs.WithNode(Graphs.WithNode(Graphs.WithNode(Graphs.WithNode(Graphs.WithNode(
                map[], "A"), "B"), "C"), "D"), "E"),
              "A", "B", 5), "B", "C", 3), "A", "C", 9), "C", "D", 2), "D", "E", 4), "E", "A", 7)
            == TestWeights()
  {
  }

  /**
   * The first two `add_edge` calls of the test's `setUp`, on any graph: the
   * second call may update the nodes the first one created or kept.
   */
  method SetUpFirstEdges(g: Graphs.Graph) returns (o1: Outcome<Graphs.Error>, o2: Outcome<Graphs.Error>)
    requires g.Valid()
    modifies g, g.nodes.Values
    ensures g.Valid() && o1 == Pass && o2 == Pass
    ensures g.Weights() == Graphs.Connect(Graphs.Connect(old(g.Weights()), "A", "B", 5), "B", "C", 3)
  {
    o1 := g.AddEdge("A", "B", 5);
    o2 := g.AddEdge("B", "C", 3);
  }

  /** No walk from A to E weighs less than 7, and `['A', 'E']` is the only one of weight 7. */
  lemma {:induction false} LightestAToE(p: seq<string>)
    requires WalkFromTo(TestWeights(), p, "A", "E")
    ensures WalkWeight(TestWeights(), p) >= 7
    ensures WalkWeight(TestWeights(), p) == 7 ==> p == ["A", "E"]
  {
    var W := TestWeights();
    ToEIsPotential();
    WalkUpperPotential(W, ToE(), p);
    var rest := p[1..];
    assert rest[|rest| - 1] == "E";
    WalkUpperPotential(W, ToE(), rest);
    if WalkWeight(W, p) == 7 {
      assert p[1] == "E" && WalkWeight(W, rest) == 0;
      assert p == [p[0]] + rest;
    }
  }

  /** The test's problem is well formed: distinct nodes in insertion order, symmetric rows, no self-loops. */
  lemma TestWellFormed(s: Strategy)
    ensures WellFormed(Problem(s, TestWeights(), ["A", "B", "C", "D", "E"], "A"))
  {
    var order := ["A", "B", "C", "D", "E"];
    assert Graphs.Distinct(order) by {
      forall i, j | 0 <= i < j < 5
        ensures Graphs.Apart(order, i, j)
      {
      }
    }
    assert Graphs.Elements(order) == TestWeights().Keys;
    TestRowsClosed();
  }

  lemma TestRowsClosed()
    ensures forall u :: u in TestWeights() ==> TestWeights()[u].Keys <= TestWeights().Keys && u !in TestWeights()[u]
  {
  }

  /**
   * `test_shortest_path_calculation` for Dijkstra: on the test graph the
   * path from A to E is `['A', 'E']` and the distance 7.
   */
  method ShortestPathCalculation() returns (path: Result<seq<string>, Graphs.Error>, distance: Dist)
    ensures path == Success(["A", "E"]) && distance == Fin(7)
  {
    TestWellFormed(Dijkstra);
    assert WalkFromTo(TestWeights(), ["A", "E"], "A", "E");
    path, distance := ShortestPaths.Calculate(Dijkstra, TestWeights(), ["A", "B", "C", "D", "E"], "A", "E");
    LightestAToE(path.value);
  }

  /**
   * The test's A* heuristic, `_distance_to_target` with the positions the
   * test stores: the straight-line distance to E at (12, 0), rounded, from
   * A (0, 0), B (3, 4), C (6, 0) and D (9, 4).
   */
  function TestHeuristic(n: string): nat {
    if n == "A" then 12 else if n == "B" then 10 else if n == "C" then 6 else if n == "D" then 5 else 0
  }

  /**
   * That heuristic is not consistent: it drops by 4 along the edge B-C of
   * weight 3. The optimality the engine guarantees for A* does not cover
   * the test graph.
   */
  lemma TestHeuristicInconsistent()
    ensures !ConsistentHeuristic(Problem(AStar(TestHeuristic), TestWeights(), ["A", "B", "C", "D", "E"], "A"))
  {
    var P := Problem(AStar(TestHeuristic), TestWeights(), ["A", "B", "C", "D", "E"], "A");
    assert "B" in P.W && "C" in P.W["B"] && P.s.h("B") > P.W["B"]["C"] + P.s.h("C");
  }

  /**
   * `test_shortest_path_calculation` for A* with that heuristic: the end is
   * reachable, so the search finds a path, a walk from A to E whose weight
   * is the distance. The heuristic being inconsistent, the model does not
   * prove that this walk is the lightest, `['A', 'E']` of weight 7.
   */
  method AStarPathCalculation() returns (path: Result<seq<string>, Graphs.Error>, distance: Dist)
    ensures path.Success? && WalkFromTo(TestWeights(), path.value, "A", "E")
    ensures distance == Fin(WalkWeight(TestWeights(), path.value)) && WalkWeight(TestWeights(), path.value) >= 7
  {
    TestWellFormed(AStar(TestHeuristic));
    assert WalkFromTo(TestWeights(), ["A", "E"], "A", "E");
    path, distance := ShortestPaths.Calculate(AStar(TestHeuristic), TestWeights(), ["A", "B", "C", "D", "E"], "A", "E");
    LightestAToE(path.value);
  }
}
