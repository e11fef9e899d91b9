/**
 * The search engine of shortest_path.py: `ShortestPathBase` with its two
 * subclasses folded into a `Strategy` value (`Dijkstra` orders the queue by
 * distance, `A_Star` by distance plus a heuristic).
 *
 * The engine reads the graph's weighted adjacency once, when it is built;
 * the queue is a sequence of entries that is sorted, popped and rewritten
 * in place, and the visited map fills up step by step. The ghost fields
 * record what the invariant of module Search needs: the step at which each
 * node was visited, the key of the last dequeued entry, the node being
 * expanded and its neighbours still to relax.
 */
module ShortestPaths {
  import opened Wrappers
  import opened Walks
  import opened Queues
  import opened Search
  import Graphs

  /** `path.reverse()`: the names in the opposite order (see `ReversedAt`). */
  function Reversed<T>(s: seq<T>): (r: seq<T>)
    ensures |r| == |s|
  {
    if s == [] then [] else Reversed(s[1..]) + [s[0]]
  }

  /** Position `i` of the reversed sequence holds position `|s| - 1 - i` of the original. */
  lemma {:induction false} ReversedAt<T>(s: seq<T>, i: int)
    requires 0 <= i < |s|
    ensures Reversed(s)[i] == s[|s| - 1 - i]
  {
    if i < |s| - 1 {
      ReversedAt(s[1..], i);
    }
  }

  /** Appending a name and reversing puts that name first. */
  lemma {:induction false} ReversedSnoc<T>(s: seq<T>, x: T)
    ensures Reversed(s + [x]) == [x] + Reversed(s)
  {
    if s != [] {
      assert (s + [x])[1..] == s[1..] + [x];
      ReversedSnoc(s[1..], x);
    }
  }

  /**
   * Moving the last name of a prefix onto the suffix keeps the whole
   * sequence: with `r` the reversed names collected so far (first `node`)
   * and `[u] + r` the reversed names after collecting `u`.
   */
  lemma SuffixStep<T>(x: seq<T>, d: seq<T>, r: seq<T>, node: T, u: T)
    requires r != [] && r[0] == node && x == (d + [node]) + r[1..]
    ensures x == d + ([u] + r)[1..]
  {
    assert r == [node] + r[1..];
    assert ([u] + r)[1..] == r;
  }

  /**
   * One step of the walk back: appending the predecessor of the last name
   * collected keeps the reversed names a suffix of the end's chain.
   */
  lemma ChainBack(P: Problem, V: map<string, Entry>, R: map<string, nat>, end: string, path: seq<string>,
                  node: string, u: string)
    requires Visited(P, V, R) && end in V && V[end].dist.Fin? && path != [] && path[|path| - 1] == node
    requires node in V && node != P.start && V[node].dist.Fin? && V[node].pred == Some(u)
    requires Chain(P, V, R, end) == Chain(P, V, R, node) + Reversed(path)[1..]
    ensures u in V && V[u].dist.Fin? && R[u] < R[node]
    ensures Chain(P, V, R, end) == Chain(P, V, R, u) + Reversed(path + [u])[1..]
  {
    assert VisitedLinked(P, V, R, node);
    ReversedAt(path, 0);
    ReversedSnoc(path, u);
    SuffixStep(Chain(P, V, R, end), Chain(P, V, R, u), Reversed(path), node, u);
  }

  /** Once the walk back reaches the start, the reversed names are the end's chain. */
  lemma ChainBackDone(P: Problem, V: map<string, Entry>, R: map<string, nat>, end: string, path: seq<string>)
    requires Visited(P, V, R) && end in V && V[end].dist.Fin? && path != [] && P.start in V
    requires path[|path| - 1] == P.start && V[P.start].dist.Fin?
    requires Chain(P, V, R, end) == Chain(P, V, R, P.start) + Reversed(path)[1..]
    ensures Reversed(path) == Chain(P, V, R, end)
  {
    ReversedAt(path, 0);
    assert Reversed(path) == [P.start] + Reversed(path)[1..];
  }

  /**
   * The search's own bookkeeping, which the code does not store: the step
   * at which each node was visited, the key of the last dequeued entry, the
   * node being expanded and its neighbours still to relax.
   */
  datatype Trace = Trace(rank: map<string, nat>, last: Dist, current: string, pending: set<string>)

  class PathSearch {
    const strategy: Strategy
    const weights: Weights
    const order: seq<string>
    const start: string
    const end: string

    /** `_priority_queue`: one entry per node not yet visited. */
    var queue: seq<Entry>
    /** `_visited`: node name to the entry it was dequeued with. */
    var visited: map<string, Entry>

    ghost var trace: Trace

    /** The search's inputs as one value. */
    function Inputs(): Problem {
      Problem(strategy, weights, order, start)
    }

    /** The engine's invariant: both endpoints are nodes and the search state satisfies `Search.Inv`. */
    ghost predicate Valid()
      reads this
    {
      end in weights && Inv(Inputs(), queue, visited, trace.rank, trace.last, trace.current, trace.pending)
    }


    /**
     * `ShortestPathBase.__init__`: the start must be a node (its assertion)
     * and so must the end (the assertion in `get_node`); the queue is then
     * initialised and nothing is visited.
     */
    static method New(g: Graphs.Graph, s: Strategy, start: string, end: string) returns (r: Result<PathSearch, Graphs.Error>)
      requires g.Valid()
      ensures r.Failure? <==> start !in g.names || end !in g.names
      ensures r.Failure? ==> r.error == if start !in g.names then Graphs.StartMissing else Graphs.NodeMissing
      ensures r.Success? ==> fresh(r.value) && r.value.Valid() && r.value.trace.pending == {}
      ensures r.Success? ==> r.value.strategy == s && r.value.weights == g.Weights() && r.value.order == g.names
      ensures r.Success? ==> r.value.start == start && r.value.end == end && r.value.visited == map[]
      ensures r.Success? ==> (|r.value.queue| == |g.names| &&
                              forall i :: 0 <= i < |g.names| ==> r.value.queue[i] == Seed(r.value.Inputs(), g.names[i]))
    {
      if start !in g.Nodes() {
        return Failure(Graphs.StartMissing);
      }
      if g.GetNode(end).Failure? {
        return Failure(Graphs.NodeMissing);
      }
      g.WeightsWellFormed();
      var W := g.WeightMap();
      var e := new PathSearch(s, W, g.Nodes(), start, end);
      return Success(e);
    }

    constructor (s: Strategy, W: Weights, order: seq<string>, start: string, end: string)
      requires WellFormed(Problem(s, W, order, start)) && end in W
      ensures Valid() && trace.pending == {}
      ensures strategy == s && weights == W && this.order == order && this.start == start && this.end == end
      ensures |queue| == |order| && forall i :: 0 <= i < |order| ==> queue[i] == Seed(Inputs(), order[i])
      ensures visited == map[]
    {
      ghost var P := Problem(s, W, order, start);
      var q := InitializeQueue(Problem(s, W, order, start));
      InitInv(P, q);
      strategy, weights, this.order, this.start, this.end := s, W, order, start, end;
      queue, visited := q, map[];
      trace := Trace(map[], Fin(0), start, {});
    }

    /**
     * `_initialize_priority_queue`: one entry per node in node order; the
     * start at distance 0 as its own predecessor (for A*, key h(start)),
     * every other node at infinity with no predecessor.
     */
    static method InitializeQueue(P: Problem) returns (q: seq<Entry>)
      ensures |q| == |P.order|
      ensures forall i :: 0 <= i < |q| ==> q[i].node == P.order[i]
      ensures forall i :: 0 <= i < |q| && P.order[i] == P.start ==>
        q[i].dist == Fin(0) && q[i].pred == Some(P.start) && q[i].est == Estimate(P.s, P.start, Fin(0))
      ensures forall i :: 0 <= i < |q| && P.order[i] != P.start ==>
        q[i].dist == Inf && q[i].pred == None && q[i].est == Inf
      ensures forall i :: 0 <= i < |q| ==> q[i] == Seed(P, P.order[i])
    {
      q := [];
      for i := 0 to |P.order|
        invariant |q| == i
        invariant forall j :: 0 <= j < i ==> q[j] == Seed(P, P.order[j])
      {
        var v := P.order[i];
        if v != P.start {
          q := q + [Entry(v, Inf, None, Inf)];
        } else {
          q := q + [Entry(v, Fin(0), Some(v), Estimate(P.s, v, Fin(0)))];
        }
      }
    }

    /**
     * Stores a new search state. What the engine keeps valid is the
     * invariant of the values stored, whatever the state before.
     */
    method Store(q: seq<Entry>, V: map<string, Entry>, ghost T: Trace)
      requires end in weights && Inv(Inputs(), q, V, T.rank, T.last, T.current, T.pending)
      modifies `queue, `visited, `trace
      ensures Valid() && queue == q && visited == V && trace == T
    {
      queue, visited, trace := q, V, T;
    }

    /** Records the search's own bookkeeping, leaving the queue and the visited map as they are. */
    ghost method Retrace(T: Trace)
      requires end in weights && Inv(Inputs(), queue, visited, T.rank, T.last, T.current, T.pending)
      modifies `trace
      ensures Valid() && trace == T
    {
      trace := T;
    }

    /** `priority_queue`: stable-sorts the queue in place by its key and returns it. */
    method PriorityQueue() returns (q: seq<Entry>)
      requires Valid()
      modifies this
      ensures Valid()
      ensures q == queue && queue == SortByKey(strategy, old(queue))
      ensures SortedBy(strategy, queue) && multiset(queue) == multiset(old(queue))
      ensures unchanged(`visited, `trace)
      ensures old(queue) == [] ==> unchanged(this)
    {
      SortInv(Inputs(), queue, visited, trace.rank, trace.last, trace.current, trace.pending);
      Store(SortByKey(strategy, queue), visited, trace);
      q := queue;
    }

    /**
     * `dequeue`: sorts the queue as `priority_queue` does and pops its
     * front, which is the earliest entry with the smallest key, filing it
     * under its node's name, a node not visited before. Popping an empty
     * queue fails.
     */
    method Dequeue() returns (r: Result<Entry, Graphs.Error>)
      requires Valid() && trace.pending == {}
      modifies this
      ensures Valid()
      ensures old(queue) == [] ==> r == Failure(Graphs.EmptyQueue) && unchanged(this)
      ensures old(queue) != [] ==> r.Success? && r.value == old(queue)[EarliestMin(strategy, old(queue))]
      ensures old(queue) != [] ==> queue == SortByKey(strategy, old(queue))[1..]
      ensures r.Success? ==> r.value.node !in old(visited) && visited == old(visited)[r.value.node := r.value]
      ensures Extends(visited, old(visited))
      ensures r.Success? ==> (trace.current == r.value.node && r.value.node in weights &&
                              trace.pending == weights[r.value.node].Keys - visited.Keys)
    {
      if queue == [] {
        return Failure(Graphs.EmptyQueue);
      }
      ghost var P := Inputs();
      SortInv(P, queue, visited, trace.rank, trace.last, trace.current, trace.pending);
      var sorted := SortByKey(strategy, queue);
      SortHead(strategy, queue);
      DequeueInv(P, sorted, visited, trace.rank, trace.last, trace.current);
      var e := sorted[0];
      var V := visited[e.node := e];
      Store(sorted[1..], V, Trace(trace.rank[e.node := |visited|], SortKey(strategy, e), e.node, weights[e.node].Keys - V.Keys));
      return Success(e);
    }

    /** `_get_unvisited_neighbors`: the neighbours of `n` not visited yet. */
    function UnvisitedNeighbors(n: string): (r: set<string>)
      reads this
      requires n in weights
      ensures forall v :: v in r <==> v in weights[n] && v !in visited
    {
      weights[n].Keys - visited.Keys
    }

    /**
     * `_update_priority_queue` of both strategies: find the entry for `v`;
     * if the candidate beats its key, record the candidate and `u` as its
     * predecessor; stop at that entry either way.
     */
    method UpdateQueue(dist: Dist, v: string, u: string)
      modifies this
      ensures queue == RelaxFirst(strategy, old(queue), v, u, dist)
      ensures DistinctNodes(old(queue)) ==> forall i :: 0 <= i < |queue| ==>
        queue[i] == if old(queue)[i].node == v && Improves(strategy, old(queue)[i], dist)
                    then Improved(strategy, v, u, dist) else old(queue)[i]
      ensures unchanged(`visited, `trace)
    {
      if DistinctNodes(queue) {
        RelaxFirstAt(strategy, queue, v, u, dist);
      }
      var i := 0;
      while i < |queue|
        invariant 0 <= i <= |queue| && queue == old(queue)
        invariant forall j :: 0 <= j < i ==> queue[j].node != v
      {
        if queue[i].node == v {
          RelaxFirstFound(strategy, queue, v, u, dist, i);
          if Improves(strategy, queue[i], dist) {
            queue := queue[i := Improved(strategy, v, u, dist)];
          }
          return;
        }
        i := i + 1;
      }
      RelaxFirstAbsent(strategy, queue, v, u, dist);
    }

    /**
     * `_shortest_paths`: while the sorted queue is not empty, dequeue its
     * front and relax each unvisited neighbour. It ends with every node
     * visited, never changes an entry once visited, and does nothing a
     * second time.
     */
    method ShortestPaths()
      requires Valid() && trace.pending == {}
      modifies this
      ensures Valid() && trace.pending == {} && queue == []
      ensures visited.Keys == weights.Keys
      ensures Extends(visited, old(visited))
      ensures old(queue) == [] ==> unchanged(this)
    {
      var q := PriorityQueue();
      while q != []
        invariant Valid() && trace.pending == {} && q == queue
        invariant Extends(visited, old(visited))
        invariant old(queue) == [] ==> unchanged(this)
        decreases |queue|
      {
        ghost var V0 := visited;
        var r := Dequeue();
        RelaxNeighbors(r.value, UnvisitedNeighbors(r.value.node));
        q := PriorityQueue();
        ExtendsTrans(visited, V0, old(visited));
      }
      SearchDone(Inputs(), visited, trace.rank, trace.last, trace.current);
    }

    /**
     * The `for` loop of `_shortest_paths`: each unvisited neighbour `v` of
     * the dequeued entry `e` is offered the distance of `e` plus the weight
     * of the edge to `v`. Only queued entries change.
     */
    method RelaxNeighbors(e: Entry, todo: set<string>)
      requires Valid() && trace.pending == todo
      requires trace.current == e.node && e.node in visited && visited[e.node] == e
      modifies this
      ensures Valid() && trace.pending == {}
      ensures visited == old(visited) && |queue| == |old(queue)|
    {
      var todo := todo;
      while todo != {}
        invariant Valid() && trace.pending == todo
        invariant trace.current == e.node && e.node in visited && visited[e.node] == e
        invariant visited == old(visited) && |queue| == |old(queue)|
        decreases |todo|
      {
        var v :| v in todo;
        RelaxInv(Inputs(), queue, visited, trace.rank, trace.last, trace.current, trace.pending, v);
        var distance := Plus(e.dist, weights[e.node][v]);
        UpdateQueue(distance, v, e.node);
        Retrace(trace.(pending := trace.pending - {v}));
        todo := todo - {v};
      }
    }

    /**
     * `shortest_path`: runs the search, then follows predecessors back from
     * the end to the start and reverses the names collected. The end fails
     * as unreachable exactly when its distance stayed infinite (where the
     * code reads the name of a missing predecessor), which is exactly
     * when no walk reaches it, whatever the heuristic; otherwise the names
     * form a walk from start to end whose weight is the end's distance,
     * and with a consistent heuristic (always, for Dijkstra) no walk is
     * lighter.
     */
    method ShortestPath() returns (r: Result<seq<string>, Graphs.Error>)
      requires Valid() && trace.pending == {}
      modifies this
      ensures Valid() && trace.pending == {} && queue == [] && visited.Keys == weights.Keys
      ensures Extends(visited, old(visited))
      ensures old(queue) == [] ==> unchanged(this)
      ensures r.Failure? <==> visited[end].dist.Inf?
      ensures r.Failure? ==> r.error == Graphs.Unreachable
      ensures r.Success? <==> Reachable(weights, start, end)
      ensures r.Success? ==> Visited(Inputs(), visited, trace.rank) && r.value == Chain(Inputs(), visited, trace.rank, end)
      ensures r.Success? ==> WalkFromTo(weights, r.value, start, end)
      ensures r.Success? ==> visited[end].dist == Fin(WalkWeight(weights, r.value))
      ensures r.Success? && ConsistentHeuristic(Inputs()) ==>
        (forall p :: WalkFromTo(weights, p, start, end) ==> WalkWeight(weights, r.value) <= WalkWeight(weights, p))
    {
      var path := [end];
      ShortestPaths();
      ChainFacts(Inputs(), visited, trace.rank, trace.last, trace.current, end);
      DistanceFacts(Inputs(), visited, trace.rank, trace.last, trace.current, end);
      if ConsistentHeuristic(Inputs()) && visited[end].dist.Fin? {
        ChainIsLightest(Inputs(), visited, trace.rank, trace.last, trace.current, end);
      }
      r := FollowPredecessors(Inputs(), visited, trace.rank, path);
    }

    /**
     * The walk back in `shortest_path`, over the visited map of a finished
     * search: from the end (the one name in `path0`), append each node's
     * predecessor until the start is reached, then reverse. A node without
     * a predecessor fails as unreachable; the result is the predecessor
     * chain of the end.
     */
    static method FollowPredecessors(P: Problem, V: map<string, Entry>, ghost R: map<string, nat>,
                                     path0: seq<string>)
      returns (r: Result<seq<string>, Graphs.Error>)
      requires Visited(P, V, R) && P.start in V && V[P.start] == StartEntry(P)
      requires |path0| == 1 && path0[0] in V
      ensures r.Failure? <==> V[path0[0]].dist.Inf?
      ensures r.Failure? ==> r.error == Graphs.Unreachable
      ensures r.Success? ==> r.value == Chain(P, V, R, path0[0])
    {
      var end := path0[0];
      var path, node := path0, end;
      while node != P.start
        invariant node in V && |path| > 0 && path[|path| - 1] == node
        invariant V[end].dist.Inf? ==> node == end && path == [end]
        invariant V[end].dist.Fin? ==> V[node].dist.Fin? && Chain(P, V, R, end) == Chain(P, V, R, node) + Reversed(path)[1..]
        decreases R[node]
      {
        assert VisitedLinked(P, V, R, node);
        var previous := V[node].pred;
        if previous.None? {
          return Failure(Graphs.Unreachable);
        }
        if V[end].dist.Fin? {
          ChainBack(P, V, R, end, path, node, previous.value);
        }
        path := path + [previous.value];
        node := previous.value;
      }
      if V[end].dist.Fin? {
        ChainBackDone(P, V, R, end, path);
      }
      return Success(Reversed(path));
    }

    /**
     * `shortest_distance`: runs the search and reads the end's distance. A
     * finite distance is the weight of a walk from start to end, and it is
     * finite exactly when the end is reachable; with a consistent
     * heuristic no walk is lighter.
     */
    method ShortestDistance() returns (d: Dist)
      requires Valid() && trace.pending == {}
      modifies this
      ensures Valid() && trace.pending == {} && queue == [] && visited.Keys == weights.Keys
      ensures Extends(visited, old(visited))
      ensures old(queue) == [] ==> unchanged(this)
      ensures d == visited[end].dist
      ensures d.Fin? ==> exists p :: WalkFromTo(weights, p, start, end) && d == Fin(WalkWeight(weights, p))
      ensures d.Fin? <==> Reachable(weights, start, end)
      ensures ConsistentHeuristic(Inputs()) ==>
        (forall p :: WalkFromTo(weights, p, start, end) ==> AtMost(d, Fin(WalkWeight(weights, p))))
    {
      ShortestPaths();
      d := visited[end].dist;
      DistanceFacts(Inputs(), visited, trace.rank, trace.last, trace.current, end);
    }
  }

  /**
   * What the tests do with an engine: build it, read `shortest_path`, then
   * `shortest_distance` from the same object. The second search finds
   * nothing left to do, so the distance is the weight of the path, and
   * infinite exactly when the path fails.
   */
  method Calculate(s: Strategy, W: Weights, order: seq<string>, start: string, end: string)
    returns (path: Result<seq<string>, Graphs.Error>, distance: Dist)
    requires WellFormed(Problem(s, W, order, start)) && end in W
    ensures path.Failure? <==> distance.Inf?
    ensures path.Success? ==> WalkFromTo(W, path.value, start, end) && distance == Fin(WalkWeight(W, path.value))
    ensures path.Success? <==> Reachable(W, start, end)
    ensures ConsistentHeuristic(Problem(s, W, order, start)) && path.Success? ==>
      forall p :: WalkFromTo(W, p, start, end) ==> WalkWeight(W, path.value) <= WalkWeight(W, p)
  {
    var e := new PathSearch(s, W, order, start, end);
    path := e.ShortestPath();
    distance := e.ShortestDistance();
  }
}
