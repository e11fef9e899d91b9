/**
 * What the search loop of shortest_path.py keeps true, stated on values.
 *
 * A state of the search is the queue `q`, the visited map `V` (node name to
 * the entry it was dequeued with) and two ghost records: `R`, the step at
 * which each visited node was dequeued, and `last`, the key of the entry
 * dequeued most recently. While the neighbours of the node `cur` are being
 * relaxed, `pend` holds those not relaxed yet.
 */
module Search {
  import opened Wrappers
  import opened Walks
  import opened Queues
  import Graphs

  /** The search's inputs: strategy, the graph's weights, its node list and the start name. */
  datatype Problem = Problem(s: Strategy, W: Weights, order: seq<string>, start: string)

  /**
   * What the graph guarantees the search: the node list names every node
   * once, the start is a node, and every neighbour is another node.
   */
  ghost predicate WellFormed(P: Problem) {
    Graphs.Distinct(P.order) && Graphs.Elements(P.order) == P.W.Keys && P.start in P.W &&
    forall u :: u in P.W ==> P.W[u].Keys <= P.W.Keys && u !in P.W[u]
  }

  /**
   * The heuristic never drops by more than an edge weighs. Dijkstra's
   * (none at all) always qualifies.
   */
  ghost predicate ConsistentHeuristic(P: Problem) {
    P.s.AStar? ==> forall u, v :: u in P.W && v in P.W[u] ==> P.s.h(u) <= P.W[u][v] + P.s.h(v)
  }

  /** The start's queue tuple: distance 0, itself as predecessor. */
  function StartEntry(P: Problem): Entry {
    Entry(P.start, Fin(0), Some(P.start), Estimate(P.s, P.start, Fin(0)))
  }

  /** The tuple `_initialize_priority_queue` appends for node `v`. */
  function Seed(P: Problem, v: string): Entry {
    if v == P.start then StartEntry(P) else Entry(v, Inf, None, Inf)
  }

  /**
   * Entry `e` is well founded: its estimate matches its distance; the start
   * keeps its seed; any other node is either unreached (no predecessor,
   * infinite distance) or was reached from a visited neighbour `u`, at
   * `u`'s distance plus the edge, and if it is visited itself, `u` was
   * visited first.
   */
  ghost predicate Linked(P: Problem, V: map<string, Entry>, R: map<string, nat>, e: Entry) {
    e.est == Estimate(P.s, e.node, e.dist) &&
    (e.node == P.start ==> e == StartEntry(P)) &&
    (e.node != P.start ==>
      match e.pred
      case None => e.dist.Inf?
      case Some(u) =>
        u in V && u in P.W && e.node in P.W[u] && e.dist.Fin? &&
        e.dist == Plus(V[u].dist, P.W[u][e.node]) &&
        (e.node in V ==> u in R && e.node in R && R[u] < R[e.node]))
  }

  /** Every node is queued once or visited, never both; a visited entry is filed under its own name. */
  ghost predicate Partition(P: Problem, q: seq<Entry>, V: map<string, Entry>) {
    DistinctNodes(q) && Nodes(q) !! V.Keys && Nodes(q) + V.Keys == P.W.Keys &&
    forall v :: v in V ==> V[v].node == v
  }

  /** Each visited node has the step at which it was dequeued. */
  ghost predicate Ranked(V: map<string, Entry>, R: map<string, nat>) {
    R.Keys == V.Keys && forall v :: v in R ==> R[v] < |V|
  }

  /** The entry filed under `v`, if any, is linked. */
  ghost predicate VisitedLinked(P: Problem, V: map<string, Entry>, R: map<string, nat>, v: string) {
    v in V ==> Linked(P, V, R, V[v])
  }

  /**
   * Every visited and every queued entry is linked. (The quantifiers fire
   * only on the facts named, so a proof instantiates them where it needs to.)
   */
  ghost predicate AllLinked(P: Problem, q: seq<Entry>, V: map<string, Entry>, R: map<string, nat>) {
    (forall v {:trigger VisitedLinked(P, V, R, v)} :: VisitedLinked(P, V, R, v)) &&
    (forall e {:trigger Linked(P, V, R, e)} :: e in q ==> Linked(P, V, R, e))
  }

  /** The neighbours still to relax belong to `cur`, the node dequeued last, and are not visited. */
  ghost predicate Frontier(P: Problem, V: map<string, Entry>, last: Dist, cur: string, pend: set<string>) {
    pend == {} ||
    (cur in V && cur in P.W && pend <= P.W[cur].Keys && pend !! V.Keys && last == SortKey(P.s, V[cur]))
  }

  /** The entry filed under `v`, if any, has a key no greater than `last`. */
  ghost predicate VisitedBelow(P: Problem, V: map<string, Entry>, v: string, last: Dist) {
    v in V ==> AtMost(SortKey(P.s, V[v]), last)
  }

  /** Keys come out of the queue in order: no visited key exceeds `last`, no queued key is below it. */
  ghost predicate Monotone(P: Problem, q: seq<Entry>, V: map<string, Entry>, last: Dist) {
    (forall v {:trigger VisitedBelow(P, V, v, last)} :: VisitedBelow(P, V, v, last)) &&
    (forall e {:trigger AtMost(last, SortKey(P.s, e))} :: e in q ==> AtMost(last, SortKey(P.s, e)))
  }

  /**
   * Every edge out of a visited node is relaxed: the distance at its other
   * end is at most the visited distance plus the weight, except for the
   * edges from `cur` still pending.
   */
  ghost predicate Settled(P: Problem, q: seq<Entry>, V: map<string, Entry>, cur: string, pend: set<string>) {
    (forall u, v {:trigger EdgeRelaxed(P, V, u, v)} :: EdgeRelaxed(P, V, u, v)) &&
    (forall u, e {:trigger EntryRelaxed(P, V, u, e, cur, pend)} :: e in q ==> EntryRelaxed(P, V, u, e, cur, pend))
  }

  /** If `u` and `v` are visited and joined by an edge, `v`'s distance is at most `u`'s plus the weight. */
  ghost predicate EdgeRelaxed(P: Problem, V: map<string, Entry>, u: string, v: string) {
    u in V && v in V && u in P.W && v in P.W[u] ==> AtMost(V[v].dist, Plus(V[u].dist, P.W[u][v]))
  }

  /** The same for a queued entry `e` reached by an edge from visited `u`, unless that edge is pending. */
  ghost predicate EntryRelaxed(P: Problem, V: map<string, Entry>, u: string, e: Entry, cur: string, pend: set<string>) {
    u in V && u in P.W && e.node in P.W[u] && !(u == cur && e.node in pend) ==>
      AtMost(e.dist, Plus(V[u].dist, P.W[u][e.node]))
  }

  /** If `u` and `v` are visited and joined by an edge, and `u` was reached, so was `v`. */
  ghost predicate EdgeReached(P: Problem, V: map<string, Entry>, u: string, v: string) {
    u in V && v in V && u in P.W && v in P.W[u] && V[u].dist.Fin? ==> V[v].dist.Fin?
  }

  /** The same for a queued entry `e` reached by an edge from visited `u`, unless that edge is pending. */
  ghost predicate EntryReached(P: Problem, V: map<string, Entry>, u: string, e: Entry, cur: string, pend: set<string>) {
    u in V && u in P.W && e.node in P.W[u] && !(u == cur && e.node in pend) && V[u].dist.Fin? ==> e.dist.Fin?
  }

  /** Every queued entry, and the entry of `cur` if it is visited, is unreached. */
  ghost predicate AllUnreached(q: seq<Entry>, V: map<string, Entry>, cur: string) {
    (forall e :: e in q ==> e.dist.Inf?) && (cur in V ==> V[cur].dist.Inf?)
  }

  /**
   * Whatever the heuristic, reaching spreads along every relaxed edge: the
   * neighbours of a reached visited node are reached, except along the
   * edges still pending; and once an unreached node is visited, everything
   * still queued, and the node being expanded, is unreached.
   */
  ghost predicate Spread(P: Problem, q: seq<Entry>, V: map<string, Entry>, cur: string, pend: set<string>) {
    (forall u, v {:trigger EdgeReached(P, V, u, v)} :: EdgeReached(P, V, u, v)) &&
    (forall u, e {:trigger EntryReached(P, V, u, e, cur, pend)} :: e in q ==> EntryReached(P, V, u, e, cur, pend)) &&
    (forall u :: u in V && V[u].dist.Inf? ==> AllUnreached(q, V, cur))
  }

  /** The invariant of `_shortest_paths`. */
  ghost predicate Inv(P: Problem, q: seq<Entry>, V: map<string, Entry>, R: map<string, nat>,
                      last: Dist, cur: string, pend: set<string>) {
    WellFormed(P) && Partition(P, q, V) && Ranked(V, R) && AllLinked(P, q, V, R) &&
    Frontier(P, V, last, cur, pend) && Spread(P, q, V, cur, pend) &&
    (ConsistentHeuristic(P) ==> Monotone(P, q, V, last) && Settled(P, q, V, cur, pend))
  }

  /** The freshly initialised queue, with nothing visited, satisfies the invariant. */
  lemma InitInv(P: Problem, q: seq<Entry>)
    requires WellFormed(P)
    requires |q| == |P.order| && forall i :: 0 <= i < |q| ==> q[i] == Seed(P, P.order[i])
    ensures Inv(P, q, map[], map[], Fin(0), P.start, {})
  {
    InitPartition(P, q);
    InitLinked(P, q);
    assert Ranked(map[], map[]);
    assert Frontier(P, map[], Fin(0), P.start, {});
    assert forall v :: VisitedBelow(P, map[], v, Fin(0));
    assert forall u, v :: EdgeRelaxed(P, map[], u, v);
    assert forall u, e :: EntryRelaxed(P, map[], u, e, P.start, {});
    assert forall u, v :: EdgeReached(P, map[], u, v);
    assert forall u, e :: EntryReached(P, map[], u, e, P.start, {});
  }

  lemma InitPartition(P: Problem, q: seq<Entry>)
    requires WellFormed(P)
    requires |q| == |P.order| && forall i :: 0 <= i < |q| ==> q[i] == Seed(P, P.order[i])
    ensures Partition(P, q, map[])
  {
    forall i, j | 0 <= i < j < |q|
      ensures q[i].node != q[j].node
    {
      assert Graphs.Apart(P.order, i, j);
    }
    forall e | e in q
      ensures e.node in P.W
    {
      var i :| 0 <= i < |q| && q[i] == e;
      assert P.order[i] in Graphs.Elements(P.order);
    }
    forall v
      ensures v in Nodes(q) <==> v in P.W
    {
      NodesIff(q, v);
      if v in P.W {
        assert v in Graphs.Elements(P.order);
        var i :| 0 <= i < |P.order| && P.order[i] == v;
        assert q[i] in q;
      }
    }
  }

  lemma InitLinked(P: Problem, q: seq<Entry>)
    requires |q| == |P.order| && forall i :: 0 <= i < |q| ==> q[i] == Seed(P, P.order[i])
    ensures AllLinked(P, q, map[], map[])
  {
    forall e | e in q
      ensures Linked(P, map[], map[], e)
    {
      var i :| 0 <= i < |q| && q[i] == e;
    }
    assert forall v :: VisitedLinked(P, map[], map[], v);
  }

  /** Sorting the queue keeps the invariant: it holds of the entries, not of their order. */
  lemma SortInv(P: Problem, q: seq<Entry>, V: map<string, Entry>, R: map<string, nat>,
                last: Dist, cur: string, pend: set<string>)
    requires Inv(P, q, V, R, last, cur, pend)
    ensures Inv(P, SortByKey(P.s, q), V, R, last, cur, pend)
  {
    SortKeepsEntries(P.s, q);
    SortDistinct(P.s, q);
    SortSpread(P, q, V, cur, pend);
  }

  lemma SortSpread(P: Problem, q: seq<Entry>, V: map<string, Entry>, cur: string, pend: set<string>)
    requires Spread(P, q, V, cur, pend)
    ensures Spread(P, SortByKey(P.s, q), V, cur, pend)
  {
    SortKeepsEntries(P.s, q);
  }

  /** Comparing keys compares distances, given a consistent heuristic along the edge from `b` to `a`. */
  lemma KeyOrder(s: Strategy, a: Entry, b: Entry, w: nat)
    requires a.est == Estimate(s, a.node, a.dist) && b.est == Estimate(s, b.node, b.dist)
    requires AtMost(SortKey(s, a), SortKey(s, b))
    requires s.AStar? ==> s.h(b.node) <= w + s.h(a.node)
    ensures AtMost(a.dist, Plus(b.dist, w))
  {
  }

  /** A relaxed key is never below the key of the node it was reached from. */
  lemma KeyGrows(s: Strategy, b: Entry, v: string, w: nat)
    requires b.est == Estimate(s, b.node, b.dist)
    requires s.AStar? ==> s.h(b.node) <= w + s.h(v)
    ensures AtMost(SortKey(s, b), Estimate(s, v, Plus(b.dist, w)))
  {
  }

  /** Growing the visited map by a node not in it keeps every entry linked. */
  lemma LinkedGrow(P: Problem, V: map<string, Entry>, R: map<string, nat>, f: Entry, x: string, e: Entry)
    requires Linked(P, V, R, f) && x !in V && Ranked(V, R)
    ensures Linked(P, V[x := e], R[x := |V|], f)
  {
  }

  lemma DequeuePartition(P: Problem, q: seq<Entry>, V: map<string, Entry>)
    requires Partition(P, q, V) && q != []
    ensures q[0].node in P.W && q[0].node !in V
    ensures Partition(P, q[1..], V[q[0].node := q[0]])
  {
    var x := q[0].node;
    assert q[0] in q;
    DistinctTail(q);
    assert q == [q[0]] + q[1..];
    assert Nodes(q[1..]) == Nodes(q) - {x};
  }

  lemma DequeueLinked(P: Problem, q: seq<Entry>, V: map<string, Entry>, R: map<string, nat>)
    requires AllLinked(P, q, V, R) && Ranked(V, R) && q != [] && q[0].node !in V
    ensures AllLinked(P, q[1..], V[q[0].node := q[0]], R[q[0].node := |V|])
  {
    var x, e := q[0].node, q[0];
    var V', R' := V[x := e], R[x := |V|];
    forall v
      ensures VisitedLinked(P, V', R', v)
    {
      if v == x {
        assert e in q && Linked(P, V, R, e);
        LinkedGrow(P, V, R, e, x, e);
      } else if v in V {
        assert VisitedLinked(P, V, R, v);
        LinkedGrow(P, V, R, V[v], x, e);
      }
    }
    forall f | f in q[1..]
      ensures Linked(P, V', R', f)
    {
      assert f in q && Linked(P, V, R, f);
      LinkedGrow(P, V, R, f, x, e);
    }
  }

  lemma DequeueMonotone(P: Problem, q: seq<Entry>, V: map<string, Entry>, last: Dist)
    requires Monotone(P, q, V, last) && SortedBy(P.s, q) && q != []
    ensures Monotone(P, q[1..], V[q[0].node := q[0]], SortKey(P.s, q[0]))
  {
    var k, V' := SortKey(P.s, q[0]), V[q[0].node := q[0]];
    assert q[0] in q && AtMost(last, k);
    forall v
      ensures VisitedBelow(P, V', v, k)
    {
      if v in V && v != q[0].node {
        assert VisitedBelow(P, V, v, last);
        AtMostTrans(SortKey(P.s, V[v]), last, k);
      }
    }
    SortedTail(P.s, q);
    forall f | f in q[1..]
      ensures AtMost(k, SortKey(P.s, f))
    {
    }
  }

  lemma DequeueSettled(P: Problem, q: seq<Entry>, V: map<string, Entry>, R: map<string, nat>,
                       last: Dist, cur: string)
    requires Inv(P, q, V, R, last, cur, {}) && ConsistentHeuristic(P) && q != []
    requires q[0].node in P.W && q[0].node !in V
    ensures Settled(P, q[1..], V[q[0].node := q[0]], q[0].node, P.W[q[0].node].Keys - V[q[0].node := q[0]].Keys)
  {
    var x, e := q[0].node, q[0];
    var V' := V[x := e];
    var pend := P.W[x].Keys - V'.Keys;
    assert e in q;
    forall u, v
      ensures EdgeRelaxed(P, V', u, v)
    {
      DequeueEdge(P, q, V, R, last, cur, u, v);
    }
    DistinctTail(q);
    forall u, f | f in q[1..]
      ensures EntryRelaxed(P, V', u, f, x, pend)
    {
      assert f in q && EntryRelaxed(P, V, u, f, cur, {});
      NodesIff(q, f.node);
    }
  }

  lemma DequeueEdge(P: Problem, q: seq<Entry>, V: map<string, Entry>, R: map<string, nat>,
                    last: Dist, cur: string, u: string, v: string)
    requires Inv(P, q, V, R, last, cur, {}) && ConsistentHeuristic(P) && q != []
    requires q[0].node in P.W && q[0].node !in V
    ensures EdgeRelaxed(P, V[q[0].node := q[0]], u, v)
  {
    var x, e := q[0].node, q[0];
    var V' := V[x := e];
    if u in V' && v in V' && u in P.W && v in P.W[u] {
      assert e in q;
      if u == x && v != x {
        assert VisitedLinked(P, V, R, v) && Linked(P, V, R, e);
        assert VisitedBelow(P, V, v, last) && AtMost(last, SortKey(P.s, e));
        AtMostTrans(SortKey(P.s, V[v]), last, SortKey(P.s, e));
        KeyOrder(P.s, V[v], e, P.W[x][v]);
      } else if u != x && v == x {
        assert EntryRelaxed(P, V, u, e, cur, {});
      } else if u != x && v != x {
        assert EdgeRelaxed(P, V, u, v);
      }
    }
  }

  /** `dequeue` on the sorted queue: the head moves to the visited map, and its unvisited neighbours become pending. */
  lemma DequeueInv(P: Problem, q: seq<Entry>, V: map<string, Entry>, R: map<string, nat>,
                   last: Dist, cur: string)
    requires Inv(P, q, V, R, last, cur, {}) && q != [] && SortedBy(P.s, q)
    ensures q[0].node in P.W && q[0].node !in V
    ensures Inv(P, q[1..], V[q[0].node := q[0]], R[q[0].node := |V|], SortKey(P.s, q[0]),
                q[0].node, P.W[q[0].node].Keys - V[q[0].node := q[0]].Keys)
  {
    DequeueShape(P, q, V, R);
    DequeueSpread(P, q, V, R, last, cur);
    if ConsistentHeuristic(P) {
      DequeueMonotone(P, q, V, last);
      DequeueSettled(P, q, V, R, last, cur);
    }
    var x := q[0].node;
    var V' := V[x := q[0]];
    Assemble(P, q[1..], V', R[x := |V|], SortKey(P.s, q[0]), x, P.W[x].Keys - V'.Keys);
  }

  /** A queued entry that was reached rules out an unreached visited node. */
  lemma ReachedFirst(P: Problem, q: seq<Entry>, V: map<string, Entry>, cur: string, pend: set<string>, e: Entry)
    requires Spread(P, q, V, cur, pend) && e in q && e.dist.Fin?
    ensures forall v :: v in V ==> V[v].dist.Fin?
  {
  }

  /**
   * Dequeuing keeps reaching spread: the head was reached if any visited
   * neighbour was, and if the head is unreached, the sorted queue behind it
   * holds nothing reached.
   */
  lemma DequeueSpread(P: Problem, q: seq<Entry>, V: map<string, Entry>, R: map<string, nat>,
                      last: Dist, cur: string)
    requires Inv(P, q, V, R, last, cur, {}) && q != [] && SortedBy(P.s, q)
    ensures q[0].node in P.W && q[0].node !in V
    ensures Spread(P, q[1..], V[q[0].node := q[0]], q[0].node, P.W[q[0].node].Keys - V[q[0].node := q[0]].Keys)
  {
    DequeuePartition(P, q, V);
    DequeueEdgesReached(P, q, V, cur);
    DequeueEntriesReached(P, q, V, cur);
    DequeueUnreached(P, q, V, R, cur);
  }

  lemma DequeueEdgesReached(P: Problem, q: seq<Entry>, V: map<string, Entry>, cur: string)
    requires WellFormed(P) && Spread(P, q, V, cur, {}) && q != [] && q[0].node !in V
    ensures forall u, v {:trigger EdgeReached(P, V[q[0].node := q[0]], u, v)} ::
      EdgeReached(P, V[q[0].node := q[0]], u, v)
  {
    var x, e := q[0].node, q[0];
    var V' := V[x := e];
    assert e in q;
    if e.dist.Fin? {
      ReachedFirst(P, q, V, cur, {}, e);
    }
    forall u, v
      ensures EdgeReached(P, V', u, v)
    {
      if u != x && v == x {
        assert EntryReached(P, V, u, e, cur, {});
      } else if u != x && v != x {
        assert EdgeReached(P, V, u, v);
      }
    }
  }

  lemma DequeueEntriesReached(P: Problem, q: seq<Entry>, V: map<string, Entry>, cur: string)
    requires Spread(P, q, V, cur, {}) && q != [] && q[0].node in P.W
    requires Partition(P, q[1..], V[q[0].node := q[0]])
    ensures var x := q[0].node; var V' := V[x := q[0]];
      forall u, f {:trigger EntryReached(P, V', u, f, x, P.W[x].Keys - V'.Keys)} :: f in q[1..] ==>
        EntryReached(P, V', u, f, x, P.W[x].Keys - V'.Keys)
  {
    var x := q[0].node;
    var V' := V[x := q[0]];
    forall u, f | f in q[1..]
      ensures EntryReached(P, V', u, f, x, P.W[x].Keys - V'.Keys)
    {
      assert f in q && EntryReached(P, V, u, f, cur, {});
      NodesIff(q[1..], f.node);
    }
  }

  lemma DequeueUnreached(P: Problem, q: seq<Entry>, V: map<string, Entry>, R: map<string, nat>, cur: string)
    requires Spread(P, q, V, cur, {}) && AllLinked(P, q, V, R) && q != [] && SortedBy(P.s, q)
    ensures forall u :: u in V && V[u].dist.Inf? ==> q[0].dist.Inf?
    ensures q[0].dist.Inf? ==> forall f :: f in q[1..] ==> f.dist.Inf?
  {
    var e := q[0];
    assert e in q && Linked(P, V, R, e);
    if e.dist.Fin? {
      ReachedFirst(P, q, V, cur, {}, e);
    } else {
      SortedTail(P.s, q);
      forall f | f in q[1..]
        ensures f.dist.Inf?
      {
        assert f in q && Linked(P, V, R, f);
      }
    }
  }

  /** The parts of the invariant that do not depend on the heuristic, after `dequeue`. */
  lemma DequeueShape(P: Problem, q: seq<Entry>, V: map<string, Entry>, R: map<string, nat>)
    requires Partition(P, q, V) && Ranked(V, R) && AllLinked(P, q, V, R) && q != []
    ensures q[0].node in P.W && q[0].node !in V
    ensures var x := q[0].node; var V' := V[x := q[0]]; var R' := R[x := |V|];
      Partition(P, q[1..], V') && Ranked(V', R') && AllLinked(P, q[1..], V', R') &&
      Frontier(P, V', SortKey(P.s, q[0]), x, P.W[x].Keys - V'.Keys)
  {
    var x, e := q[0].node, q[0];
    var V', R' := V[x := e], R[x := |V|];
    DequeuePartition(P, q, V);
    DequeueLinked(P, q, V, R);
    DequeueRanked(V, R, x, e);
  }

  /** Visiting a new node at the next step keeps every step below the number of visited nodes. */
  lemma DequeueRanked(V: map<string, Entry>, R: map<string, nat>, x: string, e: Entry)
    requires Ranked(V, R) && x !in V
    ensures Ranked(V[x := e], R[x := |V|])
  {
    assert |V[x := e]| == |V| + 1;
  }

  /** The distance `_shortest_paths` offers neighbour `v` of the node `cur` it just dequeued. */
  function Candidate(P: Problem, V: map<string, Entry>, cur: string, v: string): Dist
    requires cur in V && cur in P.W && v in P.W[cur]
  {
    Plus(V[cur].dist, P.W[cur][v])
  }

  /**
   * Relaxing a pending neighbour `v` of `cur` keeps the invariant, with `v`
   * no longer pending.
   */
  lemma RelaxInv(P: Problem, q: seq<Entry>, V: map<string, Entry>, R: map<string, nat>,
                 last: Dist, cur: string, pend: set<string>, v: string)
    requires Inv(P, q, V, R, last, cur, pend) && v in pend
    ensures cur in V && cur in P.W && v in P.W[cur]
    ensures Inv(P, RelaxFirst(P.s, q, v, cur, Candidate(P, V, cur, v)), V, R, last, cur, pend - {v})
  {
    var q' := RelaxFirst(P.s, q, v, cur, Candidate(P, V, cur, v));
    RelaxPartition(P, q, V, cur, v);
    RelaxLinked(P, q, V, R, last, cur, pend, v);
    RelaxSpread(P, q, V, R, last, cur, pend, v);
    if ConsistentHeuristic(P) {
      RelaxMonotone(P, q, V, R, last, cur, pend, v);
      RelaxSettled(P, q, V, R, last, cur, pend, v);
    }
    Assemble(P, q', V, R, last, cur, pend - {v});
  }

  lemma RelaxPartition(P: Problem, q: seq<Entry>, V: map<string, Entry>, cur: string, v: string)
    requires Partition(P, q, V) && cur in V && cur in P.W && v in P.W[cur]
    ensures Partition(P, RelaxFirst(P.s, q, v, cur, Candidate(P, V, cur, v)), V)
  {
    NodesAlike(q, RelaxFirst(P.s, q, v, cur, Candidate(P, V, cur, v)));
  }

  lemma RelaxLinked(P: Problem, q: seq<Entry>, V: map<string, Entry>, R: map<string, nat>,
                    last: Dist, cur: string, pend: set<string>, v: string)
    requires Partition(P, q, V) && AllLinked(P, q, V, R) && Frontier(P, V, last, cur, pend) && v in pend
    ensures AllLinked(P, RelaxFirst(P.s, q, v, cur, Candidate(P, V, cur, v)), V, R)
  {
    var cand := Candidate(P, V, cur, v);
    var q' := RelaxFirst(P.s, q, v, cur, cand);
    RelaxFirstAt(P.s, q, v, cur, cand);
    forall f | f in q'
      ensures Linked(P, V, R, f)
    {
      var i :| 0 <= i < |q'| && q'[i] == f;
      assert q[i] in q && Linked(P, V, R, q[i]);
      ImprovesIffShorter(P.s, q[i], cand);
    }
  }

  /**
   * Relaxing keeps reaching spread: a candidate through a reached node is
   * finite, so it replaces an unreached entry, and one through an unreached
   * node changes nothing.
   */
  lemma RelaxSpread(P: Problem, q: seq<Entry>, V: map<string, Entry>, R: map<string, nat>,
                    last: Dist, cur: string, pend: set<string>, v: string)
    requires Partition(P, q, V) && AllLinked(P, q, V, R) && Frontier(P, V, last, cur, pend) && v in pend
    requires Spread(P, q, V, cur, pend)
    ensures Spread(P, RelaxFirst(P.s, q, v, cur, Candidate(P, V, cur, v)), V, cur, pend - {v})
  {
    var cand := Candidate(P, V, cur, v);
    var q' := RelaxFirst(P.s, q, v, cur, cand);
    RelaxFirstAt(P.s, q, v, cur, cand);
    forall u, f | f in q'
      ensures EntryReached(P, V, u, f, cur, pend - {v})
      ensures u in V && V[u].dist.Inf? ==> f.dist.Inf?
    {
      var i :| 0 <= i < |q'| && q'[i] == f;
      assert q[i] in q && Linked(P, V, R, q[i]) && EntryReached(P, V, u, q[i], cur, pend);
      ImprovesIffShorter(P.s, q[i], cand);
    }
  }

  lemma RelaxMonotone(P: Problem, q: seq<Entry>, V: map<string, Entry>, R: map<string, nat>,
                      last: Dist, cur: string, pend: set<string>, v: string)
    requires Partition(P, q, V) && AllLinked(P, q, V, R) && Frontier(P, V, last, cur, pend) && v in pend
    requires Monotone(P, q, V, last) && ConsistentHeuristic(P)
    ensures Monotone(P, RelaxFirst(P.s, q, v, cur, Candidate(P, V, cur, v)), V, last)
  {
    var cand := Candidate(P, V, cur, v);
    var q' := RelaxFirst(P.s, q, v, cur, cand);
    RelaxFirstAt(P.s, q, v, cur, cand);
    assert VisitedLinked(P, V, R, cur);
    KeyGrows(P.s, V[cur], v, P.W[cur][v]);
    forall f | f in q'
      ensures AtMost(last, SortKey(P.s, f))
    {
      var i :| 0 <= i < |q'| && q'[i] == f;
      assert q[i] in q;
    }
  }

  lemma RelaxSettled(P: Problem, q: seq<Entry>, V: map<string, Entry>, R: map<string, nat>,
                     last: Dist, cur: string, pend: set<string>, v: string)
    requires Partition(P, q, V) && AllLinked(P, q, V, R) && Frontier(P, V, last, cur, pend) && v in pend
    requires Settled(P, q, V, cur, pend)
    ensures Settled(P, RelaxFirst(P.s, q, v, cur, Candidate(P, V, cur, v)), V, cur, pend - {v})
  {
    var cand := Candidate(P, V, cur, v);
    var q' := RelaxFirst(P.s, q, v, cur, cand);
    RelaxFirstAt(P.s, q, v, cur, cand);
    forall u, f | f in q'
      ensures EntryRelaxed(P, V, u, f, cur, pend - {v})
    {
      var i :| 0 <= i < |q'| && q'[i] == f;
      assert q[i] in q && Linked(P, V, R, q[i]) && EntryRelaxed(P, V, u, q[i], cur, pend);
      ImprovesIffShorter(P.s, q[i], cand);
    }
  }

  /**
   * The visited map is a tree of predecessors: each entry is filed under its
   * own name, ranked, and linked to an entry visited before it.
   */
  ghost predicate Visited(P: Problem, V: map<string, Entry>, R: map<string, nat>) {
    (forall v :: v in V ==> V[v].node == v) && Ranked(V, R) &&
    forall v {:trigger VisitedLinked(P, V, R, v)} :: VisitedLinked(P, V, R, v)
  }

  /** The distances of the visited entries. */
  function Dists(V: map<string, Entry>): (d: map<string, Dist>)
    ensures d.Keys == V.Keys && forall v :: v in V ==> d[v] == V[v].dist
  {
    map v | v in V :: V[v].dist
  }

  /**
   * The walk `shortest_path` reads off backwards: from `v` follow the
   * predecessors to the start, which is its own predecessor. Each step goes
   * to a node visited earlier, so the walk ends.
   */
  ghost function Chain(P: Problem, V: map<string, Entry>, R: map<string, nat>, v: string): (p: seq<string>)
    requires Visited(P, V, R) && v in V && V[v].dist.Fin?
    ensures |p| > 0 && p[|p| - 1] == v
    decreases R[v]
  {
    assert VisitedLinked(P, V, R, v);
    if v == P.start then [v] else Chain(P, V, R, V[v].pred.value) + [v]
  }

  /** The predecessor chain of a reached node is a walk from the start whose weight is the node's distance. */
  lemma {:induction false} ChainIsWalk(P: Problem, V: map<string, Entry>, R: map<string, nat>, v: string)
    requires WellFormed(P) && Visited(P, V, R) && v in V && V[v].dist.Fin?
    ensures WalkFromTo(P.W, Chain(P, V, R, v), P.start, v)
    ensures V[v].dist == Fin(WalkWeight(P.W, Chain(P, V, R, v)))
    decreases R[v]
  {
    assert VisitedLinked(P, V, R, v);
    if v != P.start {
      var u := V[v].pred.value;
      ChainIsWalk(P, V, R, u);
      var c := Chain(P, V, R, u);
      AppendWalk(P.W, c, v);
      assert (c + [v])[0] == c[0];
    }
  }

  /**
   * When the queue is empty every node is visited, the start kept its
   * seed, every edge out of a reached node leads to a reached node, and
   * with a consistent heuristic every edge is relaxed.
   */
  lemma SearchDone(P: Problem, V: map<string, Entry>, R: map<string, nat>, last: Dist, cur: string)
    requires Inv(P, [], V, R, last, cur, {})
    ensures V.Keys == P.W.Keys && P.start in V && V[P.start] == StartEntry(P)
    ensures Visited(P, V, R)
    ensures FinClosed(P.W, Dists(V))
    ensures ConsistentHeuristic(P) ==> Relaxed(P.W, Dists(V))
  {
    assert Nodes([]) == {};
    assert VisitedLinked(P, V, R, P.start);
    var d := Dists(V);
    forall u, v | u in P.W && v in P.W[u] && u in d && d[u].Fin?
      ensures v in d && d[v].Fin?
    {
      assert EdgeReached(P, V, u, v);
    }
    if ConsistentHeuristic(P) {
      forall u, v | u in P.W && v in P.W[u]
        ensures u in d && v in d && AtMost(d[v], Plus(d[u], P.W[u][v]))
      {
        assert EdgeRelaxed(P, V, u, v);
      }
    }
  }

  /** With a consistent heuristic, no walk from the start to `t` is lighter than the distance found for `t`. */
  lemma ChainIsShortest(P: Problem, V: map<string, Entry>, R: map<string, nat>, last: Dist, cur: string,
                        t: string, p: seq<string>)
    requires Inv(P, [], V, R, last, cur, {}) && ConsistentHeuristic(P)
    requires WalkFromTo(P.W, p, P.start, t)
    ensures t in V && AtMost(V[t].dist, Fin(WalkWeight(P.W, p)))
  {
    SearchDone(P, V, R, last, cur);
    WalkLowerBound(P.W, Dists(V), p);
  }

  /** Whatever the heuristic, the search gives `t` a finite distance exactly when `t` is reachable from the start. */
  lemma FoundIffReachable(P: Problem, V: map<string, Entry>, R: map<string, nat>, last: Dist, cur: string,
                          t: string)
    requires Inv(P, [], V, R, last, cur, {}) && t in P.W
    ensures t in V && (V[t].dist.Fin? <==> Reachable(P.W, P.start, t))
  {
    SearchDone(P, V, R, last, cur);
    if V[t].dist.Fin? {
      ChainIsWalk(P, V, R, t);
    }
    if Reachable(P.W, P.start, t) {
      var p :| WalkFromTo(P.W, p, P.start, t);
      WalkKeepsFinite(P.W, Dists(V), p);
    }
  }

  /**
   * What a finished search says about `t`'s predecessor chain: it is a
   * walk from the start whose weight is `t`'s distance.
   */
  lemma ChainFacts(P: Problem, V: map<string, Entry>, R: map<string, nat>, last: Dist, cur: string, t: string)
    requires Inv(P, [], V, R, last, cur, {}) && t in P.W
    ensures t in V && Visited(P, V, R) && P.start in V && V[P.start] == StartEntry(P)
    ensures V[t].dist.Fin? ==>
      (WalkFromTo(P.W, Chain(P, V, R, t), P.start, t) && V[t].dist == Fin(WalkWeight(P.W, Chain(P, V, R, t))))
  {
    SearchDone(P, V, R, last, cur);
    if V[t].dist.Fin? {
      ChainIsWalk(P, V, R, t);
    }
  }

  /** With a consistent heuristic, no walk to `t` is lighter than `t`'s predecessor chain. */
  lemma ChainIsLightest(P: Problem, V: map<string, Entry>, R: map<string, nat>, last: Dist, cur: string, t: string)
    requires Inv(P, [], V, R, last, cur, {}) && ConsistentHeuristic(P)
    requires Visited(P, V, R) && t in V && V[t].dist.Fin? && WalkFromTo(P.W, Chain(P, V, R, t), P.start, t)
    requires V[t].dist == Fin(WalkWeight(P.W, Chain(P, V, R, t)))
    ensures forall p :: WalkFromTo(P.W, p, P.start, t) ==> WalkWeight(P.W, Chain(P, V, R, t)) <= WalkWeight(P.W, p)
  {
    forall p | WalkFromTo(P.W, p, P.start, t)
      ensures WalkWeight(P.W, Chain(P, V, R, t)) <= WalkWeight(P.W, p)
    {
      ChainIsShortest(P, V, R, last, cur, t, p);
    }
  }

  /**
   * What a finished search says about `t`'s distance: a finite one is the
   * weight of some walk from the start, and it is finite exactly when `t`
   * is reachable; with a consistent heuristic no walk to `t` is lighter.
   */
  lemma DistanceFacts(P: Problem, V: map<string, Entry>, R: map<string, nat>, last: Dist, cur: string, t: string)
    requires Inv(P, [], V, R, last, cur, {}) && t in P.W
    ensures t in V
    ensures V[t].dist.Fin? ==> exists p :: WalkFromTo(P.W, p, P.start, t) && V[t].dist == Fin(WalkWeight(P.W, p))
    ensures V[t].dist.Fin? <==> Reachable(P.W, P.start, t)
    ensures ConsistentHeuristic(P) ==>
      (forall p :: WalkFromTo(P.W, p, P.start, t) ==> AtMost(V[t].dist, Fin(WalkWeight(P.W, p))))
  {
    SearchDone(P, V, R, last, cur);
    if V[t].dist.Fin? {
      ChainIsWalk(P, V, R, t);
    }
    FoundIffReachable(P, V, R, last, cur, t);
    if ConsistentHeuristic(P) {
      forall p | WalkFromTo(P.W, p, P.start, t)
        ensures AtMost(V[t].dist, Fin(WalkWeight(P.W, p)))
      {
        ChainIsShortest(P, V, R, last, cur, t, p);
      }
    }
  }

  /** `V1` keeps every entry of `V0`. */
  ghost predicate Extends(V1: map<string, Entry>, V0: map<string, Entry>) {
    forall v :: v in V0 ==> v in V1 && V1[v] == V0[v]
  }

  /** Keeping every entry is transitive. */
  lemma ExtendsTrans(V2: map<string, Entry>, V1: map<string, Entry>, V0: map<string, Entry>)
    requires Extends(V2, V1) && Extends(V1, V0)
    ensures Extends(V2, V0)
  {
  }

  /** The invariant is the conjunction of its parts. */
  lemma Assemble(P: Problem, q: seq<Entry>, V: map<string, Entry>, R: map<string, nat>,
                 last: Dist, cur: string, pend: set<string>)
    requires WellFormed(P) && Partition(P, q, V) && Ranked(V, R) && AllLinked(P, q, V, R)
    requires Frontier(P, V, last, cur, pend) && Spread(P, q, V, cur, pend)
    requires ConsistentHeuristic(P) ==> Monotone(P, q, V, last) && Settled(P, q, V, cur, pend)
    ensures Inv(P, q, V, R, last, cur, pend)
  {
  }
}
