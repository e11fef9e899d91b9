/**
 * The priority queue of the shortest-path search (shortest_path.py): its
 * entries, the stable sort that runs on every access, and the relaxation
 * that rewrites one entry in place.
 */
module Queues {
  import opened Wrappers
  import opened Walks

  /**
   * The two subclasses of the search. `AStar` carries the heuristic: the
   * rounded straight-line distance from a node to the target, here any
   * non-negative whole-number function of the node name.
   */
  datatype Strategy = Dijkstra | AStar(h: string -> nat)

  /**
   * One queue tuple: `(node, distance, predecessor)` for Dijkstra and
   * `(node, distance, predecessor, distance + heuristic)` for A*. Dijkstra's
   * tuples have no fourth field; its entries carry `est == dist`, which
   * nothing reads.
   */
  datatype Entry = Entry(node: string, dist: Dist, pred: Option<string>, est: Dist)

  /** The fourth tuple field a strategy stores for a node at distance `d`. */
  function Estimate(s: Strategy, v: string, d: Dist): Dist {
    match s
    case Dijkstra => d
    case AStar(h) => Plus(d, h(v))
  }

  /** The tuple field the queue is sorted by: index 1 for Dijkstra, index 3 for A*. */
  function SortKey(s: Strategy, e: Entry): Dist {
    if s.Dijkstra? then e.dist else e.est
  }

  /** Positions `i` and `j` of `q` are in key order. */
  predicate InOrder(s: Strategy, q: seq<Entry>, i: int, j: int)
    requires 0 <= i < j < |q|
  {
    AtMost(SortKey(s, q[i]), SortKey(s, q[j]))
  }

  predicate SortedBy(s: Strategy, q: seq<Entry>) {
    forall i, j {:trigger InOrder(s, q, i, j)} :: 0 <= i < j < |q| ==> InOrder(s, q, i, j)
  }

  /** The names of the nodes that have an entry in `q`. */
  function Nodes(q: seq<Entry>): set<string> {
    if q == [] then {} else {q[0].node} + Nodes(q[1..])
  }

  /** A name is in `Nodes(q)` exactly when some entry of `q` is filed under it. */
  lemma {:induction false} NodesIff(q: seq<Entry>, v: string)
    ensures v in Nodes(q) <==> exists e :: e in q && e.node == v
  {
    if q != [] {
      NodesIff(q[1..], v);
      assert q == [q[0]] + q[1..];
    }
  }

  /** Queues that agree on the node at every position have the same nodes, and one is distinct if the other is. */
  lemma {:induction false} NodesAlike(a: seq<Entry>, b: seq<Entry>)
    requires |a| == |b| && forall i :: 0 <= i < |a| ==> a[i].node == b[i].node
    ensures Nodes(a) == Nodes(b)
    ensures DistinctNodes(a) ==> DistinctNodes(b)
  {
    if a != [] {
      NodesAlike(a[1..], b[1..]);
    }
    if DistinctNodes(a) {
      forall i, j | 0 <= i < j < |b|
        ensures Unlike(b, i, j)
      {
        assert Unlike(a, i, j);
      }
    }
  }

  /** No node has two entries. */
  predicate DistinctNodes(q: seq<Entry>) {
    forall i, j {:trigger Unlike(q, i, j)} :: 0 <= i < j < |q| ==> Unlike(q, i, j)
  }

  /** Positions `i` and `j` of `q` hold entries for different nodes. */
  predicate Unlike(q: seq<Entry>, i: int, j: int)
    requires 0 <= i < j < |q|
  {
    q[i].node != q[j].node
  }

  /** The tail of a sorted queue is sorted, and no key in it is below the head's. */
  lemma SortedTail(s: Strategy, q: seq<Entry>)
    requires SortedBy(s, q) && q != []
    ensures SortedBy(s, q[1..])
    ensures forall e :: e in q[1..] ==> AtMost(SortKey(s, q[0]), SortKey(s, e))
  {
    forall i, j | 0 <= i < j < |q[1..]|
      ensures InOrder(s, q[1..], i, j)
    {
      assert InOrder(s, q, i + 1, j + 1);
    }
    forall e | e in q[1..]
      ensures AtMost(SortKey(s, q[0]), SortKey(s, e))
    {
      var j :| 0 <= j < |q[1..]| && q[1..][j] == e;
      assert InOrder(s, q, 0, j + 1);
    }
  }

  /** A key at most every key of a sorted queue can go in front of it. */
  lemma SortedCons(s: Strategy, x: Entry, t: seq<Entry>)
    requires SortedBy(s, t) && forall e :: e in t ==> AtMost(SortKey(s, x), SortKey(s, e))
    ensures SortedBy(s, [x] + t)
  {
    var q := [x] + t;
    forall i, j | 0 <= i < j < |q|
      ensures InOrder(s, q, i, j)
    {
      if i == 0 {
        assert q[j] == t[j - 1] && t[j - 1] in t;
      } else {
        assert InOrder(s, t, i - 1, j - 1);
      }
    }
  }

  /** The tail of a queue with one entry per node has that property too, and lacks the head's node. */
  lemma DistinctTail(q: seq<Entry>)
    requires DistinctNodes(q) && q != []
    ensures DistinctNodes(q[1..]) && q[0].node !in Nodes(q[1..])
    ensures forall e :: e in q[1..] ==> e.node != q[0].node
  {
    forall i, j | 0 <= i < j < |q[1..]|
      ensures Unlike(q[1..], i, j)
    {
      assert Unlike(q, i + 1, j + 1);
    }
    forall e | e in q[1..]
      ensures e.node != q[0].node
    {
      var j :| 0 <= j < |q[1..]| && q[1..][j] == e;
      assert Unlike(q, 0, j + 1);
    }
    NodesIff(q[1..], q[0].node);
  }

  lemma DistinctCons(x: Entry, t: seq<Entry>)
    requires DistinctNodes(t) && x.node !in Nodes(t)
    ensures DistinctNodes([x] + t)
  {
    var q := [x] + t;
    NodesIff(t, x.node);
    forall i, j | 0 <= i < j < |q|
      ensures Unlike(q, i, j)
    {
      if i == 0 {
        assert q[j] == t[j - 1] && t[j - 1] in t;
      } else {
        assert Unlike(t, i - 1, j - 1);
      }
    }
  }

  /** Puts `x` in front of the first entry whose key is not smaller, so `x` precedes its ties. */
  function Insert(s: Strategy, x: Entry, q: seq<Entry>): (r: seq<Entry>)
    requires SortedBy(s, q)
    ensures SortedBy(s, r)
    ensures multiset(r) == multiset(q) + multiset{x}
  {
    if q == [] then [x]
    else
      SortedTail(s, q);
      assert q == [q[0]] + q[1..];
      if AtMost(SortKey(s, x), SortKey(s, q[0])) then
        assert forall e :: e in q ==> AtMost(SortKey(s, x), SortKey(s, e)) by {
          forall e | e in q
            ensures AtMost(SortKey(s, x), SortKey(s, e))
          {
            if e != q[0] {
              AtMostTrans(SortKey(s, x), SortKey(s, q[0]), SortKey(s, e));
            }
          }
        }
        SortedCons(s, x, q);
        [x] + q
      else
        var rest := Insert(s, x, q[1..]);
        assert forall e :: e in rest ==> AtMost(SortKey(s, q[0]), SortKey(s, e)) by {
          forall e | e in rest
            ensures AtMost(SortKey(s, q[0]), SortKey(s, e))
          {
            assert e in multiset(rest);
            if e != x {
              assert e in multiset(q[1..]);
            }
          }
        }
        SortedCons(s, q[0], rest);
        [q[0]] + rest
  }

  /**
   * `list.sort(key=...)` as the search calls it: an insertion sort that
   * inserts each entry in front of its ties among the later entries, so
   * equal keys keep their queue order.
   */
  function SortByKey(s: Strategy, q: seq<Entry>): (r: seq<Entry>)
    ensures SortedBy(s, r)
    ensures multiset(r) == multiset(q)
    ensures |r| == |q|
  {
    if q == [] then []
    else
      assert q == [q[0]] + q[1..];
      Insert(s, q[0], SortByKey(s, q[1..]))
  }

  /** The entries of `q` whose key is `k`, in queue order. */
  function WithKey(s: Strategy, q: seq<Entry>, k: Dist): seq<Entry> {
    if q == [] then []
    else if SortKey(s, q[0]) == k then [q[0]] + WithKey(s, q[1..], k)
    else WithKey(s, q[1..], k)
  }

  lemma WithKeyCons(s: Strategy, x: Entry, q: seq<Entry>, k: Dist)
    ensures WithKey(s, [x] + q, k) == if SortKey(s, x) == k then [x] + WithKey(s, q, k) else WithKey(s, q, k)
  {
    assert ([x] + q)[1..] == q;
  }

  /** One step of `Insert`, for proofs that follow its recursion. */
  lemma InsertCases(s: Strategy, x: Entry, q: seq<Entry>)
    requires SortedBy(s, q)
    ensures q == [] ==> Insert(s, x, q) == [x]
    ensures q != [] && AtMost(SortKey(s, x), SortKey(s, q[0])) ==> Insert(s, x, q) == [x] + q
    ensures q != [] && !AtMost(SortKey(s, x), SortKey(s, q[0])) ==>
      SortedBy(s, q[1..]) && Insert(s, x, q) == [q[0]] + Insert(s, x, q[1..])
  {
    if q != [] {
      SortedTail(s, q);
    }
  }

  /**
   * Inserting `x` keeps it ahead of the entries with its key, as if it had
   * been put in front: it only overtakes entries with a larger key.
   */
  lemma {:induction false} InsertWithKey(s: Strategy, x: Entry, q: seq<Entry>, k: Dist)
    requires SortedBy(s, q)
    ensures WithKey(s, Insert(s, x, q), k) == WithKey(s, [x] + q, k)
  {
    InsertCases(s, x, q);
    if q != [] && !AtMost(SortKey(s, x), SortKey(s, q[0])) {
      var rest := Insert(s, x, q[1..]);
      InsertWithKey(s, x, q[1..], k);
      WithKeyCons(s, q[0], rest, k);
      WithKeyCons(s, x, q[1..], k);
      WithKeyCons(s, x, q, k);
      assert q == [q[0]] + q[1..];
      WithKeyCons(s, q[0], q[1..], k);
    }
  }

  /** The sort is stable: for every key, the entries with that key keep their relative order. */
  lemma {:induction false} SortIsStable(s: Strategy, q: seq<Entry>, k: Dist)
    ensures WithKey(s, SortByKey(s, q), k) == WithKey(s, q, k)
  {
    if q != [] {
      SortIsStable(s, q[1..], k);
      InsertWithKey(s, q[0], SortByKey(s, q[1..]), k);
      WithKeyCons(s, q[0], SortByKey(s, q[1..]), k);
      WithKeyCons(s, q[0], q[1..], k);
      assert q == [q[0]] + q[1..];
    }
  }

  /** `k` is the position of the first entry with the smallest key. */
  predicate IsEarliestMin(s: Strategy, q: seq<Entry>, k: int) {
    0 <= k < |q| &&
    (forall j :: 0 <= j < |q| ==> AtMost(SortKey(s, q[k]), SortKey(s, q[j]))) &&
    (forall j :: 0 <= j < k ==> Below(SortKey(s, q[k]), SortKey(s, q[j])))
  }

  function EarliestMin(s: Strategy, q: seq<Entry>): (k: nat)
    requires q != []
    ensures IsEarliestMin(s, q, k)
  {
    if |q| == 1 then 0
    else
      var k := 1 + EarliestMin(s, q[1..]);
      assert q[1..][k - 1] == q[k];
      if AtMost(SortKey(s, q[0]), SortKey(s, q[k])) then 0 else k
  }

  /** The entry the queue pops after sorting is the earliest one with the smallest key. */
  lemma {:induction false} SortHead(s: Strategy, q: seq<Entry>)
    requires q != []
    ensures SortByKey(s, q)[0] == q[EarliestMin(s, q)]
  {
    if |q| > 1 {
      SortHead(s, q[1..]);
      assert q[1..][EarliestMin(s, q[1..])] == q[1 + EarliestMin(s, q[1..])];
    }
  }

  /** Sorting a sorted queue changes nothing, so the sort in the loop test and the one in `dequeue` agree. */
  lemma {:induction false} SortSorted(s: Strategy, q: seq<Entry>)
    requires SortedBy(s, q)
    ensures SortByKey(s, q) == q
  {
    if q != [] {
      SortedTail(s, q);
      SortSorted(s, q[1..]);
      assert q == [q[0]] + q[1..];
      if q[1..] != [] {
        assert q[1..][0] in q[1..];
      }
    }
  }

  lemma SortKeepsEntries(s: Strategy, q: seq<Entry>)
    ensures forall e :: e in SortByKey(s, q) <==> e in q
    ensures Nodes(SortByKey(s, q)) == Nodes(q)
  {
    var r := SortByKey(s, q);
    forall e
      ensures e in r <==> e in q
    {
      assert e in r <==> e in multiset(r);
      assert e in q <==> e in multiset(q);
    }
    forall v
      ensures v in Nodes(r) <==> v in Nodes(q)
    {
      NodesIff(r, v);
      NodesIff(q, v);
    }
  }

  lemma {:induction false} InsertDistinct(s: Strategy, x: Entry, q: seq<Entry>)
    requires SortedBy(s, q) && DistinctNodes(q) && x.node !in Nodes(q)
    ensures DistinctNodes(Insert(s, x, q))
  {
    if q == [] {
      assert DistinctNodes([x]);
    } else if AtMost(SortKey(s, x), SortKey(s, q[0])) {
      DistinctCons(x, q);
    } else {
      SortedTail(s, q);
      DistinctTail(q);
      var rest := Insert(s, x, q[1..]);
      assert forall e :: e in q[1..] ==> e in q;
      InsertDistinct(s, x, q[1..]);
      forall e | e in rest
        ensures e.node != q[0].node
      {
        assert e in multiset(rest);
        if e != x {
          assert e in multiset(q[1..]);
        }
      }
      NodesIff(rest, q[0].node);
      DistinctCons(q[0], rest);
    }
  }

  /** Sorting keeps every node at most once in the queue. */
  lemma {:induction false} SortDistinct(s: Strategy, q: seq<Entry>)
    requires DistinctNodes(q)
    ensures DistinctNodes(SortByKey(s, q))
  {
    if q != [] {
      DistinctTail(q);
      SortDistinct(s, q[1..]);
      SortKeepsEntries(s, q[1..]);
      InsertDistinct(s, q[0], SortByKey(s, q[1..]));
    }
  }

  /** The test of `_update_priority_queue`: the candidate distance, or for A* its estimate, is strictly smaller. */
  predicate Improves(s: Strategy, e: Entry, cand: Dist) {
    match s
    case Dijkstra => Below(cand, e.dist)
    case AStar(h) => Below(Plus(cand, h(e.node)), e.est)
  }

  /** For an entry whose estimate agrees with its distance, both strategies accept exactly the shorter candidates. */
  lemma ImprovesIffShorter(s: Strategy, e: Entry, cand: Dist)
    requires e.est == Estimate(s, e.node, e.dist)
    ensures Improves(s, e, cand) <==> Below(cand, e.dist)
  {
  }

  /** The tuple written when node `v` is reached more cheaply through `u`. */
  function Improved(s: Strategy, v: string, u: string, cand: Dist): Entry {
    Entry(v, cand, Some(u), Estimate(s, v, cand))
  }

  /** One entry after relaxing it with `cand` through `u`: improved if the candidate beats its key, else as it was. */
  function RelaxEntry(s: Strategy, e: Entry, u: string, cand: Dist): (r: Entry)
    ensures r.node == e.node
  {
    if Improves(s, e, cand) then Improved(s, e.node, u, cand) else e
  }

  /** The loop of `_update_priority_queue`: rewrite the first entry for `v` if the candidate improves it, then stop. */
  function RelaxFirst(s: Strategy, q: seq<Entry>, v: string, u: string, cand: Dist): (r: seq<Entry>)
    ensures |r| == |q|
    ensures forall i :: 0 <= i < |q| ==> r[i].node == q[i].node
  {
    if q == [] then []
    else if q[0].node == v then
      [RelaxEntry(s, q[0], u, cand)] + q[1..]
    else [q[0]] + RelaxFirst(s, q[1..], v, u, cand)
  }

  /** With one entry per node, relaxation rewrites just the entry of `v`, and only when the candidate improves it. */
  lemma {:induction false} RelaxFirstAt(s: Strategy, q: seq<Entry>, v: string, u: string, cand: Dist)
    requires DistinctNodes(q)
    ensures forall i :: 0 <= i < |q| ==>
      RelaxFirst(s, q, v, u, cand)[i] ==
        if q[i].node == v && Improves(s, q[i], cand) then Improved(s, v, u, cand) else q[i]
  {
    if q != [] {
      if q[0].node != v {
        DistinctTail(q);
        RelaxFirstAt(s, q[1..], v, u, cand);
      } else {
        forall i | 1 <= i < |q|
          ensures q[i].node != v
        {
          assert Unlike(q, 0, i);
        }
      }
    }
  }

  /**
   * The entry at `i` is the first for `v`: relaxation rewrites that one
   * position, to the improved entry if the candidate improves it.
   */
  lemma {:induction false} RelaxFirstFound(s: Strategy, q: seq<Entry>, v: string, u: string, cand: Dist, i: nat)
    requires i < |q| && q[i].node == v
    requires forall j :: 0 <= j < i ==> q[j].node != v
    ensures RelaxFirst(s, q, v, u, cand) == q[i := RelaxEntry(s, q[i], u, cand)]
  {
    if i > 0 {
      var t := q[1..];
      assert q[0].node != v && t[i - 1] == q[i];
      RelaxFirstFound(s, t, v, u, cand, i - 1);
      UpdateCons(q, i, RelaxEntry(s, q[i], u, cand));
    }
  }

  /** Updating a non-first position updates the tail. */
  lemma UpdateCons<T>(q: seq<T>, i: nat, x: T)
    requires 0 < i < |q|
    ensures q[i := x] == [q[0]] + q[1..][i - 1 := x]
  {
    assert q[i := x][1..] == q[1..][i - 1 := x];
  }

  /** With no entry for `v`, relaxation changes nothing. */
  lemma {:induction false} RelaxFirstAbsent(s: Strategy, q: seq<Entry>, v: string, u: string, cand: Dist)
    requires forall j :: 0 <= j < |q| ==> q[j].node != v
    ensures RelaxFirst(s, q, v, u, cand) == q
  {
    if q != [] {
      RelaxFirstAbsent(s, q[1..], v, u, cand);
      assert q == [q[0]] + q[1..];
    }
  }
}
