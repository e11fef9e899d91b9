/**
 * Distances and walks over the weighted adjacency of a graph.
 *
 * `Dist` stands for the Python numbers the search stores: a whole
 * non-negative distance, or `float('inf')` for a node not reached yet.
 * `Weights` is the adjacency of the graph as a value: `W[a][b]` is the weight
 * of the edge between `a` and `b`, seen from `a`.
 */
module Walks {

  datatype Dist = Fin(n: nat) | Inf

  /** `d + w` with Python's float semantics for infinity: `inf + w == inf`. */
  function Plus(d: Dist, w: nat): (r: Dist)
    ensures r.Inf? <==> d.Inf?
    ensures AtMost(d, r)
  {
    match d
    case Fin(n) => Fin(n + w)
    case Inf => Inf
  }

  /** `a < b` on distances: every finite distance is below infinity, and `inf < inf` is false. */
  predicate Below(a: Dist, b: Dist) {
    match (a, b)
    case (Fin(x), Fin(y)) => x < y
    case (Fin(_), Inf) => true
    case (Inf, _) => false
  }

  /** `a <= b` on distances. */
  predicate AtMost(a: Dist, b: Dist) {
    !Below(b, a)
  }

  type Weights = map<string, map<string, nat>>

  /** `p` is a non-empty sequence of graph nodes in which consecutive names are adjacent. */
  predicate IsWalk(W: Weights, p: seq<string>) {
    |p| > 0 && p[0] in W &&
    (|p| > 1 ==> p[1] in W[p[0]] && IsWalk(W, p[1..]))
  }

  /** The sum of the weights of the edges the walk crosses. */
  function WalkWeight(W: Weights, p: seq<string>): nat
    requires IsWalk(W, p)
  {
    if |p| == 1 then 0 else W[p[0]][p[1]] + WalkWeight(W, p[1..])
  }

  predicate WalkFromTo(W: Weights, p: seq<string>, a: string, b: string) {
    IsWalk(W, p) && p[0] == a && p[|p| - 1] == b
  }

  ghost predicate Reachable(W: Weights, a: string, b: string) {
    exists p :: WalkFromTo(W, p, a, b)
  }

  /**
   * Every edge `u -> v` is relaxed under `d`: `d[v] <= d[u] + W[u][v]`.
   * This is the state Dijkstra's algorithm leaves behind.
   */
  ghost predicate Relaxed(W: Weights, d: map<string, Dist>) {
    forall u, v :: u in W && v in W[u] ==> u in d && v in d && AtMost(d[v], Plus(d[u], W[u][v]))
  }

  /** A finite distance is never next to an infinite one. */
  ghost predicate FinClosed(W: Weights, d: map<string, Dist>) {
    forall u, v :: u in W && v in W[u] && u in d && d[u].Fin? ==> v in d && d[v].Fin?
  }

  lemma AtMostTrans(a: Dist, b: Dist, c: Dist)
    requires AtMost(a, b) && AtMost(b, c)
    ensures AtMost(a, c)
  {
  }

  /** A relaxed distance assignment is a lower bound on the weight of every walk. */
  lemma {:induction false} WalkLowerBound(W: Weights, d: map<string, Dist>, p: seq<string>)
    requires Relaxed(W, d) && IsWalk(W, p) && p[0] in d
    ensures p[|p| - 1] in d && AtMost(d[p[|p| - 1]], Plus(d[p[0]], WalkWeight(W, p)))
  {
    if |p| > 1 {
      var rest := p[1..];
      WalkLowerBound(W, d, rest);
      assert rest[|rest| - 1] == p[|p| - 1];
      var w := W[p[0]][p[1]];
      assert AtMost(d[p[1]], Plus(d[p[0]], w));
      assert AtMost(Plus(d[p[1]], WalkWeight(W, rest)), Plus(d[p[0]], WalkWeight(W, p)));
      AtMostTrans(d[p[|p| - 1]], Plus(d[p[1]], WalkWeight(W, rest)), Plus(d[p[0]], WalkWeight(W, p)));
    }
  }

  /** Along a walk, a finite distance at the start means a finite distance at the end. */
  lemma {:induction false} WalkKeepsFinite(W: Weights, d: map<string, Dist>, p: seq<string>)
    requires FinClosed(W, d) && IsWalk(W, p) && p[0] in d && d[p[0]].Fin?
    ensures p[|p| - 1] in d && d[p[|p| - 1]].Fin?
  {
    if |p| > 1 {
      WalkKeepsFinite(W, d, p[1..]);
      assert p[1..][|p| - 2] == p[|p| - 1];
    }
  }

  /** Appending a node adjacent to the end of a walk gives a walk, heavier by that edge. */
  lemma {:induction false} AppendWalk(W: Weights, p: seq<string>, x: string)
    requires IsWalk(W, p) && x in W && p[|p| - 1] in W && x in W[p[|p| - 1]]
    ensures IsWalk(W, p + [x]) && WalkWeight(W, p + [x]) == WalkWeight(W, p) + W[p[|p| - 1]][x]
  {
    if |p| > 1 {
      AppendWalk(W, p[1..], x);
      assert (p + [x])[1..] == p[1..] + [x];
    }
  }

  /**
   * A bound read from the target side: if `h[u] <= W[u][v] + h[v]` on every
   * edge, no walk weighs less than the drop of `h` along it.
   */
  lemma {:induction false} WalkUpperPotential(W: Weights, h: map<string, nat>, p: seq<string>)
    requires forall u :: u in W ==> u in h
    requires forall u, v :: u in W && v in W[u] ==> v in h && h[u] <= W[u][v] + h[v]
    requires IsWalk(W, p)
    ensures p[0] in h && p[|p| - 1] in h && h[p[0]] <= WalkWeight(W, p) + h[p[|p| - 1]]
  {
    if |p| > 1 {
      WalkUpperPotential(W, h, p[1..]);
      assert p[1..][|p| - 2] == p[|p| - 1];
    }
  }
}
