/**
 * The undirected weighted graph of graph.py: a `Graph` that maps node names
 * to `Node` objects and unordered name pairs to `Edge`s, and a `Node` that
 * maps each neighbour's name to the edge that joins them.
 *
 * In the Python code the graph's edge map and the two endpoints' neighbour
 * maps share one mutable `Edge` object. Here an `Edge` is a value; `Valid()`
 * keeps the three copies equal, and every weight update writes all three.
 */
module Graphs {
  import opened Wrappers
  import opened Walks

  /** The exceptions the core raises, named by their cause. */
  datatype Error =
    | SelfLoop            // assertion in Edge.__init__: equal endpoints
    | NodeMissing         // get_node's assertion, or a KeyError on an absent name
    | EdgeMissing         // get_edge's assertion
    | StartMissing        // the search's assertion on the start name
    | Unreachable         // the path walk reads the predecessor of an unreached node
    | UnhashableNode      // add_edge on an existing pair, as written: a Node used as a dict key
    | NodeComparedToName  // remove_node on a node with edges, as written: Node.__eq__ given a str
    | EmptyQueue          // the search pops from an empty priority queue

  /** An edge between `node1` and `node2`; its endpoints are distinct names. */
  datatype Edge = Edge(node1: string, node2: string, weight: nat)

  /** The hash of an edge: the unordered pair of its endpoint names. */
  function PairKey(a: string, b: string): set<string> {
    {a, b}
  }

  /** `Edge(node1, node2, weight)`: refuses equal endpoints. */
  function NewEdge(a: string, b: string, w: nat): (r: Result<Edge, Error>)
    ensures r.Success? <==> a != b
    ensures r.Failure? ==> r.error == SelfLoop
    ensures r.Success? ==> PairKey(r.value.node1, r.value.node2) == PairKey(a, b) && r.value.weight == w
  {
    if a == b then Failure(SelfLoop) else Success(Edge(a, b, w))
  }

  /** `Edge.__eq__`: the same two endpoints in either order; the weight is ignored. */
  predicate SameEdge(e: Edge, f: Edge) {
    (e.node1 == f.node1 && e.node2 == f.node2) || (e.node1 == f.node2 && e.node2 == f.node1)
  }

  /** Edge equality agrees with the edge hash, and it is symmetric. */
  lemma EqualityAgreesWithHash(e: Edge, f: Edge)
    ensures SameEdge(e, f) <==> PairKey(e.node1, e.node2) == PairKey(f.node1, f.node2)
    ensures SameEdge(e, f) <==> SameEdge(f, e)
  {
    if PairKey(e.node1, e.node2) == PairKey(f.node1, f.node2) {
      assert e.node1 in PairKey(f.node1, f.node2) && e.node2 in PairKey(f.node1, f.node2);
      assert f.node1 in PairKey(e.node1, e.node2) && f.node2 in PairKey(e.node1, e.node2);
    }
  }

  /** Two pairs of distinct names are equal exactly when they have the same members in some order. */
  lemma PairKeyCases(c: string, d: string, a: string, b: string)
    ensures PairKey(c, d) == PairKey(a, b) <==> (c == a && d == b) || (c == b && d == a) || (c == d && a == b && c == a)
  {
    if PairKey(c, d) == PairKey(a, b) {
      assert c in PairKey(a, b) && d in PairKey(a, b);
      assert a in PairKey(c, d) && b in PairKey(c, d);
    }
  }

  /** Positions `i` and `j` of `s` hold different names. */
  predicate Apart(s: seq<string>, i: int, j: int)
    requires 0 <= i < j < |s|
  {
    s[i] != s[j]
  }

  /** No name occurs twice in `s`. */
  predicate Distinct(s: seq<string>) {
    forall i, j {:trigger Apart(s, i, j)} :: 0 <= i < j < |s| ==> Apart(s, i, j)
  }

  lemma DistinctTail(s: seq<string>)
    requires Distinct(s) && s != []
    ensures Distinct(s[1..]) && s[0] !in s[1..]
  {
    forall i, j | 0 <= i < j < |s[1..]|
      ensures Apart(s[1..], i, j)
    {
      assert Apart(s, i + 1, j + 1);
    }
    forall j | 0 <= j < |s[1..]|
      ensures s[1..][j] != s[0]
    {
      assert Apart(s, 0, j + 1);
    }
  }

  lemma DistinctCons(x: string, t: seq<string>)
    requires Distinct(t) && x !in t
    ensures Distinct([x] + t)
  {
    var s := [x] + t;
    forall i, j | 0 <= i < j < |s|
      ensures Apart(s, i, j)
    {
      if i > 0 {
        assert Apart(t, i - 1, j - 1);
      } else {
        assert s[j] == t[j - 1];
      }
    }
  }

  lemma DistinctSnoc(t: seq<string>, x: string)
    requires Distinct(t) && x !in t
    ensures Distinct(t + [x])
  {
    var s := t + [x];
    forall i, j | 0 <= i < j < |s|
      ensures Apart(s, i, j)
    {
      if j < |t| {
        assert Apart(t, i, j);
      } else {
        assert s[i] == t[i];
      }
    }
  }

  /** The names that occur in `s`. */
  function Elements(s: seq<string>): set<string> {
    set x | x in s
  }

  /** A list of distinct names has as many elements as the set of its names. */
  lemma {:induction false} DistinctCard(s: seq<string>)
    requires Distinct(s)
    ensures |Elements(s)| == |s|
  {
    if s != [] {
      DistinctTail(s);
      DistinctCard(s[1..]);
      assert Elements(s) == Elements(s[1..]) + {s[0]};
    }
  }

  /** The list `s` with `x` taken out, order otherwise kept (deleting a key from a dict). */
  function Without(s: seq<string>, x: string): (r: seq<string>)
    ensures Elements(r) == Elements(s) - {x}
  {
    if s == [] then []
    else
      var r := (if s[0] == x then [] else [s[0]]) + Without(s[1..], x);
      assert Elements(s) == {s[0]} + Elements(s[1..]);
      assert Elements(r) == Elements(if s[0] == x then [] else [s[0]]) + Elements(Without(s[1..], x));
      r
  }

  /** Taking a name out of a list without repetitions leaves a list without repetitions. */
  lemma {:induction false} WithoutDistinct(s: seq<string>, x: string)
    requires Distinct(s)
    ensures Distinct(Without(s, x))
  {
    if s != [] {
      DistinctTail(s);
      WithoutDistinct(s[1..], x);
      if s[0] != x {
        assert Without(s, x) == [s[0]] + Without(s[1..], x);
        assert s[0] !in Elements(Without(s[1..], x));
        DistinctCons(s[0], Without(s[1..], x));
      } else {
        assert Without(s, x) == Without(s[1..], x);
      }
    }
  }

  /** The edge keys that join `x` to each name of `s`. */
  function Touching(x: string, s: set<string>): set<set<string>> {
    set b | b in s :: PairKey(x, b)
  }

  lemma {:induction false} TouchingCard(x: string, s: set<string>)
    ensures |Touching(x, s)| == |s|
  {
    if s != {} {
      var b :| b in s;
      TouchingCard(x, s - {b});
      assert Touching(x, s) == Touching(x, s - {b}) + {PairKey(x, b)};
      forall c | c in s - {b}
        ensures PairKey(x, c) != PairKey(x, b)
      {
        PairKeyCases(x, c, x, b);
      }
    }
  }

  /** A map whose values never repeat has as many values as keys. */
  lemma {:induction false} InjectiveValuesCard<K, V>(m: map<K, V>)
    requires forall j, k :: j in m && k in m && m[j] == m[k] ==> j == k
    ensures |m.Values| == |m.Keys|
  {
    if m != map[] {
      var k :| k in m;
      var rest := m - {k};
      InjectiveValuesCard(rest);
      assert m.Keys == rest.Keys + {k};
      assert m.Values == rest.Values + {m[k]} by {
        forall v | v in m.Values
          ensures v in rest.Values + {m[k]}
        {
          var j :| j in m && m[j] == v;
          assert j != k ==> rest[j] == v;
        }
        forall v | v in rest.Values
          ensures v in m.Values
        {
          var j :| j in rest && rest[j] == v;
          assert m[j] == v;
        }
      }
      forall j | j in rest
        ensures rest[j] != m[k]
      {
        assert j != k;
      }
    }
  }

  /** The key an edge is stored under. */
  function Key(e: Edge): set<string> {
    PairKey(e.node1, e.node2)
  }

  /** The neighbour maps of all nodes as a value: `N[a][b]` is the edge node `a` holds for neighbour `b`. */
  type Adjacency = map<string, map<string, Edge>>

  /**
   * The neighbour entry `N[a][b]` joins `a` and `b`, is mirrored by `N[b][a]`
   * and is the edge stored under the pair.
   */
  ghost predicate BackedAt(N: Adjacency, E: map<set<string>, Edge>, a: string, b: string)
    requires a in N && b in N[a]
  {
    a != b && b in N && a in N[b] && N[b][a] == N[a][b] &&
    SameEdge(N[a][b], Edge(a, b, 0)) &&
    Key(N[a][b]) in E && E[Key(N[a][b])] == N[a][b]
  }

  ghost predicate NeighborsBacked(N: Adjacency, E: map<set<string>, Edge>) {
    forall a, b {:trigger BackedAt(N, E, a, b)} :: a in N && b in N[a] ==> BackedAt(N, E, a, b)
  }

  /** The edge stored under `k` sits under its own pair and in its endpoints' maps. */
  ghost predicate PlacedAt(N: Adjacency, E: map<set<string>, Edge>, k: set<string>)
    requires k in E
  {
    Key(E[k]) == k && E[k].node1 in N && E[k].node2 in N[E[k].node1] && N[E[k].node1][E[k].node2] == E[k]
  }

  ghost predicate EdgesPlaced(N: Adjacency, E: map<set<string>, Edge>) {
    forall k {:trigger PlacedAt(N, E, k)} :: k in E ==> PlacedAt(N, E, k)
  }

  /** The neighbour maps and the edge map describe the same undirected edges. */
  ghost predicate Consistent(N: Adjacency, E: map<set<string>, Edge>) {
    NeighborsBacked(N, E) && EdgesPlaced(N, E)
  }

  /** The weighted adjacency the neighbour maps describe. */
  function WeightsOf(N: Adjacency): Weights {
    map a | a in N :: map b | b in N[a] :: N[a][b].weight
  }

  /** `W` with a node `a` that may have no neighbours yet. */
  function WithNode(W: Weights, a: string): Weights {
    if a in W then W else W[a := map[]]
  }

  /** `W` with `a` and `b` present and joined by an edge of weight `w`, seen from both ends. */
  function Connect(W: Weights, a: string, b: string, w: nat): Weights {
    var W1 := WithNode(WithNode(W, a), b);
    var rowA: map<string, nat> := W1[a][b := w];
    var rowB: map<string, nat> := W1[b][a := w];
    W1[a := rowA][b := rowB]
  }

  /** The neighbour maps once node `x` is gone and every other node has forgotten it. */
  function Detached(N: Adjacency, x: string): Adjacency {
    map n | n in N && n != x :: N[n] - {x}
  }

  /** The edge stored under the pair `{a, b}` is the one `a` holds for `b`. */
  lemma PairLinked(N: Adjacency, E: map<set<string>, Edge>, a: string, b: string)
    requires Consistent(N, E) && a != b && PairKey(a, b) in E
    ensures a in N && b in N[a] && N[a][b] == E[PairKey(a, b)]
  {
    var k := PairKey(a, b);
    assert PlacedAt(N, E, k);
    var e := E[k];
    assert BackedAt(N, E, e.node1, e.node2);
    PairKeyCases(e.node1, e.node2, a, b);
  }

  /** The entry `a` holds for neighbour `b` is the edge stored under their pair. */
  lemma BackedKey(N: Adjacency, E: map<set<string>, Edge>, a: string, b: string)
    requires Consistent(N, E) && a in N && b in N[a]
    ensures BackedAt(N, E, a, b)
    ensures Key(N[a][b]) == PairKey(a, b) && PairKey(a, b) in E && E[PairKey(a, b)] == N[a][b]
  {
    assert BackedAt(N, E, a, b);
    PairKeyCases(N[a][b].node1, N[a][b].node2, a, b);
  }

  /** A node's neighbours are exactly the other endpoints of the stored pairs that contain it. */
  lemma NeighborsArePairs(N: Adjacency, E: map<set<string>, Edge>, a: string)
    requires Consistent(N, E) && a in N
    ensures forall b :: b in N[a] <==> a != b && PairKey(a, b) in E
  {
    forall b | a != b && PairKey(a, b) in E
      ensures b in N[a]
    {
      PairLinked(N, E, a, b);
    }
    forall b | b in N[a]
      ensures a != b && PairKey(a, b) in E
    {
      BackedKey(N, E, a, b);
    }
  }

  /** Adjacency is symmetric, with the same weight both ways, and has no self-loops. */
  lemma WeightsSymmetric(N: Adjacency, E: map<set<string>, Edge>)
    requires Consistent(N, E)
    ensures WeightsOf(N).Keys == N.Keys
    ensures forall a, b :: a in WeightsOf(N) && b in WeightsOf(N)[a] ==>
      a != b && b in WeightsOf(N) && a in WeightsOf(N)[b] && WeightsOf(N)[b][a] == WeightsOf(N)[a][b]
  {
    forall a, b | a in WeightsOf(N) && b in WeightsOf(N)[a]
      ensures a != b && b in WeightsOf(N) && a in WeightsOf(N)[b] && WeightsOf(N)[b][a] == WeightsOf(N)[a][b]
    {
      assert b in N[a];
      assert BackedAt(N, E, a, b);
    }
  }

  /** Every stored edge is a distinct value, so listing the values loses none. */
  lemma EdgeCount(N: Adjacency, E: map<set<string>, Edge>)
    requires Consistent(N, E)
    ensures |E.Values| == |E|
  {
    forall j, k | j in E && k in E && E[j] == E[k]
      ensures j == k
    {
      assert PlacedAt(N, E, j) && PlacedAt(N, E, k);
    }
    InjectiveValuesCard(E);
  }

  /** Adding an isolated node keeps the maps consistent. */
  lemma ConsistentAddNode(N: Adjacency, E: map<set<string>, Edge>, x: string)
    requires Consistent(N, E) && x !in N
    ensures Consistent(N[x := map[]], E)
    ensures WeightsOf(N[x := map[]]) == WithNode(WeightsOf(N), x)
  {
    var N' := N[x := map[]];
    assert NeighborsBacked(N', E) by {
      forall c, d | c in N' && d in N'[c]
        ensures BackedAt(N', E, c, d)
      {
        assert d in N[c];
        assert BackedAt(N, E, c, d);
      }
    }
    assert EdgesPlaced(N', E) by {
      forall k | k in E
        ensures PlacedAt(N', E, k)
      {
        assert PlacedAt(N, E, k);
      }
    }
    assert WeightsOf(N') == WithNode(WeightsOf(N), x);
  }

  lemma ConnectBackedAt(N: Adjacency, E: map<set<string>, Edge>, a: string, b: string, e: Edge, c: string, d: string)
    requires Consistent(N, E) && a in N && b in N && a != b
    requires Key(e) == PairKey(a, b) && SameEdge(e, Edge(a, b, 0))
    requires c in N[a := N[a][b := e]][b := N[b][a := e]] && d in N[a := N[a][b := e]][b := N[b][a := e]][c]
    ensures BackedAt(N[a := N[a][b := e]][b := N[b][a := e]], E[PairKey(a, b) := e], c, d)
  {
    var N' := N[a := N[a][b := e]][b := N[b][a := e]];
    var E' := E[PairKey(a, b) := e];
    PairKeyCases(c, d, a, b);
    if c == a && d == b {
      assert N'[c][d] == e && N'[d][c] == e;
      assert BackedAt(N', E', c, d);
    } else if c == b && d == a {
      PairKeyCases(b, a, a, b);
      assert N'[c][d] == e && N'[d][c] == e;
      assert BackedAt(N', E', c, d);
    } else {
      assert N'[c][d] == N[c][d];
      assert d in N[c];
      BackedKey(N, E, c, d);
      assert N'[d][c] == N[d][c];
      assert E'[PairKey(c, d)] == E[PairKey(c, d)];
      assert BackedAt(N', E', c, d);
    }
  }

  lemma ConnectBacked(N: Adjacency, E: map<set<string>, Edge>, a: string, b: string, e: Edge)
    requires Consistent(N, E) && a in N && b in N && a != b
    requires Key(e) == PairKey(a, b) && SameEdge(e, Edge(a, b, 0))
    ensures NeighborsBacked(N[a := N[a][b := e]][b := N[b][a := e]], E[PairKey(a, b) := e])
  {
    var N' := N[a := N[a][b := e]][b := N[b][a := e]];
    forall c, d | c in N' && d in N'[c]
      ensures BackedAt(N', E[PairKey(a, b) := e], c, d)
    {
      ConnectBackedAt(N, E, a, b, e, c, d);
    }
  }

  lemma ConnectPlaced(N: Adjacency, E: map<set<string>, Edge>, a: string, b: string, e: Edge)
    requires Consistent(N, E) && a in N && b in N && a != b
    requires Key(e) == PairKey(a, b) && SameEdge(e, Edge(a, b, 0))
    ensures EdgesPlaced(N[a := N[a][b := e]][b := N[b][a := e]], E[PairKey(a, b) := e])
  {
    var k := PairKey(a, b);
    var N' := N[a := N[a][b := e]][b := N[b][a := e]];
    var E' := E[k := e];
    forall j | j in E'
      ensures PlacedAt(N', E', j)
    {
      if j != k {
        assert PlacedAt(N, E, j);
        PairKeyCases(E[j].node1, E[j].node2, a, b);
      }
    }
  }

  /**
   * Storing `e` as the edge between `a` and `b`, in the edge map and both
   * neighbour maps, keeps the maps consistent, and the weighted adjacency
   * gains that one edge.
   */
  lemma ConsistentConnect(N: Adjacency, E: map<set<string>, Edge>, a: string, b: string, w: nat, e: Edge)
    requires Consistent(N, E) && a in N && b in N && a != b
    requires e == if PairKey(a, b) in E then E[PairKey(a, b)].(weight := w) else Edge(a, b, w)
    ensures Consistent(N[a := N[a][b := e]][b := N[b][a := e]], E[PairKey(a, b) := e])
    ensures WeightsOf(N[a := N[a][b := e]][b := N[b][a := e]]) == Connect(WeightsOf(N), a, b, w)
  {
    if PairKey(a, b) in E {
      PairLinked(N, E, a, b);
      assert BackedAt(N, E, a, b);
    }
    assert Key(e) == PairKey(a, b) && SameEdge(e, Edge(a, b, 0));
    ConnectBacked(N, E, a, b, e);
    ConnectPlaced(N, E, a, b, e);
    ConnectWeights(N, a, b, w, e);
  }

  /** Writing an edge of weight `w` into both neighbour maps adds that edge to the weighted adjacency. */
  lemma ConnectWeights(N: Adjacency, a: string, b: string, w: nat, e: Edge)
    requires a in N && b in N && a != b && e.weight == w
    ensures WeightsOf(N[a := N[a][b := e]][b := N[b][a := e]]) == Connect(WeightsOf(N), a, b, w)
  {
    var N' := N[a := N[a][b := e]][b := N[b][a := e]];
    assert WithNode(WithNode(WeightsOf(N), a), b) == WeightsOf(N);
    forall n | n in N'
      ensures WeightsOf(N')[n] == Connect(WeightsOf(N), a, b, w)[n]
    {
      ConnectRow(N, a, b, w, e, n);
    }
  }

  /** One row of `ConnectWeights`. */
  lemma ConnectRow(N: Adjacency, a: string, b: string, w: nat, e: Edge, n: string)
    requires a in N && b in N && a != b && e.weight == w && n in N
    ensures WeightsOf(N[a := N[a][b := e]][b := N[b][a := e]])[n] == Connect(WeightsOf(N), a, b, w)[n]
  {
    var W := WeightsOf(N);
    var N' := N[a := N[a][b := e]][b := N[b][a := e]];
    assert WithNode(WithNode(W, a), b) == W;
    if n == a {
      var row: map<string, nat> := W[a][b := w];
      assert WeightsOf(N')[a] == row;
    } else if n == b {
      var row: map<string, nat> := W[b][a := w];
      assert WeightsOf(N')[b] == row;
    }
  }

  lemma DetachedBackedAt(N: Adjacency, E: map<set<string>, Edge>, x: string, c: string, d: string)
    requires Consistent(N, E) && x in N
    requires c in Detached(N, x) && d in Detached(N, x)[c]
    ensures BackedAt(Detached(N, x), E - Touching(x, N[x].Keys), c, d)
  {
    assert d in N[c];
    BackedKey(N, E, c, d);
    forall b | b in N[x]
      ensures PairKey(c, d) != PairKey(x, b)
    {
      PairKeyCases(c, d, x, b);
    }
  }

  lemma DetachedBacked(N: Adjacency, E: map<set<string>, Edge>, x: string)
    requires Consistent(N, E) && x in N
    ensures NeighborsBacked(Detached(N, x), E - Touching(x, N[x].Keys))
  {
    forall c, d | c in Detached(N, x) && d in Detached(N, x)[c]
      ensures BackedAt(Detached(N, x), E - Touching(x, N[x].Keys), c, d)
    {
      DetachedBackedAt(N, E, x, c, d);
    }
  }

  lemma DetachedPlacedAt(N: Adjacency, E: map<set<string>, Edge>, x: string, k: set<string>)
    requires Consistent(N, E) && x in N
    requires k in E - Touching(x, N[x].Keys)
    ensures PlacedAt(Detached(N, x), E - Touching(x, N[x].Keys), k)
  {
    var T := Touching(x, N[x].Keys);
    assert PlacedAt(N, E, k);
    var c, d := E[k].node1, E[k].node2;
    assert BackedAt(N, E, c, d);
    assert forall b :: b in N[x] ==> PairKey(x, b) in T;
    PairKeyCases(c, d, d, c);
  }

  lemma DetachedPlaced(N: Adjacency, E: map<set<string>, Edge>, x: string)
    requires Consistent(N, E) && x in N
    ensures EdgesPlaced(Detached(N, x), E - Touching(x, N[x].Keys))
  {
    forall k | k in E - Touching(x, N[x].Keys)
      ensures PlacedAt(Detached(N, x), E - Touching(x, N[x].Keys), k)
    {
      DetachedPlacedAt(N, E, x, k);
    }
  }

  /** The pairs touching `x` are stored edges, one per neighbour of `x`. */
  lemma TouchingStored(N: Adjacency, E: map<set<string>, Edge>, x: string)
    requires Consistent(N, E) && x in N
    ensures Touching(x, N[x].Keys) <= E.Keys
    ensures |E - Touching(x, N[x].Keys)| == |E| - |N[x]|
  {
    var T := Touching(x, N[x].Keys);
    forall k | k in T
      ensures k in E
    {
      var b :| b in N[x] && k == PairKey(x, b);
      BackedKey(N, E, x, b);
    }
    TouchingCard(x, N[x].Keys);
    assert (E - T).Keys == E.Keys - T;
    assert E.Keys == (E.Keys - T) + T;
  }

  /**
   * Removing node `x` together with every edge that touches it keeps the
   * maps consistent and removes exactly one stored edge per neighbour of `x`.
   */
  lemma ConsistentRemove(N: Adjacency, E: map<set<string>, Edge>, x: string)
    requires Consistent(N, E) && x in N
    ensures Touching(x, N[x].Keys) <= E.Keys
    ensures Consistent(Detached(N, x), E - Touching(x, N[x].Keys))
    ensures |E - Touching(x, N[x].Keys)| == |E| - |N[x]|
  {
    DetachedBacked(N, E, x);
    DetachedPlaced(N, E, x);
    TouchingStored(N, E, x);
  }

  /** A node that is not a neighbour of `x` does not list `x` either. */
  lemma NonNeighborsUntouched(N: Adjacency, E: map<set<string>, Edge>, x: string)
    requires Consistent(N, E) && x in N
    ensures forall n :: n in N && n != x && n !in N[x] ==> N[n] - {x} == N[n]
  {
    forall n | n in N && n != x && x in N[n]
      ensures n in N[x]
    {
      assert BackedAt(N, E, n, x);
    }
  }

  /** Removing a node without neighbours leaves the edge map as it is. */
  lemma ConsistentRemoveIsolated(N: Adjacency, E: map<set<string>, Edge>, x: string)
    requires Consistent(N, E) && x in N && N[x] == map[]
    ensures Consistent(Detached(N, x), E)
  {
    ConsistentRemove(N, E, x);
    assert Touching(x, N[x].Keys) == {};
    assert E - {} == E;
  }

  /** Dropping a node that still has a neighbour, but leaving the neighbour's map alone, breaks consistency. */
  lemma DanglingNeighbor(N: Adjacency, E: map<set<string>, Edge>, E': map<set<string>, Edge>, x: string, b: string)
    requires Consistent(N, E) && x in N && b in N[x]
    ensures !Consistent(N - {x}, E')
  {
    assert BackedAt(N, E, x, b);
    assert b in (N - {x}) && x in (N - {x})[b] && x !in (N - {x});
    assert !BackedAt(N - {x}, E', b, x);
  }

  /** Every stored edge joins two distinct neighbours and is the entry they hold for each other. */
  lemma StoredEdgesLinked(N: Adjacency, E: map<set<string>, Edge>)
    requires Consistent(N, E)
    ensures forall e :: e in E.Values ==>
      e.node1 != e.node2 && e.node1 in N && e.node2 in N[e.node1] && N[e.node1][e.node2] == e &&
      e.node2 in N && e.node1 in N[e.node2] && N[e.node2][e.node1] == e
    ensures forall a, b :: a in N && b in N[a] ==> N[a][b] in E.Values
  {
    forall e | e in E.Values
      ensures e.node1 != e.node2 && e.node1 in N && e.node2 in N[e.node1] && N[e.node1][e.node2] == e
      ensures e.node2 in N && e.node1 in N[e.node2] && N[e.node2][e.node1] == e
    {
      var k :| k in E && E[k] == e;
      assert PlacedAt(N, E, k);
      assert BackedAt(N, E, e.node1, e.node2);
    }
    forall a, b | a in N && b in N[a]
      ensures N[a][b] in E.Values
    {
      assert BackedAt(N, E, a, b);
    }
  }

  /**
   * The value part of the graph's invariant: the name list has no repeats
   * and lists exactly the nodes that have neighbour maps, and the neighbour
   * maps and the edge map are consistent.
   */
  ghost predicate Coherent(names: seq<string>, N: Adjacency, E: map<set<string>, Edge>) {
    Distinct(names) && N.Keys == Elements(names) && Consistent(N, E)
  }

  /** Appending a new isolated node keeps the graph coherent. */
  lemma CoherentAddNode(names: seq<string>, N: Adjacency, E: map<set<string>, Edge>, x: string)
    requires Coherent(names, N, E) && x !in N
    ensures Coherent(names + [x], N[x := map[]], E)
    ensures WeightsOf(N[x := map[]]) == WithNode(WeightsOf(N), x)
  {
    assert x !in Elements(names);
    DistinctSnoc(names, x);
    assert Elements(names + [x]) == Elements(names) + {x};
    ConsistentAddNode(N, E, x);
  }

  /** Storing the edge between two existing nodes keeps the graph coherent. */
  lemma CoherentConnect(names: seq<string>, N: Adjacency, E: map<set<string>, Edge>, a: string, b: string, w: nat, e: Edge)
    requires Coherent(names, N, E) && a in N && b in N && a != b
    requires e == if PairKey(a, b) in E then E[PairKey(a, b)].(weight := w) else Edge(a, b, w)
    ensures Coherent(names, N[a := N[a][b := e]][b := N[b][a := e]], E[PairKey(a, b) := e])
    ensures WeightsOf(N[a := N[a][b := e]][b := N[b][a := e]]) == Connect(WeightsOf(N), a, b, w)
  {
    ConsistentConnect(N, E, a, b, w, e);
  }

  /** Removing a node with all its edges keeps the graph coherent. */
  lemma CoherentRemove(names: seq<string>, N: Adjacency, E: map<set<string>, Edge>, x: string)
    requires Coherent(names, N, E) && x in N
    ensures Coherent(Without(names, x), Detached(N, x), E - Touching(x, N[x].Keys))
    ensures |E - Touching(x, N[x].Keys)| == |E| - |N[x]|
  {
    WithoutDistinct(names, x);
    ConsistentRemove(N, E, x);
  }

  /** Removing a node without neighbours, and nothing else, keeps the graph coherent. */
  lemma CoherentRemoveIsolated(names: seq<string>, N: Adjacency, E: map<set<string>, Edge>, x: string)
    requires Coherent(names, N, E) && x in N && N[x] == map[]
    ensures Coherent(Without(names, x), N - {x}, E)
  {
    WithoutDistinct(names, x);
    NonNeighborsUntouched(N, E, x);
    assert N - {x} == Detached(N, x);
    ConsistentRemoveIsolated(N, E, x);
  }

  /** Removing a node that has a neighbour without updating that neighbour's map leaves the graph incoherent. */
  lemma IncoherentRemove(names: seq<string>, N: Adjacency, E: map<set<string>, Edge>, E': map<set<string>, Edge>, x: string, b: string)
    requires Coherent(names, N, E) && x in N && b in N[x]
    ensures !Coherent(Without(names, x), N - {x}, E')
  {
    DanglingNeighbor(N, E, E', x, b);
  }

  /** `Graph.Node`: a named vertex and its neighbour-name to edge map. */
  class Node {
    const name: string
    var edges: map<string, Edge>

    constructor (name: string)
      ensures this.name == name && edges == map[]
    {
      this.name := name;
      edges := map[];
    }

    /** `_add_edge`: registers `e` under the name of its other endpoint. */
    method AddEdge(e: Edge)
      modifies this
      ensures e.node1 == name ==> edges == old(edges)[e.node2 := e]
      ensures e.node1 != name && e.node2 == name ==> edges == old(edges)[e.node1 := e]
      ensures e.node1 != name && e.node2 != name ==> edges == old(edges)
    {
      if e.node1 == name {
        edges := edges[e.node2 := e];
      } else if e.node2 == name {
        edges := edges[e.node1 := e];
      }
    }

    /** `_remove_edge`: deletes the entry of `e`'s other endpoint; `del` raises when it is absent. */
    method RemoveEdge(e: Edge) returns (out: Outcome<Error>)
      modifies this
      ensures e.node1 == name ==>
        out == (if e.node2 in old(edges) then Pass else Fail(EdgeMissing)) && edges == old(edges) - {e.node2}
      ensures e.node1 != name && e.node2 == name ==>
        out == (if e.node1 in old(edges) then Pass else Fail(EdgeMissing)) && edges == old(edges) - {e.node1}
      ensures e.node1 != name && e.node2 != name ==> out == Pass && edges == old(edges)
    {
      out := Pass;
      if e.node1 == name {
        if e.node2 !in edges {
          return Fail(EdgeMissing);
        }
        edges := edges - {e.node2};
      } else if e.node2 == name {
        if e.node1 !in edges {
          return Fail(EdgeMissing);
        }
        edges := edges - {e.node1};
      }
    }

    /** `get_adjacent_nodes`, as a set: the order of the list is not modelled. */
    function AdjacentNodes(): set<string>
      reads this
    {
      edges.Keys
    }

    /** `get_edges`, as a set. */
    function IncidentEdges(): set<Edge>
      reads this
    {
      edges.Values
    }
  }

  /** `Graph`: node names in insertion order, the name-to-node map and the edge map. */
  class Graph {
    var names: seq<string>
    var nodes: map<string, Node>
    var edges: map<set<string>, Edge>

    /**
     * The neighbour maps of all nodes as one value: a ghost mirror of what
     * the node objects hold, kept equal to them by `Valid`.
     */
    ghost var adj: Adjacency

    /**
     * The graph's invariant: the name list and the node map agree, one node
     * object per name holding that name, the mirror matches every node's
     * map, and the neighbour maps and the edge map are consistent.
     */
    ghost predicate Valid()
      reads this, nodes.Values
    {
      Coherent(names, adj, edges) &&
      nodes.Keys == adj.Keys &&
      (forall n {:trigger Mirrors(n)} :: n in nodes ==> Mirrors(n))
    }

    /** The node stored under `n` carries that name and holds the neighbour map the mirror records for `n`. */
    ghost predicate Mirrors(n: string)
      reads this, nodes.Values
      requires n in nodes
    {
      nodes[n].name == n && n in adj && nodes[n].edges == adj[n]
    }

    /** The weighted adjacency as a value: `Weights()[a][b]` is the weight of the edge between `a` and `b`. */
    ghost function Weights(): Weights
      reads this
    {
      WeightsOf(adj)
    }

    constructor ()
      ensures Valid() && names == [] && nodes == map[] && edges == map[] && Weights() == map[]
    {
      names := [];
      nodes := map[];
      edges := map[];
      adj := map[];
    }

    /** `is_empty`: the code tests for no NODES (its docstring says no edges); no nodes means no edges either. */
    function IsEmpty(): (r: bool)
      reads this, nodes.Values
      requires Valid()
      ensures r <==> names == []
      ensures r ==> edges == map[]
    {
      NoNodesNoEdges();
      |nodes| == 0
    }

    /** With no nodes there are no names, and no edge can be stored either. */
    lemma NoNodesNoEdges()
      requires Valid()
      ensures |nodes| == 0 <==> names == []
      ensures |nodes| == 0 ==> edges == map[]
    {
      if names != [] {
        assert names[0] in nodes;
      }
      if edges != map[] {
        var k :| k in edges;
        assert PlacedAt(adj, edges, k);
      }
    }

    /** `num_nodes`: the length of the node list. */
    function NumNodes(): (r: nat)
      reads this, nodes.Values
      requires Valid()
      ensures r == |names|
    {
      DistinctCard(names);
      |nodes|
    }

    /** `edges`, as a set: every listed edge joins two distinct neighbours and is the one they hold. */
    function Edges(): (r: set<Edge>)
      reads this, nodes.Values
      requires Valid()
      ensures forall e :: e in r ==>
        e.node1 != e.node2 && e.node1 in adj && e.node2 in adj[e.node1] && adj[e.node1][e.node2] == e &&
        e.node2 in adj && e.node1 in adj[e.node2] && adj[e.node2][e.node1] == e
      ensures forall a, b :: a in adj && b in adj[a] ==> adj[a][b] in r
      ensures |r| == |edges|
    {
      EdgeCount(adj, edges);
      StoredEdgesLinked(adj, edges);
      edges.Values
    }

    /** `num_edges`: one per stored edge, which is the length of the edge list. */
    function NumEdges(): (r: nat)
      reads this, nodes.Values
      requires Valid()
      ensures r == |Edges()|
    {
      |edges|
    }

    /** `nodes`: the node names in insertion order, each once. */
    function Nodes(): (r: seq<string>)
      reads this, nodes.Values
      requires Valid()
      ensures Distinct(r)
      ensures forall n :: n in r <==> n in adj
    {
      names
    }

    /** `get_node`: fails exactly when the name is not a node of the graph. */
    function GetNode(name: string): (r: Result<Node, Error>)
      reads this, nodes.Values
      requires Valid()
      ensures r.Success? <==> name in names
      ensures r.Success? ==> r.value == nodes[name] && r.value.name == name
      ensures r.Failure? ==> r.error == NodeMissing
    {
      if name in nodes then
        assert Mirrors(name);
        Success(nodes[name])
      else
        Failure(NodeMissing)
    }

    /**
     * `get_edge`, which takes two nodes: the edge joining them, as their
     * neighbour maps hold it; equal nodes fail in the Edge constructor.
     */
    function GetEdge(n1: Node, n2: Node): (r: Result<Edge, Error>)
      reads this, nodes.Values
      requires Valid()
      ensures r.Success? <==> n1.name in adj && n2.name in adj[n1.name]
      ensures r.Success? ==> r.value == adj[n1.name][n2.name]
      ensures r.Success? ==> PairKey(r.value.node1, r.value.node2) == PairKey(n1.name, n2.name)
      ensures r.Failure? ==> r.error == if n1.name == n2.name then SelfLoop else EdgeMissing
    {
      var k := PairKey(n1.name, n2.name);
      if n1.name == n2.name then
        if n1.name in nodes then
          NeighborsArePairs(adj, edges, n1.name);
          Failure(SelfLoop)
        else
          Failure(SelfLoop)
      else if k in edges then
        PairLinked(adj, edges, n1.name, n2.name);
        BackedKey(adj, edges, n1.name, n2.name);
        Success(edges[k])
      else if n1.name in nodes then
        NeighborsArePairs(adj, edges, n1.name);
        Failure(EdgeMissing)
      else
        Failure(EdgeMissing)
    }

    /** `adjacent`: a missing first name raises; otherwise true exactly when the pair has an edge. */
    function Adjacent(a: string, b: string): (r: Result<bool, Error>)
      reads this, nodes.Values
      requires Valid()
      ensures r.Failure? <==> a !in names
      ensures r.Failure? ==> r.error == NodeMissing
      ensures r.Success? ==> (r.value <==> a != b && PairKey(a, b) in edges)
    {
      if a !in nodes then Failure(NodeMissing)
      else
        assert Mirrors(a);
        NeighborsArePairs(adj, edges, a);
        Success(b in nodes[a].AdjacentNodes())
    }

    /** `neighbors`: a missing name raises; otherwise the names joined to it by an edge. */
    function Neighbors(a: string): (r: Result<set<string>, Error>)
      reads this, nodes.Values
      requires Valid()
      ensures r.Failure? <==> a !in names
      ensures r.Failure? ==> r.error == NodeMissing
      ensures r.Success? ==> forall b :: b in r.value <==> a != b && PairKey(a, b) in edges
    {
      if a !in nodes then Failure(NodeMissing)
      else
        assert Mirrors(a);
        NeighborsArePairs(adj, edges, a);
        Success(nodes[a].AdjacentNodes())
    }

    /** Adjacency is symmetric and agrees with the neighbour list. */
    lemma AdjacentSymmetric(a: string, b: string)
      requires Valid() && a in nodes && b in nodes
      ensures Adjacent(a, b) == Adjacent(b, a)
      ensures Adjacent(a, b).value <==> b in Neighbors(a).value
    {
      assert PairKey(a, b) == PairKey(b, a);
    }

    /**
     * The weights as the search reads them, node by node through each
     * node's neighbour map: the graph's weighted adjacency.
     */
    function WeightMap(): (W: Weights)
      reads this, nodes.Values
      requires Valid()
      ensures W == Weights()
    {
      var W := map a | a in nodes :: map b | b in nodes[a].edges :: nodes[a].edges[b].weight;
      assert W == WeightsOf(adj) by {
        forall a | a in nodes
          ensures W[a] == WeightsOf(adj)[a]
        {
          assert Mirrors(a);
        }
      }
      W
    }

    /**
     * What the search needs of a valid graph: the node list names every
     * node once, and every neighbour is another node of the graph.
     */
    lemma WeightsWellFormed()
      requires Valid()
      ensures Distinct(names) && Elements(names) == Weights().Keys
      ensures forall u :: u in Weights() ==> Weights()[u].Keys <= Weights().Keys && u !in Weights()[u]
    {
      WeightsSymmetric(adj, edges);
    }

    /** `adjacency_map`: for each node, in node order, the names of its neighbours. */
    method AdjacencyMap() returns (m: seq<set<string>>)
      requires Valid()
      ensures |m| == |names|
      ensures forall i, b :: 0 <= i < |names| ==> (b in m[i] <==> names[i] != b && PairKey(names[i], b) in edges)
    {
      m := [];
      for i := 0 to |names|
        invariant |m| == i
        invariant forall j :: 0 <= j < i ==> names[j] in nodes && m[j] == nodes[names[j]].AdjacentNodes()
      {
        m := m + [nodes[names[i]].AdjacentNodes()];
      }
      forall i | 0 <= i < |names|
        ensures forall b :: b in m[i] <==> names[i] != b && PairKey(names[i], b) in edges
      {
        assert Mirrors(names[i]);
        NeighborsArePairs(adj, edges, names[i]);
      }
    }

    /** `add_node`: returns the node of that name, creating and appending it only when it is new. */
    method AddNode(name: string) returns (n: Node)
      requires Valid()
      modifies this
      ensures Valid()
      ensures n.name == name && name in nodes && n == nodes[name]
      ensures name in old(nodes) ==> n == old(nodes[name]) && nodes == old(nodes)
      ensures name !in old(nodes) ==> fresh(n) && nodes == old(nodes)[name := n]
      ensures names == old(names) + (if name in old(nodes) then [] else [name])
      ensures adj == if name in old(nodes) then old(adj) else old(adj)[name := map[]]
      ensures edges == old(edges)
      ensures Weights() == WithNode(old(Weights()), name)
    {
      if name in nodes {
        n := nodes[name];
        assert Mirrors(name);
        return;
      }
      CoherentAddNode(names, adj, edges, name);
      n := new Node(name);
      var nd := nodes[name := n];
      ghost var ad := adj[name := map[]];
      forall m | m in nd
        ensures nd[m].name == m && m in ad && nd[m].edges == ad[m]
      {
        if m != name {
          assert Mirrors(m);
        }
      }
      Store(names + [name], nd, ad, edges);
    }

    /** Replaces the name list, the node map, the mirror and the edge map by values that keep the invariant. */
    method Store(ns: seq<string>, nd: map<string, Node>, ghost ad: Adjacency, ed: map<set<string>, Edge>)
      requires Coherent(ns, ad, ed) && nd.Keys == ad.Keys
      requires forall m :: m in nd ==> nd[m].name == m && m in ad && nd[m].edges == ad[m]
      modifies `names, `nodes, `adj, `edges
      ensures Valid() && names == ns && nodes == nd && adj == ad && edges == ed
    {
      names, nodes, edges := ns, nd, ed;
      adj := ad;
      forall m | m in nodes
        ensures Mirrors(m)
      {
      }
    }

    /**
     * `add_edge`, with the update of an existing pair as the code intends:
     * both endpoints are created when missing (even when the edge is then
     * refused as a self-loop); a new pair gets one new edge registered in
     * both neighbour maps; an existing pair only has its weight replaced.
     */
    method AddEdge(a: string, b: string, w: nat) returns (out: Outcome<Error>)
      requires Valid()
      modifies this, nodes.Values
      ensures Valid()
      ensures out == if a == b then Fail(SelfLoop) else Pass
      ensures names == old(names) + (if a in old(nodes) then [] else [a]) + (if b in old(nodes) || b == a then [] else [b])
      ensures a in old(nodes) && b in old(nodes) ==> nodes == old(nodes)
      ensures a in nodes && b in nodes && nodes == old(nodes)[a := nodes[a]][b := nodes[b]]
      ensures a in old(nodes) ==> nodes[a] == old(nodes)[a]
      ensures b in old(nodes) ==> nodes[b] == old(nodes)[b]
      ensures a !in old(nodes) ==> fresh(nodes[a])
      ensures b !in old(nodes) ==> fresh(nodes[b])
      ensures a == b ==> edges == old(edges) && Weights() == WithNode(old(Weights()), a)
      ensures a != b && PairKey(a, b) !in old(edges) ==> edges == old(edges)[PairKey(a, b) := Edge(a, b, w)]
      ensures a != b && PairKey(a, b) in old(edges) ==>
        edges == old(edges)[PairKey(a, b) := old(edges)[PairKey(a, b)].(weight := w)]
      ensures a != b ==> Weights() == Connect(old(Weights()), a, b, w)
    {
      AddEnds(a, b);
      ghost var W1 := Weights();
      var made := NewEdge(a, b, w);
      if made.Failure? {
        return Fail(SelfLoop);
      }
      Link(made.value);
      assert WithNode(WithNode(W1, a), b) == W1;
      out := Pass;
    }

    /** The first half of `add_edge`: `add_node` for each endpoint, in order. */
    method AddEnds(a: string, b: string)
      requires Valid()
      modifies this
      ensures Valid()
      ensures names == old(names) + (if a in old(nodes) then [] else [a]) + (if b in old(nodes) || b == a then [] else [b])
      ensures a in nodes && b in nodes && nodes == old(nodes)[a := nodes[a]][b := nodes[b]]
      ensures a in old(nodes) ==> nodes[a] == old(nodes)[a]
      ensures b in old(nodes) ==> nodes[b] == old(nodes)[b]
      ensures a !in old(nodes) ==> fresh(nodes[a])
      ensures b !in old(nodes) ==> fresh(nodes[b])
      ensures edges == old(edges)
      ensures Weights() == WithNode(WithNode(old(Weights()), a), b)
    {
      var n1 := AddNode(a);
      ghost var N1 := nodes;
      assert N1 == old(nodes)[a := n1];
      var n2 := AddNode(b);
      assert nodes == N1[b := n2];
    }

    /**
     * The second half of `add_edge`, once both endpoints exist: a new pair
     * gets its edge registered in the edge map and in both neighbour maps;
     * for an existing pair the stored edge, which the neighbour maps share,
     * only has its weight replaced.
     */
    method Link(e: Edge)
      requires Valid() && e.node1 in nodes && e.node2 in nodes && e.node1 != e.node2
      modifies this, nodes[e.node1], nodes[e.node2]
      ensures Valid() && names == old(names) && nodes == old(nodes)
      ensures Key(e) !in old(edges) ==> edges == old(edges)[Key(e) := e]
      ensures Key(e) in old(edges) ==> edges == old(edges)[Key(e) := old(edges)[Key(e)].(weight := e.weight)]
      ensures Weights() == Connect(old(Weights()), e.node1, e.node2, e.weight)
    {
      var a, b, w := e.node1, e.node2, e.weight;
      var n1 := nodes[a];
      var n2 := nodes[b];
      ghost var N := adj;
      ghost var E := edges;
      var k := Key(e);
      ghost var stored := if k in E then E[k].(weight := w) else e;
      assert Mirrors(a) && Mirrors(b);
      if k !in edges {
        edges := edges[k := e];
        n1.AddEdge(e);
        n2.AddEdge(e);
      } else {
        // The neighbour maps alias the stored Edge object, so its new weight shows in all three places.
        var updated := edges[k].(weight := w);
        edges := edges[k := updated];
        n1.edges := n1.edges[b := updated];
        n2.edges := n2.edges[a := updated];
      }
      ghost var T := N[a := N[a][b := stored]][b := N[b][a := stored]];
      forall n | n in nodes
        ensures nodes[n].name == n && n in T && nodes[n].edges == T[n]
      {
        if n != a && n != b {
          assert old(Mirrors(n));
          assert nodes[n] != n1 && nodes[n] != n2;
        }
      }
      CoherentConnect(names, N, E, a, b, w, stored);
      Store(names, nodes, T, edges);
    }

    /**
     * `add_edge` as written: on an existing pair the weight update of the
     * shared edge completes, then a `Node` is used as a dict key and the
     * call raises, because `Node` defines `__eq__` without `__hash__`.
     */
    method AddEdgeAsWritten(a: string, b: string, w: nat) returns (out: Outcome<Error>)
      requires Valid()
      modifies this, nodes.Values
      ensures Valid()
      ensures out == if a == b then Fail(SelfLoop)
                     else if PairKey(a, b) in old(edges) then Fail(UnhashableNode)
                     else Pass
      ensures names == old(names) + (if a in old(nodes) then [] else [a]) + (if b in old(nodes) || b == a then [] else [b])
      ensures a in nodes && b in nodes && nodes == old(nodes)[a := nodes[a]][b := nodes[b]]
      ensures a in old(nodes) ==> nodes[a] == old(nodes)[a]
      ensures b in old(nodes) ==> nodes[b] == old(nodes)[b]
      ensures a !in old(nodes) ==> fresh(nodes[a])
      ensures b !in old(nodes) ==> fresh(nodes[b])
      ensures a == b ==> edges == old(edges) && Weights() == WithNode(old(Weights()), a)
      ensures a != b && PairKey(a, b) !in old(edges) ==> edges == old(edges)[PairKey(a, b) := Edge(a, b, w)]
      ensures a != b && PairKey(a, b) in old(edges) ==>
        edges == old(edges)[PairKey(a, b) := old(edges)[PairKey(a, b)].(weight := w)]
      ensures a != b ==> Weights() == Connect(old(Weights()), a, b, w)
    {
      var existed := a != b && PairKey(a, b) in edges;
      out := AddEdge(a, b, w);
      if existed {
        out := Fail(UnhashableNode);
      }
    }

    /**
     * `remove_node` as its docstring states it: the node goes, and so does
     * every edge touching it, from the edge map and from its neighbours' maps.
     */
    method RemoveNode(x: string) returns (out: Outcome<Error>)
      requires Valid()
      modifies this, nodes.Values
      ensures Valid()
      ensures out == if x in old(nodes) then Pass else Fail(NodeMissing)
      ensures nodes == if x in old(nodes) then old(nodes) - {x} else old(nodes)
      ensures x !in old(nodes) ==> names == old(names) && adj == old(adj) && edges == old(edges)
      ensures x in old(nodes) ==>
        names == Without(old(names), x) && adj == Detached(old(adj), x) &&
        edges == old(edges) - Touching(x, old(adj)[x].Keys) &&
        |edges| == |old(edges)| - |old(adj)[x]|
    {
      if x !in nodes {
        return Fail(NodeMissing);
      }
      ghost var N := adj;
      assert Mirrors(x);
      var incident := nodes[x].edges;
      var rest := nodes - {x};
      forall n | n in rest
        ensures rest[n].name == n && rest[n].edges == N[n]
      {
        assert Mirrors(n);
      }
      CoherentRemove(names, N, edges, x);
      var kept := DetachEdges(x, incident, rest, edges, N);
      Store(Without(names, x), rest, Detached(N, x), kept);
      out := Pass;
    }

    /**
     * The loop of `remove_node`, run over the nodes other than `x`: each
     * edge `x` had leaves the edge map and the neighbour map of its other
     * endpoint. `rest` is the node map without `x`; the edge map left
     * over is returned.
     */
    static method DetachEdges(x: string, incident: map<string, Edge>, rest: map<string, Node>,
                              E: map<set<string>, Edge>, ghost N: Adjacency)
        returns (kept: map<set<string>, Edge>)
      requires Consistent(N, E) && x in N && incident == N[x] && rest.Keys == N.Keys - {x}
      requires forall n :: n in rest ==> rest[n].name == n && rest[n].edges == N[n]
      modifies rest.Values
      ensures kept == E - Touching(x, N[x].Keys)
      ensures forall n :: n in rest ==> rest[n].edges == Detached(N, x)[n]
    {
      var todo := incident.Keys;
      ghost var done: set<string> := {};
      kept := E;
      while todo != {}
        invariant todo + done == incident.Keys && todo !! done
        invariant kept == E - Touching(x, done)
        invariant forall n :: n in rest ==> rest[n].edges == if n in done then N[n] - {x} else N[n]
        decreases todo
      {
        var b :| b in todo;
        var e := incident[b];
        BackedKey(N, E, x, b);
        kept := kept - {PairKey(e.node1, e.node2)};
        if e.node1 != x {
          rest[e.node1].edges := rest[e.node1].edges - {e.node2};
        }
        if e.node2 != x {
          rest[e.node2].edges := rest[e.node2].edges - {e.node1};
        }
        todo := todo - {b};
        assert Touching(x, done + {b}) == Touching(x, done) + {PairKey(x, b)};
        done := done + {b};
      }
      NonNeighborsUntouched(N, E, x);
    }

    /**
     * `remove_node` as written: the node leaves the node map, the first of
     * its edges leaves the edge map, and then `edge.node1 != nodeToRemove`
     * compares a `Node` with a `str`, so `Node.__eq__` raises. Only an
     * isolated node is removed cleanly; otherwise the graph is left with
     * neighbour entries naming a node that no longer exists.
     */
    method RemoveNodeAsWritten(x: string) returns (out: Outcome<Error>)
      requires Valid()
      modifies this
      ensures x !in old(nodes) ==> out == Fail(NodeMissing) && nodes == old(nodes) && edges == old(edges)
      ensures x in old(nodes) ==> nodes == old(nodes) - {x} && names == Without(old(names), x)
      ensures x in old(nodes) && old(adj)[x] == map[] ==> out == Pass && edges == old(edges) && Valid()
      ensures x in old(nodes) && old(adj)[x] != map[] ==>
        out == Fail(NodeComparedToName) && |edges| == |old(edges)| - 1 && !Valid()
      ensures x in old(nodes) && old(adj)[x] != map[] ==>
        exists k :: k in old(edges) && x in k && edges == old(edges) - {k}
    {
      if x !in nodes {
        return Fail(NodeMissing);
      }
      ghost var N := adj;
      ghost var L := names;
      assert Mirrors(x);
      var incident := nodes[x].edges;
      var rest := nodes - {x};
      if incident == map[] {
        CoherentRemoveIsolated(L, N, edges, x);
        forall n | n in rest
          ensures rest[n].name == n && n in N - {x} && rest[n].edges == (N - {x})[n]
        {
          assert Mirrors(n);
        }
        Store(Without(names, x), rest, N - {x}, edges);
        return Pass;
      }
      nodes := rest;
      names := Without(names, x);
      adj := N - {x};
      var b :| b in incident;
      var e := incident[b];
      BackedKey(N, edges, x, b);
      edges := edges - {Key(e)};
      IncoherentRemove(L, N, old(edges), edges, x, b);
      out := Fail(NodeComparedToName);
    }
  }
}
