/** Finite directed graphs given by their adjacency vectors, as the repository's
    graph library presents them (`graph_neighbors` returns a vector). */
module Graphs {

  type Graph<V> = map<V, seq<V>>

  predicate Edge<V(==)>(g: Graph<V>, v: V, w: V) {
    v in g && w in g[v]
  }

  /** Every edge leads to a vertex. */
  ghost predicate Closed<V(!new)>(g: Graph<V>) {
    forall v, w :: Edge(g, v, w) ==> w in g
  }

  ghost predicate OutDegreeAtMostOne<V>(g: Graph<V>) {
    forall v :: v in g ==> |g[v]| <= 1
  }

  ghost predicate IsPath<V>(g: Graph<V>, p: seq<V>) {
    && p != []
    && forall i :: 0 <= i < |p| - 1 ==> Edge(g, p[i], p[i + 1])
  }

  ghost predicate Repeats<V>(p: seq<V>) {
    exists i, j :: 0 <= i < j < |p| && p[i] == p[j]
  }

  /** Some walk from `v` visits a vertex twice. */
  ghost predicate EntersCycle<V(!new)>(g: Graph<V>, v: V) {
    exists p :: IsPath(g, p) && p[0] == v && Repeats(p)
  }

  ghost predicate Acyclic<V(!new)>(g: Graph<V>) {
    forall p :: IsPath(g, p) ==> !Repeats(p)
  }

  /** `w` can be reached from `v`; every vertex reaches itself. */
  ghost predicate Reaches<V(!new)>(g: Graph<V>, v: V, w: V) {
    exists p :: IsPath(g, p) && p[0] == v && p[|p| - 1] == w
  }

  ghost function Elements<V>(s: seq<V>): set<V> {
    set x | x in s
  }

  // ---- edge updates (`graph_add_edge`, `graph_remove_edge`) ----

  function Without<V(==,!new)>(s: seq<V>, x: V): (r: seq<V>)
    ensures forall y :: y in r <==> y in s && y != x
    ensures |r| <= |s|
    ensures x in s ==> |r| < |s|
  {
    if s == [] then []
    else if s[0] == x then Without(s[1..], x)
    else [s[0]] + Without(s[1..], x)
  }

  function AddVertex<V(==)>(g: Graph<V>, v: V): Graph<V> {
    if v in g then g else g[v := []]
  }

  function AddEdge<V(==)>(g: Graph<V>, v: V, w: V): Graph<V> {
    if v !in g || w in g[v] then g else g[v := g[v] + [w]]
  }

  function RemoveEdge<V(==,!new)>(g: Graph<V>, v: V, w: V): Graph<V> {
    if v !in g then g else g[v := Without(g[v], w)]
  }

  lemma NoNeighborOrEdge<V(!new)>(g: Graph<V>, v: V)
    requires v in g
    ensures g[v] == [] || exists w :: Edge(g, v, w)
  {
    if g[v] != [] { assert Edge(g, v, g[v][0]); }
  }

  lemma EdgeAfterAdd<V>(g: Graph<V>, v: V, w: V, x: V, y: V)
    requires v in g
    ensures Edge(AddEdge(g, v, w), x, y) <==> Edge(g, x, y) || (x == v && y == w)
  {
  }

  lemma EdgeAfterRemove<V(!new)>(g: Graph<V>, v: V, w: V, x: V, y: V)
    ensures Edge(RemoveEdge(g, v, w), x, y) <==> Edge(g, x, y) && !(x == v && y == w)
  {
  }

  // ---- paths ----

  lemma SubPath<V>(g: Graph<V>, p: seq<V>, i: nat, j: nat)
    requires IsPath(g, p) && i < j <= |p|
    ensures IsPath(g, p[i..j])
  {
    var q := p[i..j];
    forall k | 0 <= k < |q| - 1 ensures Edge(g, q[k], q[k + 1]) {
      assert Edge(g, p[i + k], p[i + k + 1]);
    }
  }

  /** Two paths sharing the vertex where they meet compose. */
  lemma JoinPaths<V>(g: Graph<V>, p: seq<V>, q: seq<V>)
    requires IsPath(g, p) && IsPath(g, q)
    requires p[|p| - 1] == q[0]
    ensures IsPath(g, p + q[1..])
  {
    var r := p + q[1..];
    forall k | 0 <= k < |r| - 1 ensures Edge(g, r[k], r[k + 1]) {
      if k < |p| - 1 {
        assert Edge(g, p[k], p[k + 1]);
      } else {
        assert Edge(g, q[k - |p| + 1], q[k - |p| + 2]);
      }
    }
  }

  lemma ExtendPath<V>(g: Graph<V>, p: seq<V>, w: V)
    requires IsPath(g, p) && Edge(g, p[|p| - 1], w)
    ensures IsPath(g, p + [w])
  {
    forall k | 0 <= k < |p| ensures Edge(g, (p + [w])[k], (p + [w])[k + 1]) {
      if k < |p| - 1 { assert Edge(g, p[k], p[k + 1]); }
    }
  }

  /** Removing edges cannot create a cycle. */
  lemma SubgraphAcyclic<V(!new)>(g: Graph<V>, h: Graph<V>)
    requires Acyclic(g)
    requires forall v, w :: Edge(h, v, w) ==> Edge(g, v, w)
    ensures Acyclic(h)
  {
    forall p | IsPath(h, p) ensures !Repeats(p) {
      assert IsPath(g, p);
    }
  }

  /** With out-degree at most one a walk is determined by its start. */
  lemma {:induction false} WalkIsDetermined<V>(g: Graph<V>, p: seq<V>, q: seq<V>)
    requires OutDegreeAtMostOne(g)
    requires IsPath(g, p) && IsPath(g, q) && p[0] == q[0] && |p| <= |q|
    ensures p <= q
  {
    if |p| > 1 {
      SubPath(g, p, 0, |p| - 1);
      WalkIsDetermined(g, p[..|p| - 1], q);
      var k := |p| - 2;
      assert p[..|p| - 1][k] == p[k] == q[k];
      assert Edge(g, p[k], p[k + 1]) && Edge(g, q[k], q[k + 1]);
      assert |g[p[k]]| == 1;
      assert p[k + 1] == q[k + 1];
      assert p == p[..|p| - 1] + [p[k + 1]];
    }
  }

  ghost predicate Distinct<V>(p: seq<V>) {
    forall i, j :: 0 <= i < j < |p| ==> p[i] != p[j]
  }

  lemma {:induction false} DistinctLength<V>(p: seq<V>, s: set<V>)
    requires Distinct(p)
    requires forall i :: 0 <= i < |p| ==> p[i] in s
    ensures |p| <= |s|
  {
    if p != [] {
      DistinctLength(p[..|p| - 1], s - {p[|p| - 1]});
    }
  }

  lemma InnerVertexHasNeighbor<V>(g: Graph<V>, q: seq<V>, k: nat)
    requires IsPath(g, q) && k < |q| - 1
    ensures q[k] in g && g[q[k]] != []
  {
    assert Edge(g, q[k], q[k + 1]);
  }

  /** With out-degree at most one, a walk into a dead end is all there is. */
  lemma DeadEndBoundsWalk<V>(g: Graph<V>, p: seq<V>, q: seq<V>)
    requires OutDegreeAtMostOne(g)
    requires IsPath(g, p) && p[|p| - 1] in g && g[p[|p| - 1]] == []
    requires IsPath(g, q) && q[0] == p[0]
    ensures q <= p
  {
    if |p| <= |q| { WalkIsDetermined(g, p, q); } else { WalkIsDetermined(g, q, p); }
    if |p| < |q| { InnerVertexHasNeighbor(g, q, |p| - 1); }
  }

  lemma DeadEndEntersNoCycle<V(!new)>(g: Graph<V>, p: seq<V>)
    requires OutDegreeAtMostOne(g)
    requires IsPath(g, p) && Distinct(p)
    requires p[|p| - 1] in g && g[p[|p| - 1]] == []
    ensures !EntersCycle(g, p[0])
  {
    forall q | IsPath(g, q) && q[0] == p[0] ensures !Repeats(q) {
      DeadEndBoundsWalk(g, p, q);
    }
  }

  // ---- one added edge ----

  /** A closed walk `p[i..j]` through the source of the new edge can be turned to
      start there. */
  lemma TurnCycle<V(!new)>(h: Graph<V>, p: seq<V>, i: nat, k: nat, j: nat)
    requires IsPath(h, p) && i <= k < j < |p| && p[i] == p[j]
    ensures EntersCycle(h, p[k])
  {
    SubPath(h, p, k, j + 1);
    SubPath(h, p, i, k + 1);
    var a, b := p[k..j + 1], p[i..k + 1];
    JoinPaths(h, a, b);
    var c := a + b[1..];
    assert c[0] == p[k];
    assert c[|a| - 1 + k - i] == p[k];
    assert Repeats(c);
  }

  /** Every cycle of the extended graph is a cycle of the old one or is entered
      from the source of the new edge. */
  lemma CycleIsOldOrNew<V(!new)>(g: Graph<V>, v: V, w: V, p: seq<V>, i: nat, j: nat)
    requires v in g && IsPath(AddEdge(g, v, w), p) && i < j < |p| && p[i] == p[j]
    ensures EntersCycle(AddEdge(g, v, w), v) || (IsPath(g, p[i..j + 1]) && Repeats(p[i..j + 1]))
  {
    var h := AddEdge(g, v, w);
    if k :| i <= k < j && p[k] == v {
      TurnCycle(h, p, i, k, j);
    } else {
      var q := p[i..j + 1];
      forall k | 0 <= k < |q| - 1 ensures Edge(g, q[k], q[k + 1]) {
        assert Edge(h, p[i + k], p[i + k + 1]);
        EdgeAfterAdd(g, v, w, q[k], q[k + 1]);
      }
      assert q[0] == q[|q| - 1];
    }
  }

  /** The check behind `drm_wait`: adding `v -> w` to an acyclic graph keeps it acyclic
      exactly when the walk from `v` then enters no cycle. */
  lemma AddEdgeAcyclic<V(!new)>(g: Graph<V>, v: V, w: V)
    requires Acyclic(g) && v in g
    ensures Acyclic(AddEdge(g, v, w)) <==> !EntersCycle(AddEdge(g, v, w), v)
  {
    var h := AddEdge(g, v, w);
    if !EntersCycle(h, v) {
      forall p | IsPath(h, p) ensures !Repeats(p) {
        if Repeats(p) {
          var i, j :| 0 <= i < j < |p| && p[i] == p[j];
          CycleIsOldOrNew(g, v, w, p, i, j);
        }
      }
    }
  }

  /** From a vertex `v` without edges, the walk through a new edge `v -> w` enters a
      cycle exactly when a path already led from `w` back to `v`. */
  lemma CycleNeedsReturnPath<V(!new)>(g: Graph<V>, v: V, w: V)
    requires Acyclic(g) && v in g && g[v] == []
    ensures EntersCycle(AddEdge(g, v, w), v) <==> Reaches(g, w, v)
  {
    var h := AddEdge(g, v, w);
    if EntersCycle(h, v) {
      ReturnPath(g, v, w);
    }
    if p :| IsPath(g, p) && p[0] == w && p[|p| - 1] == v {
      var q := [v] + p;
      forall k | 0 <= k < |q| - 1 ensures Edge(h, q[k], q[k + 1]) {
        EdgeAfterAdd(g, v, w, q[k], q[k + 1]);
        if k > 0 { assert Edge(g, p[k - 1], p[k - 1 + 1]); }
      }
      assert q[0] == q[|q| - 1] == v;
      assert IsPath(h, q) && Repeats(q);
    }
  }

  lemma ReturnPath<V(!new)>(g: Graph<V>, v: V, w: V)
    requires Acyclic(g) && v in g
    requires EntersCycle(AddEdge(g, v, w), v) && g[v] == []
    ensures Reaches(g, w, v)
  {
    var h := AddEdge(g, v, w);
    var p :| IsPath(h, p) && p[0] == v && Repeats(p);
    assert Edge(h, p[0], p[0 + 1]);
    assert p[1] == w;
    if v in p[1..] {
      var m := FirstAfter(p, v);
      var r := p[1..m + 1];
      forall k | 0 <= k < |r| - 1 ensures Edge(g, r[k], r[k + 1]) {
        assert Edge(h, p[k + 1], p[k + 1 + 1]);
        assert r[k] == p[1..m][k];
        EdgeAfterAdd(g, v, w, r[k], r[k + 1]);
      }
      assert IsPath(g, r) && r[0] == w && r[|r| - 1] == v;
    } else {
      NoReturn(g, v, w, p);
    }
  }

  lemma NoReturn<V(!new)>(g: Graph<V>, v: V, w: V, p: seq<V>)
    requires Acyclic(g) && v in g
    requires |p| > 1 && IsPath(AddEdge(g, v, w), p) && p[0] == v && v !in p[1..]
    ensures !Repeats(p)
  {
    var q := p[1..];
    forall k | 0 <= k < |q| - 1 ensures Edge(g, q[k], q[k + 1]) {
      assert Edge(AddEdge(g, v, w), p[k + 1], p[k + 1 + 1]);
      assert q[k] in q;
      EdgeAfterAdd(g, v, w, q[k], q[k + 1]);
    }
    assert IsPath(g, q);
    forall i, j | 0 <= i < j < |p| ensures p[i] != p[j] {
      assert p[j] == q[j - 1];
      if i > 0 { assert q[i - 1] != q[j - 1]; }
    }
  }

  lemma FirstAfter<V>(p: seq<V>, v: V) returns (m: nat)
    requires p != [] && v in p[1..]
    ensures 1 <= m < |p| && p[m] == v && v !in p[1..m]
  {
    m := 1;
    while p[m] != v
      invariant 1 <= m < |p| && v !in p[1..m] && v in p[m..]
      decreases |p| - m
    {
      assert p[1..m + 1] == p[1..m] + [p[m]];
      assert p[m..] == [p[m]] + p[m + 1..];
      m := m + 1;
    }
  }

  /** Turning `v -> w` round, once `v` has no other edge, keeps the graph acyclic. */
  lemma ReverseEdgeAcyclic<V(!new)>(g: Graph<V>, v: V, w: V)
    requires Acyclic(g) && v in g && w in g && v != w
    requires forall x :: Edge(g, v, x) ==> x == w
    ensures Acyclic(AddEdge(RemoveEdge(g, v, w), w, v))
  {
    var h := AddEdge(RemoveEdge(g, v, w), w, v);
    forall p | IsPath(h, p) ensures !Repeats(p) {
      if Repeats(p) {
        var i, j :| 0 <= i < j < |p| && p[i] == p[j];
        forall k | 0 <= k < |p| - 1 ensures p[k] != v {
          assert Edge(h, p[k], p[k + 1]);
          EdgeAfterAdd(RemoveEdge(g, v, w), w, v, p[k], p[k + 1]);
          EdgeAfterRemove(g, v, w, p[k], p[k + 1]);
        }
        var q := p[i..j + 1];
        forall k | 0 <= k < |q| - 1 ensures Edge(g, q[k], q[k + 1]) {
          assert Edge(h, p[i + k], p[i + k + 1]);
          EdgeAfterAdd(RemoveEdge(g, v, w), w, v, q[k], q[k + 1]);
          EdgeAfterRemove(g, v, w, q[k], q[k + 1]);
          assert q[k + 1] != v;
        }
        assert q[0] == q[|q| - 1];
        assert IsPath(g, q) && Repeats(q);
      }
    }
  }
}
