/**
 Dependency graphs: orders that put dependencies first, and why they exist only without a cycle.
 */
module Digraph {

  /** Each node with the nodes it depends on. */
  type Graph<!N> = map<N, set<N>>

  ghost predicate Edge<N(!new)>(g: Graph<N>, a: N, b: N) {
    a in g && b in g[a]
  }

  ghost predicate Link<N(!new)>(g: Graph<N>, p: seq<N>, k: nat) {
    0 < k < |p| ==> Edge(g, p[k - 1], p[k])
  }

  /** Each element depends on the next one. */
  ghost predicate Chain<N(!new)>(g: Graph<N>, p: seq<N>) {
    (forall i | 0 <= i < |p| :: p[i] in g) && forall k: nat :: Link(g, p, k)
  }

  ghost predicate Acyclic<N(!new)>(g: Graph<N>) {
    !exists p :: Chain(g, p) && |p| > 1 && p[0] == p[|p| - 1]
  }

  ghost predicate Distinct<N(!new)>(order: seq<N>) {
    forall i, j | 0 <= i < j < |order| :: order[i] != order[j]
  }

  ghost predicate Ready<N(!new)>(g: Graph<N>, order: seq<N>, k: nat) {
    k < |order| ==> forall b | Edge(g, order[k], b) :: b in order[..k]
  }

  /** Every element comes after everything it depends on. */
  ghost predicate DependenciesFirst<N(!new)>(g: Graph<N>, order: seq<N>) {
    forall k: nat :: Ready(g, order, k)
  }

  /** Every node once, dependencies first. */
  ghost predicate Topological<N(!new)>(g: Graph<N>, order: seq<N>) {
    Distinct(order) && (forall n :: n in order <==> n in g) && DependenciesFirst(g, order)
  }

  function Position<N(==)>(order: seq<N>, n: N): (k: nat)
    ensures n in order ==> k < |order| && order[k] == n
  {
    if order == [] || order[0] == n then 0 else Position(order[1..], n) + 1
  }

  /** Whatever a chain leads to stands before its first element. */
  lemma {:induction false} PositionsFall<N(!new)>(g: Graph<N>, order: seq<N>, p: seq<N>, k: nat)
    requires Topological(g, order) && Chain(g, p) && 0 < k < |p|
    ensures p[0] in order && p[k] in order && Position(order, p[k]) < Position(order, p[0])
    decreases k
  {
    if k > 1 {
      PositionsFall(g, order, p, k - 1);
    }
    assert Link(g, p, k);
    var at := Position(order, p[k - 1]);
    assert Ready(g, order, at);
    Earlier(order, at, p[k]);
  }

  lemma Earlier<N(!new)>(order: seq<N>, at: nat, n: N)
    requires Distinct(order) && at <= |order| && n in order[..at]
    ensures n in order && Position(order, n) < at
  {
    var k :| 0 <= k < at && order[k] == n;
    assert order[Position(order, n)] == order[k];
  }

  lemma TopologicalIsAcyclic<N(!new)>(g: Graph<N>, order: seq<N>)
    requires Topological(g, order)
    ensures Acyclic(g)
  {
    if p :| Chain(g, p) && |p| > 1 && p[0] == p[|p| - 1] {
      PositionsFall(g, order, p, |p| - 1);
    }
  }

  lemma ReadyAppends<N(!new)>(g: Graph<N>, order: seq<N>, n: N)
    requires DependenciesFirst(g, order) && forall b | Edge(g, n, b) :: b in order
    ensures DependenciesFirst(g, order + [n])
  {
    var longer := order + [n];
    forall k: nat ensures Ready(g, longer, k) {
      assert Ready(g, order, k);
      if k <= |order| {
        assert longer[..k] == order[..k];
      }
    }
  }

  lemma ChainAppend<N(!new)>(g: Graph<N>, p: seq<N>, n: N)
    requires Chain(g, p) && n in g && (p != [] ==> Edge(g, p[|p| - 1], n))
    ensures Chain(g, p + [n])
  {
    forall k: nat ensures Link(g, p + [n], k) {
      assert Link(g, p, k);
    }
  }

  lemma ChainSuffix<N(!new)>(g: Graph<N>, p: seq<N>, m: nat)
    requires Chain(g, p) && m <= |p|
    ensures Chain(g, p[m..])
  {
    forall k: nat ensures Link(g, p[m..], k) {
      assert Link(g, p, k + m);
    }
  }

  lemma ChainPrepend<N(!new)>(g: Graph<N>, p: seq<N>, n: N)
    requires Chain(g, p) && n in g && (p != [] ==> Edge(g, n, p[0]))
    ensures Chain(g, [n] + p)
  {
    forall k: nat ensures Link(g, [n] + p, k) {
      assert k > 0 ==> Link(g, p, k - 1);
    }
  }

  /** A chain may take another way to one of its elements. */
  lemma ChainReroute<N(!new)>(g: Graph<N>, p: seq<N>, m: nat, q: seq<N>)
    requires Chain(g, p) && Chain(g, q) && m < |p| && q != [] && q[0] == p[m]
    ensures Chain(g, p[..m] + q)
  {
    var joined := p[..m] + q;
    forall k: nat ensures Link(g, joined, k) {
      assert Link(g, p, k);
      assert k >= m ==> Link(g, q, k - m);
    }
  }

  /** A path that comes back to a node it went through closes a cycle. */
  lemma ChainCloses<N(!new)>(g: Graph<N>, p: seq<N>, n: N)
    requires Chain(g, p) && p != [] && n in p && Edge(g, p[|p| - 1], n)
    ensures !Acyclic(g)
  {
    var k :| 0 <= k < |p| && p[k] == n;
    ChainSuffix(g, p, k);
    ChainAppend(g, p[k..], n);
    var cycle := p[k..] + [n];
    assert Chain(g, cycle) && |cycle| > 1 && cycle[0] == cycle[|cycle| - 1];
  }
}
