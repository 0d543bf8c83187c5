/** Directed graphs given by successor lists, and reachability in them. */
module Graph {

  /** Node `x` has the successors `succ[x]`, in order and possibly with repetitions. */
  datatype Digraph = Digraph(succ: seq<seq<nat>>) {
    ghost predicate Valid() {
      forall x, j :: 0 <= x < |succ| && 0 <= j < |succ[x]| ==> succ[x][j] < |succ|
    }
  }

  function Succ(g: Digraph, x: nat): seq<nat> {
    if x < |g.succ| then g.succ[x] else []
  }

  ghost predicate Edge(g: Digraph, x: nat, y: nat) {
    y in Succ(g, x)
  }

  ghost predicate IsPath(g: Digraph, p: seq<nat>, x: nat, y: nat) {
    && |p| > 0 && p[0] == x && p[|p| - 1] == y
    && forall i :: 0 <= i < |p| - 1 ==> Edge(g, p[i], p[i + 1])
  }

  ghost predicate Reach(g: Digraph, x: nat, y: nat) {
    exists p :: IsPath(g, p, x, y)
  }

  ghost predicate Mutual(g: Digraph, x: nat, y: nat) {
    Reach(g, x, y) && Reach(g, y, x)
  }

  lemma ReachRefl(g: Digraph, x: nat)
    ensures Reach(g, x, x)
  {
    assert IsPath(g, [x], x, x);
  }

  lemma ReachEdge(g: Digraph, x: nat, y: nat)
    requires Edge(g, x, y)
    ensures Reach(g, x, y)
  {
    assert IsPath(g, [x, y], x, y);
  }

  lemma ReachTrans(g: Digraph, x: nat, y: nat, z: nat)
    requires Reach(g, x, y) && Reach(g, y, z)
    ensures Reach(g, x, z)
  {
    var p :| IsPath(g, p, x, y);
    var q :| IsPath(g, q, y, z);
    var r := p + q[1..];
    forall i | 0 <= i < |r| - 1
      ensures Edge(g, r[i], r[i + 1])
    {
      if i >= |p| - 1 {
        assert r[i] == q[i - (|p| - 1)];
        assert r[i + 1] == q[i - (|p| - 1) + 1];
      }
    }
    assert IsPath(g, r, x, z);
  }

  /** A set of nodes that no edge leaves contains everything reachable from its members. */
  lemma ReachStaysIn(g: Digraph, closed: set<nat>, x: nat, y: nat)
    requires forall a, b :: a in closed && Edge(g, a, b) ==> b in closed
    requires x in closed && Reach(g, x, y)
    ensures y in closed
  {
    var p :| IsPath(g, p, x, y);
    PathStaysIn(g, closed, p, |p| - 1);
  }

  lemma {:induction false} PathStaysIn(g: Digraph, closed: set<nat>, p: seq<nat>, k: nat)
    requires forall a, b :: a in closed && Edge(g, a, b) ==> b in closed
    requires k < |p| && p[0] in closed
    requires forall i :: 0 <= i < |p| - 1 ==> Edge(g, p[i], p[i + 1])
    ensures p[k] in closed
  {
    if k > 0 {
      PathStaysIn(g, closed, p, k - 1);
      assert Edge(g, p[k - 1], p[k - 1 + 1]);
    }
  }
}
