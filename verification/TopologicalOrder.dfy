/** The topological order and the virtual root built from the component search. Nodes are numbered
    by the rank of their key, as the search itself numbers them. */
module TopologicalOrder {
  import opened Graph
  import opened SearchOrder
  import opened Tarjan
  import opened StaticAnalysis

  /** `a` comes before `b`: larger component id first, then larger position in the component. */
  predicate Before(a: NodeState, b: NodeState) {
    a.sccId > b.sccId || (a.sccId == b.sccId && a.discovery > b.discovery)
  }

  // ----- sorting -----

  ghost predicate Sorted(nodes: seq<NodeState>, order: seq<nat>) {
    && (forall i :: 0 <= i < |order| ==> order[i] < |nodes|)
    && (forall i, j :: 0 <= i < j < |order| ==> Before(nodes[order[i]], nodes[order[j]]))
  }

  /** Inserts `v` in front of the first node that comes after it. */
  method InsertSorted(nodes: seq<NodeState>, order: seq<nat>, v: nat) returns (order': seq<nat>)
    requires Sorted(nodes, order) && v < |nodes|
    requires forall i :: 0 <= i < |order| ==>
      Before(nodes[order[i]], nodes[v]) || Before(nodes[v], nodes[order[i]])
    ensures Sorted(nodes, order')
    ensures multiset(order') == multiset(order) + multiset{v}
  {
    var p := 0;
    while p < |order| && Before(nodes[order[p]], nodes[v])
      invariant 0 <= p <= |order|
      invariant forall i :: 0 <= i < p ==> Before(nodes[order[i]], nodes[v])
    {
      p := p + 1;
    }
    order' := order[..p] + [v] + order[p..];
    assert order == order[..p] + order[p..];
    InsertedIsSorted(nodes, order, v, p);
    hide Sorted, Before;
  }

  lemma InsertedIsSorted(nodes: seq<NodeState>, order: seq<nat>, v: nat, p: nat)
    requires Sorted(nodes, order) && v < |nodes| && p <= |order|
    requires forall i :: 0 <= i < p ==> Before(nodes[order[i]], nodes[v])
    requires p < |order| ==> Before(nodes[v], nodes[order[p]])
    ensures Sorted(nodes, order[..p] + [v] + order[p..])
  {
    var order' := order[..p] + [v] + order[p..];
    forall i | 0 <= i < |order'|
      ensures order'[i] == if i < p then order[i] else if i == p then v else order[i - 1]
    {
    }
    forall j | p <= j < |order| ensures Before(nodes[v], nodes[order[j]]) {
      if j > p {
        assert Before(nodes[order[p]], nodes[order[j]]);
      }
    }
  }

  ghost predicate Permutation(order: seq<nat>, n: nat) {
    && |order| == n
    && (forall v: nat :: v in order <==> v < n)
    && (forall i, j :: 0 <= i < j < |order| ==> order[i] != order[j])
  }

  /** Sorts all nodes by descending topological index. */
  method SortNodes(g: Digraph, nodes: seq<NodeState>) returns (order: seq<nat>)
    requires ComponentsOf(g, nodes)
    ensures Sorted(nodes, order) && Permutation(order, |nodes|)
  {
    order := [];
    for v := 0 to |nodes|
      invariant Sorted(nodes, order) && |order| == v
      invariant forall x: nat :: x in multiset(order) <==> x < v
    {
      forall i | 0 <= i < |order|
        ensures Before(nodes[order[i]], nodes[v]) || Before(nodes[v], nodes[order[i]])
      {
        assert order[i] in multiset(order);
      }
      var extended := InsertSorted(nodes, order, v);
      assert |multiset(extended)| == |extended|;
      order := extended;
    }
    assert forall x: nat :: x in order <==> x in multiset(order);
  }

  // ----- the order is topological -----

  /** Every edge between different components goes forward. */
  lemma EdgesGoForward(g: Digraph, nodes: seq<NodeState>, order: seq<nat>, i: nat, j: nat)
    requires ComponentsOf(g, nodes) && Sorted(nodes, order)
    requires i < |order| && j < |order| && Edge(g, order[i], order[j])
    requires nodes[order[i]].sccId != nodes[order[j]].sccId
    ensures i < j
  {
    assert j < i ==> Before(nodes[order[j]], nodes[order[i]]);
  }

  /** Each component is contiguous. */
  lemma ComponentsContiguous(nodes: seq<NodeState>, order: seq<nat>, i: nat, j: nat, k: nat)
    requires Sorted(nodes, order) && i < j < k < |order|
    requires nodes[order[i]].sccId == nodes[order[k]].sccId
    ensures nodes[order[j]].sccId == nodes[order[i]].sccId
  {
    assert Before(nodes[order[i]], nodes[order[j]]) && Before(nodes[order[j]], nodes[order[k]]);
  }

  /** The order only goes forward along paths too: reaching back means the same component. */
  lemma ReachForward(g: Digraph, nodes: seq<NodeState>, order: seq<nat>, i: nat, j: nat)
    requires g.Valid() && ComponentsOf(g, nodes) && Sorted(nodes, order)
    requires i < |order| && j < |order| && Reach(g, order[i], order[j])
    ensures i <= j || Mutual(g, order[i], order[j])
  {
    var later := set x: nat | x < |nodes| && nodes[x].sccId <= nodes[order[i]].sccId;
    forall a, b | a in later && Edge(g, a, b) ensures b in later {
      var m :| 0 <= m < |Succ(g, a)| && Succ(g, a)[m] == b;
      assert g.succ[a][m] < |g.succ|;
    }
    ReachStaysIn(g, later, order[i], order[j]);
    if j < i {
      assert Before(nodes[order[j]], nodes[order[i]]);
    }
  }

  // ----- the virtual root -----

  /** `sources` lists the predecessors of every node. */
  ghost predicate SourcesOf(g: Digraph, sources: seq<seq<nat>>) {
    && |sources| == |g.succ|
    && (forall y, j :: 0 <= y < |sources| && 0 <= j < |sources[y]| ==>
          sources[y][j] < |g.succ| && Edge(g, sources[y][j], y))
    && (forall x, y :: 0 <= x < |g.succ| && 0 <= y < |g.succ| && Edge(g, x, y) ==> x in sources[y])
  }

  /** `y` is entered from another component. */
  ghost predicate Entered(g: Digraph, nodes: seq<NodeState>, y: nat) {
    exists x :: 0 <= x < |nodes| && y < |nodes| && Edge(g, x, y) && nodes[x].sccId != nodes[y].sccId
  }

  /** No node of `v`'s component is entered from another component. */
  ghost predicate InSourceComponent(g: Digraph, nodes: seq<NodeState>, v: nat) {
    v < |nodes| && forall y :: 0 <= y < |nodes| && nodes[y].sccId == nodes[v].sccId ==> !Entered(g, nodes, y)
  }

  method HasExternalSource(g: Digraph, nodes: seq<NodeState>, sources: seq<seq<nat>>, v: nat)
    returns (external: bool)
    requires |nodes| == |g.succ| && SourcesOf(g, sources) && v < |nodes|
    ensures external <==> Entered(g, nodes, v)
  {
    external := false;
    for j := 0 to |sources[v]|
      invariant external <==> exists i :: 0 <= i < j && nodes[sources[v][i]].sccId != nodes[v].sccId
    {
      external := external || nodes[sources[v][j]].sccId != nodes[v].sccId;
    }
  }

  ghost predicate RootFor(nodes: seq<NodeState>, roots: seq<nat>, v: nat) {
    v < |nodes| && exists k :: 0 <= k < |roots| && roots[k] < |nodes| && nodes[roots[k]].sccId == nodes[v].sccId
  }

  /** One node of every source component, and nothing else */
  ghost predicate RootsOf(g: Digraph, nodes: seq<NodeState>, roots: seq<nat>) {
    && (forall k :: 0 <= k < |roots| ==> InSourceComponent(g, nodes, roots[k]))
    && (forall v :: InSourceComponent(g, nodes, v) ==> RootFor(nodes, roots, v))
    && (forall i, j :: 0 <= i < j < |roots| && roots[i] < |nodes| && roots[j] < |nodes| ==>
          nodes[roots[i]].sccId != nodes[roots[j]].sccId)
  }

  /** `r` is the first of its component in the order. */
  ghost predicate StartsRun(nodes: seq<NodeState>, order: seq<nat>, r: nat) {
    exists i :: 0 <= i < |order| && order[i] == r < |nodes| &&
                (i > 0 ==> order[i - 1] < |nodes| && nodes[order[i - 1]].sccId != nodes[r].sccId)
  }

  ghost predicate FirstInOrder(nodes: seq<NodeState>, order: seq<nat>, roots: seq<nat>) {
    forall k :: 0 <= k < |roots| ==> StartsRun(nodes, order, roots[k])
  }

  lemma AnotherFirst(nodes: seq<NodeState>, order: seq<nat>, first: nat, next: nat, roots: seq<nat>)
    requires Run(nodes, order, first, next) && first < |order| && FirstInOrder(nodes, order, roots)
    ensures FirstInOrder(nodes, order, roots + [order[first]])
  {
    assert StartsRun(nodes, order, order[first]);
  }

  /** A finished run of equal ids in the order is a whole component. */
  lemma RunIsComponent(g: Digraph, nodes: seq<NodeState>, order: seq<nat>, first: nat, last: nat)
    requires Sorted(nodes, order) && Permutation(order, |nodes|) && first <= last < |order|
    requires forall k :: first <= k <= last ==> nodes[order[k]].sccId == nodes[order[first]].sccId
    requires first > 0 ==> nodes[order[first - 1]].sccId != nodes[order[first]].sccId
    requires last + 1 < |order| ==> nodes[order[last + 1]].sccId != nodes[order[first]].sccId
    ensures InSourceComponent(g, nodes, order[first]) <==>
      forall k :: first <= k <= last ==> !Entered(g, nodes, order[k])
  {
    if forall k :: first <= k <= last ==> !Entered(g, nodes, order[k]) {
      forall y | 0 <= y < |nodes| && nodes[y].sccId == nodes[order[first]].sccId
        ensures !Entered(g, nodes, y)
      {
        assert y in order;
        var k :| 0 <= k < |order| && order[k] == y;
      }
    }
  }

  /** Roots collected from the components in `order[..first]`, all of which come before the rest */
  ghost predicate RootsSoFar(g: Digraph, nodes: seq<NodeState>, order: seq<nat>, first: nat, roots: seq<nat>) {
    && first <= |order|
    && (forall k :: 0 <= k < |roots| ==> InSourceComponent(g, nodes, roots[k]))
    && (forall k :: 0 <= k < first && InSourceComponent(g, nodes, order[k]) ==> RootFor(nodes, roots, order[k]))
    && (forall k, i :: 0 <= k < |roots| && first <= i < |order| && roots[k] < |nodes| && order[i] < |nodes| ==>
          nodes[roots[k]].sccId > nodes[order[i]].sccId)
    && (forall i, j :: 0 <= i < j < |roots| && roots[i] < |nodes| && roots[j] < |nodes| ==>
          nodes[roots[i]].sccId != nodes[roots[j]].sccId)
  }

  /** `order[first..next]` lies in one component, and `first` starts it. */
  ghost predicate Run(nodes: seq<NodeState>, order: seq<nat>, first: nat, next: nat) {
    && first <= next <= |order|
    && (forall k :: 0 <= k < |order| ==> order[k] < |nodes|)
    && (forall k :: first <= k < next ==> nodes[order[k]].sccId == nodes[order[first]].sccId)
    && (0 < first < |order| ==> nodes[order[first - 1]].sccId != nodes[order[first]].sccId)
  }

  lemma RootsNext(g: Digraph, nodes: seq<NodeState>, order: seq<nat>, first: nat, last: nat,
                  roots: seq<nat>, roots': seq<nat>)
    requires Sorted(nodes, order) && Permutation(order, |nodes|) && first <= last < |order|
    requires Run(nodes, order, first, last + 1)
    requires last + 1 < |order| ==> nodes[order[last + 1]].sccId != nodes[order[last]].sccId
    requires RootsSoFar(g, nodes, order, first, roots)
    requires roots' == if InSourceComponent(g, nodes, order[first]) then roots + [order[first]] else roots
    ensures RootsSoFar(g, nodes, order, last + 1, roots')
  {
    hide Entered, Permutation, InSourceComponent, RootFor;
    forall k | 0 <= k <= last && InSourceComponent(g, nodes, order[k])
      ensures RootFor(nodes, roots', order[k])
    {
      if k < first {
        StillRootFor(nodes, roots, roots', order[k]);
      } else {
        SameSource(g, nodes, order[k], order[first]);
        LastRootFor(nodes, roots', order[k]);
      }
    }
    forall i | last + 1 <= i < |order|
      ensures nodes[order[first]].sccId > nodes[order[i]].sccId
    {
      assert Before(nodes[order[last]], nodes[order[last + 1]]);
      assert i > last + 1 ==> Before(nodes[order[last + 1]], nodes[order[i]]);
    }
  }

  lemma StillRootFor(nodes: seq<NodeState>, roots: seq<nat>, roots': seq<nat>, v: nat)
    requires RootFor(nodes, roots, v) && roots <= roots'
    ensures RootFor(nodes, roots', v)
  {
    var k :| 0 <= k < |roots| && roots[k] < |nodes| && nodes[roots[k]].sccId == nodes[v].sccId;
    assert roots'[k] == roots[k];
  }

  lemma LastRootFor(nodes: seq<NodeState>, roots: seq<nat>, v: nat)
    requires v < |nodes| && |roots| > 0 && roots[|roots| - 1] < |nodes|
    requires nodes[roots[|roots| - 1]].sccId == nodes[v].sccId
    ensures RootFor(nodes, roots, v)
  {
  }

  lemma SameSource(g: Digraph, nodes: seq<NodeState>, x: nat, y: nat)
    requires x < |nodes| && y < |nodes| && nodes[x].sccId == nodes[y].sccId
    ensures InSourceComponent(g, nodes, x) <==> InSourceComponent(g, nodes, y)
  {
  }

  lemma RootsDone(g: Digraph, nodes: seq<NodeState>, order: seq<nat>, roots: seq<nat>)
    requires Permutation(order, |nodes|) && RootsSoFar(g, nodes, order, |order|, roots)
    ensures RootsOf(g, nodes, roots)
  {
    forall v | InSourceComponent(g, nodes, v) ensures RootFor(nodes, roots, v) {
      assert v in order;
    }
  }

  /** Collects the first node of every component that no edge enters. */
  method SuperRoot(g: Digraph, nodes: seq<NodeState>, order: seq<nat>, sources: seq<seq<nat>>)
    returns (roots: seq<nat>)
    requires |nodes| == |g.succ| && Sorted(nodes, order) && Permutation(order, |nodes|)
    requires SourcesOf(g, sources)
    ensures RootsOf(g, nodes, roots) && FirstInOrder(nodes, order, roots)
  {
    hide Entered, InSourceComponent, SourcesOf, Permutation, RootsOf, RootsSoFar, FirstInOrder;
    roots := [];
    var first := 0;
    var external := false;
    NoRootsYet(g, nodes, order);
    for index := 0 to |order|
      invariant first <= index && RootsSoFar(g, nodes, order, first, roots) && FirstInOrder(nodes, order, roots)
      invariant Run(nodes, order, first, index)
      invariant first < index < |order| ==> nodes[order[index]].sccId == nodes[order[first]].sccId
      invariant index == |order| ==> first == index
      invariant external <==> exists k :: first <= k < index && Entered(g, nodes, order[k])
    {
      var v := order[index];
      var entered := HasExternalSource(g, nodes, sources, v);
      external := external || entered;
      if index + 1 == |order| || nodes[order[index + 1]].sccId != nodes[v].sccId {
        RunIsComponent(g, nodes, order, first, index);
        ghost var before := roots;
        if !external {
          AnotherFirst(nodes, order, first, index, roots);
          roots := roots + [order[first]];
        }
        RootsNext(g, nodes, order, first, index, before, roots);
        first := index + 1;
        external := false;
      }
    }
    RootsDone(g, nodes, order, roots);
  }

  lemma NoRootsYet(g: Digraph, nodes: seq<NodeState>, order: seq<nat>)
    ensures RootsSoFar(g, nodes, order, 0, []) && FirstInOrder(nodes, order, [])
  {
  }

  // ----- which node the root leads to -----

  /** `r` is the first of its component that the search discovered. */
  ghost predicate FirstFound(nodes: seq<NodeState>, when: seq<nat>, r: nat) {
    r < |nodes| == |when| &&
    forall y :: 0 <= y < |nodes| && nodes[y].sccId == nodes[r].sccId ==> when[r] <= when[y]
  }

  /** `r` has the lowest address of all nodes it reaches and is reached by. */
  ghost predicate Lowest(g: Digraph, keys: seq<nat>, r: nat) {
    r < |keys| && forall y :: 0 <= y < |keys| && Mutual(g, r, y) ==> keys[r] <= keys[y]
  }

  lemma EarlierRun(nodes: seq<NodeState>, order: seq<nat>, i: nat, j: nat)
    requires Sorted(nodes, order) && i < |order| && j < |order|
    requires i > 0 ==> nodes[order[i - 1]].sccId != nodes[order[i]].sccId
    ensures j < i ==> nodes[order[j]].sccId > nodes[order[i]].sccId
  {
    assert j < i - 1 ==> Before(nodes[order[j]], nodes[order[i - 1]]);
    assert i > 0 ==> Before(nodes[order[i - 1]], nodes[order[i]]);
  }

  /** What comes first in the order was discovered first. */
  lemma FirstIsFound(nodes: seq<NodeState>, when: seq<nat>, order: seq<nat>, r: nat)
    requires Sorted(nodes, order) && Permutation(order, |nodes|) && StartsRun(nodes, order, r)
    requires PositionsByTime(nodes, when)
    ensures FirstFound(nodes, when, r)
  {
    var i :| 0 <= i < |order| && order[i] == r < |nodes| &&
             (i > 0 ==> order[i - 1] < |nodes| && nodes[order[i - 1]].sccId != nodes[r].sccId);
    forall y | 0 <= y < |nodes| && nodes[y].sccId == nodes[r].sccId ensures when[r] <= when[y] {
      assert y in order;
      var j :| 0 <= j < |order| && order[j] == y;
      EarlierRun(nodes, order, i, j);
    }
  }

  /** A component that is not entered can only be found by starting a search in it, and searches start at
      the least node that is left. */
  lemma FoundIsLowest(g: Digraph, nodes: seq<NodeState>, when: seq<nat>, keys: seq<nat>, r: nat)
    requires ComponentsOf(g, nodes) && DiscoveryTimes(g, when) && FirstFound(nodes, when, r)
    requires InSourceComponent(g, nodes, r) && |keys| == |nodes|
    requires forall x, y :: 0 <= x < y < |keys| ==> keys[x] < keys[y]
    ensures Lowest(g, keys, r)
  {
    hide Mutual;
    assert FoundInTurn(g, when, r);
    forall p | 0 <= p < |when| && Edge(g, p, r) ensures when[r] <= when[p] {
      assert !Entered(g, nodes, r);
    }
    forall y | 0 <= y < |keys| && Mutual(g, r, y) ensures keys[r] <= keys[y] {
      assert nodes[y].sccId == nodes[r].sccId;
    }
  }

  /** The roots have the lowest addresses of their components. */
  lemma RootsAreLowest(g: Digraph, nodes: seq<NodeState>, when: seq<nat>, order: seq<nat>, roots: seq<nat>,
                       keys: seq<nat>)
    requires ComponentsOf(g, nodes) && DiscoveryTimes(g, when) && PositionsByTime(nodes, when)
    requires Sorted(nodes, order) && Permutation(order, |nodes|)
    requires RootsOf(g, nodes, roots) && FirstInOrder(nodes, order, roots) && |keys| == |nodes|
    requires forall x, y :: 0 <= x < y < |keys| ==> keys[x] < keys[y]
    ensures forall k :: 0 <= k < |roots| ==> Lowest(g, keys, roots[k])
  {
    hide ComponentsOf, DiscoveryTimes, PositionsByTime, Sorted, Permutation, InSourceComponent, Lowest, StartsRun;
    forall k | 0 <= k < |roots| ensures Lowest(g, keys, roots[k]) {
      FirstIsFound(nodes, when, order, roots[k]);
      FoundIsLowest(g, nodes, when, keys, roots[k]);
    }
  }

  /** Every node is reachable from a destination of the virtual root. */
  lemma {:induction false} RootsReachAll(g: Digraph, nodes: seq<NodeState>, roots: seq<nat>, v: nat, top: nat)
    requires g.Valid() && ComponentsOf(g, nodes) && RootsOf(g, nodes, roots) && v < |nodes|
    requires forall x :: 0 <= x < |nodes| ==> nodes[x].sccId <= top
    ensures exists k :: 0 <= k < |roots| && Reach(g, roots[k], v)
    decreases top - nodes[v].sccId
  {
    if InSourceComponent(g, nodes, v) {
      assert RootFor(nodes, roots, v);
      var k :| 0 <= k < |roots| && roots[k] < |nodes| && nodes[roots[k]].sccId == nodes[v].sccId;
      assert Mutual(g, roots[k], v);
    } else {
      var y :| 0 <= y < |nodes| && nodes[y].sccId == nodes[v].sccId && Entered(g, nodes, y);
      var x :| 0 <= x < |nodes| && Edge(g, x, y) && nodes[x].sccId != nodes[y].sccId;
      RootsReachAll(g, nodes, roots, x, top);
      var k :| 0 <= k < |roots| && Reach(g, roots[k], x);
      ReachEdge(g, x, y);
      assert Mutual(g, y, v);
      ReachTrans(g, roots[k], x, y);
      ReachTrans(g, roots[k], y, v);
    }
  }

  // ----- the whole analysis -----

  /** Edges between components go forward, and no component is interrupted by another. */
  ghost predicate IsTopological(g: Digraph, nodes: seq<NodeState>, order: seq<nat>) {
    && Sorted(nodes, order) && Permutation(order, |nodes|)
    && (forall i: nat, j: nat :: i < |order| && j < |order| && Edge(g, order[i], order[j]) ==>
          i < j || nodes[order[i]].sccId == nodes[order[j]].sccId)
    && (forall i, j, k :: 0 <= i < j < k < |order| && nodes[order[i]].sccId == nodes[order[k]].sccId ==>
          nodes[order[j]].sccId == nodes[order[i]].sccId)
  }

  ghost predicate ReachedFrom(g: Digraph, roots: seq<nat>, v: nat) {
    exists k :: 0 <= k < |roots| && Reach(g, roots[k], v)
  }

  lemma SortedIsTopological(g: Digraph, nodes: seq<NodeState>, order: seq<nat>)
    requires ComponentsOf(g, nodes) && Sorted(nodes, order) && Permutation(order, |nodes|)
    ensures IsTopological(g, nodes, order)
  {
    hide ComponentsOf, Permutation;
    forall i: nat, j: nat | i < |order| && j < |order| && Edge(g, order[i], order[j])
      ensures i < j || nodes[order[i]].sccId == nodes[order[j]].sccId
    {
      if nodes[order[i]].sccId != nodes[order[j]].sccId {
        EdgesGoForward(g, nodes, order, i, j);
      }
    }
    forall i, j, k | 0 <= i < j < k < |order| && nodes[order[i]].sccId == nodes[order[k]].sccId
      ensures nodes[order[j]].sccId == nodes[order[i]].sccId
    {
      ComponentsContiguous(nodes, order, i, j, k);
    }
  }

  // ----- the virtual root as a node -----

  /** The graph with the virtual root as its last node */
  function WithRoot(g: Digraph, roots: seq<nat>): Digraph { Digraph(g.succ + [roots]) }

  lemma RootEdges(g: Digraph, roots: seq<nat>, x: nat, y: nat)
    ensures Edge(WithRoot(g, roots), x, y) <==> if x == |g.succ| then y in roots else Edge(g, x, y)
  {
  }

  lemma ReachWithRoot(g: Digraph, roots: seq<nat>, x: nat, y: nat)
    requires Reach(g, x, y)
    ensures Reach(WithRoot(g, roots), x, y)
  {
    var p :| IsPath(g, p, x, y);
    forall i | 0 <= i < |p| - 1 ensures Edge(WithRoot(g, roots), p[i], p[i + 1]) {
      assert Edge(g, p[i], p[i + 1]);
      RootEdges(g, roots, p[i], p[i + 1]);
    }
    assert IsPath(WithRoot(g, roots), p, x, y);
  }

  lemma RootsDistinct(g: Digraph, nodes: seq<NodeState>, roots: seq<nat>)
    requires RootsOf(g, nodes, roots) && |nodes| == |g.succ|
    ensures Distinct(roots, |g.succ|)
  {
  }

  /** What every node's sources become */
  ghost function RootedSources(sources: seq<seq<nat>>, roots: seq<nat>, y: nat): seq<nat>
    requires y < |sources|
  {
    sources[y] + if y in roots then [|sources|] else []
  }

  /** Adds the virtual root: its edges, and itself as a source of its destinations. */
  method InsertRoot(g: Digraph, sources: seq<seq<nat>>, roots: seq<nat>) returns (g': Digraph, sources': seq<seq<nat>>)
    requires g.Valid() && SourcesOf(g, sources) && Distinct(roots, |g.succ|)
    ensures g' == WithRoot(g, roots) && SourcesOf(g', sources')
  {
    hide SourcesOf;
    SourcesLength(g, sources);
    g', sources' := Digraph(g.succ + [roots]), sources + [[]];
    var n := |g.succ|;
    for k := 0 to |roots|
      invariant |sources'| == n + 1 && sources'[n] == []
      invariant forall y: nat :: y < n ==> sources'[y] == RootedSources(sources, roots[..k], y)
    {
      var v := roots[k];
      assert roots[..k + 1] == roots[..k] + [v] && v !in roots[..k];
      sources' := sources'[v := sources'[v] + [n]];
    }
    assert roots[..|roots|] == roots;
    RootedIsSourcesOf(g, sources, roots, sources');
  }

  lemma SourcesLength(g: Digraph, sources: seq<seq<nat>>)
    requires SourcesOf(g, sources)
    ensures |sources| == |g.succ|
  {
  }

  lemma RootedIsSourcesOf(g: Digraph, sources: seq<seq<nat>>, roots: seq<nat>, sources': seq<seq<nat>>)
    requires g.Valid() && SourcesOf(g, sources) && Distinct(roots, |g.succ|)
    requires |sources'| == |g.succ| + 1 && sources'[|g.succ|] == []
    requires forall y: nat :: y < |g.succ| ==> sources'[y] == RootedSources(sources, roots, y)
    ensures SourcesOf(WithRoot(g, roots), sources')
  {
    var n, g' := |g.succ|, WithRoot(g, roots);
    forall y, j | 0 <= y < |sources'| && 0 <= j < |sources'[y]|
      ensures sources'[y][j] < n + 1 && Edge(g', sources'[y][j], y)
    {
      RootEdges(g, roots, sources'[y][j], y);
      if j < |sources[y]| {
        assert sources'[y][j] == sources[y][j];
      }
    }
    forall x, y | 0 <= x < n + 1 && 0 <= y < n + 1 && Edge(g', x, y) ensures x in sources'[y] {
      RootEdges(g, roots, x, y);
      if x < n {
        EdgeInside(g, sources, x, y);
      }
    }
  }

  lemma EdgeInside(g: Digraph, sources: seq<seq<nat>>, x: nat, y: nat)
    requires SourcesOf(g, sources) && x < |g.succ| && y <= |g.succ| && Edge(g, x, y) && g.Valid()
    ensures y < |g.succ| && x in sources[y]
  {
  }

  /** The keys of the given nodes */
  ghost function Starts(keys: seq<nat>, nodes: seq<nat>): set<nat> {
    if nodes == [] then {}
    else
      var last := nodes[|nodes| - 1];
      Starts(keys, nodes[..|nodes| - 1]) + if last < |keys| then {keys[last]} else {}
  }

  /** The functions with entries for the given starts; an entry that is there already stays. */
  ghost predicate Entries(functions: map<nat, string>, starts: set<nat>, name: nat -> string, all: map<nat, string>) {
    && all.Keys == functions.Keys + starts
    && forall v :: v in all ==> all[v] == if v in functions then functions[v] else name(v)
  }

  function WithEntry(all: map<nat, string>, v: nat, name: nat -> string): map<nat, string> {
    if v in all then all else all[v := name(v)]
  }

  lemma EntryAdded(functions: map<nat, string>, starts: set<nat>, name: nat -> string, all: map<nat, string>, v: nat)
    requires Entries(functions, starts, name, all)
    ensures Entries(functions, starts + {v}, name, WithEntry(all, v, name))
  {
  }

  /** Every destination of the virtual root is the start of a function; `keys` are the nodes' addresses. */
  method NameFunctions(functions: map<nat, string>, keys: seq<nat>, roots: seq<nat>, name: nat -> string)
    returns (all: map<nat, string>)
    requires Distinct(roots, |keys|)
    ensures Entries(functions, Starts(keys, roots), name, all)
  {
    hide Entries, WithEntry;
    all := functions;
    NoEntries(functions, keys, roots, name);
    for k := 0 to |roots|
      invariant Entries(functions, Starts(keys, roots[..k]), name, all)
    {
      assert roots[..k + 1][..k] == roots[..k];
      EntryAdded(functions, Starts(keys, roots[..k]), name, all, keys[roots[k]]);
      all := WithEntry(all, keys[roots[k]], name);
    }
    assert roots[..|roots|] == roots;
  }

  lemma NoEntries(functions: map<nat, string>, keys: seq<nat>, roots: seq<nat>, name: nat -> string)
    ensures Entries(functions, Starts(keys, roots[..0]), name, functions)
  {
  }

  /** Components, topological order and the virtual root of any graph: nodes get the same id exactly if
      they reach each other, the order is topological, and the root's destinations are the first in the order
      of each component that is not entered, which is also the one with the lowest address. The root becomes a
      node that reaches every node, sources still mirror destinations, and every destination of the root has
      a function entry. An empty graph is left alone. */
  method ControlFlowGraphTarjan(g: Digraph, sources: seq<seq<nat>>, keys: seq<nat>, functions: map<nat, string>,
                                name: nat -> string)
    returns (nodes: seq<NodeState>, order: seq<nat>, roots: seq<nat>, g': Digraph, sources': seq<seq<nat>>,
             functions': map<nat, string>)
    requires g.Valid() && |g.succ| < UNSET && SourcesOf(g, sources) && |keys| == |g.succ|
    requires forall x, y :: 0 <= x < y < |keys| ==> keys[x] < keys[y]
    ensures ComponentsOf(g, nodes) && IsTopological(g, nodes, order) && RootsOf(g, nodes, roots)
    ensures FirstInOrder(nodes, order, roots)
    ensures forall k :: 0 <= k < |roots| ==> Lowest(g, keys, roots[k])
    ensures g' == (if |g.succ| == 0 then g else WithRoot(g, roots)) && SourcesOf(g', sources')
    ensures forall v: nat :: v < |nodes| ==> Reach(g', |g.succ|, v)
    ensures Entries(functions, Starts(keys, roots), name, functions')
  {
    hide Sorted, IsTopological, RootsOf, SourcesOf, ComponentsOf, Reach, Distinct, WithRoot, Entries;
    hide DiscoveryTimes, PositionsByTime, FirstInOrder, Lowest;
    ghost var when;
    nodes, when := FindComponents(g);
    order := SortNodes(g, nodes);
    SortedIsTopological(g, nodes, order);
    roots := SuperRoot(g, nodes, order, sources);
    RootsAreLowest(g, nodes, when, order, roots, keys);
    RootsDistinct(g, nodes, roots);
    functions' := NameFunctions(functions, keys, roots, name);
    if |g.succ| == 0 {
      g', sources' := g, sources;
      return;
    }
    g', sources' := InsertRoot(g, sources, roots);
    ghost var top := HighestId(nodes);
    forall v: nat | v < |nodes| ensures Reach(g', |g.succ|, v) {
      RootsReachAll(g, nodes, roots, v, top);
      RootReaches(g, roots, v);
    }
  }

  lemma RootReaches(g: Digraph, roots: seq<nat>, v: nat)
    requires ReachedFrom(g, roots, v)
    ensures Reach(WithRoot(g, roots), |g.succ|, v)
  {
    hide Reach;
    var k :| 0 <= k < |roots| && Reach(g, roots[k], v);
    ReachWithRoot(g, roots, roots[k], v);
    RootEdges(g, roots, |g.succ|, roots[k]);
    ReachEdge(WithRoot(g, roots), |g.succ|, roots[k]);
    ReachTrans(WithRoot(g, roots), |g.succ|, roots[k], v);
  }

  lemma HighestId(nodes: seq<NodeState>) returns (top: nat)
    ensures forall x :: 0 <= x < |nodes| ==> nodes[x].sccId <= top
  {
    top := 0;
    for k := 0 to |nodes|
      invariant forall x :: 0 <= x < k ==> nodes[x].sccId <= top
    {
      if nodes[k].sccId > top {
        top := nodes[k].sccId;
      }
    }
  }
}
