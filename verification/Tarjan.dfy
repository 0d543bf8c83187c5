/** The state of the iterative search for strongly connected components, the invariant every
    step of it keeps, and the proof that it does, one transition at a time. */
module Tarjan {
  import opened Graph

  /** usize::MAX marks a field that has no value yet */
  const UNSET: nat := 0xFFFF_FFFF_FFFF_FFFF

  datatype NodeState = NodeState(discovery: nat, lowlink: nat, sccId: nat, onStack: bool)

  /** An entry of the recursion stack: a node and the index of its next unexamined edge */
  datatype Frame = Frame(v: nat, next: nat)

  /** All frames are nodes that have been discovered. */
  datatype State = State(nodes: seq<NodeState>, sccStack: seq<nat>, frames: seq<Frame>,
                         discovered: nat, sccCount: nat)

  const FRESH := NodeState(UNSET, UNSET, UNSET, false)

  ghost predicate White(s: State, x: nat) { x < |s.nodes| && s.nodes[x].discovery == UNSET }

  ghost predicate On(s: State, x: nat) { x < |s.nodes| && s.nodes[x].onStack }

  ghost predicate Assigned(s: State, x: nat) { x < |s.nodes| && s.nodes[x].sccId != UNSET }

  ghost function D(s: State, x: nat): nat { if x < |s.nodes| then s.nodes[x].discovery else 0 }

  ghost function Low(s: State, x: nat): nat { if x < |s.nodes| then s.nodes[x].lowlink else 0 }

  ghost function Id(s: State, x: nat): nat { if x < |s.nodes| then s.nodes[x].sccId else 0 }

  ghost function Seen(s: State): set<nat> {
    set x: nat | x < |s.nodes| && !White(s, x)
  }

  // ----- the invariant -----

  /** A node is undiscovered, on the component stack, or in a finished component. */
  ghost predicate NodeOk(nd: NodeState, discovered: nat, sccCount: nat, n: nat) {
    || nd == FRESH
    || (nd.onStack && nd.sccId == UNSET && nd.lowlink <= nd.discovery < discovered)
    || (!nd.onStack && nd.sccId < sccCount && nd.discovery < n)
  }

  ghost predicate NodesOk(g: Digraph, s: State) {
    && |s.nodes| == |g.succ| < UNSET
    && |Seen(s)| == s.discovered <= |s.nodes|
    && s.sccCount + |s.sccStack| <= s.discovered
    && forall x :: 0 <= x < |s.nodes| ==> NodeOk(s.nodes[x], s.discovered, s.sccCount, |s.nodes|)
  }

  ghost predicate StackOk(s: State) {
    && (forall i :: 0 <= i < |s.sccStack| ==> On(s, s.sccStack[i]))
    && (forall x :: On(s, x) ==> x in s.sccStack)
    && (forall i, j :: 0 <= i < j < |s.sccStack| ==> D(s, s.sccStack[i]) < D(s, s.sccStack[j]))
  }

  ghost predicate FramesOk(g: Digraph, s: State) {
    && (forall i :: 0 <= i < |s.frames| ==> On(s, s.frames[i].v))
    && (forall i :: 0 <= i < |s.frames| ==> s.frames[i].next <= |Succ(g, s.frames[i].v)|)
    && (forall i, j :: 0 <= i < j < |s.frames| ==> D(s, s.frames[i].v) < D(s, s.frames[j].v))
  }

  /** Finished components are closed under edges, and edges go to components finished no later. */
  ghost predicate Closed(g: Digraph, s: State) {
    forall x, y :: Assigned(s, x) && Edge(g, x, y) ==> Assigned(s, y) && Id(s, y) <= Id(s, x)
  }

  ghost predicate Framed(s: State, x: nat) {
    exists i :: 0 <= i < |s.frames| && s.frames[i].v == x
  }

  /** Edge number `j` of frame `i` has been examined. */
  ghost predicate ExaminedEdge(g: Digraph, s: State, i: int, j: int) {
    0 <= i < |s.frames| && 0 <= j < s.frames[i].next && j < |Succ(g, s.frames[i].v)|
  }

  /** No edge examined so far leads to an undiscovered node. */
  ghost predicate Explored(g: Digraph, s: State) {
    && (forall x, y :: On(s, x) && !Framed(s, x) && Edge(g, x, y) ==> !White(s, y))
    && (forall i, j :: ExaminedEdge(g, s, i, j) ==> !White(s, Succ(g, s.frames[i].v)[j]))
  }

  ghost predicate ReachesFrame(g: Digraph, s: State, x: nat) {
    exists i :: 0 <= i < |s.frames| && D(s, s.frames[i].v) <= D(s, x) && Reach(g, x, s.frames[i].v)
  }

  /** Every stack node reaches an open frame discovered no later. */
  ghost predicate StackToFrame(g: Digraph, s: State) {
    forall x {:trigger ReachesFrame(g, s, x)} :: On(s, x) ==> ReachesFrame(g, s, x)
  }

  /** Every open frame reaches every stack node discovered no earlier. */
  ghost predicate FrameToStack(g: Digraph, s: State) {
    forall i, x :: 0 <= i < |s.frames| && On(s, x) && D(s, s.frames[i].v) <= D(s, x) ==>
      Reach(g, s.frames[i].v, x)
  }

  ghost predicate LowWitness(g: Digraph, s: State, x: nat) {
    exists y :: On(s, y) && D(s, y) == Low(s, x) && Reach(g, x, y)
  }

  /** Every lowlink of an open frame is the discovery number of a reachable stack node. */
  ghost predicate LowSound(g: Digraph, s: State) {
    forall i {:trigger LowWitness(g, s, s.frames[i].v)} ::
      0 <= i < |s.frames| ==> LowWitness(g, s, s.frames[i].v)
  }

  /** `x` was finished below frame `i` and above frame `i + 1`. */
  ghost predicate InSegment(s: State, i: int, x: nat) {
    && 0 <= i < |s.frames| && On(s, x) && D(s, s.frames[i].v) < D(s, x)
    && (i + 1 < |s.frames| ==> D(s, x) < D(s, s.frames[i + 1].v))
  }

  /** A frame's lowlink is below every stack node its finished descendants lead to. */
  ghost predicate SegmentLow(g: Digraph, s: State) {
    forall i, x, y :: InSegment(s, i, x) && Edge(g, x, y) && On(s, y) ==>
      Low(s, s.frames[i].v) <= D(s, y)
  }

  /** A frame's lowlink is below every stack node its own examined edges lead to. */
  ghost predicate EdgeLow(g: Digraph, s: State) {
    forall i, j :: ExaminedEdge(g, s, i, j) && On(s, Succ(g, s.frames[i].v)[j]) ==>
      Low(s, s.frames[i].v) <= D(s, Succ(g, s.frames[i].v)[j])
  }

  /** The finished components are the classes of mutual reachability. */
  ghost predicate Components(g: Digraph, s: State) {
    && (forall x, y :: Assigned(s, x) && Assigned(s, y) ==> (Id(s, x) == Id(s, y) <==> Mutual(g, x, y)))
    && (forall x, y :: Assigned(s, x) && Assigned(s, y) && x != y && Id(s, x) == Id(s, y) ==>
          D(s, x) != D(s, y))
  }

  ghost predicate Shape(g: Digraph, s: State) {
    g.Valid() && NodesOk(g, s) && StackOk(s) && FramesOk(g, s)
  }

  ghost predicate Inv(g: Digraph, s: State) {
    && Shape(g, s) && Closed(g, s) && Explored(g, s) && StackToFrame(g, s) && FrameToStack(g, s)
    && LowSound(g, s) && SegmentLow(g, s) && EdgeLow(g, s) && Components(g, s)
  }

  ghost function Initial(n: nat): State {
    State(seq(n, _ => FRESH), [], [], 0, 0)
  }

  lemma InitialInv(g: Digraph)
    requires g.Valid() && |g.succ| < UNSET
    ensures Inv(g, Initial(|g.succ|))
  {
    var s := Initial(|g.succ|);
    assert Seen(s) == {};
  }

  // ----- discovering a node -----

  ghost function Bumped(s: State): seq<Frame> {
    if s.frames == [] then []
    else
      var k := |s.frames| - 1;
      s.frames[..k] + [Frame(s.frames[k].v, s.frames[k].next + 1)]
  }

  ghost function Discover(s: State, w: nat): State
    requires w < |s.nodes|
  {
    State(s.nodes[w := NodeState(s.discovered, s.discovered, UNSET, true)],
          s.sccStack + [w],
          Bumped(s) + [Frame(w, 0)],
          s.discovered + 1,
          s.sccCount)
  }

  ghost predicate CanDiscover(g: Digraph, s: State, w: nat) {
    && White(s, w)
    && (s.frames != [] ==>
          var top := s.frames[|s.frames| - 1];
          top.next < |Succ(g, top.v)| && Succ(g, top.v)[top.next] == w)
  }

  lemma DiscoverNodes(g: Digraph, s: State, w: nat)
    requires Shape(g, s) && CanDiscover(g, s, w)
    ensures NodesOk(g, Discover(s, w))
  {
    var s' := Discover(s, w);
    assert Seen(s') == Seen(s) + {w};
    SetBound(Seen(s'), |s'.nodes|);
    forall x | 0 <= x < |s'.nodes|
      ensures NodeOk(s'.nodes[x], s'.discovered, s'.sccCount, |s'.nodes|)
    {
      assert NodeOk(s.nodes[x], s.discovered, s.sccCount, |s.nodes|);
    }
  }

  /** Discovering `w` changes nothing about the other nodes. */
  lemma DiscoverFrame(g: Digraph, s: State, w: nat, x: nat)
    requires NodesOk(g, s) && White(s, w)
    ensures var s' := Discover(s, w);
      && (On(s', x) <==> On(s, x) || x == w)
      && (Assigned(s', x) <==> Assigned(s, x))
      && (White(s', x) <==> White(s, x) && x != w)
      && (x != w ==> D(s', x) == D(s, x) && Low(s', x) == Low(s, x) && Id(s', x) == Id(s, x))
      && (On(s, x) ==> x != w && D(s, x) < s.discovered)
      && D(s', w) == Low(s', w) == s.discovered
  {
    assert NodeOk(s.nodes[w], s.discovered, s.sccCount, |s.nodes|);
    if x < |s.nodes| {
      assert NodeOk(s.nodes[x], s.discovered, s.sccCount, |s.nodes|);
    }
  }

  lemma DiscoverStack(g: Digraph, s: State, w: nat)
    requires NodesOk(g, s) && StackOk(s) && White(s, w)
    ensures StackOk(Discover(s, w))
  {
    var s' := Discover(s, w);
    forall x | On(s', x) ensures x in s'.sccStack {
      DiscoverFrame(g, s, w, x);
    }
    forall i | 0 <= i < |s'.sccStack|
      ensures On(s', s'.sccStack[i])
      ensures i < |s.sccStack| ==> D(s', s'.sccStack[i]) == D(s, s.sccStack[i]) < s.discovered
    {
      DiscoverFrame(g, s, w, s'.sccStack[i]);
    }
    DiscoverFrame(g, s, w, w);
  }

  lemma DiscoverFrames(g: Digraph, s: State, w: nat)
    requires NodesOk(g, s) && FramesOk(g, s) && CanDiscover(g, s, w)
    ensures FramesOk(g, Discover(s, w))
  {
    hide On, White, D, Low, Id, Assigned, NodesOk, NodeOk, Bumped;
    NodeFacts(g, s, w);
    DiscoverIsDiscovered(g, s, w);
    hide Discover;
  }

  /** What discovering `w` does, seen from every node and frame. */
  ghost predicate Discovered(s: State, w: nat, s': State) {
    && (forall x :: On(s', x) <==> On(s, x) || x == w)
    && (forall x :: Assigned(s', x) <==> Assigned(s, x))
    && (forall x :: White(s', x) <==> White(s, x) && x != w)
    && (forall x :: x != w ==> D(s', x) == D(s, x) && Low(s', x) == Low(s, x) && Id(s', x) == Id(s, x))
    && (forall x :: On(s, x) ==> x != w && Low(s, x) <= D(s, x) < s.discovered)
    && D(s', w) == Low(s', w) == s.discovered
    && !Assigned(s, w)
    && |s'.frames| == |s.frames| + 1
    && s'.frames[|s.frames|] == Frame(w, 0)
    && (forall i :: 0 <= i < |s.frames| ==> s'.frames[i].v == s.frames[i].v && On(s, s.frames[i].v))
    && (forall i :: 0 <= i < |s.frames| - 1 ==> s'.frames[i] == s.frames[i])
    && (forall i :: i == |s.frames| - 1 >= 0 ==> s'.frames[i].next == s.frames[i].next + 1)
  }

  lemma DiscoverIsDiscovered(g: Digraph, s: State, w: nat)
    requires NodesOk(g, s) && FramesOk(g, s) && White(s, w)
    ensures Discovered(s, w, Discover(s, w))
  {
    hide On, White, D, Low, Id, Assigned, NodesOk, NodeOk, FramesOk, Bumped;
    NodeFacts(g, s, w);
    DiscoveredFrames(g, s, w);
    var s' := Discover(s, w);
    forall x: nat
      ensures On(s', x) <==> On(s, x) || x == w
      ensures Assigned(s', x) <==> Assigned(s, x)
      ensures White(s', x) <==> White(s, x) && x != w
      ensures x != w ==> D(s', x) == D(s, x) && Low(s', x) == Low(s, x) && Id(s', x) == Id(s, x)
      ensures On(s, x) ==> x != w && Low(s, x) <= D(s, x) < s.discovered
    {
      NodeFacts(g, s, x);
      DiscoverFrame(g, s, w, x);
    }
    DiscoverFrame(g, s, w, w);
    hide Discover;
  }

  lemma DiscoveredFrames(g: Digraph, s: State, w: nat)
    requires FramesOk(g, s) && w < |s.nodes|
    ensures var s' := Discover(s, w);
      && |s'.frames| == |s.frames| + 1
      && s'.frames[|s.frames|] == Frame(w, 0)
      && (forall i :: 0 <= i < |s.frames| ==> s'.frames[i].v == s.frames[i].v && On(s, s.frames[i].v))
      && (forall i :: 0 <= i < |s.frames| - 1 ==> s'.frames[i] == s.frames[i])
      && (forall i :: i == |s.frames| - 1 >= 0 ==> s'.frames[i].next == s.frames[i].next + 1)
  {
    hide On;
  }

  lemma NodeFacts(g: Digraph, s: State, x: nat)
    requires NodesOk(g, s)
    ensures On(s, x) ==> Low(s, x) <= D(s, x)
    ensures White(s, x) ==> !Assigned(s, x) && x < |s.nodes|
  {
    if x < |s.nodes| {
      assert NodeOk(s.nodes[x], s.discovered, s.sccCount, |s.nodes|);
    }
  }

  lemma DiscoverClosed(g: Digraph, s: State, w: nat, s': State)
    requires Discovered(s, w, s') && Closed(g, s) && Components(g, s)
    ensures Closed(g, s') && Components(g, s')
  {
    hide On, White, D, Low, Id, Assigned;
  }

  lemma DiscoverExplored(g: Digraph, s: State, w: nat, s': State)
    requires Discovered(s, w, s') && Explored(g, s) && CanDiscover(g, s, w)
    ensures Explored(g, s')
  {
    hide On, White, D, Low, Id, Assigned;
    forall x, y | On(s', x) && !Framed(s', x) && Edge(g, x, y)
      ensures !White(s', y)
    {
    }
    forall i, j | ExaminedEdge(g, s', i, j)
      ensures !White(s', Succ(g, s'.frames[i].v)[j])
    {
      if i < |s.frames| - 1 || (i == |s.frames| - 1 && j < s.frames[i].next) {
        assert ExaminedEdge(g, s, i, j);
      }
    }
  }

  lemma DiscoverReachesFrame(g: Digraph, s: State, w: nat, s': State, x: nat)
    requires Discovered(s, w, s') && On(s', x)
    requires On(s, x) ==> ReachesFrame(g, s, x)
    ensures ReachesFrame(g, s', x)
  {
    hide On, White, D, Low, Id, Assigned;
    if x == w {
      ReachRefl(g, w);
      assert D(s', s'.frames[|s.frames|].v) <= D(s', w);
    } else {
      var i :| 0 <= i < |s.frames| && D(s, s.frames[i].v) <= D(s, x) && Reach(g, x, s.frames[i].v);
      assert D(s', s'.frames[i].v) <= D(s', x) && Reach(g, x, s'.frames[i].v);
    }
  }

  lemma DiscoverFrameReaches(g: Digraph, s: State, w: nat, s': State, i: nat, x: nat)
    requires Discovered(s, w, s') && FrameToStack(g, s) && FramesOk(g, s) && CanDiscover(g, s, w)
    requires i < |s'.frames| && On(s', x) && D(s', s'.frames[i].v) <= D(s', x)
    ensures Reach(g, s'.frames[i].v, x)
  {
    hide On, White, D, Low, Id, Assigned;
    if i == |s.frames| {
      assert x == w;
      ReachRefl(g, w);
    } else if x == w {
      var k := |s.frames| - 1;
      FrameReachesTop(g, s, i);
      ReachEdge(g, s.frames[k].v, w);
      ReachTrans(g, s.frames[i].v, s.frames[k].v, w);
    } else {
      assert s'.frames[i].v == s.frames[i].v;
    }
  }

  lemma DiscoverReach(g: Digraph, s: State, w: nat, s': State)
    requires Discovered(s, w, s') && FrameToStack(g, s) && FramesOk(g, s) && CanDiscover(g, s, w)
    requires StackToFrame(g, s)
    ensures StackToFrame(g, s') && FrameToStack(g, s')
  {
    hide On, White, D, Low, Id, Assigned;
    forall x | On(s', x) ensures ReachesFrame(g, s', x) {
      DiscoverReachesFrame(g, s, w, s', x);
    }
    forall i, x | 0 <= i < |s'.frames| && On(s', x) && D(s', s'.frames[i].v) <= D(s', x)
      ensures Reach(g, s'.frames[i].v, x)
    {
      DiscoverFrameReaches(g, s, w, s', i, x);
    }
  }

  lemma FrameReachesTop(g: Digraph, s: State, i: nat)
    requires FrameToStack(g, s) && FramesOk(g, s) && i < |s.frames|
    ensures Reach(g, s.frames[i].v, s.frames[|s.frames| - 1].v)
  {
    hide On, White, D, Low, Id, Assigned;
  }

  lemma DiscoverLow(g: Digraph, s: State, w: nat, s': State)
    requires Discovered(s, w, s') && LowSound(g, s)
    ensures LowSound(g, s')
  {
    hide On, White, D, Low, Id, Assigned;
    forall i | 0 <= i < |s'.frames| ensures LowWitness(g, s', s'.frames[i].v) {
      if i == |s.frames| {
        ReachRefl(g, w);
        assert On(s', w);
      } else {
        var x := s.frames[i].v;
        assert LowWitness(g, s, x);
        var y :| On(s, y) && D(s, y) == Low(s, x) && Reach(g, x, y);
        assert On(s', y) && D(s', y) == Low(s', x) && Reach(g, x, y);
      }
    }
  }

  lemma DiscoverSegmentLow(g: Digraph, s: State, w: nat, s': State)
    requires Discovered(s, w, s') && SegmentLow(g, s)
    ensures SegmentLow(g, s')
  {
    hide On, White, D, Low, Id, Assigned;
    forall i, x, y | InSegment(s', i, x) && Edge(g, x, y) && On(s', y)
      ensures Low(s', s'.frames[i].v) <= D(s', y)
    {
      assert x != w && i < |s.frames|;
      assert InSegment(s, i, x);
    }
  }

  lemma DiscoverEdgeLow(g: Digraph, s: State, w: nat, s': State)
    requires Discovered(s, w, s') && EdgeLow(g, s) && CanDiscover(g, s, w)
    ensures EdgeLow(g, s')
  {
    hide On, White, D, Low, Id, Assigned;
    forall i, j | ExaminedEdge(g, s', i, j) && On(s', Succ(g, s'.frames[i].v)[j])
      ensures Low(s', s'.frames[i].v) <= D(s', Succ(g, s'.frames[i].v)[j])
    {
      var v := s.frames[i].v;
      assert s'.frames[i].v == v && Low(s', v) == Low(s, v) < s.discovered;
      if j < s.frames[i].next {
        assert ExaminedEdge(g, s, i, j);
      } else {
        assert Succ(g, v)[j] == w;
      }
    }
  }

  lemma DiscoverInv(g: Digraph, s: State, w: nat)
    requires Inv(g, s) && CanDiscover(g, s, w)
    ensures Inv(g, Discover(s, w))
  {
    hide NodesOk, StackOk, FramesOk, Closed, Explored, StackToFrame;
    hide FrameToStack, LowSound, SegmentLow, EdgeLow, Components, Discovered;
    NodeFacts(g, s, w);
    var s' := Discover(s, w);
    DiscoverNodes(g, s, w);
    DiscoverStack(g, s, w);
    DiscoverFrames(g, s, w);
    DiscoverIsDiscovered(g, s, w);
    DiscoverClosed(g, s, w, s');
    DiscoverExplored(g, s, w, s');
    DiscoverReach(g, s, w, s');
    DiscoverLow(g, s, w, s');
    DiscoverSegmentLow(g, s, w, s');
    DiscoverEdgeLow(g, s, w, s');
  }

  // ----- examining an edge to a node already discovered -----

  ghost predicate CanScan(g: Digraph, s: State) {
    && s.frames != []
    && var top := s.frames[|s.frames| - 1];
       top.next < |Succ(g, top.v)| && !White(s, Succ(g, top.v)[top.next])
  }

  ghost function ScanLow(g: Digraph, s: State): nat
    requires CanScan(g, s)
  {
    var top := s.frames[|s.frames| - 1];
    var w := Succ(g, top.v)[top.next];
    if On(s, w) && D(s, w) < Low(s, top.v) then D(s, w) else Low(s, top.v)
  }

  ghost function Scan(g: Digraph, s: State): State
    requires CanScan(g, s) && s.frames[|s.frames| - 1].v < |s.nodes|
  {
    var v := s.frames[|s.frames| - 1].v;
    s.(nodes := s.nodes[v := s.nodes[v].(lowlink := ScanLow(g, s))], frames := Bumped(s))
  }

  /** Only the lowlink of node `v` differs, and it did not grow. */
  ghost predicate Lowered(s: State, v: nat, s': State) {
    && (forall x :: On(s', x) <==> On(s, x))
    && (forall x :: Assigned(s', x) <==> Assigned(s, x))
    && (forall x :: White(s', x) <==> White(s, x))
    && (forall x :: D(s', x) == D(s, x) && Id(s', x) == Id(s, x))
    && (forall x :: x != v ==> Low(s', x) == Low(s, x))
    && Low(s', v) <= Low(s, v)
  }

  ghost predicate SameFrames(s: State, s': State) {
    && |s'.frames| == |s.frames|
    && (forall i :: 0 <= i < |s.frames| ==> s'.frames[i].v == s.frames[i].v)
    && (forall i :: 0 <= i < |s.frames| - 1 ==> s'.frames[i] == s.frames[i])
    && (forall i :: i == |s.frames| - 1 >= 0 ==> s'.frames[i].next == s.frames[i].next + 1)
  }

  lemma LoweredNodes(g: Digraph, s: State, v: nat, low: nat, s': State)
    requires NodesOk(g, s) && On(s, v) && low <= Low(s, v)
    requires s'.nodes == s.nodes[v := s.nodes[v].(lowlink := low)]
    requires s'.sccStack == s.sccStack && s'.discovered == s.discovered && s'.sccCount == s.sccCount
    ensures NodesOk(g, s') && Lowered(s, v, s')
  {
    assert Seen(s') == Seen(s);
    forall x | 0 <= x < |s'.nodes|
      ensures NodeOk(s'.nodes[x], s'.discovered, s'.sccCount, |s'.nodes|)
    {
      assert NodeOk(s.nodes[x], s.discovered, s.sccCount, |s.nodes|);
    }
  }

  lemma LoweredStack(s: State, v: nat, s': State)
    requires Lowered(s, v, s') && StackOk(s) && s'.sccStack == s.sccStack
    ensures StackOk(s')
  {
    hide On, White, D, Low, Id, Assigned;
  }

  lemma LoweredClosed(g: Digraph, s: State, v: nat, s': State)
    requires Lowered(s, v, s') && Closed(g, s) && Components(g, s)
    ensures Closed(g, s') && Components(g, s')
  {
    hide On, White, D, Low, Id, Assigned;
  }

  lemma ScanFrames(g: Digraph, s: State, v: nat, s': State)
    requires Lowered(s, v, s') && SameFrames(s, s') && FramesOk(g, s) && CanScan(g, s)
    ensures FramesOk(g, s')
  {
    hide On, White, D, Low, Id, Assigned;
  }

  lemma ScanExplored(g: Digraph, s: State, v: nat, s': State)
    requires Lowered(s, v, s') && SameFrames(s, s') && Explored(g, s) && CanScan(g, s)
    ensures Explored(g, s')
  {
    hide On, White, D, Low, Id, Assigned;
    forall x, y | On(s', x) && !Framed(s', x) && Edge(g, x, y)
      ensures !White(s', y)
    {
      assert On(s, x) && !Framed(s, x);
    }
    forall i, j | ExaminedEdge(g, s', i, j)
      ensures !White(s', Succ(g, s'.frames[i].v)[j])
    {
      if j < s.frames[i].next { assert ExaminedEdge(g, s, i, j); }
    }
  }

  lemma ScanReach(g: Digraph, s: State, v: nat, s': State)
    requires Lowered(s, v, s') && SameFrames(s, s')
    requires StackToFrame(g, s) && FrameToStack(g, s)
    ensures StackToFrame(g, s') && FrameToStack(g, s')
  {
    hide On, White, D, Low, Id, Assigned;
    forall x | On(s', x) ensures ReachesFrame(g, s', x) {
      assert ReachesFrame(g, s, x);
      var i :| 0 <= i < |s.frames| && D(s, s.frames[i].v) <= D(s, x) && Reach(g, x, s.frames[i].v);
      assert D(s', s'.frames[i].v) <= D(s', x) && Reach(g, x, s'.frames[i].v);
    }
  }

  lemma ScanLowSound(g: Digraph, s: State, s': State)
    requires CanScan(g, s) && LowSound(g, s) && FramesOk(g, s)
    requires Lowered(s, s.frames[|s.frames| - 1].v, s') && SameFrames(s, s')
    requires Low(s', s.frames[|s.frames| - 1].v) == ScanLow(g, s)
    ensures LowSound(g, s')
  {
    hide On, White, D, Low, Id, Assigned;
    forall i | 0 <= i < |s'.frames| ensures LowWitness(g, s', s'.frames[i].v) {
      var x := s.frames[i].v;
      assert LowWitness(g, s, x);
      var y :| On(s, y) && D(s, y) == Low(s, x) && Reach(g, x, y);
      if Low(s', x) == Low(s, x) {
        assert On(s', y) && D(s', y) == Low(s', x) && Reach(g, x, y);
      } else {
        var top := s.frames[|s.frames| - 1];
        var w := Succ(g, top.v)[top.next];
        ReachEdge(g, top.v, w);
        assert On(s', w) && D(s', w) == Low(s', x) && Reach(g, x, w);
      }
    }
  }

  lemma ScanSegmentLow(g: Digraph, s: State, v: nat, s': State)
    requires Lowered(s, v, s') && SameFrames(s, s') && SegmentLow(g, s)
    ensures SegmentLow(g, s')
  {
    hide On, White, D, Low, Id, Assigned;
    forall i, x, y | InSegment(s', i, x) && Edge(g, x, y) && On(s', y)
      ensures Low(s', s'.frames[i].v) <= D(s', y)
    {
      assert InSegment(s, i, x);
    }
  }

  lemma ScanEdgeLow(g: Digraph, s: State, s': State)
    requires CanScan(g, s) && EdgeLow(g, s)
    requires Lowered(s, s.frames[|s.frames| - 1].v, s') && SameFrames(s, s')
    requires Low(s', s.frames[|s.frames| - 1].v) == ScanLow(g, s)
    ensures EdgeLow(g, s')
  {
    hide On, White, D, Low, Id, Assigned;
    forall i, j | ExaminedEdge(g, s', i, j) && On(s', Succ(g, s'.frames[i].v)[j])
      ensures Low(s', s'.frames[i].v) <= D(s', Succ(g, s'.frames[i].v)[j])
    {
      if j < s.frames[i].next { assert ExaminedEdge(g, s, i, j); }
    }
  }

  lemma TopOn(g: Digraph, s: State)
    requires FramesOk(g, s) && s.frames != []
    ensures On(s, s.frames[|s.frames| - 1].v)
  {
  }

  lemma ScanInv(g: Digraph, s: State)
    requires Inv(g, s) && CanScan(g, s) && s.frames[|s.frames| - 1].v < |s.nodes|
    ensures Inv(g, Scan(g, s))
  {
    hide NodesOk, StackOk, FramesOk, Closed, Explored, StackToFrame;
    hide FrameToStack, LowSound, SegmentLow, EdgeLow, Components;
    TopOn(g, s);
    var s' := Scan(g, s);
    var v := s.frames[|s.frames| - 1].v;
    LoweredNodes(g, s, v, ScanLow(g, s), s');
    LoweredStack(s, v, s');
    LoweredClosed(g, s, v, s');
    ScanFrames(g, s, v, s');
    ScanExplored(g, s, v, s');
    ScanReach(g, s, v, s');
    ScanLowSound(g, s, s');
    ScanSegmentLow(g, s, v, s');
    ScanEdgeLow(g, s, s');
  }

  // ----- leaving a node that is not the root of its component -----

  /** All edges of the top frame have been examined. */
  ghost predicate TopDone(g: Digraph, s: State) {
    && s.frames != []
    && var top := s.frames[|s.frames| - 1];
       top.next == |Succ(g, top.v)| && top.v < |s.nodes|
  }

  ghost predicate CanRetreat(g: Digraph, s: State) {
    && TopDone(g, s)
    && var v := s.frames[|s.frames| - 1].v; Low(s, v) < D(s, v)
  }

  /** The top frame reaches an open frame strictly below it. */
  lemma RetreatWitness(g: Digraph, s: State) returns (i: nat, y: nat)
    requires FramesOk(g, s) && LowSound(g, s) && StackToFrame(g, s) && CanRetreat(g, s)
    ensures i < |s.frames| - 1
    ensures var v := s.frames[|s.frames| - 1].v;
      && On(s, y) && D(s, y) == Low(s, v) && Reach(g, v, y)
      && Reach(g, v, s.frames[i].v) && D(s, s.frames[i].v) < D(s, v)
  {
    hide On, White, D, Low, Id, Assigned;
    var k := |s.frames| - 1;
    var v := s.frames[k].v;
    assert LowWitness(g, s, s.frames[k].v);
    y :| On(s, y) && D(s, y) == Low(s, v) && Reach(g, v, y);
    assert ReachesFrame(g, s, y);
    i :| 0 <= i < |s.frames| && D(s, s.frames[i].v) <= D(s, y) && Reach(g, y, s.frames[i].v);
    ReachTrans(g, v, y, s.frames[i].v);
  }

  ghost function RetreatLow(s: State): nat
    requires |s.frames| > 1
  {
    var k := |s.frames| - 1;
    var low := Low(s, s.frames[k].v);
    if low < Low(s, s.frames[k - 1].v) then low else Low(s, s.frames[k - 1].v)
  }

  ghost function Retreat(s: State): State
    requires |s.frames| > 1 && s.frames[|s.frames| - 2].v < |s.nodes|
  {
    var k := |s.frames| - 1;
    var p := s.frames[k - 1].v;
    s.(nodes := s.nodes[p := s.nodes[p].(lowlink := RetreatLow(s))], frames := s.frames[..k])
  }

  ghost predicate DropTop(s: State, s': State) {
    && |s.frames| > 0 && |s'.frames| == |s.frames| - 1
    && (forall i :: 0 <= i < |s.frames| - 1 ==> s'.frames[i] == s.frames[i])
  }

  lemma DropFrames(g: Digraph, s: State, p: nat, s': State)
    requires FramesOk(g, s) && Lowered(s, p, s') && DropTop(s, s')
    ensures FramesOk(g, s')
  {
    hide On, White, D, Low, Id, Assigned;
  }

  /** Frames have distinct nodes, so only the top's node stops being framed. */
  lemma DropFramed(g: Digraph, s: State, s': State, x: nat)
    requires FramesOk(g, s) && DropTop(s, s')
    ensures Framed(s', x) <==> Framed(s, x) && x != s.frames[|s.frames| - 1].v
  {
    hide On, White, D, Low, Id, Assigned;
    if Framed(s, x) && x != s.frames[|s.frames| - 1].v {
      var i :| 0 <= i < |s.frames| && s.frames[i].v == x;
      assert s'.frames[i].v == x;
    }
    if Framed(s', x) {
      var i :| 0 <= i < |s'.frames| && s'.frames[i].v == x;
      assert s.frames[i].v == x;
      assert D(s, s.frames[i].v) < D(s, s.frames[|s.frames| - 1].v);
    }
  }

  lemma RetreatExplored(g: Digraph, s: State, p: nat, s': State)
    requires FramesOk(g, s) && Lowered(s, p, s') && DropTop(s, s') && TopDone(g, s) && Explored(g, s)
    ensures Explored(g, s')
  {
    hide On, White, D, Low, Id, Assigned;
    var k := |s.frames| - 1;
    forall x, y | On(s', x) && !Framed(s', x) && Edge(g, x, y)
      ensures !White(s', y)
    {
      DropFramed(g, s, s', x);
      if x == s.frames[k].v {
        var j :| 0 <= j < |Succ(g, x)| && Succ(g, x)[j] == y;
        assert ExaminedEdge(g, s, k, j);
      }
    }
    forall i, j | ExaminedEdge(g, s', i, j)
      ensures !White(s', Succ(g, s'.frames[i].v)[j])
    {
      assert ExaminedEdge(g, s, i, j);
    }
  }

  lemma RetreatStackToFrame(g: Digraph, s: State, p: nat, s': State)
    requires FramesOk(g, s) && LowSound(g, s) && StackToFrame(g, s) && CanRetreat(g, s)
    requires Lowered(s, p, s') && DropTop(s, s')
    ensures StackToFrame(g, s')
  {
    hide On, White, D, Low, Id, Assigned;
    var k := |s.frames| - 1;
    var r, y := RetreatWitness(g, s);
    forall x | On(s', x) ensures ReachesFrame(g, s', x) {
      assert ReachesFrame(g, s, x);
      var i :| 0 <= i < |s.frames| && D(s, s.frames[i].v) <= D(s, x) && Reach(g, x, s.frames[i].v);
      if i == k {
        ReachTrans(g, x, s.frames[k].v, s.frames[r].v);
        assert D(s', s'.frames[r].v) <= D(s', x) && Reach(g, x, s'.frames[r].v);
      } else {
        assert D(s', s'.frames[i].v) <= D(s', x) && Reach(g, x, s'.frames[i].v);
      }
    }
  }

  lemma DropFrameToStack(g: Digraph, s: State, p: nat, s': State)
    requires Lowered(s, p, s') && DropTop(s, s') && FrameToStack(g, s)
    ensures FrameToStack(g, s')
  {
    hide On, White, D, Low, Id, Assigned;
  }

  lemma RetreatLowSound(g: Digraph, s: State, s': State)
    requires FramesOk(g, s) && LowSound(g, s) && StackToFrame(g, s) && FrameToStack(g, s)
    requires CanRetreat(g, s) && |s.frames| > 1 && DropTop(s, s')
    requires Lowered(s, s.frames[|s.frames| - 2].v, s')
    requires Low(s', s.frames[|s.frames| - 2].v) == RetreatLow(s)
    ensures LowSound(g, s')
  {
    hide On, White, D, Low, Id, Assigned;
    var k := |s.frames| - 1;
    var r, z := RetreatWitness(g, s);
    forall i | 0 <= i < |s'.frames| ensures LowWitness(g, s', s'.frames[i].v) {
      var x := s.frames[i].v;
      if Low(s', x) == Low(s, x) {
        assert LowWitness(g, s, s.frames[i].v);
        var y :| On(s, y) && D(s, y) == Low(s, x) && Reach(g, x, y);
        assert On(s', y) && D(s', y) == Low(s', x) && Reach(g, x, y);
      } else {
        FrameReachesTop(g, s, k - 1);
        ReachTrans(g, x, s.frames[k].v, z);
        assert On(s', z) && D(s', z) == Low(s', x) && Reach(g, x, z);
      }
    }
  }

  /** Discovery numbers of stack nodes are distinct. */
  lemma SameDiscovery(s: State, x: nat, y: nat)
    requires StackOk(s) && On(s, x) && On(s, y) && D(s, x) == D(s, y)
    ensures x == y
  {
    hide On, White, D, Low, Id, Assigned;
    var i :| 0 <= i < |s.sccStack| && s.sccStack[i] == x;
    var j :| 0 <= j < |s.sccStack| && s.sccStack[j] == y;
  }

  /** The top frame's lowlink is below every stack node its own edges lead to. */
  lemma TopEdges(g: Digraph, s: State, y: nat)
    requires TopDone(g, s) && EdgeLow(g, s)
    requires Edge(g, s.frames[|s.frames| - 1].v, y) && On(s, y)
    ensures Low(s, s.frames[|s.frames| - 1].v) <= D(s, y)
  {
    hide On, White, D, Low, Id, Assigned;
    var k := |s.frames| - 1;
    var j :| 0 <= j < |Succ(g, s.frames[k].v)| && Succ(g, s.frames[k].v)[j] == y;
    assert ExaminedEdge(g, s, k, j);
  }

  lemma RetreatSegmentLow(g: Digraph, s: State, s': State)
    requires StackOk(s) && FramesOk(g, s) && SegmentLow(g, s) && EdgeLow(g, s)
    requires CanRetreat(g, s) && |s.frames| > 1 && DropTop(s, s')
    requires Lowered(s, s.frames[|s.frames| - 2].v, s')
    requires Low(s', s.frames[|s.frames| - 2].v) == RetreatLow(s)
    ensures SegmentLow(g, s')
  {
    hide On, White, D, Low, Id, Assigned;
    var k := |s.frames| - 1;
    var v := s.frames[k].v;
    forall i, x, y | InSegment(s', i, x) && Edge(g, x, y) && On(s', y)
      ensures Low(s', s'.frames[i].v) <= D(s', y)
    {
      if i < k - 1 || D(s, x) < D(s, v) {
        assert InSegment(s, i, x);
      } else if D(s, x) == D(s, v) {
        SameDiscovery(s, x, v);
        TopEdges(g, s, y);
      } else {
        assert InSegment(s, k, x);
      }
    }
  }

  lemma DropEdgeLow(g: Digraph, s: State, p: nat, s': State)
    requires Lowered(s, p, s') && DropTop(s, s') && EdgeLow(g, s)
    ensures EdgeLow(g, s')
  {
    hide On, White, D, Low, Id, Assigned;
    forall i, j | ExaminedEdge(g, s', i, j) && On(s', Succ(g, s'.frames[i].v)[j])
      ensures Low(s', s'.frames[i].v) <= D(s', Succ(g, s'.frames[i].v)[j])
    {
      assert ExaminedEdge(g, s, i, j);
    }
  }

  lemma ParentOn(g: Digraph, s: State)
    requires FramesOk(g, s) && |s.frames| > 1
    ensures On(s, s.frames[|s.frames| - 2].v)
  {
  }

  lemma RetreatInv(g: Digraph, s: State)
    requires Inv(g, s) && CanRetreat(g, s)
    ensures |s.frames| > 1 && s.frames[|s.frames| - 2].v < |s.nodes|
    ensures Inv(g, Retreat(s))
  {
    hide NodesOk, StackOk, FramesOk, Closed, Explored, StackToFrame;
    hide FrameToStack, LowSound, SegmentLow, EdgeLow, Components;
    var _, _ := RetreatWitness(g, s);
    ParentOn(g, s);
    var p := s.frames[|s.frames| - 2].v;
    var s' := Retreat(s);
    LoweredNodes(g, s, p, RetreatLow(s), s');
    LoweredStack(s, p, s');
    LoweredClosed(g, s, p, s');
    DropFrames(g, s, p, s');
    RetreatExplored(g, s, p, s');
    RetreatStackToFrame(g, s, p, s');
    DropFrameToStack(g, s, p, s');
    RetreatLowSound(g, s, s');
    RetreatSegmentLow(g, s, s');
    DropEdgeLow(g, s, p, s');
  }

  // ----- closing a component at its root -----

  ghost predicate CanClose(g: Digraph, s: State) {
    && TopDone(g, s)
    && var v := s.frames[|s.frames| - 1].v; Low(s, v) == D(s, v)
  }

  /** The stack nodes from the top frame's node upwards */
  ghost predicate InComponent(s: State, x: nat) {
    s.frames != [] && On(s, x) && D(s, x) >= D(s, s.frames[|s.frames| - 1].v)
  }

  /** The component leaves the stack with the next id and distinct positions; nothing else changes. */
  ghost predicate ClosedComponent(s: State, s': State) {
    && DropTop(s, s')
    && |s'.nodes| == |s.nodes| && s'.discovered == s.discovered && s'.sccCount == s.sccCount + 1
    && (forall x :: 0 <= x < |s.nodes| && !InComponent(s, x) ==> s'.nodes[x] == s.nodes[x])
    && (forall x :: 0 <= x < |s.nodes| && InComponent(s, x) ==>
          && s'.nodes[x].sccId == s.sccCount && !s'.nodes[x].onStack
          && s'.nodes[x].discovery < |s.nodes|)
    && (forall x, y :: InComponent(s, x) && InComponent(s, y) && x != y ==> D(s', x) != D(s', y))
    && |s'.sccStack| < |s.sccStack| && s'.sccStack == s.sccStack[..|s'.sccStack|]
    && (forall x :: x in s'.sccStack <==> x in s.sccStack && !InComponent(s, x))
  }

  /** The same, seen from every node */
  ghost predicate CloseView(s: State, s': State) {
    && (forall x :: On(s', x) <==> On(s, x) && !InComponent(s, x))
    && (forall x :: Assigned(s', x) <==> Assigned(s, x) || InComponent(s, x))
    && (forall x :: White(s', x) <==> White(s, x))
    && (forall x :: InComponent(s, x) ==> Id(s', x) == s.sccCount && !Assigned(s, x))
    && (forall x :: Assigned(s, x) ==> Id(s', x) == Id(s, x) < s.sccCount)
    && (forall x :: !InComponent(s, x) ==> D(s', x) == D(s, x) && Low(s', x) == Low(s, x))
    && (forall x, y :: InComponent(s, x) && InComponent(s, y) && x != y ==> D(s', x) != D(s', y))
  }

  lemma CloseNodes(g: Digraph, s: State, s': State)
    requires NodesOk(g, s) && ClosedComponent(s, s')
    ensures NodesOk(g, s') && CloseView(s, s')
  {
    forall x | 0 <= x < |s'.nodes|
      ensures NodeOk(s'.nodes[x], s'.discovered, s'.sccCount, |s'.nodes|)
      ensures On(s', x) <==> On(s, x) && !InComponent(s, x)
      ensures Assigned(s', x) <==> Assigned(s, x) || InComponent(s, x)
      ensures White(s', x) <==> White(s, x)
      ensures InComponent(s, x) ==> Id(s', x) == s.sccCount && !Assigned(s, x)
      ensures Assigned(s, x) ==> Id(s', x) == Id(s, x) < s.sccCount
    {
      assert NodeOk(s.nodes[x], s.discovered, s.sccCount, |s.nodes|);
    }
    assert Seen(s') == Seen(s);
  }

  lemma CloseStack(g: Digraph, s: State, s': State)
    requires StackOk(s) && ClosedComponent(s, s') && CloseView(s, s')
    ensures StackOk(s')
  {
    forall i | 0 <= i < |s'.sccStack|
      ensures s'.sccStack[i] == s.sccStack[i]
      ensures On(s', s'.sccStack[i]) && D(s', s'.sccStack[i]) == D(s, s.sccStack[i])
    {
      assert s'.sccStack[i] in s'.sccStack;
    }
  }

  lemma CloseFrames(g: Digraph, s: State, s': State)
    requires FramesOk(g, s) && DropTop(s, s') && CloseView(s, s')
    ensures FramesOk(g, s')
    ensures forall i :: 0 <= i < |s'.frames| ==>
      s'.frames[i] == s.frames[i] && !InComponent(s, s.frames[i].v)
  {
    hide On, White, D, Low, Id, Assigned;
    forall i | 0 <= i < |s'.frames|
      ensures s'.frames[i] == s.frames[i] && !InComponent(s, s.frames[i].v)
    {
      assert D(s, s.frames[i].v) < D(s, s.frames[|s.frames| - 1].v);
    }
  }

  /** Edges out of the component end in it or in components finished before. */
  lemma ComponentEdges(g: Digraph, s: State, x: nat, y: nat)
    requires Shape(g, s) && Explored(g, s) && SegmentLow(g, s) && EdgeLow(g, s) && CanClose(g, s)
    requires InComponent(s, x) && Edge(g, x, y)
    ensures InComponent(s, y) || Assigned(s, y)
  {
    hide On, White, D, Low, Id, Assigned;
    var k := |s.frames| - 1;
    var v := s.frames[k].v;
    EdgeTarget(g, s, x, y);
    if D(s, x) == D(s, v) {
      SameDiscovery(s, x, v);
      var j :| 0 <= j < |Succ(g, x)| && Succ(g, x)[j] == y;
      assert ExaminedEdge(g, s, k, j);
      assert !White(s, y);
      if On(s, y) { TopEdges(g, s, y); }
    } else {
      NotFramed(g, s, x);
      assert InSegment(s, k, x);
    }
  }

  lemma EdgeTarget(g: Digraph, s: State, x: nat, y: nat)
    requires g.Valid() && NodesOk(g, s) && Edge(g, x, y)
    ensures y < |s.nodes| && (White(s, y) || On(s, y) || Assigned(s, y))
  {
    var j :| 0 <= j < |Succ(g, x)| && Succ(g, x)[j] == y;
    assert g.succ[x][j] < |g.succ|;
    assert NodeOk(s.nodes[y], s.discovered, s.sccCount, |s.nodes|);
  }

  lemma NotFramed(g: Digraph, s: State, x: nat)
    requires FramesOk(g, s) && s.frames != [] && D(s, x) > D(s, s.frames[|s.frames| - 1].v)
    ensures !Framed(s, x)
  {
    hide On, White, D, Low, Id, Assigned;
  }

  lemma CloseClosed(g: Digraph, s: State, s': State)
    requires Shape(g, s) && Explored(g, s) && SegmentLow(g, s) && EdgeLow(g, s) && CanClose(g, s)
    requires Closed(g, s) && CloseView(s, s')
    ensures Closed(g, s')
  {
    hide On, White, D, Low, Id, Assigned;
    forall x, y | Assigned(s', x) && Edge(g, x, y)
      ensures Assigned(s', y) && Id(s', y) <= Id(s', x)
    {
      if InComponent(s, x) {
        ComponentEdges(g, s, x, y);
      } else {
        assert Assigned(s, y) && Id(s, y) <= Id(s, x);
      }
    }
  }

  /** Nodes of the component reach each other through its root. */
  lemma ComponentReach(g: Digraph, s: State, x: nat, y: nat)
    requires FramesOk(g, s) && StackToFrame(g, s) && FrameToStack(g, s)
    requires InComponent(s, x) && InComponent(s, y)
    ensures Reach(g, x, y)
  {
    hide On, White, D, Low, Id, Assigned;
    var k := |s.frames| - 1;
    assert ReachesFrame(g, s, x);
    var i :| 0 <= i < |s.frames| && D(s, s.frames[i].v) <= D(s, x) && Reach(g, x, s.frames[i].v);
    FrameReachesTop(g, s, i);
    ReachTrans(g, x, s.frames[i].v, s.frames[k].v);
    ReachTrans(g, x, s.frames[k].v, y);
  }

  /** Nothing in a finished component reaches a node outside the finished components. */
  lemma AssignedStay(g: Digraph, s: State, x: nat, y: nat)
    requires Closed(g, s) && Assigned(s, x) && !Assigned(s, y)
    ensures !Reach(g, x, y)
  {
    var done := set z: nat | z < |s.nodes| && Assigned(s, z);
    if Reach(g, x, y) {
      ReachStaysIn(g, done, x, y);
    }
  }

  lemma CloseComponents(g: Digraph, s: State, s': State)
    requires FramesOk(g, s) && StackToFrame(g, s) && FrameToStack(g, s)
    requires Closed(g, s) && Components(g, s) && CloseView(s, s')
    ensures Components(g, s')
  {
    hide On, White, D, Low, Id, Assigned;
    forall x, y | Assigned(s', x) && Assigned(s', y)
      ensures Id(s', x) == Id(s', y) <==> Mutual(g, x, y)
      ensures x != y && Id(s', x) == Id(s', y) ==> D(s', x) != D(s', y)
    {
      if InComponent(s, x) && InComponent(s, y) {
        ComponentReach(g, s, x, y);
        ComponentReach(g, s, y, x);
      } else if InComponent(s, x) {
        AssignedStay(g, s, y, x);
      } else if InComponent(s, y) {
        AssignedStay(g, s, x, y);
      } else {
        assert Assigned(s, x) && Assigned(s, y);
      }
    }
  }

  lemma CloseExplored(g: Digraph, s: State, s': State)
    requires FramesOk(g, s) && DropTop(s, s') && CloseView(s, s') && Explored(g, s)
    ensures Explored(g, s')
  {
    hide On, White, D, Low, Id, Assigned;
    forall x, y | On(s', x) && !Framed(s', x) && Edge(g, x, y)
      ensures !White(s', y)
    {
      DropFramed(g, s, s', x);
    }
    forall i, j | ExaminedEdge(g, s', i, j)
      ensures !White(s', Succ(g, s'.frames[i].v)[j])
    {
      assert ExaminedEdge(g, s, i, j);
    }
  }

  lemma CloseReach(g: Digraph, s: State, s': State)
    requires FramesOk(g, s) && DropTop(s, s') && CloseView(s, s')
    requires StackToFrame(g, s) && FrameToStack(g, s)
    ensures StackToFrame(g, s') && FrameToStack(g, s')
  {
    hide On, White, D, Low, Id, Assigned;
    CloseFrames(g, s, s');
    forall x | On(s', x) ensures ReachesFrame(g, s', x) {
      assert ReachesFrame(g, s, x);
      var i :| 0 <= i < |s.frames| && D(s, s.frames[i].v) <= D(s, x) && Reach(g, x, s.frames[i].v);
      assert i < |s'.frames|;
      assert D(s', s'.frames[i].v) <= D(s', x) && Reach(g, x, s'.frames[i].v);
    }
  }

  lemma CloseLow(g: Digraph, s: State, s': State)
    requires NodesOk(g, s) && FramesOk(g, s) && DropTop(s, s') && CloseView(s, s') && LowSound(g, s)
    ensures LowSound(g, s')
  {
    CloseFrames(g, s, s');
    forall i | 0 <= i < |s'.frames| ensures LowWitness(g, s', s'.frames[i].v) {
      var x := s.frames[i].v;
      assert LowWitness(g, s, s.frames[i].v);
      var y :| On(s, y) && D(s, y) == Low(s, x) && Reach(g, x, y);
      assert On(s, x) && NodeOk(s.nodes[x], s.discovered, s.sccCount, |s.nodes|);
      assert On(s', y) && D(s', y) == Low(s', x) && Reach(g, x, y);
    }
  }

  lemma CloseSegmentLow(g: Digraph, s: State, s': State)
    requires FramesOk(g, s) && DropTop(s, s') && CloseView(s, s') && SegmentLow(g, s)
    ensures SegmentLow(g, s')
  {
    hide On, White, D, Low, Id, Assigned;
    CloseFrames(g, s, s');
    forall i, x, y | InSegment(s', i, x) && Edge(g, x, y) && On(s', y)
      ensures Low(s', s'.frames[i].v) <= D(s', y)
    {
      assert InSegment(s, i, x);
    }
  }

  lemma CloseEdgeLow(g: Digraph, s: State, s': State)
    requires FramesOk(g, s) && DropTop(s, s') && CloseView(s, s') && EdgeLow(g, s)
    ensures EdgeLow(g, s')
  {
    hide On, White, D, Low, Id, Assigned;
    CloseFrames(g, s, s');
    forall i, j | ExaminedEdge(g, s', i, j) && On(s', Succ(g, s'.frames[i].v)[j])
      ensures Low(s', s'.frames[i].v) <= D(s', Succ(g, s'.frames[i].v)[j])
    {
      assert ExaminedEdge(g, s, i, j);
    }
  }

  lemma CloseInv(g: Digraph, s: State, s': State)
    requires Inv(g, s) && CanClose(g, s) && ClosedComponent(s, s')
    ensures Inv(g, s')
  {
    hide NodesOk, StackOk, FramesOk, Closed, Explored, StackToFrame;
    hide FrameToStack, LowSound, SegmentLow, EdgeLow, Components, CloseView;
    CloseNodes(g, s, s');
    CloseStack(g, s, s');
    CloseFrames(g, s, s');
    CloseClosed(g, s, s');
    CloseComponents(g, s, s');
    CloseExplored(g, s, s');
    CloseReach(g, s, s');
    CloseLow(g, s, s');
    CloseSegmentLow(g, s, s');
    CloseEdgeLow(g, s, s');
  }

  lemma {:induction false} SetBound(a: set<nat>, n: nat)
    requires forall x :: x in a ==> x < n
    ensures |a| <= n
  {
    if n > 0 {
      SetBound(a - {n - 1}, n - 1);
      assert a <= (a - {n - 1}) + {n - 1};
    } else {
      assert a == {};
    }
  }
}
