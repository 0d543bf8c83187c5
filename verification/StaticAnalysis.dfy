/** The loops of the component search, run on the state of module Tarjan. */
module StaticAnalysis {
  import opened Graph
  import opened SearchOrder
  import opened Tarjan

  // ----- popping a component -----

  ghost predicate Distinct(xs: seq<nat>, n: nat) {
    && (forall i :: 0 <= i < |xs| ==> xs[i] < n)
    && (forall i, j :: 0 <= i < j < |xs| ==> xs[i] != xs[j])
  }

  /** The nodes at stack positions `cut` and above are popped, the others are as before. */
  ghost predicate PoppedDownTo(nodes: seq<NodeState>, sccStack: seq<nat>, cut: nat, sccId: nat,
                               nodes': seq<NodeState>)
  {
    && |nodes'| == |nodes| && cut <= |sccStack|
    && (forall x :: 0 <= x < |nodes| && x !in sccStack[cut..] ==> nodes'[x] == nodes[x])
    && (forall i :: cut <= i < |sccStack| && sccStack[i] < |nodes| ==>
          nodes'[sccStack[i]] == nodes[sccStack[i]].(onStack := false, sccId := sccId,
                                                     discovery := |sccStack| - 1 - i))
  }

  /** Pops the stack down to and including `v`, numbering the popped nodes in popping order. */
  method PopComponent(nodes: seq<NodeState>, sccStack: seq<nat>, v: nat, sccId: nat, ghost cut: nat)
    returns (nodes': seq<NodeState>, sccStack': seq<nat>)
    requires Distinct(sccStack, |nodes|) && cut < |sccStack| && sccStack[cut] == v
    ensures sccStack' == sccStack[..cut]
    ensures PoppedDownTo(nodes, sccStack, cut, sccId, nodes')
  {
    nodes', sccStack' := nodes, sccStack;
    var indexInScc := 0;
    while sccStack' != []
      invariant cut < |sccStack'| <= |sccStack| && sccStack' == sccStack[..|sccStack'|]
      invariant indexInScc == |sccStack| - |sccStack'|
      invariant PoppedDownTo(nodes, sccStack, |sccStack'|, sccId, nodes')
    {
      var w := sccStack'[|sccStack'| - 1];
      sccStack' := sccStack'[..|sccStack'| - 1];
      assert w == sccStack[|sccStack'|];
      assert sccStack[|sccStack'|..] == [w] + sccStack[|sccStack'| + 1..];
      nodes' := nodes'[w := nodes'[w].(onStack := false, sccId := sccId, discovery := indexInScc)];
      indexInScc := indexInScc + 1;
      if w == v {
        break;
      }
    }
  }

  lemma StackIsDistinct(g: Digraph, s: State)
    requires StackOk(s)
    ensures Distinct(s.sccStack, |s.nodes|)
  {
  }

  ghost function PositionOf(s: State, v: nat): (i: nat)
    requires StackOk(s) && On(s, v)
    ensures i < |s.sccStack| && s.sccStack[i] == v
  {
    var i :| 0 <= i < |s.sccStack| && s.sccStack[i] == v;
    i
  }

  /** A stack node belongs to the component exactly when it is not below the root. */
  lemma ComponentPositions(s: State, cut: nat, i: nat)
    requires StackOk(s) && s.frames != [] && cut < |s.sccStack| && i < |s.sccStack|
    requires s.sccStack[cut] == s.frames[|s.frames| - 1].v
    ensures InComponent(s, s.sccStack[i]) <==> i >= cut
  {
  }

  lemma PoppedNode(s: State, cut: nat, sccId: nat, nodes': seq<NodeState>, x: nat)
    requires StackOk(s) && s.frames != [] && cut < |s.sccStack| && x < |s.nodes|
    requires s.sccStack[cut] == s.frames[|s.frames| - 1].v
    requires PoppedDownTo(s.nodes, s.sccStack, cut, sccId, nodes')
    ensures InComponent(s, x) ==>
      nodes'[x] == s.nodes[x].(onStack := false, sccId := sccId, discovery := |s.sccStack| - 1 - PositionOf(s, x))
    ensures !InComponent(s, x) ==> nodes'[x] == s.nodes[x]
  {
    if InComponent(s, x) {
      ComponentPositions(s, cut, PositionOf(s, x));
    } else if x in s.sccStack[cut..] {
      var i :| cut <= i < |s.sccStack| && s.sccStack[i] == x;
      ComponentPositions(s, cut, i);
    }
  }

  lemma PoppedStack(s: State, cut: nat, x: nat)
    requires StackOk(s) && s.frames != [] && cut < |s.sccStack|
    requires s.sccStack[cut] == s.frames[|s.frames| - 1].v
    ensures x in s.sccStack[..cut] <==> x in s.sccStack && !InComponent(s, x)
  {
    if x in s.sccStack {
      var i :| 0 <= i < |s.sccStack| && s.sccStack[i] == x;
      ComponentPositions(s, cut, i);
      if i < cut { assert s.sccStack[..cut][i] == x; }
    }
  }

  lemma PoppedIsClosed(g: Digraph, s: State, nodes': seq<NodeState>, cut: nat)
    requires NodesOk(g, s) && StackOk(s) && s.frames != [] && cut < |s.sccStack|
    requires s.sccStack[cut] == s.frames[|s.frames| - 1].v
    requires PoppedDownTo(s.nodes, s.sccStack, cut, s.sccCount, nodes')
    ensures ClosedComponent(s, State(nodes', s.sccStack[..cut], s.frames[..|s.frames| - 1],
                                     s.discovered, s.sccCount + 1))
  {
    hide StackOk, InComponent, PoppedDownTo, NodesOk, PositionOf;
    var s' := State(nodes', s.sccStack[..cut], s.frames[..|s.frames| - 1], s.discovered, s.sccCount + 1);
    StackFits(g, s);
    PoppedLength(s.nodes, s.sccStack, cut, s.sccCount, nodes');
    forall x | 0 <= x < |s.nodes|
      ensures InComponent(s, x) ==>
        nodes'[x].sccId == s.sccCount && !nodes'[x].onStack && nodes'[x].discovery < |s.nodes|
      ensures !InComponent(s, x) ==> nodes'[x] == s.nodes[x]
    {
      PoppedNode(s, cut, s.sccCount, nodes', x);
    }
    forall x, y | InComponent(s, x) && InComponent(s, y) && x != y ensures D(s', x) != D(s', y) {
      PoppedBackwards(s, cut, nodes', x, y);
    }
    forall x: nat ensures x in s.sccStack[..cut] <==> x in s.sccStack && !InComponent(s, x) {
      PoppedStack(s, cut, x);
    }
  }

  lemma StackFits(g: Digraph, s: State)
    requires NodesOk(g, s)
    ensures |s.sccStack| <= |s.nodes|
  {
  }

  lemma PoppedLength(nodes: seq<NodeState>, sccStack: seq<nat>, cut: nat, sccId: nat, nodes': seq<NodeState>)
    requires PoppedDownTo(nodes, sccStack, cut, sccId, nodes')
    ensures |nodes'| == |nodes|
  {
  }

  /** Nodes of the popped component get different positions, the later discovered ones the smaller. */
  lemma PoppedBackwards(s: State, cut: nat, nodes': seq<NodeState>, x: nat, y: nat)
    requires StackOk(s) && s.frames != [] && cut < |s.sccStack| && s.sccStack[cut] == s.frames[|s.frames| - 1].v
    requires PoppedDownTo(s.nodes, s.sccStack, cut, s.sccCount, nodes')
    requires InComponent(s, x) && InComponent(s, y)
    ensures x < |nodes'| && y < |nodes'| && (x != y ==> nodes'[x].discovery != nodes'[y].discovery)
    ensures nodes'[x].discovery > nodes'[y].discovery <==> D(s, x) < D(s, y)
  {
    StackSorted(s, PositionOf(s, x), PositionOf(s, y));
    PoppedNode(s, cut, s.sccCount, nodes', x);
    PoppedNode(s, cut, s.sccCount, nodes', y);
    assert s.sccStack[PositionOf(s, x)] == x && s.sccStack[PositionOf(s, y)] == y;
    hide StackOk;
  }

  lemma StackSorted(s: State, i: nat, j: nat)
    requires StackOk(s) && i < |s.sccStack| && j < |s.sccStack|
    ensures i < j <==> D(s, s.sccStack[i]) < D(s, s.sccStack[j])
  {
  }

  lemma ClosedBackwards(s: State, cut: nat, nodes': seq<NodeState>, s': State)
    requires StackOk(s) && s.frames != [] && cut < |s.sccStack| && s.sccStack[cut] == s.frames[|s.frames| - 1].v
    requires PoppedDownTo(s.nodes, s.sccStack, cut, s.sccCount, nodes') && s'.nodes == nodes'
    ensures Backwards(s, s')
  {
    hide StackOk, InComponent, PoppedDownTo, PositionOf;
    forall x: nat, y: nat | InComponent(s, x) && InComponent(s, y)
      ensures D(s', x) > D(s', y) <==> D(s, x) < D(s, y)
    {
      PoppedBackwards(s, cut, nodes', x, y);
    }
  }

  // ----- the search -----

  ghost predicate LowlinkOnly(nodes: seq<NodeState>, v: nat, nodes': seq<NodeState>) {
    && v < |nodes| == |nodes'|
    && nodes' == nodes[v := nodes[v].(lowlink := nodes'[v].lowlink)]
  }

  /** The top frame of an invariant state is a discovered node with at most all edges examined. */
  lemma TopFrame(g: Digraph, s: State)
    requires Inv(g, s) && s.frames != []
    ensures var top := s.frames[|s.frames| - 1];
      && On(s, top.v) && top.next <= |Succ(g, top.v)| && |s.nodes| == |g.succ|
      && NodeOk(s.nodes[top.v], s.discovered, s.sccCount, |s.nodes|)
  {
    assert On(s, s.frames[|s.frames| - 1].v);
  }

  /** Examines the edges of `v` from `edgeIndex` on, up to the first one to an undiscovered node. */
  method ScanEdges(g: Digraph, ghost s: State, nodes: seq<NodeState>, v: nat, edgeIndex: nat)
    returns (nodes': seq<NodeState>, j: nat, descend: bool, ghost s': State)
    requires g.Valid() && Inv(g, s) && s.nodes == nodes
    requires s.frames != [] && s.frames[|s.frames| - 1] == Frame(v, edgeIndex)
    ensures Inv(g, s') && LowlinkOnly(nodes, v, nodes')
    ensures s' == s.(nodes := nodes', frames := s.frames[..|s.frames| - 1] + [Frame(v, j)])
    ensures edgeIndex <= j <= |Succ(g, v)| && v < |g.succ|
    ensures descend ==> j < |Succ(g, v)| && White(s', Succ(g, v)[j])
    ensures !descend ==> j == |Succ(g, v)|
  {
    hide Inv;
    nodes', j, s', descend := nodes, edgeIndex, s, false;
    ghost var k := |s.frames| - 1;
    TopFrame(g, s);
    assert s.frames == s.frames[..k] + [Frame(v, j)];
    while j < |Succ(g, v)|
      invariant Inv(g, s') && LowlinkOnly(nodes, v, nodes')
      invariant s' == s.(nodes := nodes', frames := s.frames[..k] + [Frame(v, j)])
      invariant edgeIndex <= j <= |Succ(g, v)| && v < |g.succ|
    {
      var w := Succ(g, v)[j];
      assert g.succ[v][j] < |g.succ|;
      if nodes'[w].discovery == UNSET {
        descend := true;
        return;
      }
      ScanInv(g, s');
      s' := Scan(g, s');
      if nodes'[w].onStack && nodes'[w].discovery < nodes'[v].lowlink {
        nodes' := nodes'[v := nodes'[v].(lowlink := nodes'[w].discovery)];
      }
      j := j + 1;
    }
  }

  /** Closing a component leaves the parent's lowlink below the root's, so merging changes nothing. */
  lemma MergeIsNoop(g: Digraph, s: State, s': State)
    requires NodesOk(g, s) && FramesOk(g, s) && CanClose(g, s) && ClosedComponent(s, s') && |s.frames| > 1
    ensures var k := |s.frames| - 1;
      && s.frames[k].v < |s'.nodes| && s.frames[k - 1].v < |s'.nodes|
      && s'.nodes[s.frames[k - 1].v] == s.nodes[s.frames[k - 1].v]
      && s.nodes[s.frames[k - 1].v].lowlink <= s.nodes[s.frames[k].v].lowlink
  {
    var k := |s.frames| - 1;
    var p := s.frames[k - 1].v;
    assert On(s, s.frames[k].v) && On(s, s.frames[k - 1].v);
    assert D(s, s.frames[k - 1].v) < D(s, s.frames[k].v);
    assert NodeOk(s.nodes[p], s.discovered, s.sccCount, |s.nodes|);
  }

  ghost predicate SameWhite(s: State, s': State) {
    forall x :: White(s', x) <==> White(s, x)
  }

  lemma CloseKeepsWhite(g: Digraph, s: State, s': State)
    requires NodesOk(g, s) && ClosedComponent(s, s')
    ensures SameWhite(s, s')
  {
    CloseNodes(g, s, s');
  }

  lemma RetreatKeepsWhite(g: Digraph, s: State)
    requires |s.frames| > 1 && s.frames[|s.frames| - 2].v < |s.nodes|
    ensures SameWhite(s, Retreat(s))
  {
  }

  lemma RootPosition(g: Digraph, s: State, v: nat) returns (cut: nat)
    requires Inv(g, s) && On(s, v)
    ensures Distinct(s.sccStack, |s.nodes|) && cut < |s.sccStack| && s.sccStack[cut] == v
  {
    cut := PositionOf(s, v);
    StackIsDistinct(g, s);
  }

  /** Popping the root's component gives an invariant state, and the merge after it is void. */
  lemma Closing(g: Digraph, s: State, nodes': seq<NodeState>, cut: nat, when: seq<nat>)
    requires Inv(g, s) && CanClose(g, s) && cut < |s.sccStack| && Timed(g, s, when)
    requires s.sccStack[cut] == s.frames[|s.frames| - 1].v
    requires PoppedDownTo(s.nodes, s.sccStack, cut, s.sccCount, nodes')
    ensures var s' := State(nodes', s.sccStack[..cut], s.frames[..|s.frames| - 1], s.discovered, s.sccCount + 1);
      Inv(g, s') && SameWhite(s, s') && |nodes'| == |s.nodes| && Timed(g, s', when)
    ensures |s.frames| > 1 ==>
      var k := |s.frames| - 1;
      && s.frames[k].v < |nodes'| && s.frames[k - 1].v < |nodes'|
      && nodes'[s.frames[k - 1].v].lowlink <= nodes'[s.frames[k].v].lowlink
  {
    hide Inv, Timed, Backwards;
    var s' := State(nodes', s.sccStack[..cut], s.frames[..|s.frames| - 1], s.discovered, s.sccCount + 1);
    InvShape(g, s);
    PoppedIsClosed(g, s, nodes', cut);
    ClosedBackwards(s, cut, nodes', s');
    TimedClose(g, s, s', when);
    PoppedNode(s, cut, s.sccCount, nodes', s.frames[|s.frames| - 1].v);
    CloseInv(g, s, s');
    CloseKeepsWhite(g, s, s');
    if |s.frames| > 1 { MergeIsNoop(g, s, s'); }
  }

  lemma InvShape(g: Digraph, s: State)
    requires Inv(g, s)
    ensures Shape(g, s)
  {
  }

  /** Leaves node `v`, whose edges have all been examined: closes its component if `v` is the
      root, and hands its lowlink to the frame below. */
  method LeaveNode(g: Digraph, ghost s: State, nodes: seq<NodeState>, sccStack: seq<nat>, sccId: nat,
                   v: nat, recursionStack: seq<Frame>, ghost when: seq<nat>)
    returns (nodes': seq<NodeState>, sccStack': seq<nat>, sccId': nat, ghost s': State)
    requires Inv(g, s) && s == State(nodes, sccStack, s.frames, s.discovered, sccId) && Timed(g, s, when)
    requires s.frames == recursionStack + [Frame(v, |Succ(g, v)|)] && v < |nodes|
    ensures Inv(g, s') && s' == State(nodes', sccStack', recursionStack, s.discovered, sccId')
    ensures |nodes'| == |nodes| && SameWhite(s, s') && Timed(g, s', when)
  {
    hide Inv, Timed;
    nodes', sccStack', sccId' := nodes, sccStack, sccId;
    ghost var k := |s.frames| - 1;
    assert s.frames[k] == Frame(v, |Succ(g, v)|) && s.frames[..k] == recursionStack;
    TopFrame(g, s);
    if nodes[v].discovery == nodes[v].lowlink {
      ghost var cut := RootPosition(g, s, v);
      nodes', sccStack' := PopComponent(nodes, sccStack, v, sccId, cut);
      sccId' := sccId + 1;
      s' := State(nodes', sccStack', recursionStack, s.discovered, sccId');
      Closing(g, s, nodes', cut, when);
    } else {
      RetreatInv(g, s);
      RetreatKeepsWhite(g, s);
      TimedKept(g, s, Retreat(s), when);
      s' := Retreat(s);
    }
    if recursionStack != [] {
      var w := recursionStack[|recursionStack| - 1].v;
      assert w == s.frames[k - 1].v;
      if nodes'[v].lowlink < nodes'[w].lowlink {
        nodes' := nodes'[w := nodes'[w].(lowlink := nodes'[v].lowlink)];
      }
    }
  }

  /** The recursion stack holds the open frames, and on top possibly a node to be discovered. */
  ghost predicate AtHead(g: Digraph, s: State, recursionStack: seq<Frame>) {
    && recursionStack != []
    && var k := |recursionStack| - 1;
       if recursionStack[k].next == 0 then
         CanDiscover(g, s, recursionStack[k].v) && Discover(s, recursionStack[k].v).frames == recursionStack
       else
         s.frames == recursionStack
  }

  ghost function Pending(recursionStack: seq<Frame>): nat {
    if recursionStack != [] && recursionStack[|recursionStack| - 1].next == 0 then 1 else 0
  }

  lemma WhiteLeft(g: Digraph, s: State, w: nat)
    requires NodesOk(g, s) && White(s, w)
    ensures s.discovered < |s.nodes|
  {
    SetBound(Seen(s) + {w}, |s.nodes|);
  }

  /** Without open frames nothing is on the stack. */
  lemma NoFrames(g: Digraph, s: State)
    requires NodesOk(g, s) && StackToFrame(g, s) && s.frames == []
    ensures forall x :: 0 <= x < |s.nodes| && !White(s, x) ==> Assigned(s, x)
  {
    forall x | 0 <= x < |s.nodes| && !White(s, x) ensures Assigned(s, x) {
      assert NodeOk(s.nodes[x], s.discovered, s.sccCount, |s.nodes|);
      assert On(s, x) ==> ReachesFrame(g, s, x);
    }
  }

  /** Every node is in exactly one component: ids agree exactly on mutually reachable nodes, edges
      never lead to a later id, and positions inside a component are distinct. */
  ghost predicate ComponentsOf(g: Digraph, nodes: seq<NodeState>) {
    && |nodes| == |g.succ|
    && (forall x, y :: 0 <= x < |nodes| && 0 <= y < |nodes| ==>
          (nodes[x].sccId == nodes[y].sccId <==> Mutual(g, x, y)))
    && (forall x, y :: 0 <= x < |nodes| && 0 <= y < |nodes| && Edge(g, x, y) ==>
          nodes[y].sccId <= nodes[x].sccId)
    && (forall x, y :: 0 <= x < |nodes| && 0 <= y < |nodes| && x != y && nodes[x].sccId == nodes[y].sccId ==>
          nodes[x].discovery != nodes[y].discovery)
  }

  lemma AllAssigned(g: Digraph, s: State)
    requires NodesOk(g, s) && Closed(g, s) && Components(g, s)
    requires forall x :: 0 <= x < |s.nodes| ==> Assigned(s, x)
    ensures ComponentsOf(g, s.nodes)
  {
    forall x, y | 0 <= x < |s.nodes| && 0 <= y < |s.nodes|
      ensures Id(s, x) == Id(s, y) <==> Mutual(g, x, y)
      ensures Edge(g, x, y) ==> Id(s, y) <= Id(s, x)
      ensures x != y && Id(s, x) == Id(s, y) ==> D(s, x) != D(s, y)
    {
      assert Assigned(s, x) && Assigned(s, y);
    }
  }

  /** Every node below `nextV` is discovered or just about to be. */
  ghost predicate VisitedBelow(s: State, recursionStack: seq<Frame>, nextV: nat) {
    forall x :: 0 <= x < nextV ==> !White(s, x) || recursionStack == [Frame(x, 0)]
  }

  ghost predicate AllVisitedBelow(s: State, nextV: nat) {
    forall x :: 0 <= x < nextV ==> !White(s, x)
  }

  /** Without open frames the waiting node is the smallest undiscovered one. */
  lemma StartsInTurn(g: Digraph, s: State, recursionStack: seq<Frame>, nextV: nat, v: nat)
    requires s.frames == [] && v < |s.nodes| && Discover(s, v).frames == recursionStack
    requires VisitedBelow(s, recursionStack, nextV) && recursionStack[0].v < nextV
    ensures forall u :: 0 <= u < v ==> !White(s, u)
  {
    forall u | 0 <= u < v ensures !White(s, u) {
      assert recursionStack[0] == Frame(v, 0);
    }
  }

  /** Discovering the waiting node keeps the invariant and leaves nothing below `nextV` undiscovered. */
  lemma Entering(g: Digraph, s: State, recursionStack: seq<Frame>, nextV: nat, when: seq<nat>, v: nat)
    requires Inv(g, s) && CanDiscover(g, s, v) && Discover(s, v).frames == recursionStack
    requires VisitedBelow(s, recursionStack, nextV) && Timed(g, s, when) && recursionStack[0].v < nextV
    ensures Inv(g, Discover(s, v)) && Timed(g, Discover(s, v), when[v := s.discovered])
    ensures AllVisitedBelow(Discover(s, v), nextV)
    ensures |when| == |s.nodes| && s.nodes[v] == FRESH
  {
    hide Inv, Timed, Shape;
    TimedSize(g, s, when);
    InvShape(g, s);
    DiscoverInv(g, s, v);
    if s.frames == [] {
      StartsInTurn(g, s, recursionStack, nextV, v);
    }
    TimedDiscover(g, s, when, v);
    WaitingNode(g, s, v);
    hide Discover;
    forall x | 0 <= x < nextV ensures !White(Discover(s, v), x) {
      DiscoverWhite(g, s, v, x);
    }
  }

  lemma WaitingNode(g: Digraph, s: State, v: nat)
    requires Shape(g, s) && White(s, v)
    ensures s.nodes[v] == FRESH
  {
    assert NodeOk(s.nodes[v], s.discovered, s.sccCount, |s.nodes|);
  }

  lemma DiscoverWhite(g: Digraph, s: State, v: nat, x: nat)
    requires Shape(g, s) && White(s, v)
    ensures White(Discover(s, v), x) <==> White(s, x) && x != v
    ensures Discover(s, v).frames[|Discover(s, v).frames| - 1] == Frame(v, 0)
  {
    DiscoverFrame(g, s, v, x);
  }

  /** Pops the top of the recursion stack and discovers its node if that has not happened yet. */
  method EnterNode(g: Digraph, ghost s: State, nodes: seq<NodeState>, sccStack: seq<nat>, discovered: nat,
                   recursionStack: seq<Frame>, ghost nextV: nat, ghost when: seq<nat>)
    returns (nodes': seq<NodeState>, sccStack': seq<nat>, discovered': nat, ghost s': State, ghost when': seq<nat>)
    requires Inv(g, s) && AtHead(g, s, recursionStack) && VisitedBelow(s, recursionStack, nextV)
    requires Timed(g, s, when) && recursionStack[0].v < nextV
    requires s == State(nodes, sccStack, s.frames, discovered, s.sccCount)
    ensures Inv(g, s') && s' == State(nodes', sccStack', recursionStack, discovered', s.sccCount)
    ensures Timed(g, s', when') && AllVisitedBelow(s', nextV)
    ensures discovered' == discovered + Pending(recursionStack)
  {
    hide Inv, Timed, Bumped;
    nodes', sccStack', discovered', s', when' := nodes, sccStack, discovered, s, when;
    var v := recursionStack[|recursionStack| - 1].v;
    if recursionStack[|recursionStack| - 1].next == 0 {
      Entering(g, s, recursionStack, nextV, when, v);
      s', when' := Discover(s, v), when[v := discovered];
      nodes' := nodes[v := nodes[v].(discovery := discovered, lowlink := discovered, onStack := true)];
      sccStack' := sccStack + [v];
      discovered' := discovered + 1;
    }
  }

  lemma DescendHead(g: Digraph, s: State, v: nat, j: nat)
    requires Inv(g, s) && s.frames != [] && s.frames[|s.frames| - 1] == Frame(v, j)
    requires j < |Succ(g, v)| && White(s, Succ(g, v)[j])
    ensures AtHead(g, s, s.frames[..|s.frames| - 1] + [Frame(v, j + 1)] + [Frame(Succ(g, v)[j], 0)])
    ensures s.discovered < |s.nodes|
  {
    hide Inv, NodesOk, StackOk, FramesOk, White;
    InvShape(g, s);
    WhiteLeft(g, s, Succ(g, v)[j]);
    InGraph(g, s, Succ(g, v)[j]);
    assert Bumped(s) == s.frames[..|s.frames| - 1] + [Frame(v, j + 1)];
  }

  lemma InGraph(g: Digraph, s: State, w: nat)
    requires White(s, w)
    ensures w < |s.nodes|
  {
  }

  lemma RootHead(g: Digraph, s: State, v: nat)
    requires Inv(g, s) && s.frames == [] && White(s, v)
    ensures AtHead(g, s, [Frame(v, 0)]) && s.discovered < |s.nodes|
  {
    hide Inv;
    InvShape(g, s);
    WhiteLeft(g, s, v);
  }

  lemma ScanKeepsVisited(s: State, v: nat, s': State, nextV: nat)
    requires AllVisitedBelow(s, nextV) && LowlinkOnly(s.nodes, v, s'.nodes)
    ensures AllVisitedBelow(s', nextV)
  {
    forall x | 0 <= x < nextV ensures !White(s', x) {
      assert !White(s, x);
    }
  }

  lemma LeaveKeepsVisited(s: State, s': State, nextV: nat)
    requires AllVisitedBelow(s, nextV) && SameWhite(s, s')
    ensures AllVisitedBelow(s', nextV)
  {
  }

  /** Every frame has an examined edge. */
  ghost predicate Started(frames: seq<Frame>) {
    forall i :: 0 <= i < |frames| ==> frames[i].next > 0
  }

  lemma ResumeHead(g: Digraph, s: State)
    requires Started(s.frames) && s.frames != []
    ensures AtHead(g, s, s.frames) && Pending(s.frames) == 0
  {
  }

  lemma VisitedSoFar(s: State, recursionStack: seq<Frame>, nextV: nat)
    requires AllVisitedBelow(s, nextV)
    ensures VisitedBelow(s, recursionStack, nextV)
    ensures nextV < |s.nodes| && s.nodes[nextV].discovery != UNSET ==> AllVisitedBelow(s, nextV + 1)
    ensures VisitedBelow(s, [Frame(nextV, 0)], nextV + 1)
  {
  }

  lemma Finished(g: Digraph, s: State, when: seq<nat>)
    requires Inv(g, s) && s.frames == [] && AllVisitedBelow(s, |s.nodes|) && Timed(g, s, when)
    ensures ComponentsOf(g, s.nodes) && DiscoveryTimes(g, when) && PositionsByTime(s.nodes, when)
  {
    hide Timed;
    NoFrames(g, s);
    TimesAtLast(g, s, when);
    AllAssigned(g, s);
  }

  /** What holds at the head of the search loop */
  ghost predicate Ready(g: Digraph, s: State, recursionStack: seq<Frame>, nextV: nat, when: seq<nat>) {
    && Inv(g, s) && AtHead(g, s, recursionStack) && VisitedBelow(s, recursionStack, nextV)
    && Timed(g, s, when) && recursionStack[0].v < nextV
    && Started(recursionStack[..|recursionStack| - 1])
    && s.discovered + Pending(recursionStack) <= |g.succ| == |s.nodes|
  }

  /** What holds when a whole search tree has been left */
  ghost predicate Idle(g: Digraph, s: State, nextV: nat, when: seq<nat>) {
    && Inv(g, s) && s.frames == [] && AllVisitedBelow(s, nextV) && s.discovered <= |g.succ| == |s.nodes|
    && Timed(g, s, when)
  }

  ghost predicate Progress(d: nat, r: seq<Frame>, d': nat, r': seq<Frame>) {
    || d' + Pending(r') > d + Pending(r)
    || (d' + Pending(r') == d + Pending(r) && Pending(r') < Pending(r))
    || (d' + Pending(r') == d + Pending(r) && Pending(r') == Pending(r) && |r'| < |r|)
  }

  lemma InvBounds(g: Digraph, s: State)
    requires Inv(g, s)
    ensures g.Valid() && s.discovered <= |g.succ| == |s.nodes|
  {
  }

  /** One turn of the search loop, up to the point where the recursion stack may be empty. */
  method VisitTop(g: Digraph, ghost s: State, nodes: seq<NodeState>, sccStack: seq<nat>, discovered: nat,
                  sccId: nat, recursionStack: seq<Frame>, ghost nextV: nat, ghost when: seq<nat>)
    returns (nodes': seq<NodeState>, sccStack': seq<nat>, discovered': nat, sccId': nat,
             recursionStack': seq<Frame>, ghost s': State, ghost when': seq<nat>)
    requires recursionStack != [] && Ready(g, s, recursionStack, nextV, when)
    requires s == State(nodes, sccStack, s.frames, discovered, sccId)
    ensures s' == State(nodes', sccStack', s'.frames, discovered', sccId')
    ensures recursionStack' != [] ==> Ready(g, s', recursionStack', nextV, when')
    ensures recursionStack' == [] ==> Idle(g, s', nextV, when')
    ensures Progress(discovered, recursionStack, discovered', recursionStack')
  {
    hide Inv, AtHead, VisitedBelow, AllVisitedBelow, NodesOk, White, Timed;
    var top := recursionStack[|recursionStack| - 1];
    var v, edgeIndex := top.v, top.next;
    nodes', sccStack', discovered', s', when' :=
      EnterNode(g, s, nodes, sccStack, discovered, recursionStack, nextV, when);
    recursionStack' := recursionStack[..|recursionStack| - 1];
    sccId' := sccId;
    InvBounds(g, s');
    ghost var entered := s';
    var j, descend;
    nodes', j, descend, s' := ScanEdges(g, s', nodes', v, edgeIndex);
    ScanKeepsVisited(entered, v, s', nextV);
    TimedKept(g, entered, s', when');
    assert s'.frames[..|s'.frames| - 1] == recursionStack';
    if descend {
      DescendHead(g, s', v, j);
      recursionStack' := recursionStack' + [Frame(v, j + 1)] + [Frame(Succ(g, v)[j], 0)];
      VisitedSoFar(s', recursionStack', nextV);
    } else {
      nodes', sccStack', sccId', s' := LeaveTop(g, s', nodes', sccStack', sccId', v, recursionStack', nextV, when');
    }
  }

  /** Leaves a node whose edges are all examined. */
  method LeaveTop(g: Digraph, ghost s: State, nodes: seq<NodeState>, sccStack: seq<nat>, sccId: nat, v: nat,
                  recursionStack: seq<Frame>, ghost nextV: nat, ghost when: seq<nat>)
    returns (nodes': seq<NodeState>, sccStack': seq<nat>, sccId': nat, ghost s': State)
    requires Inv(g, s) && s == State(nodes, sccStack, s.frames, s.discovered, sccId) && AllVisitedBelow(s, nextV)
    requires s.frames == recursionStack + [Frame(v, |Succ(g, v)|)] && v < |nodes| && Started(recursionStack)
    requires Timed(g, s, when) && s.frames[0].v < nextV
    ensures s' == State(nodes', sccStack', s'.frames, s.discovered, sccId')
    ensures recursionStack != [] ==> Ready(g, s', recursionStack, nextV, when)
    ensures recursionStack == [] ==> Idle(g, s', nextV, when)
    ensures Pending(recursionStack) == 0
  {
    hide Inv, AtHead, VisitedBelow, AllVisitedBelow, NodesOk, White, Timed;
    nodes', sccStack', sccId', s' := LeaveNode(g, s, nodes, sccStack, sccId, v, recursionStack, when);
    LeaveKeepsVisited(s, s', nextV);
    InvBounds(g, s');
    if recursionStack != [] {
      ResumeHead(g, s');
      VisitedSoFar(s', recursionStack, nextV);
    }
  }

  /** Tarjan's search with an explicit recursion stack; `when` tells when each node was discovered. */
  method FindComponents(g: Digraph) returns (nodes: seq<NodeState>, ghost when: seq<nat>)
    requires g.Valid() && |g.succ| < UNSET
    ensures ComponentsOf(g, nodes) && DiscoveryTimes(g, when) && PositionsByTime(nodes, when)
  {
    nodes := seq(|g.succ|, _ => FRESH);
    when := seq(|g.succ|, _ => UNSET);
    if |g.succ| == 0 {
      return;
    }
    var sccId := 0;
    var sccStack: seq<nat> := [];
    var discovered := 0;
    var nextV := 1;
    var recursionStack := [Frame(0, 0)];
    ghost var s := Initial(|g.succ|);
    Start(g);
    while recursionStack != []
      invariant recursionStack != [] && Ready(g, s, recursionStack, nextV, when)
      invariant 0 <= discovered && s == State(nodes, sccStack, s.frames, discovered, sccId)
      invariant nextV <= |nodes|
      decreases |g.succ| - discovered - Pending(recursionStack), Pending(recursionStack), |recursionStack|
    {
      ReadyBound(g, s, recursionStack, nextV, when);
      nodes, sccStack, discovered, sccId, recursionStack, s, when :=
        VisitTop(g, s, nodes, sccStack, discovered, sccId, recursionStack, nextV, when);
      if recursionStack == [] {
        while nextV < |nodes| && nodes[nextV].discovery != UNSET
          invariant nextV <= |nodes|
          invariant Idle(g, s, nextV, when)
        {
          VisitedSoFar(s, [], nextV);
          nextV := nextV + 1;
        }
        if nextV == |nodes| {
          Finished(g, s, when);
          break;
        }
        RootHead(g, s, nextV);
        VisitedSoFar(s, [], nextV);
        recursionStack := [Frame(nextV, 0)];
        nextV := nextV + 1;
      }
    }
  }

  lemma Start(g: Digraph)
    requires g.Valid() && 0 < |g.succ| < UNSET
    ensures Ready(g, Initial(|g.succ|), [Frame(0, 0)], 1, seq(|g.succ|, _ => UNSET))
  {
    hide Inv, Timed;
    InitialInv(g);
    TimedAtFirst(g, |g.succ|);
    RootHead(g, Initial(|g.succ|), 0);
  }

  lemma ReadyBound(g: Digraph, s: State, recursionStack: seq<Frame>, nextV: nat, when: seq<nat>)
    requires Ready(g, s, recursionStack, nextV, when)
    ensures s.discovered + Pending(recursionStack) <= |g.succ| == |s.nodes|
  {
  }
}
