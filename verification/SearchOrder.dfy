/** When the component search discovers each node, and what the positions in a component mean by it. */
module SearchOrder {
  import opened Graph
  import opened Tarjan

  /** `v` started a search after all smaller nodes, or was found over an edge from a node found before it. */
  ghost predicate FoundInTurn(g: Digraph, when: seq<nat>, v: nat) {
    v < |when| &&
    (|| (forall u :: 0 <= u < v ==> when[u] < when[v])
     || (exists p :: 0 <= p < |when| && Edge(g, p, v) && when[p] < when[v]))
  }

  /** The search discovers one node at each time, and every node in turn. */
  ghost predicate DiscoveryTimes(g: Digraph, when: seq<nat>) {
    && |when| == |g.succ|
    && (forall x :: 0 <= x < |when| ==> when[x] < |when| && FoundInTurn(g, when, x))
    && (forall x, y :: 0 <= x < y < |when| ==> when[x] != when[y])
  }

  /** In each component the greater position belongs to the node discovered earlier. */
  ghost predicate PositionsByTime(nodes: seq<NodeState>, when: seq<nat>) {
    && |when| == |nodes|
    && forall x, y :: 0 <= x < |nodes| && 0 <= y < |nodes| && nodes[x].sccId == nodes[y].sccId ==>
         (nodes[x].discovery > nodes[y].discovery <==> when[x] < when[y])
  }

  // ----- during the search -----

  /** The clock of undiscovered nodes has not been read yet. */
  ghost predicate Timed(g: Digraph, s: State, when: seq<nat>) {
    && |when| == |s.nodes|
    && (forall x :: 0 <= x < |when| ==> if White(s, x) then when[x] == UNSET else when[x] < s.discovered)
    && (forall x: nat :: On(s, x) ==> when[x] == D(s, x))
    && (forall x, y :: 0 <= x < y < |when| && !White(s, x) && !White(s, y) ==> when[x] != when[y])
    && (forall x :: 0 <= x < |when| && !White(s, x) ==> FoundInTurn(g, when, x))
    && (forall x: nat, y: nat :: Assigned(s, x) && Assigned(s, y) && Id(s, x) == Id(s, y) ==>
          (D(s, x) > D(s, y) <==> when[x] < when[y]))
  }

  lemma TimedAtFirst(g: Digraph, n: nat)
    ensures Timed(g, Initial(n), seq(n, _ => UNSET))
  {
  }

  lemma TimedSize(g: Digraph, s: State, when: seq<nat>)
    requires Timed(g, s, when)
    ensures |when| == |s.nodes|
  {
  }

  lemma TimedDiscover(g: Digraph, s: State, when: seq<nat>, w: nat)
    requires Shape(g, s) && Timed(g, s, when) && CanDiscover(g, s, w)
    requires s.frames == [] ==> forall u :: 0 <= u < w ==> !White(s, u)
    ensures Timed(g, Discover(s, w), when[w := s.discovered])
  {
    hide NodesOk, StackOk, NodeOk, Bumped, White, On, Assigned, D, Low, Id, FoundInTurn, Edge;
    WhiteInside(s, w);
    DiscoverIsDiscovered(g, s, w);
    var s', when' := Discover(s, w), when[w := s.discovered];
    FewerThanUnset(g, s);
    assert |s'.nodes| == |s.nodes| && s'.discovered == s.discovered + 1;
    hide Discover;
    forall x | 0 <= x < |when| && !White(s', x) ensures FoundInTurn(g, when', x) {
      if x != w {
        StillInTurn(g, when, w, s.discovered, x);
      } else if s.frames != [] {
        OverEdge(g, when', s.frames[|s.frames| - 1].v, w, s.frames[|s.frames| - 1].next);
      } else {
        FromStart(g, when', w);
      }
    }
  }

  lemma FewerThanUnset(g: Digraph, s: State)
    requires NodesOk(g, s)
    ensures s.discovered <= |s.nodes| < UNSET
    ensures forall x: nat :: On(s, x) ==> !White(s, x)
  {
    forall x: nat | On(s, x) ensures !White(s, x) {
      assert NodeOk(s.nodes[x], s.discovered, s.sccCount, |s.nodes|);
    }
  }

  lemma WhiteInside(s: State, w: nat)
    requires White(s, w)
    ensures w < |s.nodes|
    ensures forall x: nat :: On(s, x) || Assigned(s, x) ==> x < |s.nodes|
  {
  }

  lemma OverEdge(g: Digraph, when: seq<nat>, p: nat, w: nat, j: nat)
    requires w < |when| && p < |when| && when[p] < when[w] && j < |Succ(g, p)| && Succ(g, p)[j] == w
    ensures FoundInTurn(g, when, w)
  {
    assert Edge(g, p, w);
  }

  lemma FromStart(g: Digraph, when: seq<nat>, w: nat)
    requires w < |when| && forall u :: 0 <= u < w ==> when[u] < when[w]
    ensures FoundInTurn(g, when, w)
  {
  }

  /** A later discovery does not disturb `x`. */
  lemma StillInTurn(g: Digraph, when: seq<nat>, w: nat, t: nat, x: nat)
    requires w < |when| && FoundInTurn(g, when, x) && x != w && when[x] < t <= when[w]
    ensures FoundInTurn(g, when[w := t], x)
  {
    if exists p :: 0 <= p < |when| && Edge(g, p, x) && when[p] < when[x] {
      var p :| 0 <= p < |when| && Edge(g, p, x) && when[p] < when[x];
      assert when[w := t][p] == when[p];
    }
  }

  /** Only lowlinks and frames change. */
  ghost predicate OnlyLowlinks(s: State, s': State) {
    && |s'.nodes| == |s.nodes| && s'.discovered == s.discovered
    && forall x :: 0 <= x < |s.nodes| ==> s'.nodes[x] == s.nodes[x].(lowlink := s'.nodes[x].lowlink)
  }

  lemma TimedKept(g: Digraph, s: State, s': State, when: seq<nat>)
    requires Timed(g, s, when) && OnlyLowlinks(s, s')
    ensures Timed(g, s', when)
  {
    forall x: nat
      ensures White(s', x) == White(s, x) && On(s', x) == On(s, x) && Assigned(s', x) == Assigned(s, x)
      ensures D(s', x) == D(s, x) && Id(s', x) == Id(s, x)
    {
    }
    hide White, On, Assigned, D, Id, FoundInTurn, OnlyLowlinks;
  }

  /** The positions of a closed component run against the discovery numbers. */
  ghost predicate Backwards(s: State, s': State) {
    forall x: nat, y: nat :: InComponent(s, x) && InComponent(s, y) ==> (D(s', x) > D(s', y) <==> D(s, x) < D(s, y))
  }

  lemma TimedClose(g: Digraph, s: State, s': State, when: seq<nat>)
    requires NodesOk(g, s) && ClosedComponent(s, s') && Backwards(s, s') && Timed(g, s, when)
    ensures Timed(g, s', when)
  {
    CloseNodes(g, s, s');
    hide White, On, Assigned, D, Id, FoundInTurn, NodesOk, NodeOk, ClosedComponent;
    assert |s'.nodes| == |s.nodes| && s'.discovered == s.discovered by { ClosedSize(s, s'); }
    forall x: nat, y: nat | Assigned(s', x) && Assigned(s', y) && Id(s', x) == Id(s', y)
      ensures D(s', x) > D(s', y) <==> when[x] < when[y]
    {
      if InComponent(s, x) {
        assert InComponent(s, y) && On(s, x) && On(s, y);
      } else {
        assert !InComponent(s, y) && Assigned(s, x) && Assigned(s, y);
      }
    }
  }

  lemma ClosedSize(s: State, s': State)
    requires ClosedComponent(s, s')
    ensures |s'.nodes| == |s.nodes| && s'.discovered == s.discovered
    ensures forall x: nat :: Assigned(s', x) ==> x < |s.nodes|
  {
  }

  lemma TimesAtLast(g: Digraph, s: State, when: seq<nat>)
    requires NodesOk(g, s) && Timed(g, s, when) && forall x :: 0 <= x < |s.nodes| ==> Assigned(s, x)
    ensures DiscoveryTimes(g, when) && PositionsByTime(s.nodes, when)
  {
    forall x | 0 <= x < |s.nodes| ensures !White(s, x) {
      assert Assigned(s, x) && NodeOk(s.nodes[x], s.discovered, s.sccCount, |s.nodes|);
    }
    forall x, y | 0 <= x < |s.nodes| && 0 <= y < |s.nodes| && s.nodes[x].sccId == s.nodes[y].sccId
      ensures s.nodes[x].discovery > s.nodes[y].discovery <==> when[x] < when[y]
    {
      assert Assigned(s, x) && Assigned(s, y) && Id(s, x) == Id(s, y);
    }
  }
}
