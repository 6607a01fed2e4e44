/** What the mutations of class Graph promise about each other and about the
    well-formedness invariant. */
module GraphInvariants {
  import opened Wrappers
  import opened Adjacency
  import opened GraphState
  import opened GraphOps

  /** A click where a node was just created finds a node: the node an
      earlier click there would have found, or else the new one. */
  lemma AddNodeFound(g: Graph, p: Point)
    ensures NodeAt(AddNode(g, p).graph, p).Some?
    ensures NodeAt(g, p).Some? ==> NodeAt(AddNode(g, p).graph, p) == NodeAt(g, p)
    ensures NodeAt(g, p).None? ==> NodeAt(AddNode(g, p).graph, p) == Some(AddNode(g, p).id)
  {
    var r := AddNode(g, p);
    assert r.graph.nodes == g.nodes + [NewNode(r.id, p)];
    assert Hit(NewNode(r.id, p), p);
    FirstHitAppend(g.nodes, NewNode(r.id, p), p);
  }

  /** hasEdge does not care about orientation. */
  lemma HasEdgeSymmetric(g: Graph, a: int, b: int)
    ensures HasEdge(g, a, b) == HasEdge(g, b, a)
  {
    if HasEdge(g, a, b) {
      var k :| 0 <= k < |g.edges| && Joins(g.edges[k], a, b);
      assert Joins(g.edges[k], b, a);
    }
    if HasEdge(g, b, a) {
      var k :| 0 <= k < |g.edges| && Joins(g.edges[k], b, a);
      assert Joins(g.edges[k], a, b);
    }
  }

  /** In a well-formed graph an edge record exists exactly when both
      endpoints list each other. */
  lemma EdgeIffMirrored(g: Graph, a: int, b: int)
    requires WF(g)
    ensures HasEdge(g, a, b) <==> b in Nbrs(g, a) && a in Nbrs(g, b)
  {
    if HasEdge(g, a, b) {
      var k :| 0 <= k < |g.edges| && Joins(g.edges[k], a, b);
      assert g.edges[k].b in Nbrs(g, g.edges[k].a);
    }
  }

  /** Without an edge record neither endpoint lists the other. */
  lemma UnjoinedUnlisted(g: Graph, a: int, b: int)
    requires WF(g) && !HasEdge(g, a, b)
    ensures b !in Nbrs(g, a) && a !in Nbrs(g, b)
  {
    HasEdgeSymmetric(g, a, b);
  }

  /** The empty graph is well formed. */
  lemma ClearWF(g: Graph)
    ensures WF(Clear(g))
  {
    var c := Clear(g);
    forall v ensures Nbrs(c, v) == [] { }
  }

  lemma {:induction false} NeighborsOfAppend(nodes: seq<Node>, n: Node, x: int)
    ensures NeighborsOf(nodes + [n], x)
         == if x in IdSet(nodes) then NeighborsOf(nodes, x) else if x == n.id then n.neighbors else []
    decreases |nodes|
  {
    if |nodes| == 0 {
      assert ([] + [n])[1..] == [];
    } else {
      assert (nodes + [n])[1..] == nodes[1..] + [n];
      NeighborsOfAppend(nodes[1..], n, x);
      assert nodes[0].id in IdSet(nodes);
      assert IdSet(nodes) == {nodes[0].id} + IdSet(nodes[1..]) by {
        forall u | u in IdSet(nodes) ensures u in {nodes[0].id} + IdSet(nodes[1..]) {
          var j :| 0 <= j < |nodes| && nodes[j].id == u;
          if j > 0 { assert nodes[1..][j-1].id == u; }
        }
        forall u | u in IdSet(nodes[1..]) ensures u in IdSet(nodes) {
          var j :| 0 <= j < |nodes[1..]| && nodes[1..][j].id == u;
          assert nodes[j+1].id == u;
        }
      }
    }
  }

  lemma IdSetAppend(nodes: seq<Node>, n: Node)
    ensures IdSet(nodes + [n]) == IdSet(nodes) + {n.id}
  {
    var s := nodes + [n];
    assert s[|nodes|].id == n.id;
    forall u | u in IdSet(nodes) ensures u in IdSet(s) {
      var j :| 0 <= j < |nodes| && nodes[j].id == u;
      assert s[j].id == u;
    }
  }

  /** addNode gives out a fresh id, keeps every other node's list and keeps
      the graph well formed. */
  lemma AddNodeWF(g: Graph, p: Point)
    requires WF(g)
    ensures var r := AddNode(g, p);
      && r.id !in Ids(g)
      && Ids(r.graph) == Ids(g) + {r.id}
      && Nbrs(r.graph, r.id) == []
      && (forall v :: v != r.id ==> Nbrs(r.graph, v) == Nbrs(g, v))
      && WF(r.graph)
  {
    var r := AddNode(g, p);
    var n := NewNode(g.nextId, p);
    assert r.graph.nodes == g.nodes + [n];
    IdSetAppend(g.nodes, n);
    assert r.id !in Ids(g);
    forall v ensures Nbrs(r.graph, v) == (if v == r.id then [] else Nbrs(g, v)) {
      NeighborsOfAppend(g.nodes, n, v);
      if v !in Ids(g) { NeighborsAbsent(g.nodes, v); }
    }
    assert IdsBelow(r.graph.nodes, r.graph.nextId);
    AddNodeKeepsWF(g, r.graph, r.id);
  }

  lemma AddNodeKeepsWF(g: Graph, r: Graph, id: int)
    requires WF(g) && id !in Ids(g)
    requires IdsBelow(r.nodes, r.nextId) && Ids(r) == Ids(g) + {id} && r.edges == g.edges
    requires forall x :: Nbrs(r, x) == if x == id then [] else Nbrs(g, x)
    ensures WF(r)
  {
    assert ListsClean(r) by {
      forall v ensures NoDup(Nbrs(r, v)) && v !in Nbrs(r, v) {
        assert NoDup(Nbrs(g, v)) && v !in Nbrs(g, v);
      }
    }
    assert Mirrored(r) by {
      forall v, w | w in Nbrs(r, v) ensures w in Ids(r) && v in Nbrs(r, w) && HasEdge(r, v, w) {
        assert v != id && w in Nbrs(g, v);
        assert w in Ids(g) && v in Nbrs(g, w) && HasEdge(g, v, w);
      }
    }
    assert EdgesListed(r) by {
      forall k | 0 <= k < |r.edges| ensures r.edges[k].b in Nbrs(r, r.edges[k].a) {
        var e := g.edges[k];
        assert e.b in Nbrs(g, e.a);
        assert e.a in Nbrs(g, e.b);
        assert e.a != id;
      }
    }
  }

  /** After clear, the next node gets id 0 and the graph is a single isolated node. */
  lemma ClearThenAddNode(g: Graph, p: Point)
    ensures var r := AddNode(Clear(g), p);
      && r.id == 0 && Ids(r.graph) == {0} && |r.graph.edges| == 0 && WF(r.graph)
  {
    ClearWF(g);
    AddNodeWF(Clear(g), p);
  }

  /** pop_nodes undoes addNode, except that the id counter is not rewound. */
  lemma PopAfterAdd(g: Graph, p: Point)
    ensures PopNodes(AddNode(g, p).graph) == g.(nextId := g.nextId + 1)
  {
    var r := AddNode(g, p).graph;
    assert r.nodes[..|r.nodes| - 1] == g.nodes;
  }

  /** Lookups after pop_nodes: the removed id has no list, the others keep theirs. */
  lemma NbrsAfterPop(g: Graph, x: int)
    requires WF(g) && |g.nodes| > 0
    ensures var last := g.nodes[|g.nodes| - 1];
      Nbrs(PopNodes(g), x) == if x == last.id then [] else Nbrs(g, x)
  {
    var init := g.nodes[..|g.nodes| - 1];
    var last := g.nodes[|g.nodes| - 1];
    assert g.nodes == init + [last];
    NeighborsOfAppend(init, last, x);
    if x !in IdSet(init) {
      NeighborsAbsent(init, x);
    }
    if x == last.id {
      forall i | 0 <= i < |init| ensures init[i].id != x {
        assert g.nodes[i].id < g.nodes[|g.nodes| - 1].id;
      }
    }
  }

  lemma IdsAfterPop(g: Graph)
    requires WF(g) && |g.nodes| > 0
    ensures Ids(PopNodes(g)) == Ids(g) - {g.nodes[|g.nodes| - 1].id}
  {
    var init := g.nodes[..|g.nodes| - 1];
    var last := g.nodes[|g.nodes| - 1];
    assert g.nodes == init + [last];
    IdSetAppend(init, last);
    forall i | 0 <= i < |init| ensures init[i].id != last.id {
      assert g.nodes[i].id < g.nodes[|g.nodes| - 1].id;
    }
  }

  /** Popping an isolated node keeps the graph well formed. */
  lemma PopIsolatedWF(g: Graph)
    requires WF(g) && |g.nodes| > 0 && g.nodes[|g.nodes| - 1].neighbors == []
    ensures WF(PopNodes(g))
    ensures Ids(PopNodes(g)) == Ids(g) - {g.nodes[|g.nodes| - 1].id}
  {
    var r := PopNodes(g);
    var last := g.nodes[|g.nodes| - 1];
    IdsAfterPop(g);
    NeighborsAt(g.nodes, |g.nodes| - 1);
    forall x ensures Nbrs(r, x) == Nbrs(g, x) {
      NbrsAfterPop(g, x);
    }
    forall v, w | w in Nbrs(r, v) ensures w in Ids(r) {
      assert v in Nbrs(g, w);
    }
  }

  /** Popping a node that still has a neighbour leaves a dangling reference:
      the graph is no longer well formed. */
  lemma PopConnectedBreaksWF(g: Graph)
    requires WF(g) && |g.nodes| > 0 && g.nodes[|g.nodes| - 1].neighbors != []
    ensures !WF(PopNodes(g))
  {
    var r := PopNodes(g);
    var last := g.nodes[|g.nodes| - 1];
    NeighborsAt(g.nodes, |g.nodes| - 1);
    var w := last.neighbors[0];
    assert w in Nbrs(g, last.id);
    assert last.id in Nbrs(g, w);
    assert w != last.id;
    NbrsAfterPop(g, w);
    IdsAfterPop(g);
    assert last.id in Nbrs(r, w) && last.id !in Ids(r);
  }

  /** Lookups after a fresh addEdge between two live nodes. */
  lemma NbrsAfterAddEdge(g: Graph, a: int, b: int, w: Option<int>, x: int)
    requires a in Ids(g) && b in Ids(g) && a != b && !HasEdge(g, a, b)
    ensures Nbrs(AddEdge(g, a, b, w), x)
         == if x == a then AddNeighbor(Nbrs(g, a), b)
            else if x == b then AddNeighbor(Nbrs(g, b), a)
            else Nbrs(g, x)
  {
    var la := AddNeighbor(NeighborsOf(g.nodes, a), b);
    var nodes1 := SetNeighbors(g.nodes, a, la);
    var lb := AddNeighbor(NeighborsOf(nodes1, b), a);
    NeighborsOfSet(g.nodes, a, la, b);
    NeighborsOfSet(g.nodes, a, la, x);
    IdSetOfSet(g.nodes, a, la);
    NeighborsOfSet(nodes1, b, lb, x);
  }

  /** addEdge between two live, distinct, not yet joined nodes appends each to
      the other's list exactly once and keeps the graph well formed. */
  lemma AddEdgeWF(g: Graph, a: int, b: int, w: Option<int>)
    requires WF(g) && a in Ids(g) && b in Ids(g) && a != b && !HasEdge(g, a, b)
    ensures var r := AddEdge(g, a, b, w);
      && Nbrs(r, a) == Nbrs(g, a) + [b]
      && Nbrs(r, b) == Nbrs(g, b) + [a]
      && WF(r)
  {
    var r := AddEdge(g, a, b, w);
    UnjoinedUnlisted(g, a, b);
    AddEdgeView(g, a, b, w);
    assert IdsBelow(r.nodes, r.nextId);
    AddEdgeKeepsLists(g, r, a, b);
    AddEdgeKeepsMirror(g, r, a, b, w);
    AddEdgeKeepsRecords(g, r, a, b, w);
  }

  lemma AddEdgeView(g: Graph, a: int, b: int, w: Option<int>)
    requires WF(g) && a in Ids(g) && b in Ids(g) && a != b && !HasEdge(g, a, b)
    ensures forall x :: Nbrs(AddEdge(g, a, b, w), x)
                     == if x == a then Nbrs(g, a) + [b]
                        else if x == b then Nbrs(g, b) + [a] else Nbrs(g, x)
  {
    UnjoinedUnlisted(g, a, b);
    forall x ensures Nbrs(AddEdge(g, a, b, w), x)
                  == if x == a then Nbrs(g, a) + [b]
                     else if x == b then Nbrs(g, b) + [a] else Nbrs(g, x) {
      NbrsAfterAddEdge(g, a, b, w, x);
    }
  }

  lemma AddEdgeKeepsLists(g: Graph, r: Graph, a: int, b: int)
    requires ListsClean(g) && a != b && b !in Nbrs(g, a) && a !in Nbrs(g, b)
    requires forall x :: Nbrs(r, x) == if x == a then Nbrs(g, a) + [b]
                                       else if x == b then Nbrs(g, b) + [a] else Nbrs(g, x)
    ensures ListsClean(r)
  {
    forall v ensures NoDup(Nbrs(r, v)) && v !in Nbrs(r, v) {
      assert NoDup(Nbrs(g, v)) && v !in Nbrs(g, v);
    }
  }

  lemma AddEdgeKeepsMirror(g: Graph, r: Graph, a: int, b: int, w: Option<int>)
    requires Mirrored(g) && a in Ids(g) && b in Ids(g) && a != b
    requires Ids(r) == Ids(g) && r.edges == g.edges + [Edge(a, b, w)]
    requires forall x :: Nbrs(r, x) == if x == a then Nbrs(g, a) + [b]
                                       else if x == b then Nbrs(g, b) + [a] else Nbrs(g, x)
    ensures Mirrored(r)
  {
    forall v, u | u in Nbrs(r, v) ensures u in Ids(r) && v in Nbrs(r, u) && HasEdge(r, v, u) {
      if u in Nbrs(g, v) {
        assert u in Ids(g) && v in Nbrs(g, u);
        assert HasEdge(g, v, u);
        var k :| 0 <= k < |g.edges| && Joins(g.edges[k], v, u);
        assert r.edges[k] == g.edges[k];
      } else {
        assert Joins(r.edges[|g.edges|], v, u);
      }
    }
  }

  lemma AddEdgeKeepsRecords(g: Graph, r: Graph, a: int, b: int, w: Option<int>)
    requires WF(g) && !HasEdge(g, a, b)
    requires r.edges == g.edges + [Edge(a, b, w)]
    requires forall x :: Nbrs(r, x) == if x == a then Nbrs(g, a) + [b]
                                       else if x == b then Nbrs(g, b) + [a] else Nbrs(g, x)
    ensures EdgesListed(r) && EdgesDistinct(r.edges)
  {
    forall k | 0 <= k < |r.edges| ensures r.edges[k].b in Nbrs(r, r.edges[k].a) {
      if k < |g.edges| {
        assert r.edges[k] == g.edges[k];
        assert g.edges[k].b in Nbrs(g, g.edges[k].a);
      }
    }
    forall k, l | 0 <= k < l < |r.edges| ensures !Joins(r.edges[l], r.edges[k].a, r.edges[k].b) {
      assert r.edges[k] == g.edges[k];
      if l == |g.edges| {
        assert !Joins(g.edges[k], a, b);
      } else {
        assert r.edges[l] == g.edges[l];
      }
    }
  }

  /** Adding the same edge twice is the same as adding it once. */
  lemma AddEdgeIdempotent(g: Graph, a: int, b: int, w: Option<int>, w': Option<int>)
    ensures AddEdge(AddEdge(g, a, b, w), a, b, w') == AddEdge(g, a, b, w)
  {
  }

  /** Lookups after removeEdge in a well-formed graph. */
  lemma NbrsAfterRemoveEdge(g: Graph, a: int, b: int, x: int)
    requires WF(g)
    ensures Nbrs(RemoveEdge(g, a, b), x)
         == if x == a && a != b then RemoveNeighbor(Nbrs(g, a), b)
            else if x == b && a != b then RemoveNeighbor(Nbrs(g, b), a)
            else Nbrs(g, x)
  {
    var la := RemoveNeighbor(NeighborsOf(g.nodes, a), b);
    var nodes1 := SetNeighbors(g.nodes, a, la);
    var lb := RemoveNeighbor(NeighborsOf(nodes1, b), a);
    NeighborsOfSet(g.nodes, a, la, b);
    NeighborsOfSet(g.nodes, a, la, x);
    IdSetOfSet(g.nodes, a, la);
    NeighborsOfSet(nodes1, b, lb, x);
    if a !in Ids(g) { NeighborsAbsent(g.nodes, a); }
    if b !in Ids(g) { NeighborsAbsent(g.nodes, b); }
    assert a !in Nbrs(g, a);
  }

  /** removeEdge leaves no record for the pair, neither endpoint lists the
      other, and the graph stays well formed. */
  lemma RemoveEdgeWF(g: Graph, a: int, b: int)
    requires WF(g)
    ensures var r := RemoveEdge(g, a, b);
      && !HasEdge(r, a, b) && b !in Nbrs(r, a) && a !in Nbrs(r, b)
      && WF(r)
  {
    var r := RemoveEdge(g, a, b);
    RemoveEdgeView(g, a, b);
    RemoveMatchingDistinct(g.edges, a, b);
    assert IdsBelow(r.nodes, r.nextId);
    RemoveNeighborNoDup(Nbrs(g, a), b);
    RemoveNeighborNoDup(Nbrs(g, b), a);
    assert a !in Nbrs(g, a);
    RemoveEdgeKeepsLists(g, r, a, b);
    RemoveEdgeMembership(g, r, a, b);
    RemoveEdgeKeepsMirror(g, r, a, b);
    RemoveEdgeKeepsListed(g, r, a, b);
  }

  lemma RemoveEdgeView(g: Graph, a: int, b: int)
    requires WF(g)
    ensures forall x :: Nbrs(RemoveEdge(g, a, b), x)
                     == if x == a && a != b then RemoveNeighbor(Nbrs(g, a), b)
                        else if x == b && a != b then RemoveNeighbor(Nbrs(g, b), a)
                        else Nbrs(g, x)
  {
    forall x ensures Nbrs(RemoveEdge(g, a, b), x)
                  == if x == a && a != b then RemoveNeighbor(Nbrs(g, a), b)
                     else if x == b && a != b then RemoveNeighbor(Nbrs(g, b), a)
                     else Nbrs(g, x) {
      NbrsAfterRemoveEdge(g, a, b, x);
    }
  }

  lemma RemoveEdgeKeepsLists(g: Graph, r: Graph, a: int, b: int)
    requires ListsClean(g)
    requires forall x :: Nbrs(r, x) == if x == a && a != b then RemoveNeighbor(Nbrs(g, a), b)
                                       else if x == b && a != b then RemoveNeighbor(Nbrs(g, b), a)
                                       else Nbrs(g, x)
    ensures ListsClean(r)
  {
    forall v ensures NoDup(Nbrs(r, v)) && v !in Nbrs(r, v) {
      assert NoDup(Nbrs(g, v)) && v !in Nbrs(g, v);
      if v == a && a != b {
        RemoveKeepsClean(Nbrs(g, a), b, a);
      } else if v == b && a != b {
        RemoveKeepsClean(Nbrs(g, b), a, b);
      }
    }
  }

  /** Membership in the lists after removeEdge: the pair loses each other,
      every other node keeps its list. */
  ghost predicate ListsAfterRemove(g: Graph, r: Graph, a: int, b: int) {
    && (forall x :: x != a && x != b ==> Nbrs(r, x) == Nbrs(g, x))
    && (a == b ==> Nbrs(r, a) == Nbrs(g, a))
    && (a != b ==> forall y :: y in Nbrs(r, a) <==> y in Nbrs(g, a) && y != b)
    && (a != b ==> forall y :: y in Nbrs(r, b) <==> y in Nbrs(g, b) && y != a)
  }

  lemma RemoveEdgeMembership(g: Graph, r: Graph, a: int, b: int)
    requires ListsClean(g)
    requires forall x :: Nbrs(r, x) == if x == a && a != b then RemoveNeighbor(Nbrs(g, a), b)
                                       else if x == b && a != b then RemoveNeighbor(Nbrs(g, b), a)
                                       else Nbrs(g, x)
    ensures ListsAfterRemove(g, r, a, b)
  {
    RemoveNeighborNoDup(Nbrs(g, a), b);
    RemoveNeighborNoDup(Nbrs(g, b), a);
  }

  lemma RemoveEdgeKeepsMirror(g: Graph, r: Graph, a: int, b: int)
    requires WF(g) && Ids(r) == Ids(g)
    requires forall e :: e in r.edges <==> e in g.edges && !Joins(e, a, b)
    requires ListsAfterRemove(g, r, a, b)
    ensures Mirrored(r)
  {
    forall v, u | u in Nbrs(r, v) ensures u in Ids(r) && v in Nbrs(r, u) && HasEdge(r, v, u) {
      RemoveEdgeMirrorPair(g, r, a, b, v, u);
    }
  }

  lemma RemoveEdgeMirrorPair(g: Graph, r: Graph, a: int, b: int, v: int, u: int)
    requires WF(g) && Ids(r) == Ids(g)
    requires forall e :: e in r.edges <==> e in g.edges && !Joins(e, a, b)
    requires ListsAfterRemove(g, r, a, b)
    requires u in Nbrs(r, v)
    ensures u in Ids(r) && v in Nbrs(r, u) && HasEdge(r, v, u)
  {
    assert u in Nbrs(g, v);
    assert !(v == a && u == b) && !(v == b && u == a);
    assert u in Ids(g) && v in Nbrs(g, u) && HasEdge(g, v, u);
    var k :| 0 <= k < |g.edges| && Joins(g.edges[k], v, u);
    assert !Joins(g.edges[k], a, b);
    assert g.edges[k] in r.edges;
    var k' :| 0 <= k' < |r.edges| && r.edges[k'] == g.edges[k];
  }

  lemma RemoveEdgeKeepsListed(g: Graph, r: Graph, a: int, b: int)
    requires WF(g)
    requires forall e :: e in r.edges <==> e in g.edges && !Joins(e, a, b)
    requires ListsAfterRemove(g, r, a, b)
    ensures EdgesListed(r)
  {
    forall k | 0 <= k < |r.edges| ensures r.edges[k].b in Nbrs(r, r.edges[k].a) {
      assert r.edges[k] in r.edges;
      var e := r.edges[k];
      var j :| 0 <= j < |g.edges| && g.edges[j] == e;
      assert e.b in Nbrs(g, e.a);
    }
  }

  /** Pairwise-distinct records stay pairwise distinct after remove_if. */
  lemma {:induction false} RemoveMatchingDistinct(edges: seq<Edge>, a: int, b: int)
    requires EdgesDistinct(edges)
    ensures EdgesDistinct(RemoveMatching(edges, a, b))
    decreases |edges|
  {
    if |edges| > 0 {
      var t := RemoveMatching(edges[1..], a, b);
      RemoveMatchingDistinct(edges[1..], a, b);
      if !Joins(edges[0], a, b) {
        var r := [edges[0]] + t;
        forall k, l | 0 <= k < l < |r| ensures !Joins(r[l], r[k].a, r[k].b) {
          if k == 0 {
            assert r[l] in t;
            var j :| 0 <= j < |edges[1..]| && edges[1..][j] == r[l];
            assert edges[j+1] == r[l];
          } else {
            assert r[k] == t[k-1] && r[l] == t[l-1];
          }
        }
      }
    }
  }

  /** Writing back, for two ids, the lists an arena originally had restores
      that arena, provided every other node was left alone. */
  lemma SetTwiceRestores(base: seq<Node>, orig: seq<Node>, a: int, b: int)
    requires |base| == |orig|
    requires forall j, k :: 0 <= j < k < |orig| ==> orig[j].id < orig[k].id
    requires forall i :: 0 <= i < |base| ==> base[i].id == orig[i].id && base[i].circle == orig[i].circle
    requires forall i :: 0 <= i < |base| && base[i].id != a && base[i].id != b ==> base[i] == orig[i]
    ensures SetNeighbors(SetNeighbors(base, a, NeighborsOf(orig, a)), b, NeighborsOf(orig, b)) == orig
  {
    var r := SetNeighbors(SetNeighbors(base, a, NeighborsOf(orig, a)), b, NeighborsOf(orig, b));
    forall i | 0 <= i < |orig| ensures r[i] == orig[i] {
      NeighborsAt(orig, i);
    }
  }

  /** removeEdge of a pair that has no edge changes nothing. */
  lemma RemoveAbsentEdge(g: Graph, a: int, b: int)
    requires WF(g) && !HasEdge(g, a, b)
    ensures RemoveEdge(g, a, b) == g
  {
    UnjoinedUnlisted(g, a, b);
    var la := RemoveNeighbor(NeighborsOf(g.nodes, a), b);
    assert la == NeighborsOf(g.nodes, a);
    var nodes1 := SetNeighbors(g.nodes, a, la);
    NeighborsOfSet(g.nodes, a, la, b);
    var lb := RemoveNeighbor(NeighborsOf(nodes1, b), a);
    assert lb == NeighborsOf(g.nodes, b) by {
      if a == b { assert a !in Nbrs(g, a); }
    }
    SetTwiceRestores(g.nodes, g.nodes, a, b);
    forall k | 0 <= k < |g.edges| ensures !Joins(g.edges[k], a, b) { }
  }

  /** removeEdge right after a fresh addEdge restores the graph exactly. */
  lemma RemoveAfterAddEdge(g: Graph, a: int, b: int, w: Option<int>)
    requires WF(g) && a in Ids(g) && b in Ids(g) && a != b && !HasEdge(g, a, b)
    ensures RemoveEdge(AddEdge(g, a, b, w), a, b) == g
  {
    var g1 := AddEdge(g, a, b, w);
    AddEdgeWF(g, a, b, w);
    UnjoinedUnlisted(g, a, b);
    RemoveMatchingAppend(g.edges, Edge(a, b, w), a, b);
    RemoveAfterAdd(Nbrs(g, a), b);
    RemoveAfterAdd(Nbrs(g, b), a);
    var la := RemoveNeighbor(NeighborsOf(g1.nodes, a), b);
    assert la == NeighborsOf(g.nodes, a);
    var nodes1 := SetNeighbors(g1.nodes, a, la);
    NeighborsOfSet(g1.nodes, a, la, b);
    var lb := RemoveNeighbor(NeighborsOf(nodes1, b), a);
    assert lb == NeighborsOf(g.nodes, b);
    SetTwiceRestores(g1.nodes, g.nodes, a, b);
  }

  lemma {:induction false} RemoveMatchingAppend(edges: seq<Edge>, e: Edge, a: int, b: int)
    requires forall k :: 0 <= k < |edges| ==> !Joins(edges[k], a, b)
    requires Joins(e, a, b)
    ensures RemoveMatching(edges + [e], a, b) == edges
    decreases |edges|
  {
    if |edges| == 0 {
      assert ([] + [e])[1..] == [];
    } else {
      assert (edges + [e])[1..] == edges[1..] + [e];
      RemoveMatchingAppend(edges[1..], e, a, b);
      assert edges == [edges[0]] + edges[1..];
    }
  }
}
