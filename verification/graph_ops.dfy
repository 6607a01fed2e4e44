/** The mutating and querying members of class Graph (Graph.cpp:69-125,
    142-148, 187-197) as pure functions from one graph state to the next,
    with the lemmas that each keeps the well-formedness invariant. */
module GraphOps {
  import opened Wrappers
  import opened Adjacency
  import opened GraphState

  /** What Graph::addNode hands back: the new state and the new node's id. */
  datatype NodeAdded = NodeAdded(graph: Graph, id: int)

  /** Graph::addNode: the node takes the counter's value as its id, the
      counter advances, and the node is appended with no neighbours. */
  function AddNode(g: Graph, p: Point): (r: NodeAdded)
    ensures r.id == g.nextId && r.graph.nextId == g.nextId + 1
    ensures |r.graph.nodes| == |g.nodes| + 1 && r.graph.nodes[..|g.nodes|] == g.nodes
    ensures r.graph.nodes[|g.nodes|] == NewNode(r.id, p)
    ensures r.graph.edges == g.edges && r.graph.start == g.start && r.graph.end == g.end
  {
    var n := NewNode(g.nextId, p);
    NodeAdded(g.(nodes := g.nodes + [n], nextId := g.nextId + 1), n.id)
  }

  /** Graph::pop_nodes: drop the last node; nothing else is touched, and
      the counter is not rewound. */
  function PopNodes(g: Graph): (r: Graph)
    ensures |g.nodes| == 0 ==> r == g
    ensures |g.nodes| > 0 ==> |r.nodes| == |g.nodes| - 1
    ensures forall i :: 0 <= i < |r.nodes| ==> r.nodes[i] == g.nodes[i]
    ensures r.edges == g.edges && r.nextId == g.nextId
    ensures r.start == g.start && r.end == g.end
  {
    if |g.nodes| == 0 then g else g.(nodes := g.nodes[..|g.nodes| - 1])
  }

  /** Graph::addEdge: self-loops and already-joined pairs are ignored;
      otherwise the record is appended and each endpoint is added to the
      other's neighbour list. */
  function AddEdge(g: Graph, a: int, b: int, w: Option<int>): (r: Graph)
    ensures a == b || HasEdge(g, a, b) ==> r == g
    ensures a != b ==> HasEdge(r, a, b)
    ensures a != b && !HasEdge(g, a, b) ==> r.edges == g.edges + [Edge(a, b, w)]
    ensures a != b && !HasEdge(g, a, b) && a in Ids(g) && b in Ids(g) ==>
              Nbrs(r, a) == AddNeighbor(Nbrs(g, a), b) && Nbrs(r, b) == AddNeighbor(Nbrs(g, b), a)
    ensures Ids(r) == Ids(g) && r.nextId == g.nextId && r.start == g.start && r.end == g.end
    ensures forall v :: v != a && v != b ==> Nbrs(r, v) == Nbrs(g, v)
    ensures |r.nodes| == |g.nodes|
    ensures forall i :: 0 <= i < |r.nodes| ==> r.nodes[i].id == g.nodes[i].id && r.nodes[i].circle == g.nodes[i].circle
    ensures forall i :: 0 <= i < |r.nodes| && r.nodes[i].id != a && r.nodes[i].id != b ==> r.nodes[i] == g.nodes[i]
  {
    if a == b || HasEdge(g, a, b) then g
    else
      var nodes1 := SetNeighbors(g.nodes, a, AddNeighbor(NeighborsOf(g.nodes, a), b));
      var nodes2 := SetNeighbors(nodes1, b, AddNeighbor(NeighborsOf(nodes1, b), a));
      var r := g.(nodes := nodes2, edges := g.edges + [Edge(a, b, w)]);
      assert Joins(r.edges[|g.edges|], a, b);
      SetNeighborsFrame(g.nodes, a, AddNeighbor(NeighborsOf(g.nodes, a), b), b, AddNeighbor(NeighborsOf(nodes1, b), a));
      SetNeighborsEnds(g.nodes, a, AddNeighbor(NeighborsOf(g.nodes, a), b), b, AddNeighbor(NeighborsOf(nodes1, b), a));
      r
  }

  /** The std::remove_if/erase step of Graph::removeEdge: keeps, in order,
      the records that do not join a and b. */
  function RemoveMatching(edges: seq<Edge>, a: int, b: int): (r: seq<Edge>)
    ensures forall e :: e in r <==> e in edges && !Joins(e, a, b)
    ensures (forall k :: 0 <= k < |edges| ==> !Joins(edges[k], a, b)) ==> r == edges
    ensures |edges| == 1 ==> r == if Joins(edges[0], a, b) then [] else edges
    decreases |edges|
  {
    if |edges| == 0 then []
    else
      assert edges == [edges[0]] + edges[1..];
      (if Joins(edges[0], a, b) then [] else [edges[0]]) + RemoveMatching(edges[1..], a, b)
  }

  /** std::remove_if is stable: filtering two lists joined together is
      filtering each one and joining the results in the same order. With the
      one-record case this fixes the order of the surviving records. */
  lemma {:induction false} RemoveMatchingConcat(s: seq<Edge>, t: seq<Edge>, a: int, b: int)
    ensures RemoveMatching(s + t, a, b) == RemoveMatching(s, a, b) + RemoveMatching(t, a, b)
    decreases |s|
  {
    if |s| == 0 {
      assert s + t == t;
    } else {
      assert (s + t)[0] == s[0] && (s + t)[1..] == s[1..] + t;
      RemoveMatchingConcat(s[1..], t, a, b);
    }
  }

  /** The list updates of Graph::removeEdge: a drops b, then b drops a. */
  function Unlink(nodes: seq<Node>, a: int, b: int): (r: seq<Node>)
    ensures |r| == |nodes| && IdSet(r) == IdSet(nodes)
    ensures forall i :: 0 <= i < |r| ==> r[i].id == nodes[i].id && r[i].circle == nodes[i].circle
    ensures forall i :: 0 <= i < |r| && r[i].id != a && r[i].id != b ==> r[i] == nodes[i]
    ensures forall v :: v != a && v != b ==> NeighborsOf(r, v) == NeighborsOf(nodes, v)
    ensures a != b ==> NeighborsOf(r, a) == RemoveNeighbor(NeighborsOf(nodes, a), b)
    ensures a != b ==> NeighborsOf(r, b) == RemoveNeighbor(NeighborsOf(nodes, b), a)
  {
    var la := RemoveNeighbor(NeighborsOf(nodes, a), b);
    var nodes1 := SetNeighbors(nodes, a, la);
    var lb := RemoveNeighbor(NeighborsOf(nodes1, b), a);
    SetNeighborsFrame(nodes, a, la, b, lb);
    if a != b then
      SetNeighborsEnds(nodes, a, la, b, lb);
      SetNeighbors(nodes1, b, lb)
    else
      SetNeighbors(nodes1, b, lb)
  }

  /** Graph::removeEdge: erase every record joining the pair, then each
      endpoint drops the other from its neighbour list. */
  function RemoveEdge(g: Graph, a: int, b: int): (r: Graph)
    ensures forall k :: 0 <= k < |r.edges| ==> !Joins(r.edges[k], a, b)
    ensures forall e :: e in r.edges <==> e in g.edges && !Joins(e, a, b)
    ensures a != b ==> Nbrs(r, a) == RemoveNeighbor(Nbrs(g, a), b) && Nbrs(r, b) == RemoveNeighbor(Nbrs(g, b), a)
    ensures Ids(r) == Ids(g) && r.nextId == g.nextId && r.start == g.start && r.end == g.end
    ensures forall v :: v != a && v != b ==> Nbrs(r, v) == Nbrs(g, v)
    ensures |r.nodes| == |g.nodes|
    ensures forall i :: 0 <= i < |r.nodes| ==> r.nodes[i].id == g.nodes[i].id && r.nodes[i].circle == g.nodes[i].circle
    ensures forall i :: 0 <= i < |r.nodes| && r.nodes[i].id != a && r.nodes[i].id != b ==> r.nodes[i] == g.nodes[i]
  {
    var r := g.(nodes := Unlink(g.nodes, a, b), edges := RemoveMatching(g.edges, a, b));
    assert forall k :: 0 <= k < |r.edges| ==> r.edges[k] in r.edges;
    r
  }

  /** Graph::clear: no nodes, no edges, no selections, counter back to 0. */
  function Clear(g: Graph): (r: Graph)
    ensures |r.nodes| == 0 && |r.edges| == 0 && r.nextId == 0
    ensures r.start.None? && r.end.None?
  {
    Graph([], [], 0, None, None)
  }

  /** Graph::setStartNode / setEndNode store the selection without checking it. */
  function SetStartNode(g: Graph, s: Option<int>): (r: Graph)
    ensures GetStartNode(r) == s && GetEndNode(r) == GetEndNode(g)
    ensures r.nodes == g.nodes && r.edges == g.edges && r.nextId == g.nextId
  {
    g.(start := s)
  }

  function SetEndNode(g: Graph, s: Option<int>): (r: Graph)
    ensures GetEndNode(r) == s && GetStartNode(r) == GetStartNode(g)
    ensures r.nodes == g.nodes && r.edges == g.edges && r.nextId == g.nextId
  {
    g.(end := s)
  }

  function GetStartNode(g: Graph): Option<int> { g.start }

  function GetEndNode(g: Graph): Option<int> { g.end }

  /** The hit test of Graph::getNodeAt: the squared distance from the point to
      the box centre is at most the squared half-width. */
  predicate Hit(n: Node, p: Point) {
    var dx := p.x - (n.circle.x + n.circle.w / 2);
    var dy := p.y - (n.circle.y + n.circle.h / 2);
    dx * dx + dy * dy <= (n.circle.w / 2) * (n.circle.w / 2)
  }

  function FirstHit(nodes: seq<Node>, p: Point): (r: Option<nat>)
    ensures r.None? <==> forall i :: 0 <= i < |nodes| ==> !Hit(nodes[i], p)
    ensures r.Some? ==> r.value < |nodes| && Hit(nodes[r.value], p)
    ensures r.Some? ==> forall j :: 0 <= j < r.value ==> !Hit(nodes[j], p)
    decreases |nodes|
  {
    if |nodes| == 0 then None
    else if Hit(nodes[0], p) then Some(0)
    else
      match FirstHit(nodes[1..], p)
      case None =>
        assert forall i :: 1 <= i < |nodes| ==> nodes[i] == nodes[1..][i-1];
        None
      case Some(k) =>
        assert forall j :: 1 <= j <= k ==> nodes[j] == nodes[1..][j-1];
        Some(k + 1)
  }

  /** Appending a node leaves an earlier hit where it was; the new node is
      found only when no earlier node is hit. */
  lemma {:induction false} FirstHitAppend(nodes: seq<Node>, n: Node, p: Point)
    ensures FirstHit(nodes + [n], p)
         == if FirstHit(nodes, p).Some? then FirstHit(nodes, p)
            else if Hit(n, p) then Some(|nodes|) else None
    decreases |nodes|
  {
    var t := nodes + [n];
    if |nodes| == 0 {
      assert t == [n] && t[1..] == [];
    } else {
      assert t[0] == nodes[0] && t[1..] == nodes[1..] + [n];
      FirstHitAppend(nodes[1..], n, p);
    }
  }

  /** Graph::getNodeAt: the first node, in creation order, whose circle holds the point. */
  function NodeAt(g: Graph, p: Point): (r: Option<int>)
    ensures r.None? <==> forall i :: 0 <= i < |g.nodes| ==> !Hit(g.nodes[i], p)
    ensures r.Some? ==>
              exists i :: 0 <= i < |g.nodes| && g.nodes[i].id == r.value
                          && Hit(g.nodes[i], p) && forall j :: 0 <= j < i ==> !Hit(g.nodes[j], p)
  {
    match FirstHit(g.nodes, p)
    case None => None
    case Some(i) => Some(g.nodes[i].id)
  }
}
