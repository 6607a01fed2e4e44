/** The data layout of Graph.h with shared_ptr identity replaced by integer
    ids: the graph owns an ordered arena of node records, a list of edge
    records, the id counter and the two search selections. */
module GraphState {
  import opened Wrappers
  import opened Adjacency

  /** SDL_Point and SDL_Rect, kept only for the hit test. */
  datatype Point = Point(x: int, y: int)
  datatype Rect = Rect(x: int, y: int, w: int, h: int)

  /** A node: its id, its 40x40 box centred on the creation point, and its
      ordered neighbour ids. */
  datatype Node = Node(id: int, circle: Rect, neighbors: seq<int>)

  /** An edge record (node1, node2, optional weight); no algorithm reads the weight. */
  datatype Edge = Edge(a: int, b: int, weight: Option<int>)

  /** The whole graph. nextId stands for the static Node::nextID counter. */
  datatype Graph = Graph(nodes: seq<Node>, edges: seq<Edge>, nextId: nat,
                         start: Option<int>, end: Option<int>)

  /** The Node constructor: the box is 40x40 with its centre on the point. */
  function NewNode(id: int, p: Point): (n: Node)
    ensures n.id == id && n.neighbors == []
    ensures n.circle.w == 40 && n.circle.h == 40
    ensures n.circle.x + n.circle.w / 2 == p.x && n.circle.y + n.circle.h / 2 == p.y
  {
    Node(id, Rect(p.x - 20, p.y - 20, 40, 40), [])
  }

  /** The ids of the nodes currently in the arena. */
  function IdSet(nodes: seq<Node>): set<int> {
    set i | 0 <= i < |nodes| :: nodes[i].id
  }

  function Ids(g: Graph): set<int> {
    IdSet(g.nodes)
  }

  /** The neighbour list of the first node with id v; a node that is not in
      the arena has no neighbours. */
  function NeighborsOf(nodes: seq<Node>, v: int): seq<int>
    decreases |nodes|
  {
    if |nodes| == 0 then []
    else if nodes[0].id == v then nodes[0].neighbors
    else NeighborsOf(nodes[1..], v)
  }

  function Nbrs(g: Graph, v: int): seq<int> {
    NeighborsOf(g.nodes, v)
  }

  /** Replaces the neighbour list of every node with id v (at most one in a
      well-formed graph): the arena form of mutating that node object. */
  function SetNeighbors(nodes: seq<Node>, v: int, l: seq<int>): (r: seq<Node>)
    ensures |r| == |nodes|
    ensures forall i :: 0 <= i < |r| ==> r[i].id == nodes[i].id && r[i].circle == nodes[i].circle
    ensures forall i :: 0 <= i < |r| ==>
      r[i].neighbors == if nodes[i].id == v then l else nodes[i].neighbors
  {
    seq(|nodes|, i requires 0 <= i < |nodes| =>
      if nodes[i].id == v then nodes[i].(neighbors := l) else nodes[i])
  }

  /** An edge record joins a and b when it names them in either orientation. */
  predicate Joins(e: Edge, a: int, b: int) {
    (e.a == a && e.b == b) || (e.a == b && e.b == a)
  }

  function AnyJoins(edges: seq<Edge>, a: int, b: int): bool
    decreases |edges|
  {
    |edges| > 0 && (Joins(edges[0], a, b) || AnyJoins(edges[1..], a, b))
  }

  /** Graph::hasEdge: some edge record names the pair, in either orientation. */
  function HasEdge(g: Graph, a: int, b: int): (r: bool)
    ensures r <==> exists k :: 0 <= k < |g.edges| && Joins(g.edges[k], a, b)
  {
    AnyJoinsExists(g.edges, a, b);
    AnyJoins(g.edges, a, b)
  }

  lemma {:induction false} AnyJoinsExists(edges: seq<Edge>, a: int, b: int)
    ensures AnyJoins(edges, a, b) <==> exists k :: 0 <= k < |edges| && Joins(edges[k], a, b)
    decreases |edges|
  {
    if |edges| > 0 {
      AnyJoinsExists(edges[1..], a, b);
      if Joins(edges[0], a, b) {
      } else if exists k :: 0 <= k < |edges| && Joins(edges[k], a, b) {
        var k :| 0 <= k < |edges| && Joins(edges[k], a, b);
        assert edges[1..][k-1] == edges[k];
      }
    }
  }

  /** Ids strictly increase along the arena, are non-negative and lie below the counter. */
  predicate IdsBelow(nodes: seq<Node>, bound: int) {
    && (forall i, j :: 0 <= i < j < |nodes| ==> nodes[i].id < nodes[j].id)
    && (forall i :: 0 <= i < |nodes| ==> 0 <= nodes[i].id < bound)
  }

  /** Neighbour lists hold no duplicates and no self-entries. */
  ghost predicate ListsClean(g: Graph) {
    forall v :: NoDup(Nbrs(g, v)) && v !in Nbrs(g, v)
  }

  /** Adjacency is symmetric, refers only to live nodes, and every adjacency
      is backed by an edge record. */
  ghost predicate Mirrored(g: Graph) {
    forall v, w :: w in Nbrs(g, v) ==> w in Ids(g) && v in Nbrs(g, w) && HasEdge(g, v, w)
  }

  /** Every edge record is reflected in the first endpoint's list (and so,
      by symmetry, in the second's). */
  ghost predicate EdgesListed(g: Graph) {
    forall k :: 0 <= k < |g.edges| ==> g.edges[k].b in Nbrs(g, g.edges[k].a)
  }

  /** No two edge records name the same unordered pair. */
  ghost predicate EdgesDistinct(edges: seq<Edge>) {
    forall k, l :: 0 <= k < l < |edges| ==> !Joins(edges[l], edges[k].a, edges[k].b)
  }

  /** Well-formedness: what every mutation of a well-formed graph keeps.
      Together the clauses say that an edge record for {a, b} exists exactly
      when a and b list each other, that there are no self-loops and no
      duplicate records, and that every referenced id is live. The
      selections are not constrained: the setters store whatever they are
      given. */
  ghost predicate WF(g: Graph) {
    && IdsBelow(g.nodes, g.nextId)
    && ListsClean(g)
    && Mirrored(g)
    && EdgesListed(g)
    && EdgesDistinct(g.edges)
  }

  /** The adjacency view the graph searches rely on: clean lists, symmetric
      adjacency between live nodes, and non-negative live ids. */
  ghost predicate Undirected(g: Graph) {
    && ListsClean(g)
    && (forall v, w :: w in Nbrs(g, v) ==> w in Ids(g) && v in Nbrs(g, w))
    && (forall v :: v in Ids(g) ==> v >= 0)
  }

  lemma WFUndirected(g: Graph)
    requires WF(g)
    ensures Undirected(g)
  {
  }

  /** In an arena with distinct ids, looking up a node's id finds that node. */
  lemma {:induction false} NeighborsAt(nodes: seq<Node>, i: int)
    requires 0 <= i < |nodes|
    requires forall j, k :: 0 <= j < k < |nodes| ==> nodes[j].id < nodes[k].id
    ensures NeighborsOf(nodes, nodes[i].id) == nodes[i].neighbors
    decreases |nodes|
  {
    if i > 0 {
      assert nodes[0].id < nodes[i].id;
      assert nodes[1..][i-1] == nodes[i];
      NeighborsAt(nodes[1..], i - 1);
    }
  }

  /** An id that is not in the arena has no neighbours. */
  lemma {:induction false} NeighborsAbsent(nodes: seq<Node>, v: int)
    requires v !in IdSet(nodes)
    ensures NeighborsOf(nodes, v) == []
    decreases |nodes|
  {
    if |nodes| > 0 {
      assert nodes[0].id == nodes[0].id;
      assert IdSet(nodes[1..]) <= IdSet(nodes) by {
        forall u | u in IdSet(nodes[1..]) ensures u in IdSet(nodes) {
          var j :| 0 <= j < |nodes[1..]| && nodes[1..][j].id == u;
          assert nodes[j+1].id == u;
        }
      }
      NeighborsAbsent(nodes[1..], v);
    }
  }

  /** Only live nodes have neighbours. */
  lemma NeighborsLive(g: Graph, v: int)
    requires |Nbrs(g, v)| > 0
    ensures v in Ids(g)
  {
    if v !in Ids(g) {
      NeighborsAbsent(g.nodes, v);
    }
  }

  /** Rewriting one node's list changes the lookup of that id and no other. */
  lemma {:induction false} NeighborsOfSet(nodes: seq<Node>, v: int, l: seq<int>, x: int)
    ensures NeighborsOf(SetNeighbors(nodes, v, l), x)
         == if x == v && v in IdSet(nodes) then l else NeighborsOf(nodes, x)
    decreases |nodes|
  {
    var r := SetNeighbors(nodes, v, l);
    if |nodes| > 0 {
      assert r[1..] == SetNeighbors(nodes[1..], v, l);
      NeighborsOfSet(nodes[1..], v, l, x);
      assert nodes[0].id in IdSet(nodes);
      assert IdSet(nodes) == {nodes[0].id} + IdSet(nodes[1..]) by {
        forall u | u in IdSet(nodes) ensures u in {nodes[0].id} + IdSet(nodes[1..]) {
          var j :| 0 <= j < |nodes| && nodes[j].id == u;
          if j > 0 { assert nodes[1..][j-1].id == u; }
        }
        forall u | u in IdSet(nodes[1..]) ensures u in IdSet(nodes) {
          var j :| 0 <= j < |nodes[1..]| && nodes[1..][j].id == u;
          assert nodes[j+1].id == u;
        }
      }
    }
  }

  lemma IdSetOfSet(nodes: seq<Node>, v: int, l: seq<int>)
    ensures IdSet(SetNeighbors(nodes, v, l)) == IdSet(nodes)
  {
    var r := SetNeighbors(nodes, v, l);
    forall u | u in IdSet(nodes) ensures u in IdSet(r) {
      var j :| 0 <= j < |nodes| && nodes[j].id == u;
      assert r[j].id == u;
    }
  }

  /** Rewriting the lists of a and then of b leaves the arena's shape, its
      ids and boxes, and every other node as they were. */
  lemma SetNeighborsFrame(nodes: seq<Node>, a: int, la: seq<int>, b: int, lb: seq<int>)
    ensures var r := SetNeighbors(SetNeighbors(nodes, a, la), b, lb);
      && |r| == |nodes|
      && (forall i :: 0 <= i < |r| ==> r[i].id == nodes[i].id && r[i].circle == nodes[i].circle)
      && (forall i :: 0 <= i < |r| && r[i].id != a && r[i].id != b ==> r[i] == nodes[i])
      && IdSet(r) == IdSet(nodes)
      && (forall v :: v != a && v != b ==> NeighborsOf(r, v) == NeighborsOf(nodes, v))
  {
    var nodes1 := SetNeighbors(nodes, a, la);
    var r := SetNeighbors(nodes1, b, lb);
    IdSetOfSet(nodes, a, la);
    IdSetOfSet(nodes1, b, lb);
    forall v | v != a && v != b ensures NeighborsOf(r, v) == NeighborsOf(nodes, v) {
      NeighborsOfSet(nodes, a, la, v);
      NeighborsOfSet(nodes1, b, lb, v);
    }
  }

  /** After rewriting the lists of two distinct ids a and then b, each live
      endpoint finds its new list, an endpoint outside the arena finds none,
      and b's lookup between the two rewrites is still its original one. */
  lemma SetNeighborsEnds(nodes: seq<Node>, a: int, la: seq<int>, b: int, lb: seq<int>)
    requires a != b
    ensures NeighborsOf(SetNeighbors(nodes, a, la), b) == NeighborsOf(nodes, b)
    ensures a !in IdSet(nodes) ==> NeighborsOf(nodes, a) == []
    ensures b !in IdSet(nodes) ==> NeighborsOf(nodes, b) == []
    ensures var r := SetNeighbors(SetNeighbors(nodes, a, la), b, lb);
      && NeighborsOf(r, a) == (if a in IdSet(nodes) then la else [])
      && NeighborsOf(r, b) == (if b in IdSet(nodes) then lb else [])
  {
    var nodes1 := SetNeighbors(nodes, a, la);
    NeighborsOfSet(nodes, a, la, a);
    NeighborsOfSet(nodes, a, la, b);
    IdSetOfSet(nodes, a, la);
    NeighborsOfSet(nodes1, b, lb, a);
    NeighborsOfSet(nodes1, b, lb, b);
    if a !in IdSet(nodes) { NeighborsAbsent(nodes, a); }
    if b !in IdSet(nodes) { NeighborsAbsent(nodes, b); }
  }
}
