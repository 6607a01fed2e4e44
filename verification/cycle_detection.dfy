/** Graph::hasCycle and Graph::hasCycleUtil (Graph.cpp:199-225): a depth-first
    search from every unvisited node in creation order, carrying the parent
    id; a visited neighbour other than the parent reports a cycle. */
module CycleDetection {
  import opened Adjacency
  import opened GraphState
  import opened Sets

  /** A simple cycle: at least three distinct nodes, each listing the next,
      and the last listing the first. */
  ghost predicate IsCycle(g: Graph, c: seq<int>) {
    && |c| >= 3
    && (forall i, j :: 0 <= i < j < |c| ==> c[i] != c[j])
    && (forall i :: 0 <= i < |c| - 1 ==> c[i + 1] in Nbrs(g, c[i]))
    && c[0] in Nbrs(g, c[|c| - 1])
  }

  ghost predicate HasSimpleCycle(g: Graph) {
    exists c :: IsCycle(g, c)
  }

  /** x and y are joined by a parent link, in one direction or the other. */
  ghost predicate TreeEdge(par: map<int, int>, x: int, y: int) {
    (x in par && par[x] == y) || (y in par && par[y] == x)
  }

  ghost predicate RanksDecrease(par: map<int, int>, rank: map<int, nat>) {
    forall x {:trigger x in par} :: x in par ==> x in rank && par[x] in rank && rank[par[x]] < rank[x]
  }

  /** A forest: parent links whose ranks decrease towards the roots, such that
      every adjacency of the graph is a parent link. */
  ghost predicate ForestWitness(g: Graph, par: map<int, int>, rank: map<int, nat>) {
    && (forall v, w :: w in Nbrs(g, v) ==> TreeEdge(par, v, w))
    && RanksDecrease(par, rank)
  }

  /** The position of a highest-ranked element among the first n of c. */
  ghost function ArgMaxRank(c: seq<int>, rank: map<int, nat>, n: nat): (m: nat)
    requires 0 < n <= |c|
    requires forall i :: 0 <= i < |c| ==> c[i] in rank
    ensures m < n && forall i :: 0 <= i < n ==> rank[c[i]] <= rank[c[m]]
  {
    if n == 1 then 0
    else
      var m := ArgMaxRank(c, rank, n - 1);
      if rank[c[n - 1]] > rank[c[m]] then n - 1 else m
  }

  /** A graph with a forest witness has no simple cycle: on a cycle, the
      highest-ranked node would need both of its cycle neighbours as parent. */
  lemma ForestHasNoCycle(g: Graph, par: map<int, int>, rank: map<int, nat>)
    requires ForestWitness(g, par, rank)
    ensures !HasSimpleCycle(g)
  {
    if c :| IsCycle(g, c) {
      var n := |c|;
      forall i | 0 <= i < n ensures c[i] in rank {
        var j := if i < n - 1 then i + 1 else 0;
        assert c[j] in Nbrs(g, c[i]);
        assert TreeEdge(par, c[i], c[j]);
      }
      var m := ArgMaxRank(c, rank, n);
      var nx := if m < n - 1 then m + 1 else 0;
      var pv := if m > 0 then m - 1 else n - 1;
      assert c[nx] in Nbrs(g, c[m]);
      assert c[m] in Nbrs(g, c[pv]);
    }
  }

  /** A search path: distinct nodes, each listing the next. */
  ghost predicate IsPathSeq(g: Graph, s: seq<int>) {
    && (forall i, j :: 0 <= i < j < |s| ==> s[i] != s[j])
    && (forall i :: 0 <= i < |s| - 1 ==> s[i + 1] in Nbrs(g, s[i]))
  }

  /** A node the search has finished with: all its neighbours are visited
      and each is its parent or its child. */
  ghost predicate Closed(g: Graph, visited: set<int>, par: map<int, int>, f: int) {
    forall n {:trigger n in Nbrs(g, f)} :: n in Nbrs(g, f) ==> n in visited && TreeEdge(par, f, n)
  }

  /** Parent links stay among visited nodes; ranks number the visited nodes
      in discovery order. */
  ghost predicate Ranked(par: map<int, int>, rank: map<int, nat>, visited: set<int>) {
    && (forall x {:trigger x in par} :: x in par ==> x in visited)
    && rank.Keys == visited
    && RanksDecrease(par, rank)
    && (forall x :: x in rank ==> rank[x] < |visited|)
  }

  ghost predicate Extends(par: map<int, int>, par': map<int, int>) {
    forall x {:trigger x in par} :: x in par ==> x in par' && par'[x] == par[x]
  }

  /** A visited neighbour other than the parent closes a cycle through the
      search path. */
  lemma BackEdgeCycle(g: Graph, stack: seq<int>, v: int, w: int)
    requires IsPathSeq(g, stack) && v !in stack && |stack| > 0
    requires v in Nbrs(g, stack[|stack| - 1])
    requires w in stack && w != stack[|stack| - 1] && w in Nbrs(g, v)
    ensures HasSimpleCycle(g)
  {
    var j :| 0 <= j < |stack| && stack[j] == w;
    var c := stack[j..] + [v];
    assert c[0] == w && c[|c| - 1] == v;
    assert IsCycle(g, c);
  }

  /** In the search from v, a visited neighbour that is neither v's parent nor
      one of v's earlier neighbours is on the search path: a finished node
      adjacent to v would be v's parent or a child reached through an
      earlier entry of v's list. */
  lemma BackEdgeOnPath(g: Graph, v: int, parent: int, stack: seq<int>, visited: set<int>,
                       par: map<int, int>, i: int)
    requires Undirected(g)
    requires 0 <= i < |Nbrs(g, v)|
    requires Nbrs(g, v)[i] in visited && Nbrs(g, v)[i] != parent
    requires if |stack| == 0 then v !in par else v in par && par[v] == parent
    requires forall x :: x in par && par[x] == v ==> x in Nbrs(g, v)[..i]
    requires forall f :: f in visited && f !in stack && f != v ==> Closed(g, visited, par, f)
    ensures Nbrs(g, v)[i] in stack
  {
    var w := Nbrs(g, v)[i];
    assert w != v && v in Nbrs(g, w);
  }

  /** The state of the search from v after its first i neighbours: vis, p
      and rk are the visited set, parent links and ranks so far. */
  ghost predicate SearchInv(g: Graph, v: int, parent: int, stack: seq<int>, visited: set<int>,
                            par: map<int, int>, i: int,
                            vis: set<int>, p: map<int, int>, rk: map<int, nat>)
  {
    && 0 <= i <= |Nbrs(g, v)|
    && visited + {v} <= vis <= Ids(g)
    && Ranked(p, rk, vis) && Extends(par, p)
    && (if |stack| == 0 then v !in p else v in p && p[v] == parent)
    && (forall x {:trigger x in p} :: x in p && x !in par ==> x !in visited)
    && (forall x {:trigger x in p} :: x in p && x !in par && x != v ==> p[x] !in visited)
    && (forall j :: 0 <= j < i ==> Nbrs(g, v)[j] in vis && TreeEdge(p, v, Nbrs(g, v)[j]))
    && (forall x :: x in p && p[x] == v ==> x in Nbrs(g, v)[..i])
    && (forall f :: f in vis && f !in stack && f != v ==> Closed(g, vis, p, f))
  }

  /** The facts the search from v is entered with. */
  ghost predicate SearchPre(g: Graph, v: int, parent: int, visited: set<int>,
                            stack: seq<int>, par: map<int, int>, rank: map<int, nat>)
  {
    && Undirected(g)
    && v in Ids(g) && v !in visited && visited <= Ids(g)
    && IsPathSeq(g, stack) && (forall s :: s in stack ==> s in visited)
    && parent == (if |stack| == 0 then -1 else stack[|stack| - 1])
    && (|stack| > 0 ==> v in Nbrs(g, parent))
    && Ranked(par, rank, visited)
    && (forall f :: f in visited && f !in stack ==> Closed(g, visited, par, f))
  }

  /** What a search from v that found no cycle leaves behind. */
  ghost predicate SearchPost(g: Graph, v: int, parent: int, visited: set<int>,
                             stack: seq<int>, par: map<int, int>,
                             vis: set<int>, p: map<int, int>, rk: map<int, nat>)
  {
    && visited + {v} <= vis <= Ids(g)
    && Ranked(p, rk, vis) && Extends(par, p)
    && (if |stack| == 0 then v !in p else v in p && p[v] == parent)
    && (forall x {:trigger x in p} :: x in p && x !in par ==> x !in visited)
    && (forall x {:trigger x in p} :: x in p && x !in par && x != v ==> p[x] !in visited)
    && (forall f :: f in vis && f !in stack ==> Closed(g, vis, p, f))
  }

  lemma SearchStart(g: Graph, v: int, parent: int, visited: set<int>,
                    stack: seq<int>, par: map<int, int>, rank: map<int, nat>)
    requires v in Ids(g) && v !in visited && visited <= Ids(g)
    requires forall s :: s in stack ==> s in visited
    requires |stack| > 0 ==> parent == stack[|stack| - 1]
    requires Ranked(par, rank, visited)
    requires forall f :: f in visited && f !in stack ==> Closed(g, visited, par, f)
    ensures SearchInv(g, v, parent, stack, visited, par, 0, visited + {v},
                      if |stack| == 0 then par else par[v := parent], rank[v := |visited|])
  {
    var vis := visited + {v};
    var p := if |stack| == 0 then par else par[v := parent];
    var rk := rank[v := |visited|];
    assert v !in par;
    RankedAfterVisit(par, rank, visited, v, parent, |stack| > 0);
    forall f | f in vis && f !in stack && f != v ensures Closed(g, vis, p, f) {
      ClosedGrows(g, visited, par, vis, p, f);
    }
  }

  /** Visiting v with rank |visited|, linked to its parent when it has one,
      keeps the ranks well formed. */
  lemma RankedAfterVisit(par: map<int, int>, rank: map<int, nat>, visited: set<int>,
                         v: int, parent: int, linked: bool)
    requires Ranked(par, rank, visited) && v !in visited
    requires linked ==> parent in visited
    ensures Ranked(if linked then par[v := parent] else par, rank[v := |visited|], visited + {v})
  {
    var p := if linked then par[v := parent] else par;
    var rk := rank[v := |visited|];
    forall x | x in p ensures x in rk && p[x] in rk && rk[p[x]] < rk[x] {
      if x != v {
        assert p[x] == par[x] && par[x] in visited;
      }
    }
  }

  /** Closedness survives more visited nodes and more parent links. */
  lemma ClosedGrows(g: Graph, vis: set<int>, p: map<int, int>,
                    vis': set<int>, p': map<int, int>, f: int)
    requires Closed(g, vis, p, f) && vis <= vis' && Extends(p, p')
    ensures Closed(g, vis', p', f)
  {
    forall n | n in Nbrs(g, f) ensures n in vis' && TreeEdge(p', f, n) {
      assert TreeEdge(p, f, n);
    }
  }

  lemma SearchChild(g: Graph, v: int, parent: int, stack: seq<int>, visited: set<int>,
                    par: map<int, int>, i: int,
                    vis: set<int>, p: map<int, int>, rk: map<int, nat>,
                    vis': set<int>, p': map<int, int>, rk': map<int, nat>)
    requires v !in visited
    requires SearchInv(g, v, parent, stack, visited, par, i, vis, p, rk)
    requires i < |Nbrs(g, v)| && Nbrs(g, v)[i] !in vis
    requires SearchPost(g, Nbrs(g, v)[i], v, vis, stack + [v], p, vis', p', rk')
    ensures SearchInv(g, v, parent, stack, visited, par, i + 1, vis', p', rk')
  {
  }

  /** The child call of the search from v is entered with its facts. */
  lemma SearchEnterChild(g: Graph, v: int, parent: int, visited: set<int>,
                         stack: seq<int>, par: map<int, int>, rank: map<int, nat>, i: int,
                         vis: set<int>, p: map<int, int>, rk: map<int, nat>)
    requires SearchPre(g, v, parent, visited, stack, par, rank)
    requires SearchInv(g, v, parent, stack, visited, par, i, vis, p, rk)
    requires i < |Nbrs(g, v)| && Nbrs(g, v)[i] !in vis
    ensures SearchPre(g, Nbrs(g, v)[i], v, vis, stack + [v], p, rk)
  {
    var s' := stack + [v];
    assert IsPathSeq(g, s');
  }

  lemma SearchSkip(g: Graph, v: int, parent: int, stack: seq<int>, visited: set<int>,
                   par: map<int, int>, i: int,
                   vis: set<int>, p: map<int, int>, rk: map<int, nat>)
    requires Undirected(g)
    requires SearchInv(g, v, parent, stack, visited, par, i, vis, p, rk)
    requires i < |Nbrs(g, v)| && Nbrs(g, v)[i] in vis && Nbrs(g, v)[i] == parent
    ensures SearchInv(g, v, parent, stack, visited, par, i + 1, vis, p, rk)
  {
  }

  lemma SearchDone(g: Graph, v: int, parent: int, stack: seq<int>, visited: set<int>,
                   par: map<int, int>, vis: set<int>, p: map<int, int>, rk: map<int, nat>)
    requires SearchInv(g, v, parent, stack, visited, par, |Nbrs(g, v)|, vis, p, rk)
    ensures SearchPost(g, v, parent, visited, stack, par, vis, p, rk)
  {
  }

  /** Graph::hasCycleUtil: the search from v, reached from parent (or -1 for a
      root). Ghost parameters: the search path above v, the parent links and
      the discovery ranks of the nodes visited so far. */
  method HasCycleFrom(g: Graph, v: int, parent: int, visited: set<int>,
                      ghost stack: seq<int>, ghost par: map<int, int>, ghost rank: map<int, nat>)
    returns (found: bool, visitedOut: set<int>, ghost parOut: map<int, int>, ghost rankOut: map<int, nat>)
    requires SearchPre(g, v, parent, visited, stack, par, rank)
    ensures found ==> HasSimpleCycle(g)
    ensures !found ==> SearchPost(g, v, parent, visited, stack, par, visitedOut, parOut, rankOut)
    decreases |Ids(g) - visited|
  {
    found := false;
    SearchStart(g, v, parent, visited, stack, par, rank);
    visitedOut := visited + {v};
    rankOut := rank[v := |visited|];
    parOut := if |stack| == 0 then par else par[v := parent];
    var ns := Nbrs(g, v);
    var i := 0;
    while i < |ns|
      invariant SearchInv(g, v, parent, stack, visited, par, i, visitedOut, parOut, rankOut)
      decreases |ns| - i
    {
      var w := ns[i];
      if w !in visitedOut {
        VisitShrinks(Ids(g), visited, visitedOut, v);
        SearchEnterChild(g, v, parent, visited, stack, par, rank, i, visitedOut, parOut, rankOut);
        ghost var vis, p, rk := visitedOut, parOut, rankOut;
        var r;
        r, visitedOut, parOut, rankOut := HasCycleFrom(g, w, v, visitedOut, stack + [v], parOut, rankOut);
        if r {
          return true, visitedOut, parOut, rankOut;
        }
        SearchChild(g, v, parent, stack, visited, par, i, vis, p, rk, visitedOut, parOut, rankOut);
      } else if w != parent {
        BackEdgeOnPath(g, v, parent, stack, visitedOut, parOut, i);
        BackEdgeCycle(g, stack, v, w);
        return true, visitedOut, parOut, rankOut;
      } else {
        SearchSkip(g, v, parent, stack, visited, par, i, visitedOut, parOut, rankOut);
      }
      i := i + 1;
    }
    SearchDone(g, v, parent, stack, visited, par, visitedOut, parOut, rankOut);
  }

  /** A search that closed every live node leaves a forest witness, so the
      graph has no simple cycle. */
  lemma SearchLeavesForest(g: Graph, visited: set<int>, par: map<int, int>, rank: map<int, nat>)
    requires Ranked(par, rank, visited)
    requires forall j :: 0 <= j < |g.nodes| ==> g.nodes[j].id in visited
    requires forall f :: f in visited ==> Closed(g, visited, par, f)
    ensures !HasSimpleCycle(g)
  {
    forall v, w | w in Nbrs(g, v) ensures TreeEdge(par, v, w) {
      NeighborsLive(g, v);
      var j :| 0 <= j < |g.nodes| && g.nodes[j].id == v;
      assert Closed(g, visited, par, v);
    }
    ForestHasNoCycle(g, par, rank);
  }

  /** The sweep over the arena after its first i nodes: each of them has been
      searched from, and every visited node is closed. */
  ghost predicate SweepInv(g: Graph, i: int, visited: set<int>, par: map<int, int>, rank: map<int, nat>) {
    && 0 <= i <= |g.nodes|
    && visited <= Ids(g)
    && Ranked(par, rank, visited)
    && (forall j :: 0 <= j < i ==> g.nodes[j].id in visited)
    && (forall f :: f in visited ==> Closed(g, visited, par, f))
  }

  lemma SweepEnterRoot(g: Graph, i: int, visited: set<int>, par: map<int, int>, rank: map<int, nat>)
    requires Undirected(g) && SweepInv(g, i, visited, par, rank)
    requires i < |g.nodes| && g.nodes[i].id !in visited
    ensures SearchPre(g, g.nodes[i].id, -1, visited, [], par, rank)
  {
  }

  lemma SweepAfterRoot(g: Graph, i: int, visited: set<int>, par: map<int, int>, rank: map<int, nat>,
                       vis: set<int>, p: map<int, int>, rk: map<int, nat>)
    requires SweepInv(g, i, visited, par, rank) && i < |g.nodes|
    requires SearchPost(g, g.nodes[i].id, -1, visited, [], par, vis, p, rk)
    ensures SweepInv(g, i + 1, vis, p, rk)
  {
  }

  lemma SweepSkip(g: Graph, i: int, visited: set<int>, par: map<int, int>, rank: map<int, nat>)
    requires SweepInv(g, i, visited, par, rank) && i < |g.nodes| && g.nodes[i].id in visited
    ensures SweepInv(g, i + 1, visited, par, rank)
  {
  }

  /** Graph::hasCycle: true exactly when the graph holds a simple cycle. The
      search needs only the adjacency view of well-formedness. */
  method HasCycle(g: Graph) returns (found: bool)
    requires Undirected(g)
    ensures found <==> HasSimpleCycle(g)
  {
    var visited: set<int> := {};
    ghost var par: map<int, int> := map[];
    ghost var rank: map<int, nat> := map[];
    var i := 0;
    while i < |g.nodes|
      invariant SweepInv(g, i, visited, par, rank)
    {
      var v := g.nodes[i].id;
      if v !in visited {
        SweepEnterRoot(g, i, visited, par, rank);
        ghost var vis0, par0, rank0 := visited, par, rank;
        var r;
        r, visited, par, rank := HasCycleFrom(g, v, -1, visited, [], par, rank);
        if r {
          return true;
        }
        SweepAfterRoot(g, i, vis0, par0, rank0, visited, par, rank);
      } else {
        SweepSkip(g, i, visited, par, rank);
      }
      i := i + 1;
    }
    SearchLeavesForest(g, visited, par, rank);
    return false;
  }
}
