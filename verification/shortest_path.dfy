/** Graph::shortestPath (Graph.cpp:227-273): Dijkstra's algorithm with unit
    edge weights over the neighbour lists, a lazy-deletion priority queue,
    and path reconstruction through the predecessor map. */
module ShortestPath {
  import opened Sets
  import opened GraphState

  /** A walk: at least one node, each listing the next. */
  ghost predicate IsWalk(g: Graph, p: seq<int>) {
    |p| >= 1 && forall i :: 0 <= i < |p| - 1 ==> p[i + 1] in Nbrs(g, p[i])
  }

  ghost predicate WalkFrom(g: Graph, p: seq<int>, a: int, b: int) {
    IsWalk(g, p) && p[0] == a && p[|p| - 1] == b
  }

  ghost predicate Reachable(g: Graph, a: int, b: int) {
    exists p :: WalkFrom(g, p, a, b)
  }

  /** std::reverse. */
  function Reverse(s: seq<int>): (r: seq<int>)
    ensures |r| == |s| && forall i :: 0 <= i < |s| ==> r[i] == s[|s| - 1 - i]
  {
    seq(|s|, i requires 0 <= i < |s| => s[|s| - 1 - i])
  }

  /** A queue entry: a tentative distance and the node it was pushed for. */
  datatype Entry = Entry(key: nat, node: int)

  /** e is a minimum-key entry of the queue. The source breaks ties between
      equal keys by comparing node pointers, which this model leaves open. */
  predicate IsMin(e: Entry, pq: multiset<Entry>) {
    e in pq && forall f :: f in pq ==> e.key <= f.key
  }

  lemma {:induction false} MinExists(pq: multiset<Entry>)
    requires |pq| > 0
    ensures exists e :: IsMin(e, pq)
    decreases |pq|
  {
    var x :| x in pq;
    var rest := pq - multiset{x};
    assert pq == rest + multiset{x};
    if |rest| == 0 {
      assert rest == multiset{};
      assert IsMin(x, pq);
    } else {
      MinExists(rest);
      var m :| IsMin(m, rest);
      assert forall f :: f in pq ==> f == x || f in rest;
      if x.key < m.key {
        assert IsMin(x, pq);
      } else {
        assert IsMin(m, pq);
      }
    }
  }

  /** The predecessor map leads back to start: every labelled node other
      than start has a predecessor that lists it and sits one closer. */
  ghost predicate Chains(g: Graph, start: int, dist: map<int, nat>, prev: map<int, int>) {
    && start in dist && dist[start] == 0 && start !in prev
    && (forall v :: v in prev ==>
          v in dist && prev[v] in dist && v in Nbrs(g, prev[v]) && dist[v] == dist[prev[v]] + 1)
    && (forall v :: Labelled(dist, v) && v != start ==> v in prev)
  }

  /** v carries a label. Kept as a separate predicate so that the
      every-labelled-node-has-a-predecessor clause of Chains is only
      instantiated where a proof asks for it. */
  predicate Labelled(dist: map<int, nat>, v: int) {
    v in dist
  }

  /** Labels only live nodes (and start); predecessors are finished nodes;
      queue entries are no better than their node's label and no better than
      the level reached; every unfinished labelled node has its current
      label queued. */
  ghost predicate Core(g: Graph, start: int, dist: map<int, nat>, prev: map<int, int>,
                       pq: multiset<Entry>, done: set<int>, level: nat)
  {
    && Chains(g, start, dist, prev)
    && dist.Keys <= Ids(g) + {start}
    && done <= dist.Keys
    && (forall v :: v in prev ==> prev[v] in done)
    && (forall e :: e in pq ==> e.node in dist && dist[e.node] <= e.key && level <= e.key)
    && (forall v :: v in dist && v !in done ==> Entry(dist[v], v) in pq)
  }

  /** v's neighbours are labelled at most one more than v. */
  ghost predicate NbrBound(g: Graph, dist: map<int, nat>, v: int) {
    v in dist && forall w :: w in Nbrs(g, v) ==> w in dist && dist[w] <= dist[v] + 1
  }

  /** Finished nodes are labelled within the level and have been expanded. */
  ghost predicate Settled(g: Graph, dist: map<int, nat>, done: set<int>, level: nat) {
    forall v :: v in done ==> v in dist && dist[v] <= level && NbrBound(g, dist, v)
  }

  ghost predicate Frontier(g: Graph, start: int, end: int, dist: map<int, nat>, prev: map<int, int>,
                           pq: multiset<Entry>, done: set<int>, level: nat)
  {
    Core(g, start, dist, prev, pq, done, level) && Settled(g, dist, done, level) && end !in done
  }

  /** Along a walk from start whose first k nodes are finished, the k-th node
      is labelled at most k. */
  lemma {:induction false} WalkDistBound(g: Graph, start: int, dist: map<int, nat>, done: set<int>,
                                         level: nat, p: seq<int>, k: nat)
    requires IsWalk(g, p) && p[0] == start && k < |p|
    requires start in dist && dist[start] == 0
    requires Settled(g, dist, done, level)
    requires forall i :: 0 <= i < k ==> p[i] in done
    ensures p[k] in dist && dist[p[k]] <= k
  {
    if k > 0 {
      WalkDistBound(g, start, dist, done, level, p, k - 1);
      assert p[k - 1] in done;
      assert NbrBound(g, dist, p[k - 1]);
      assert p[k] in Nbrs(g, p[k - 1]);
      var v := p[k - 1];
      assert forall w :: w in Nbrs(g, v) ==> w in dist && dist[w] <= dist[v] + 1;
      assert p[k] in dist;
    }
  }

  lemma FirstOutside(p: seq<int>, done: set<int>) returns (k: nat)
    requires |p| > 0 && p[|p| - 1] !in done
    ensures k < |p| && p[k] !in done && forall i :: 0 <= i < k ==> p[i] in done
  {
    k := 0;
    while p[k] in done
      invariant k < |p| && forall i :: 0 <= i < k ==> p[i] in done
      decreases |p| - k
    {
      k := k + 1;
    }
  }

  /** Any walk from start to an unfinished node crosses the frontier: some
      queued entry is no longer than the walk. */
  lemma FrontierEntry(g: Graph, start: int, dist: map<int, nat>, prev: map<int, int>,
                      pq: multiset<Entry>, done: set<int>, level: nat, p: seq<int>)
    requires Core(g, start, dist, prev, pq, done, level) && Settled(g, dist, done, level)
    requires IsWalk(g, p) && p[0] == start && p[|p| - 1] !in done
    ensures exists f :: f in pq && f.key <= |p| - 1
  {
    var k := FirstOutside(p, done);
    WalkDistBound(g, start, dist, done, level, p, k);
    assert Entry(dist[p[k]], p[k]) in pq;
  }

  /** What the search knows once its main loop is over. */
  ghost predicate Outcome(g: Graph, start: int, end: int, dist: map<int, nat>, prev: map<int, int>) {
    && Chains(g, start, dist, prev)
    && (end in prev ==> forall p :: WalkFrom(g, p, start, end) ==> dist[end] <= |p| - 1)
    && (end !in prev ==> start == end || !Reachable(g, start, end))
  }

  lemma SearchStart(g: Graph, start: int, end: int)
    ensures Frontier(g, start, end, map[start := 0], map[], multiset{Entry(0, start)}, {}, 0)
  {
  }

  /** Popping end, a minimum entry, settles its label as the distance. */
  lemma ExitAtEnd(g: Graph, start: int, end: int, dist: map<int, nat>, prev: map<int, int>,
                  pq: multiset<Entry>, done: set<int>, level: nat, e: Entry)
    requires Frontier(g, start, end, dist, prev, pq, done, level)
    requires IsMin(e, pq) && e.node == end
    ensures Outcome(g, start, end, dist, prev)
  {
    assert Entry(dist[end], end) in pq;
    forall p | WalkFrom(g, p, start, end) ensures dist[end] <= |p| - 1 {
      FrontierEntry(g, start, dist, prev, pq, done, level, p);
    }
  }

  /** An exhausted queue means end is out of reach. */
  lemma ExitExhausted(g: Graph, start: int, end: int, dist: map<int, nat>, prev: map<int, int>,
                      done: set<int>, level: nat)
    requires Frontier(g, start, end, dist, prev, multiset{}, done, level)
    ensures end !in prev && !Reachable(g, start, end)
    ensures Outcome(g, start, end, dist, prev)
  {
    if p :| WalkFrom(g, p, start, end) {
      FrontierEntry(g, start, dist, prev, multiset{}, done, level, p);
    }
  }

  /** A stale entry for a finished node: its expansion changes nothing, and
      dropping the entry keeps the frontier. */
  lemma PopFinished(g: Graph, start: int, end: int, dist: map<int, nat>, prev: map<int, int>,
                    pq: multiset<Entry>, done: set<int>, level: nat, e: Entry)
    requires Frontier(g, start, end, dist, prev, pq, done, level)
    requires IsMin(e, pq) && e.node in done
    ensures Frontier(g, start, end, dist, prev, pq - multiset{e}, done, e.key)
  {
    var pq' := pq - multiset{e};
    forall v | v in dist && v !in done ensures Entry(dist[v], v) in pq' {
      assert Entry(dist[v], v) in pq;
    }
  }

  /** The expansion of an unfinished node u with label du after its first j
      neighbours: u counts as finished at level du, and the neighbours seen
      so far are labelled at most du + 1. */
  ghost predicate Expanding(g: Graph, start: int, end: int, u: int, du: nat, j: int, done: set<int>,
                            dist: map<int, nat>, prev: map<int, int>, pq: multiset<Entry>)
  {
    && 0 <= j <= |Nbrs(g, u)|
    && Core(g, start, dist, prev, pq, done + {u}, du)
    && Settled(g, dist, done, du)
    && u in dist && dist[u] == du
    && (forall i :: 0 <= i < j ==> Nbrs(g, u)[i] in dist && dist[Nbrs(g, u)[i]] <= du + 1)
    && end !in done + {u}
  }

  lemma PopUnfinished(g: Graph, start: int, end: int, dist: map<int, nat>, prev: map<int, int>,
                      pq: multiset<Entry>, done: set<int>, level: nat, e: Entry)
    requires Frontier(g, start, end, dist, prev, pq, done, level)
    requires IsMin(e, pq) && e.node !in done && e.node != end
    ensures Expanding(g, start, end, e.node, e.key, 0, done, dist, prev, pq - multiset{e})
  {
    var u := e.node;
    var pq' := pq - multiset{e};
    assert Entry(dist[u], u) in pq;
    forall v | v in dist && v !in done + {u} ensures Entry(dist[v], v) in pq' {
      assert Entry(dist[v], v) in pq;
    }
  }

  /** A neighbour of u is a live node other than u. */
  lemma NeighborFacts(g: Graph, u: int, j: int)
    requires Undirected(g) && 0 <= j < |Nbrs(g, u)|
    ensures Nbrs(g, u)[j] in Ids(g) && Nbrs(g, u)[j] != u
  {
  }

  /** One relaxation step that improves the label of neighbour w of u:
      w gets label du + 1, predecessor u and a queue entry. */
  lemma RelaxImproves(g: Graph, start: int, end: int, u: int, du: nat, j: int, w: int, done: set<int>,
                      s: Labels, r: Labels)
    requires Expanding(g, start, end, u, du, j, done, s.dist, s.prev, s.pq) && j < |Nbrs(g, u)|
    requires w == Nbrs(g, u)[j] && w != u && w in Ids(g)
    requires w !in s.dist || du + 1 < s.dist[w]
    requires r.dist == s.dist[w := du + 1] && r.prev == s.prev[w := u]
    requires r.pq == s.pq + multiset{Entry(du + 1, w)}
    ensures Expanding(g, start, end, u, du, j + 1, done, r.dist, r.prev, r.pq)
  {
    assert w !in done;
    RelaxChains(g, start, u, w, du, s.dist, s.prev);
    RelaxCore(g, start, u, w, du, done + {u}, s.dist, s.prev, s.pq);
    RelaxSettled(g, w, du, done, s.dist);
  }

  lemma RelaxChains(g: Graph, start: int, u: int, w: int, du: nat, dist: map<int, nat>, prev: map<int, int>)
    requires Chains(g, start, dist, prev)
    requires u in dist && dist[u] == du && w != u && w in Nbrs(g, u)
    requires w !in dist || du + 1 < dist[w]
    requires forall v :: v in prev ==> prev[v] != w
    ensures Chains(g, start, dist[w := du + 1], prev[w := u])
  {
  }

  lemma RelaxCore(g: Graph, start: int, u: int, w: int, du: nat, fin: set<int>,
                  dist: map<int, nat>, prev: map<int, int>, pq: multiset<Entry>)
    requires Core(g, start, dist, prev, pq, fin, du)
    requires Chains(g, start, dist[w := du + 1], prev[w := u])
    requires u in fin && w !in fin && w in Ids(g)
    requires w !in dist || du + 1 < dist[w]
    ensures Core(g, start, dist[w := du + 1], prev[w := u], pq + multiset{Entry(du + 1, w)}, fin, du)
  {
  }

  lemma RelaxSettled(g: Graph, w: int, du: nat, done: set<int>, dist: map<int, nat>)
    requires Settled(g, dist, done, du) && w !in done
    requires w !in dist || du + 1 < dist[w]
    ensures Settled(g, dist[w := du + 1], done, du)
  {
    var dist' := dist[w := du + 1];
    forall v | v in done ensures v in dist' && dist'[v] <= du && NbrBound(g, dist', v) {
      assert NbrBound(g, dist, v);
    }
  }

  /** A relaxation step that does not improve the label changes nothing. */
  lemma RelaxKeeps(g: Graph, start: int, end: int, u: int, du: nat, j: int, done: set<int>,
                   dist: map<int, nat>, prev: map<int, int>, pq: multiset<Entry>)
    requires Expanding(g, start, end, u, du, j, done, dist, prev, pq) && j < |Nbrs(g, u)|
    requires Nbrs(g, u)[j] in dist && du + 1 >= dist[Nbrs(g, u)[j]]
    ensures Expanding(g, start, end, u, du, j + 1, done, dist, prev, pq)
  {
  }

  lemma ExpandDone(g: Graph, start: int, end: int, u: int, du: nat, done: set<int>,
                   dist: map<int, nat>, prev: map<int, int>, pq: multiset<Entry>)
    requires Expanding(g, start, end, u, du, |Nbrs(g, u)|, done, dist, prev, pq)
    ensures Frontier(g, start, end, dist, prev, pq, done + {u}, du)
  {
    assert NbrBound(g, dist, u);
  }

  /** Appending a node that lists the current last node keeps a sequence a
      walk read backwards. */
  lemma ChainAppend(g: Graph, out: seq<int>, x: int, lo: int)
    requires 0 <= lo < |out| && out[|out| - 1] in Nbrs(g, x)
    requires forall i :: lo <= i < |out| - 1 ==> out[i] in Nbrs(g, out[i + 1])
    ensures forall i :: lo <= i < |out| ==> (out + [x])[i] in Nbrs(g, (out + [x])[i + 1])
  {
  }

  /** A sequence whose part from lo on, read backwards, steps along
      adjacencies is, once reversed, a walk from its last element to out[lo]. */
  lemma ReversedWalk(g: Graph, out: seq<int>, lo: int)
    requires 0 <= lo < |out|
    requires forall i :: lo <= i < |out| - 1 ==> out[i] in Nbrs(g, out[i + 1])
    ensures WalkFrom(g, Reverse(out)[..|out| - lo], out[|out| - 1], out[lo])
  {
    var r := Reverse(out);
    var w := r[..|out| - lo];
    forall i | 0 <= i < |w| - 1 ensures w[i + 1] in Nbrs(g, w[i]) {
      var k := |out| - 2 - i;
      assert w[i + 1] == r[i + 1] == out[k];
      assert w[i] == r[i] == out[k + 1];
    }
  }

  /** Reversing the whole output vector puts its earlier contents, reversed,
      behind the d + 1 path entries. */
  lemma ReversedTail(path: seq<int>, out: seq<int>, d: nat)
    requires |out| == |path| + d + 1 && out[..|path|] == path
    ensures Reverse(out)[d + 1..] == Reverse(path)
  {
    var tail := Reverse(out)[d + 1..];
    var rp := Reverse(path);
    forall t | 0 <= t < |path| ensures tail[t] == rp[t] {
      assert out[|path| - 1 - t] == out[..|path|][|path| - 1 - t];
    }
  }

  /** The search's working state: labels (the distances map, a missing key
      standing for the INT_MAX the source starts every node with),
      predecessors, and the priority queue. */
  datatype Labels = Labels(dist: map<int, nat>, prev: map<int, int>, pq: multiset<Entry>)

  /** One pass of the relaxation loop body: when going through u improves
      w's label, w gets label dist[u] + 1, predecessor u and a queue entry;
      otherwise nothing changes. */
  function Relax(u: int, w: int, s: Labels): (r: Labels)
    requires u in s.dist
    ensures w in r.dist && r.dist[w] <= s.dist[u] + 1
    ensures w in s.dist ==> r.dist[w] == if s.dist[w] <= s.dist[u] + 1 then s.dist[w] else s.dist[u] + 1
    ensures w !in s.dist ==> r.dist[w] == s.dist[u] + 1
    ensures r.dist.Keys == s.dist.Keys + {w}
    ensures forall v :: v in s.dist && v != w ==> r.dist[v] == s.dist[v]
    ensures w in s.dist && s.dist[w] <= s.dist[u] + 1 ==> r == s
    ensures r != s ==> r.prev == s.prev[w := u] && r.pq == s.pq + multiset{Entry(s.dist[u] + 1, w)}
  {
    var nd := s.dist[u] + 1;
    if w !in s.dist || nd < s.dist[w] then
      Labels(s.dist[w := nd], s.prev[w := u], s.pq + multiset{Entry(nd, w)})
    else
      s
  }

  /** The state of the relaxation loop after j neighbours: untouched for a
      stale entry, otherwise the expansion invariant. */
  ghost predicate ExpandInv(g: Graph, start: int, end: int, u: int, du: nat, j: int, done: set<int>,
                            s0: Labels, s: Labels)
  {
    && 0 <= j <= |Nbrs(g, u)|
    && (u in done ==> s == s0 && NbrBound(g, s.dist, u))
    && (u !in done ==> Expanding(g, start, end, u, du, j, done, s.dist, s.prev, s.pq))
  }

  lemma RelaxStep(g: Graph, start: int, end: int, u: int, du: nat, j: int, done: set<int>,
                  s0: Labels, s: Labels)
    requires Undirected(g)
    requires ExpandInv(g, start, end, u, du, j, done, s0, s) && j < |Nbrs(g, u)|
    ensures u in s.dist
    ensures ExpandInv(g, start, end, u, du, j + 1, done, s0, Relax(u, Nbrs(g, u)[j], s))
  {
    if u in done {
      RelaxStale(g, u, j, s);
    } else {
      NeighborFacts(g, u, j);
      var w := Nbrs(g, u)[j];
      if w !in s.dist || du + 1 < s.dist[w] {
        RelaxFreshImproves(g, start, end, u, du, j, done, s);
      } else {
        RelaxFreshKeeps(g, start, end, u, du, j, done, s);
      }
    }
  }

  /** Relaxing an unfinished node's j-th neighbour when going through u is
      shorter keeps the expansion invariant. */
  lemma RelaxFreshImproves(g: Graph, start: int, end: int, u: int, du: nat, j: int, done: set<int>, s: Labels)
    requires u !in done
    requires Expanding(g, start, end, u, du, j, done, s.dist, s.prev, s.pq) && j < |Nbrs(g, u)|
    requires Nbrs(g, u)[j] in Ids(g) && Nbrs(g, u)[j] != u
    requires Nbrs(g, u)[j] !in s.dist || du + 1 < s.dist[Nbrs(g, u)[j]]
    ensures u in s.dist
    ensures var r := Relax(u, Nbrs(g, u)[j], s);
      Expanding(g, start, end, u, du, j + 1, done, r.dist, r.prev, r.pq)
  {
    var w := Nbrs(g, u)[j];
    assert s.dist[u] == du;
    RelaxCases(u, w, s);
    RelaxImproves(g, start, end, u, du, j, w, done, s, Relax(u, w, s));
  }

  /** Relaxing a neighbour that is already labelled well enough keeps the
      expansion invariant. */
  lemma RelaxFreshKeeps(g: Graph, start: int, end: int, u: int, du: nat, j: int, done: set<int>, s: Labels)
    requires Expanding(g, start, end, u, du, j, done, s.dist, s.prev, s.pq) && j < |Nbrs(g, u)|
    requires Nbrs(g, u)[j] in s.dist && s.dist[Nbrs(g, u)[j]] <= du + 1
    ensures u in s.dist
    ensures Relax(u, Nbrs(g, u)[j], s) == s
    ensures Expanding(g, start, end, u, du, j + 1, done, s.dist, s.prev, s.pq)
  {
    RelaxCases(u, Nbrs(g, u)[j], s);
    RelaxKeeps(g, start, end, u, du, j, done, s.dist, s.prev, s.pq);
  }

  lemma RelaxCases(u: int, w: int, s: Labels)
    requires u in s.dist
    ensures var nd := s.dist[u] + 1;
      Relax(u, w, s) == if w !in s.dist || nd < s.dist[w]
                        then Labels(s.dist[w := nd], s.prev[w := u], s.pq + multiset{Entry(nd, w)})
                        else s
  {
  }

  /** Re-expanding a finished node finds every neighbour labelled well
      enough already. */
  lemma RelaxStale(g: Graph, u: int, j: int, s: Labels)
    requires NbrBound(g, s.dist, u) && 0 <= j < |Nbrs(g, u)|
    ensures u in s.dist && Relax(u, Nbrs(g, u)[j], s) == s
  {
    var w := Nbrs(g, u)[j];
    assert w in s.dist && s.dist[w] <= s.dist[u] + 1;
  }

  lemma ExpandFinish(g: Graph, start: int, end: int, u: int, du: nat, done: set<int>, s0: Labels, s: Labels)
    requires u in done ==> Frontier(g, start, end, s0.dist, s0.prev, s0.pq, done, du)
    requires ExpandInv(g, start, end, u, du, |Nbrs(g, u)|, done, s0, s)
    ensures Frontier(g, start, end, s.dist, s.prev, s.pq, done + {u}, du)
  {
    if u !in done {
      ExpandDone(g, start, end, u, du, done, s.dist, s.prev, s.pq);
    } else {
      AddPresent(done, u);
    }
  }

  /** The loop over the popped node's neighbours: each neighbour whose
      label improves on going through u gets the label, u as predecessor and
      a queue entry. Popping a finished node (a stale entry) changes nothing. */
  method Expand(g: Graph, ghost start: int, ghost end: int, u: int, ghost du: nat, ghost done: set<int>,
                s0: Labels)
    returns (s: Labels)
    requires Undirected(g)
    requires u in done ==> Frontier(g, start, end, s0.dist, s0.prev, s0.pq, done, du)
    requires u !in done ==> Expanding(g, start, end, u, du, 0, done, s0.dist, s0.prev, s0.pq)
    ensures Frontier(g, start, end, s.dist, s.prev, s.pq, done + {u}, du)
    ensures u in done ==> s == s0
  {
    s := s0;
    var ns := Nbrs(g, u);
    var j := 0;
    if u in done {
      assert NbrBound(g, s0.dist, u);
    }
    while j < |ns|
      invariant ExpandInv(g, start, end, u, du, j, done, s0, s)
    {
      RelaxStep(g, start, end, u, du, j, done, s0, s);
      s := Relax(u, ns[j], s);
      j := j + 1;
    }
    ExpandFinish(g, start, end, u, du, done, s0, s);
  }

  /** The main loop of Graph::shortestPath: pop a minimum entry, stop at
      end, otherwise relax the popped node's neighbours. Returns the labels
      and the predecessor map. */
  method Search(g: Graph, start: int, end: int) returns (dist: map<int, nat>, prev: map<int, int>)
    requires Undirected(g)
    ensures Outcome(g, start, end, dist, prev)
  {
    dist := map[start := 0];
    prev := map[];
    var pq := multiset{Entry(0, start)};
    ghost var done: set<int> := {};
    ghost var level: nat := 0;
    ghost var live := Ids(g) + {start};
    SearchStart(g, start, end);
    while |pq| > 0
      invariant Frontier(g, start, end, dist, prev, pq, done, level)
      decreases |live - done|, |pq|
    {
      MinExists(pq);
      var e :| IsMin(e, pq);
      if e.node == end {
        ExitAtEnd(g, start, end, dist, prev, pq, done, level, e);
        return;
      }
      var u := e.node;
      ghost var done' := done + {u};
      if u in done {
        PopFinished(g, start, end, dist, prev, pq, done, level, e);
        AddPresent(done, u);
        RemoveOne(pq, e);
      } else {
        PopUnfinished(g, start, end, dist, prev, pq, done, level, e);
        assert u in live;
        VisitShrinks(live, done, done', u);
      }
      var st := Expand(g, start, end, u, e.key, done, Labels(dist, prev, pq - multiset{e}));
      dist, prev, pq := st.dist, st.prev, st.pq;
      done := done';
      level := e.key;
    }
    ExitExhausted(g, start, end, dist, prev, done, level);
  }

  /** The reconstruction loop of Graph::shortestPath: push end, then each
      predecessor in turn, behind the output vector's earlier contents,
      until start (which has none) has been pushed. */
  method FollowPredecessors(g: Graph, ghost start: int, end: int, dist: map<int, nat>, prev: map<int, int>,
                            path: seq<int>) returns (out: seq<int>)
    requires Chains(g, start, dist, prev) && end in dist
    ensures |out| == |path| + dist[end] + 1 && out[..|path|] == path
    ensures out[|path|] == end && out[|out| - 1] == start
    ensures forall i :: |path| <= i < |out| - 1 ==> out[i] in Nbrs(g, out[i + 1])
  {
    var at := end;
    out := path + [end];
    while at in prev
      invariant at in dist && dist[at] <= dist[end]
      invariant |out| == |path| + dist[end] - dist[at] + 1
      invariant out[..|path|] == path && out[|path|] == end && out[|out| - 1] == at
      invariant forall i :: |path| <= i < |out| - 1 ==> out[i] in Nbrs(g, out[i + 1])
      decreases dist[at]
    {
      var next := prev[at];
      ChainAppend(g, out, next, |path|);
      at := next;
      out := out + [at];
    }
  }

  /** Graph::shortestPath: the length of a shortest walk from start to end,
      or -1 when end is out of reach or is start itself; on success the
      walk, from start to end, is placed in front of the reversed earlier
      contents of the output vector. */
  method ShortestPathLength(g: Graph, start: int, end: int, path: seq<int>) returns (d: int, path': seq<int>)
    requires Undirected(g)
    ensures d >= -1
    ensures d == -1 <==> start == end || !Reachable(g, start, end)
    ensures d == -1 ==> path' == path
    ensures d >= 0 ==> |path'| == |path| + d + 1 && WalkFrom(g, path'[..d + 1], start, end)
    ensures d >= 0 ==> path'[d + 1..] == Reverse(path)
    ensures d >= 0 ==> forall p :: WalkFrom(g, p, start, end) ==> d <= |p| - 1
  {
    var dist, prev := Search(g, start, end);
    if end !in prev {
      return -1, path;
    }
    var out := FollowPredecessors(g, start, end, dist, prev, path);
    d := dist[end];
    ReversedWalk(g, out, |path|);
    ReversedTail(path, out, d);
    path' := Reverse(out);
  }
}
