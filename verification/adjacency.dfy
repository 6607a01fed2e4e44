/** A node's neighbour list (Graph.h:32): an ordered vector of neighbour ids,
    maintained by Node::addNeighbor and Node::removeNeighbor (Graph.cpp:15-27). */
module Adjacency {

  /** No id occurs twice in the list. */
  predicate NoDup(s: seq<int>) {
    forall i, j :: 0 <= i < j < |s| ==> s[i] != s[j]
  }

  /** Node::addNeighbor: a linear search, and an append when the id is absent. */
  function AddNeighbor(s: seq<int>, x: int): (r: seq<int>)
    ensures x in r
    ensures |r| == if x in s then |s| else |s| + 1
    ensures r[..|s|] == s
    ensures forall y :: y in r <==> y in s || y == x
    ensures NoDup(s) ==> NoDup(r)
  {
    if x in s then s else s + [x]
  }

  /** The position of the first occurrence of x, where std::find stops. */
  function FirstIndex(s: seq<int>, x: int): (k: nat)
    requires x in s
    ensures k < |s| && s[k] == x && x !in s[..k]
    decreases |s|
  {
    if s[0] == x then 0
    else
      assert s == [s[0]] + s[1..];
      var k := FirstIndex(s[1..], x);
      assert s[..k + 1] == [s[0]] + s[1..][..k];
      k + 1
  }

  /** Node::removeNeighbor: erase the first occurrence of the id, if any;
      the other entries keep their order. */
  function RemoveNeighbor(s: seq<int>, x: int): (r: seq<int>)
    ensures x !in s ==> r == s
    ensures x in s ==> var k := FirstIndex(s, x); |r| == |s| - 1 && r[..k] == s[..k] && r[k..] == s[k + 1..]
    ensures multiset(r) == multiset(s) - multiset{x}
    decreases |s|
  {
    if |s| == 0 then []
    else if s[0] == x then
      EraseHead(s, x);
      s[1..]
    else
      var t := RemoveNeighbor(s[1..], x);
      EraseCons(s, x, t);
      [s[0]] + t
  }

  /** Erasing the first x from a list that starts with x drops the head. */
  lemma {:induction false} EraseHead(s: seq<int>, x: int)
    requires |s| > 0 && s[0] == x
    ensures x in s && FirstIndex(s, x) == 0
    ensures multiset(s[1..]) == multiset(s) - multiset{x}
  {
    assert s == [s[0]] + s[1..];
  }

  /** The cons step of removeNeighbor: if rt is the tail with its first x
      erased, then the head followed by rt is s with its first x erased. */
  lemma {:induction false} EraseCons(s: seq<int>, x: int, rt: seq<int>)
    requires |s| > 0 && s[0] != x
    requires x !in s[1..] ==> rt == s[1..]
    requires x in s[1..] ==>
      var k := FirstIndex(s[1..], x); |rt| == |s| - 2 && rt[..k] == s[1..][..k] && rt[k..] == s[1..][k + 1..]
    requires multiset(rt) == multiset(s[1..]) - multiset{x}
    ensures var r := [s[0]] + rt;
      && (x !in s ==> r == s)
      && (x in s ==> var k := FirstIndex(s, x); |r| == |s| - 1 && r[..k] == s[..k] && r[k..] == s[k + 1..])
      && multiset(r) == multiset(s) - multiset{x}
  {
    var t, r := s[1..], [s[0]] + rt;
    assert s == [s[0]] + t;
    assert r[1..] == rt;
    assert multiset(r) == multiset{s[0]} + multiset(rt);
    assert multiset(s) == multiset{s[0]} + multiset(t);
    if x in t {
      var k := FirstIndex(t, x);
      assert FirstIndex(s, x) == k + 1;
      assert r[..k + 1] == [s[0]] + rt[..k];
      assert s[..k + 1] == [s[0]] + t[..k];
      assert r[k + 1..] == rt[k..];
      assert s[k + 2..] == t[k + 1..];
    }
  }

  /** On a duplicate-free list the id disappears completely and nothing else does. */
  lemma RemoveNeighborNoDup(s: seq<int>, x: int)
    requires NoDup(s)
    ensures NoDup(RemoveNeighbor(s, x))
    ensures forall y :: y in RemoveNeighbor(s, x) <==> y in s && y != x
  {
    RemoveKeepsNoDup(s, x);
    forall y ensures y in RemoveNeighbor(s, x) <==> y in s && y != x {
      RemoveNeighborHas(s, x, y);
    }
  }

  lemma {:induction false} RemoveNeighborHas(s: seq<int>, x: int, y: int)
    requires NoDup(s)
    ensures y in RemoveNeighbor(s, x) <==> y in s && y != x
    decreases |s|
  {
    if |s| > 0 {
      var t := s[1..];
      assert s == [s[0]] + t;
      assert NoDup(t);
      if s[0] == x {
        assert x !in t;
      } else {
        RemoveNeighborHas(t, x, y);
      }
    }
  }

  lemma {:induction false} RemoveKeepsNoDup(s: seq<int>, x: int)
    requires NoDup(s)
    ensures NoDup(RemoveNeighbor(s, x))
    decreases |s|
  {
    if |s| > 0 {
      var t := s[1..];
      assert s == [s[0]] + t;
      assert NoDup(t);
      if s[0] != x {
        RemoveKeepsNoDup(t, x);
        RemoveNeighborHas(t, x, s[0]);
        ConsNoDup(s[0], RemoveNeighbor(t, x));
      }
    }
  }

  lemma ConsNoDup(a: int, t: seq<int>)
    requires NoDup(t) && a !in t
    ensures NoDup([a] + t)
  {
    var r := [a] + t;
    forall i, j | 0 <= i < j < |r| ensures r[i] != r[j] {
      assert r[j] == t[j - 1];
      if i > 0 { assert r[i] == t[i - 1]; }
    }
  }

  /** Removal keeps a clean list clean: still duplicate-free, and an id
      that was absent stays absent. */
  lemma RemoveKeepsClean(s: seq<int>, x: int, v: int)
    requires NoDup(s) && v !in s
    ensures NoDup(RemoveNeighbor(s, x)) && v !in RemoveNeighbor(s, x)
  {
    RemoveNeighborNoDup(s, x);
  }

  /** Removing an id that was just appended gives back the original list. */
  lemma RemoveAfterAdd(s: seq<int>, x: int)
    requires x !in s
    ensures RemoveNeighbor(AddNeighbor(s, x), x) == s
  {
    var t := s + [x];
    assert t[|s|] == x;
    assert t[..|s|] == s;
    var k := FirstIndex(t, x);
    assert k == |s|;
  }
}
