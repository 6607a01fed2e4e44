/** Cardinality facts for the termination measures of the graph searches. */
module Sets {

  lemma {:induction false} SubsetCard<T>(a: set<T>, b: set<T>)
    requires a <= b
    ensures |a| <= |b|
    decreases |b|
  {
    if x :| x in a {
      SubsetCard(a - {x}, b - {x});
    }
  }

  /** Visiting a node that was not yet visited shrinks the unvisited part of
      any set holding it. */
  lemma VisitShrinks<T>(all: set<T>, visited: set<T>, visited': set<T>, v: T)
    requires v in all && v !in visited && visited + {v} <= visited'
    ensures |all - visited'| < |all - visited|
  {
    var rest := (all - visited) - {v};
    assert all - visited' <= rest;
    SubsetCard(all - visited', rest);
  }

  /** Adding an element that is already present changes nothing. */
  lemma AddPresent<T>(s: set<T>, x: T)
    requires x in s
    ensures s + {x} == s
  {
  }

  /** Taking one occurrence of a present element out of a multiset shrinks it by one. */
  lemma RemoveOne<T>(m: multiset<T>, x: T)
    requires x in m
    ensures |m - multiset{x}| == |m| - 1
  {
    assert m == (m - multiset{x}) + multiset{x};
  }
}
