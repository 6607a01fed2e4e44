/** The shortest-path part of Graph::info (Graph.cpp:165-181): when both
    selections are set, the search runs with an empty output vector and
    the path is printed as its ids joined by "->". Only the text is modelled;
    writing it to stdout is not. */
module PathReport {
  import opened Wrappers
  import opened GraphState
  import opened ShortestPath

  function DigitChar(d: nat): (c: char)
    requires d < 10
    ensures '0' <= c <= '9'
  {
    ('0' as int + d) as char
  }

  function DigitValue(c: char): nat {
    if '0' <= c <= '9' then c as int - '0' as int else 0
  }

  /** Decimal rendering of a natural number, as an output stream prints it:
      digits only, no leading zero. */
  function Decimal(n: nat): (r: string)
    ensures |r| >= 1 && forall i :: 0 <= i < |r| ==> '0' <= r[i] <= '9'
    ensures |r| > 1 ==> r[0] != '0'
    decreases n
  {
    if n < 10 then [DigitChar(n)] else Decimal(n / 10) + [DigitChar(n % 10)]
  }

  function ParseNat(s: string): nat
    decreases |s|
  {
    if |s| == 0 then 0 else ParseNat(s[..|s| - 1]) * 10 + DigitValue(s[|s| - 1])
  }

  lemma {:induction false} DecimalRoundTrip(n: nat)
    ensures ParseNat(Decimal(n)) == n
    decreases n
  {
    var r := Decimal(n);
    if n >= 10 {
      DecimalRoundTrip(n / 10);
      assert r[..|r| - 1] == Decimal(n / 10);
    }
  }

  /** An id as the output stream prints it. */
  function ShowId(i: int): (r: string)
    ensures |r| >= 1 && forall k :: 0 <= k < |r| ==> r[k] != '>'
    ensures r[0] == '-' <==> i < 0
  {
    if i < 0 then ['-'] + Decimal(-i) else Decimal(i)
  }

  function ParseId(s: string): int {
    if |s| > 0 && s[0] == '-' then -(ParseNat(s[1..]) as int) else ParseNat(s)
  }

  lemma ShowIdRoundTrip(i: int)
    ensures ParseId(ShowId(i)) == i
  {
    if i < 0 {
      assert ShowId(i)[1..] == Decimal(-i);
      DecimalRoundTrip(-i);
    } else {
      DecimalRoundTrip(i);
    }
  }

  /** The "Path is: " line of Graph::info: the ids in order, an arrow "->"
      before every id but the first. */
  function PathText(p: seq<int>): (r: string)
    ensures r == [] <==> p == []
    decreases |p|
  {
    if |p| == 0 then []
    else if |p| == 1 then ShowId(p[0])
    else PathText(p[..|p| - 1]) + "->" + ShowId(p[|p| - 1])
  }

  /** The position of the last '>' in s, or -1 when there is none. */
  function LastArrowHead(s: string): (k: int)
    ensures -1 <= k < |s|
    ensures k >= 0 ==> s[k] == '>'
    ensures forall i :: k < i < |s| ==> s[i] != '>'
    decreases |s|
  {
    if |s| == 0 then -1
    else if s[|s| - 1] == '>' then |s| - 1
    else LastArrowHead(s[..|s| - 1])
  }

  lemma {:induction false} LastArrowOfJoin(front: string, last: string)
    requires forall i :: 0 <= i < |last| ==> last[i] != '>'
    ensures LastArrowHead(front + "->" + last) == |front| + 1
    decreases |last|
  {
    var s := front + "->" + last;
    if |last| > 0 {
      var shorter := last[..|last| - 1];
      assert s[..|s| - 1] == front + "->" + shorter;
      LastArrowOfJoin(front, shorter);
    } else {
      assert s[|s| - 1] == '>';
    }
  }

  /** Reads a path line back: split at the last arrow, repeatedly. */
  function ParsePath(s: string): seq<int>
    decreases |s|
  {
    var k := LastArrowHead(s);
    if |s| == 0 then []
    else if k < 1 then [ParseId(s)]
    else ParsePath(s[..k - 1]) + [ParseId(s[k + 1..])]
  }

  lemma {:induction false} ParsePathJoin(front: string, last: string)
    requires forall i :: 0 <= i < |last| ==> last[i] != '>'
    ensures ParsePath(front + "->" + last) == ParsePath(front) + [ParseId(last)]
  {
    var s := front + "->" + last;
    var k := |front| + 1;
    LastArrowOfJoin(front, last);
    assert s[..k - 1] == front;
    assert s[k + 1..] == last;
  }

  /** The path line determines the path: reading it back gives the ids. */
  lemma {:induction false} PathTextRoundTrip(p: seq<int>)
    ensures ParsePath(PathText(p)) == p
    decreases |p|
  {
    if |p| == 1 {
      ShowIdRoundTrip(p[0]);
      assert LastArrowHead(PathText(p)) == -1;
    } else if |p| > 1 {
      var init := p[..|p| - 1];
      var x := p[|p| - 1];
      assert p == init + [x];
      ParsePathJoin(PathText(init), ShowId(x));
      PathTextRoundTrip(init);
      ShowIdRoundTrip(x);
    }
  }

  /** What Graph::info prints about the selected pair: the returned length
      and the path line. */
  datatype PathLine = PathLine(length: int, text: string)

  /** The selected-pair part of Graph::info: nothing without both
      selections; otherwise the search result on an empty vector. */
  method InfoPath(g: Graph) returns (r: Option<PathLine>)
    requires Undirected(g)
    ensures r.None? <==> g.start.None? || g.end.None?
    ensures r.Some? ==> var a, b, d := g.start.value, g.end.value, r.value.length;
      && d >= -1
      && (d == -1 <==> a == b || !Reachable(g, a, b))
      && (d == -1 ==> r.value.text == [])
      && (d >= 0 ==> exists p :: WalkFrom(g, p, a, b) && |p| == d + 1 && r.value.text == PathText(p))
      && (d >= 0 ==> forall p :: WalkFrom(g, p, a, b) ==> d <= |p| - 1)
  {
    if g.start.None? || g.end.None? {
      return None;
    }
    var d, path := ShortestPathLength(g, g.start.value, g.end.value, []);
    if d >= 0 {
      assert path == path[..d + 1];
    }
    return Some(PathLine(d, PathText(path)));
  }
}
