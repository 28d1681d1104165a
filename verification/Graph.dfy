/** Paths and cycles of a graph of names, as the checks of a profile's policies and groups need them. */
module Graph {
  /** What each name leads to. A name that is not a key leads nowhere. */
  type Edges = map<string, seq<string>>

  predicate Edge(g: Edges, a: string, b: string) {
    a in g && b in g[a]
  }

  ghost predicate IsPath(g: Edges, p: seq<string>) {
    p != [] && forall i :: 0 <= i < |p| - 1 ==> Edge(g, p[i], p[i + 1])
  }

  ghost predicate PathBetween(g: Edges, p: seq<string>, a: string, b: string) {
    IsPath(g, p) && p[0] == a && p[|p| - 1] == b
  }

  /** `b` is `a`, or can be reached from it. */
  ghost predicate Reaches(g: Edges, a: string, b: string) {
    exists p :: PathBetween(g, p, a, b)
  }

  /** A way that takes at least one edge and ends where it began. */
  ghost predicate IsCycle(g: Edges, p: seq<string>) {
    IsPath(g, p) && |p| >= 2 && p[0] == p[|p| - 1]
  }

  ghost predicate HasCycle(g: Edges) {
    exists p :: IsCycle(g, p)
  }

  /** The cycle `p` runs along the edge from `a` to `b`. */
  ghost predicate RunsAlong(p: seq<string>, a: string, b: string) {
    exists i :: 0 <= i < |p| - 1 && p[i] == a && p[i + 1] == b
  }

  lemma ReachesSelf(g: Edges, a: string)
    ensures Reaches(g, a, a)
  {
    assert PathBetween(g, [a], a, a);
  }

  lemma ReachesTrans(g: Edges, a: string, b: string, c: string)
    requires Reaches(g, a, b) && Reaches(g, b, c)
    ensures Reaches(g, a, c)
  {
    var p :| PathBetween(g, p, a, b);
    var q :| PathBetween(g, q, b, c);
    assert PathBetween(g, p + q[1..], a, c);
  }

  lemma EdgeReaches(g: Edges, a: string, b: string)
    requires Edge(g, a, b)
    ensures Reaches(g, a, b)
  {
    assert PathBetween(g, [a, b], a, b);
  }

  /** A cycle runs along an edge exactly when the end of the edge leads back to its start. */
  lemma CycleAlongEdge(g: Edges, a: string, b: string)
    requires Edge(g, a, b)
    ensures (exists p :: IsCycle(g, p) && RunsAlong(p, a, b)) <==> Reaches(g, b, a)
  {
    if p :| IsCycle(g, p) && RunsAlong(p, a, b) {
      var i :| 0 <= i < |p| - 1 && p[i] == a && p[i + 1] == b;
      assert PathBetween(g, p[i + 1..], b, p[0]) && PathBetween(g, p[..i + 1], p[0], a);
      ReachesTrans(g, b, p[0], a);
    }
    if Reaches(g, b, a) {
      var q :| PathBetween(g, q, b, a);
      var p := [a] + q;
      assert p[0] == a && p[0 + 1] == b;
      assert IsCycle(g, p) && RunsAlong(p, a, b);
    }
  }

  /** A cycle runs through two different names. */
  ghost predicate TwoOnACycle(g: Edges) {
    exists a, b :: a != b && Reaches(g, a, b) && Reaches(g, b, a)
  }

  /** No cycle that runs through two different names can be reached from `a`. */
  ghost predicate Calm(g: Edges, a: string) {
    forall b, c :: Reaches(g, a, b) && Edge(g, b, c) && b != c ==> !Reaches(g, c, b)
  }

  ghost function ReachSet(g: Edges, a: string): set<string> {
    set b | b in g && Reaches(g, a, b)
  }

  /** Where no such cycle is in reach, an edge to another name leads to one that reaches strictly less. */
  lemma CalmStep(g: Edges, a: string, b: string)
    requires Calm(g, a) && Edge(g, a, b) && a != b
    ensures Calm(g, b) && ReachSet(g, b) < ReachSet(g, a)
  {
    EdgeReaches(g, a, b);
    ReachesSelf(g, a);
    forall c | Reaches(g, b, c) ensures Reaches(g, a, c) {
      ReachesTrans(g, a, b, c);
    }
    assert a !in ReachSet(g, b) && a in ReachSet(g, a);
  }

  lemma NoTwoIsCalm(g: Edges, a: string)
    requires !TwoOnACycle(g)
    ensures Calm(g, a)
  {
    forall b, c | Reaches(g, a, b) && Edge(g, b, c) && b != c ensures !Reaches(g, c, b) {
      EdgeReaches(g, b, c);
    }
  }

  /** A cycle through two names has an edge between two names. */
  lemma EdgeOfTheCycle(g: Edges, a: string, b: string) returns (c: string)
    requires a != b && Reaches(g, a, b) && Reaches(g, b, a)
    ensures c != a && Edge(g, a, c) && Reaches(g, c, a)
  {
    var p :| PathBetween(g, p, a, b);
    var i := 0;
    while p[i + 1] == a
      invariant 0 <= i < |p| - 1 && p[i] == a
      decreases |p| - i
    {
      i := i + 1;
    }
    c := p[i + 1];
    assert Edge(g, p[i], p[i + 1]);
    assert PathBetween(g, p[i + 1..], c, b);
    ReachesTrans(g, c, b, a);
  }

  /** An order in which every edge leads to a name that comes earlier. */
  ghost predicate Sorted(g: Edges, order: seq<string>) {
    forall k, b :: 0 <= k < |order| && Edge(g, order[k], b) && b in g ==> b in order[..k]
  }

  lemma PathGrows(g: Edges, p: seq<string>, a: string)
    requires p != [] ==> IsPath(g, p) && Edge(g, p[|p| - 1], a)
    ensures IsPath(g, p + [a])
  {
  }

  lemma PathShrinks(g: Edges, p: seq<string>, a: string)
    requires IsPath(g, p + [a])
    ensures p != [] ==> IsPath(g, p)
  {
    forall i | 0 <= i < |p| - 1 ensures Edge(g, p[i], p[i + 1]) {
      assert (p + [a])[i] == p[i] && (p + [a])[i + 1] == p[i + 1];
    }
  }

  lemma SortedGrows(g: Edges, order: seq<string>, a: string)
    requires Sorted(g, order) && forall b :: Edge(g, a, b) && b in g ==> b in order
    ensures Sorted(g, order + [a])
  {
    var more := order + [a];
    forall k, b | 0 <= k < |more| && Edge(g, more[k], b) && b in g ensures b in more[..k] {
      assert more[..k] == order[..k];
    }
  }

  /** Along a path, such an order only goes down. */
  lemma {:induction false} PathGoesDown(g: Edges, order: seq<string>, k: nat, p: seq<string>)
    requires Sorted(g, order) && IsPath(g, p) && |p| >= 2
    requires k < |order| && order[k] == p[0] && p[|p| - 1] in g
    ensures p[|p| - 1] in order[..k]
    decreases |p|
  {
    assert Edge(g, p[0], p[1]);
    if |p| > 2 {
      assert Edge(g, p[1], p[2]);
      var j :| 0 <= j < k && order[..k][j] == p[1];
      assert IsPath(g, p[1..]);
      PathGoesDown(g, order, j, p[1..]);
      assert order[..j] <= order[..k];
    }
  }

  lemma FirstPlace(order: seq<string>, a: string) returns (k: nat)
    requires a in order
    ensures k < |order| && order[k] == a && a !in order[..k]
  {
    k := 0;
    while order[k] != a
      invariant k < |order| && a !in order[..k]
      decreases |order| - k
    {
      assert order[..k + 1] == order[..k] + [order[k]];
      k := k + 1;
    }
  }

  /** A graph whose names can be put in such an order has no cycle. */
  lemma SortedHasNoCycle(g: Edges, order: seq<string>)
    requires Sorted(g, order) && forall a <- g :: a in order
    ensures !HasCycle(g)
  {
    if p :| IsCycle(g, p) {
      assert Edge(g, p[0], p[1]);
      var k := FirstPlace(order, p[0]);
      PathGoesDown(g, order, k, p);
      assert false;
    }
  }
}
