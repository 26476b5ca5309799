/** The binary implication graph and the state of the depth first search over it. */
module Components {
  import opened Cnf

  datatype BinaryWatch = BinaryWatch(binary: bool, blit: int)

  /** Watch lists, of which the binary watches are the edges, and the active variables. */
  datatype Graph = Graph(watches: map<int, seq<BinaryWatch>>, active: set<int>)

  function WatchesOf(g: Graph, lit: int): seq<BinaryWatch> {
    if lit in g.watches then g.watches[lit] else []
  }

  /** A clause with the negation of `a` and `b`: `a` implies `b`. */
  ghost predicate Edge(g: Graph, a: int, b: int) {
    exists w :: w in WatchesOf(g, -a) && w.binary && w.blit == b && Abs(b) in g.active
  }

  /** Every binary clause is watched by both of its literals. */
  ghost predicate SkewSymmetric(g: Graph) {
    forall a, b :: Edge(g, a, b) && Abs(a) in g.active ==> Edge(g, -b, -a)
  }

  // ---------------------------------------------------------------- reachability

  ghost predicate Path(g: Graph, p: seq<int>) {
    p != [] && forall i :: 0 <= i < |p| - 1 ==> Edge(g, p[i], p[i + 1])
  }

  ghost predicate Connects(g: Graph, p: seq<int>, a: int, b: int) {
    Path(g, p) && p[0] == a && p[|p| - 1] == b
  }

  ghost predicate Reach(g: Graph, a: int, b: int) {
    exists p :: Connects(g, p, a, b)
  }

  ghost predicate Mutual(g: Graph, a: int, b: int) {
    Reach(g, a, b) && Reach(g, b, a)
  }

  lemma ReachSelf(g: Graph, a: int)
    ensures Reach(g, a, a)
  {
    assert Connects(g, [a], a, a);
  }

  lemma ReachEdge(g: Graph, a: int, b: int)
    requires Edge(g, a, b)
    ensures Reach(g, a, b)
  {
    assert Connects(g, [a, b], a, b);
  }

  lemma ReachTransitive(g: Graph, a: int, b: int, c: int)
    requires Reach(g, a, b) && Reach(g, b, c)
    ensures Reach(g, a, c)
  {
    hide Edge;
    var p :| Connects(g, p, a, b);
    var q :| Connects(g, q, b, c);
    var r := p + q[1..];
    forall i | 0 <= i < |r| - 1 ensures Edge(g, r[i], r[i + 1]) {
      if i >= |p| - 1 {
        assert r[i] == q[i - |p| + 1] && r[i + 1] == q[i - |p| + 2];
      }
    }
    assert Connects(g, r, a, c);
  }

  /** A set that contains all successors of its members. */
  ghost predicate ClosedSet(g: Graph, s: set<int>) {
    forall a, b :: a in s && Edge(g, a, b) ==> b in s
  }

  lemma {:induction false} PathStays(g: Graph, s: set<int>, p: seq<int>)
    requires Path(g, p) && ClosedSet(g, s) && p[0] in s
    ensures p[|p| - 1] in s
    decreases |p|
  {
    hide Edge;
    if |p| > 1 {
      var q := p[..|p| - 1];
      assert forall i :: 0 <= i < |q| - 1 ==> Edge(g, q[i], q[i + 1]) by {
        forall i | 0 <= i < |q| - 1 ensures Edge(g, q[i], q[i + 1]) {
          assert Edge(g, p[i], p[i + 1]);
        }
      }
      PathStays(g, s, q);
      assert Edge(g, p[|p| - 2], p[|p| - 2 + 1]);
    }
  }

  lemma ReachStays(g: Graph, s: set<int>, a: int, b: int)
    requires Reach(g, a, b) && ClosedSet(g, s) && a in s
    ensures b in s
  {
    var p :| Connects(g, p, a, b);
    PathStays(g, s, p);
  }

  /** Reachability reverses under negation. */
  lemma {:induction false} PathReversed(g: Graph, p: seq<int>)
    requires SkewSymmetric(g) && Path(g, p) && forall i :: 0 <= i < |p| ==> Abs(p[i]) in g.active
    ensures Reach(g, -p[|p| - 1], -p[0])
    decreases |p|
  {
    hide Edge;
    if |p| == 1 {
      ReachSelf(g, -p[0]);
    } else {
      var q := p[1..];
      forall i | 0 <= i < |q| - 1 ensures Edge(g, q[i], q[i + 1]) {
        assert Edge(g, p[i + 1], p[i + 1 + 1]);
      }
      PathReversed(g, q);
      assert Edge(g, p[0], p[0 + 1]);
      ReachEdge(g, -p[1], -p[0]);
      ReachTransitive(g, -p[|p| - 1], -p[1], -p[0]);
    }
  }

  lemma ReachReversed(g: Graph, a: int, b: int)
    requires SkewSymmetric(g) && Reach(g, a, b) && Abs(a) in g.active
    ensures Reach(g, -b, -a)
  {
    var p :| Connects(g, p, a, b);
    forall i | 0 <= i < |p| ensures Abs(p[i]) in g.active {
      if i > 0 {
        assert Edge(g, p[i - 1], p[i - 1 + 1]);
      }
    }
    PathReversed(g, p);
  }

  /** What a path means if every edge is an implication of the formula. */
  ghost predicate EdgesImplied(f: Formula, g: Graph) {
    forall m, a, b :: Models(m, f) && Edge(g, a, b) && True(m, a) ==> True(m, b)
  }

  lemma {:induction false} PathImplies(f: Formula, g: Graph, p: seq<int>, m: Assignment)
    requires EdgesImplied(f, g) && Path(g, p) && Models(m, f) && True(m, p[0])
    ensures True(m, p[|p| - 1])
    decreases |p|
  {
    hide Edge, True, Models;
    if |p| > 1 {
      var q := p[1..];
      forall i | 0 <= i < |q| - 1 ensures Edge(g, q[i], q[i + 1]) {
        assert Edge(g, p[i + 1], p[i + 1 + 1]);
      }
      assert Edge(g, p[0], p[0 + 1]);
      PathImplies(f, g, q, m);
    }
  }

  lemma ReachImplies(f: Formula, g: Graph, a: int, b: int, m: Assignment)
    requires EdgesImplied(f, g) && Reach(g, a, b) && Models(m, f) && True(m, a)
    ensures True(m, b)
  {
    var p :| Connects(g, p, a, b);
    PathImplies(f, g, p, m);
  }

  /** Literals of one component have the same value. */
  lemma MutualMeans(f: Formula, g: Graph, a: int, b: int, m: Assignment)
    requires EdgesImplied(f, g) && Mutual(g, a, b) && Models(m, f)
    ensures True(m, a) == True(m, b)
  {
    if True(m, a) {
      ReachImplies(f, g, a, b, m);
    }
    if True(m, b) {
      ReachImplies(f, g, b, a, m);
    }
  }

  // ---------------------------------------------------------------- representatives

  /** A literal of the component with the smallest variable. */
  ghost predicate SmallestOf(g: Graph, x: int, r: int) {
    Mutual(g, x, r) && forall y :: Mutual(g, x, y) ==> Abs(r) <= Abs(y)
  }

  ghost predicate Conflicting(g: Graph, x: int) {
    Mutual(g, x, -x)
  }

  lemma MutualSymmetric(g: Graph, a: int, b: int)
    requires Mutual(g, a, b)
    ensures Mutual(g, b, a)
  {
  }

  lemma MutualTransitive(g: Graph, a: int, b: int, c: int)
    requires Mutual(g, a, b) && Mutual(g, b, c)
    ensures Mutual(g, a, c)
  {
    ReachTransitive(g, a, b, c);
    ReachTransitive(g, c, b, a);
  }

  lemma MutualReversed(g: Graph, a: int, b: int)
    requires SkewSymmetric(g) && Mutual(g, a, b) && Abs(a) in g.active && Abs(b) in g.active
    ensures Mutual(g, -a, -b)
  {
    ReachReversed(g, a, b);
    ReachReversed(g, b, a);
  }

  /** If a component contains some literal and its negation, then it contains the negation of
      each of its literals. */
  lemma ConflictEverywhere(g: Graph, x: int, p: int)
    requires SkewSymmetric(g) && Mutual(g, p, x) && Conflicting(g, x) && Abs(p) in g.active && Abs(x) in g.active
    ensures Mutual(g, p, -p)
  {
    MutualReversed(g, p, x);
    MutualTransitive(g, p, x, -x);
    MutualSymmetric(g, -p, -x);
    MutualTransitive(g, p, -x, -p);
  }

  /** Without conflicts the smallest literal is unique: equal representatives mean mutual
      reachability. */
  lemma SameSmallest(g: Graph, x: int, y: int, r: int, t: int)
    requires SmallestOf(g, x, r) && SmallestOf(g, y, t) && !Conflicting(g, r)
    ensures r == t <==> Mutual(g, x, y)
  {
    if Mutual(g, x, y) {
      MutualTransitive(g, x, y, t);
      MutualSymmetric(g, x, y);
      MutualTransitive(g, y, x, r);
      assert Abs(r) == Abs(t);
      MutualSymmetric(g, x, r);
      MutualTransitive(g, r, x, t);
    }
    if r == t {
      MutualSymmetric(g, y, t);
      MutualTransitive(g, x, r, y);
    }
  }

  /** Representatives commute with negation. */
  lemma SmallestReversed(g: Graph, x: int, r: int)
    requires SkewSymmetric(g) && SmallestOf(g, x, r) && Abs(x) in g.active && Abs(r) in g.active
    requires forall y :: Mutual(g, -x, y) ==> Abs(y) in g.active
    ensures SmallestOf(g, -x, -r)
  {
    MutualReversed(g, x, r);
    forall y | Mutual(g, -x, y) ensures Abs(-r) <= Abs(y) {
      MutualReversed(g, -x, y);
      assert -(-x) == x;
      assert Mutual(g, x, -y);
    }
  }

  lemma MutualIsActive(g: Graph, x: int, y: int)
    requires Mutual(g, x, y) && Abs(x) in g.active
    ensures Abs(y) in g.active
  {
    var p :| Connects(g, p, x, y);
    if |p| > 1 {
      assert Edge(g, p[|p| - 2], p[|p| - 2 + 1]);
    }
  }
}
