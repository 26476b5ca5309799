/** The invariants of the iterative depth first search for components. */
module DepthFirst {
  import opened Cnf
  import opened Components

  /** The minimum of a finished literal. */
  const TRAVERSED := 0xffff_ffff

  datatype Dfs = Dfs(idx: nat, min: nat)

  /** Search indices, their number, the stack of literals whose component is not complete, and
      the literals on the current search path. */
  datatype Tree = Tree(dfs: map<int, Dfs>, count: nat, scc: seq<int>, path: seq<int>)

  function IdxIn(dfs: map<int, Dfs>, x: int): nat {
    if x in dfs then dfs[x].idx else 0
  }

  function MinIn(dfs: map<int, Dfs>, x: int): nat {
    if x in dfs then dfs[x].min else 0
  }

  function Idx(t: Tree, x: int): nat {
    IdxIn(t.dfs, x)
  }

  function Min(t: Tree, x: int): nat {
    MinIn(t.dfs, x)
  }

  predicate Visited(t: Tree, x: int) {
    Idx(t, x) != 0
  }

  predicate Finished(t: Tree, x: int) {
    Min(t, x) == TRAVERSED
  }

  // ---------------------------------------------------------------- invariants of the search tree

  /** The component stack holds the visited unfinished literals in the order of visits. */
  ghost predicate StackOk(t: Tree) {
    && (forall i, j :: 0 <= i < j < |t.scc| ==> Idx(t, t.scc[i]) < Idx(t, t.scc[j]))
    && (forall x :: x in t.scc <==> Visited(t, x) && !Finished(t, x))
    && (forall x :: Finished(t, x) ==> Visited(t, x))
    && (forall x :: Idx(t, x) <= t.count) && t.count < TRAVERSED
  }

  /** The literals on the path, in the order of visits; the first one is at the bottom of the
      component stack. */
  ghost predicate PathOk(g: Graph, t: Tree) {
    && (forall i, j :: 0 <= i < j < |t.path| ==> Idx(t, t.path[i]) < Idx(t, t.path[j]))
    && (forall i :: 0 <= i < |t.path| ==> t.path[i] in t.scc && Min(t, t.path[i]) == Idx(t, t.path[i]))
    && (t.scc != [] ==> t.path != [] && t.scc[0] == t.path[0])
    && (forall i :: 0 <= i < |t.path| - 1 ==> Edge(g, t.path[i], t.path[i + 1]))
  }

  ghost predicate FinishedOk(g: Graph, t: Tree) {
    forall x, y :: Finished(t, x) && Edge(g, x, y) ==> Finished(t, y)
  }

  /** A literal that left the path but is not finished. */
  ghost predicate Left(t: Tree, u: int) {
    u in t.scc && u !in t.path
  }

  ghost predicate LeftOk(g: Graph, t: Tree) {
    && (forall u :: Left(t, u) ==> Min(t, u) < Idx(t, u))
    && (forall u, y :: Left(t, u) && Edge(g, u, y) ==> Visited(t, y) && (Finished(t, y) || Min(t, u) <= Idx(t, y)))
  }

  ghost predicate ReachesIdx(g: Graph, t: Tree, u: int, k: nat) {
    exists w :: w in t.scc && Idx(t, w) == k && Reach(g, u, w)
  }

  /** The minimum of a literal is the index of a literal on the stack that it reaches. */
  ghost predicate LowOk(g: Graph, t: Tree) {
    forall u :: u in t.scc ==> ReachesIdx(g, t, u, Min(t, u))
  }

  /** Path literals reach everything that was visited after them. */
  ghost predicate ReachOk(g: Graph, t: Tree) {
    forall i, u :: 0 <= i < |t.path| && u in t.scc && Idx(t, t.path[i]) <= Idx(t, u) ==> Reach(g, t.path[i], u)
  }

  /** Path literal `i` is the last one visited before `u`. */
  ghost predicate Owner(t: Tree, i: int, u: int) {
    && 0 <= i < |t.path| && Left(t, u) && Idx(t, t.path[i]) < Idx(t, u)
    && (i + 1 < |t.path| ==> Idx(t, u) < Idx(t, t.path[i + 1]))
  }

  ghost predicate HasLowChild(g: Graph, t: Tree, x: int, k: nat) {
    exists c :: Edge(g, x, c) && Visited(t, c) && Min(t, c) <= k
  }

  /** A minimum below the owner is known to a successor of the owner, and minima of literals
      at or below the owner have been taken into account. */
  ghost predicate OwnedOk(g: Graph, t: Tree) {
    && (forall i, u :: Owner(t, i, u) && Min(t, u) < Idx(t, t.path[i]) ==> HasLowChild(g, t, t.path[i], Min(t, u)))
    && (forall i, u, y ::
          Owner(t, i, u) && Edge(g, u, y) && y in t.scc && Idx(t, y) <= Idx(t, t.path[i]) ==> Min(t, u) <= Min(t, y))
  }

  ghost predicate TreeOk(g: Graph, t: Tree) {
    && StackOk(t) && PathOk(g, t) && FinishedOk(g, t) && LeftOk(g, t) && LowOk(g, t) && ReachOk(g, t) && OwnedOk(g, t)
    && forall x :: Visited(t, x) ==> Abs(x) in g.active && x != 0
  }

  lemma TreeParts(g: Graph, t: Tree)
    requires TreeOk(g, t)
    ensures StackOk(t) && PathOk(g, t) && FinishedOk(g, t) && LeftOk(g, t) && LowOk(g, t) && ReachOk(g, t)
    ensures OwnedOk(g, t)
    ensures forall x :: Visited(t, x) ==> Abs(x) in g.active && x != 0
  {
  }

  lemma TreeWhole(g: Graph, t: Tree)
    requires StackOk(t) && PathOk(g, t) && FinishedOk(g, t) && LeftOk(g, t) && LowOk(g, t) && ReachOk(g, t)
    requires OwnedOk(g, t)
    requires forall x :: Visited(t, x) ==> Abs(x) in g.active && x != 0
    ensures TreeOk(g, t)
  {
  }

  // ---------------------------------------------------------------- facts

  lemma SameIdx(t: Tree, x: int, y: int)
    requires StackOk(t) && x in t.scc && y in t.scc && Idx(t, x) == Idx(t, y)
    ensures x == y
  {
    hide Visited, Finished;
    var i :| 0 <= i < |t.scc| && t.scc[i] == x;
    var j :| 0 <= j < |t.scc| && t.scc[j] == y;
    assert Idx(t, t.scc[i]) == Idx(t, t.scc[j]);
  }

  lemma FirstIsLowest(g: Graph, t: Tree, u: int)
    requires StackOk(t) && PathOk(g, t) && u in t.scc
    ensures t.path != [] && Idx(t, t.path[0]) <= Idx(t, u) && (u != t.path[0] ==> Idx(t, t.path[0]) < Idx(t, u))
  {
    hide Visited, Finished, Edge;
    var j :| 0 <= j < |t.scc| && t.scc[j] == u;
    assert j > 0 ==> Idx(t, t.scc[0]) < Idx(t, t.scc[j]);
  }

  lemma MinAtMostIdx(g: Graph, t: Tree, u: int)
    requires StackOk(t) && PathOk(g, t) && LeftOk(g, t) && u in t.scc
    ensures Min(t, u) <= Idx(t, u) < TRAVERSED
  {
    hide Edge;
    if u in t.path {
      var i :| 0 <= i < |t.path| && t.path[i] == u;
    } else {
      assert Left(t, u);
    }
  }

  lemma LastIdx(g: Graph, t: Tree, i: nat)
    requires PathOk(g, t) && i < |t.path|
    ensures Idx(t, t.path[i]) <= Idx(t, t.path[|t.path| - 1])
  {
  }

  // ---------------------------------------------------------------- lowering a minimum

  function Lowered(t: Tree, u: int, m: nat): Tree {
    t.(dfs := t.dfs[u := Dfs(Idx(t, u), m)])
  }

  lemma LoweredMeans(t: Tree, u: int, m: nat)
    ensures forall x :: Idx(Lowered(t, u, m), x) == Idx(t, x) && Visited(Lowered(t, u, m), x) == Visited(t, x)
    ensures forall x :: Min(Lowered(t, u, m), x) == if x == u then m else Min(t, x)
  {
  }

  /** The new minimum is that of a successor. */
  ghost predicate FromSuccessor(g: Graph, t: Tree, u: int, m: nat) {
    exists y :: Edge(g, u, y) && y in t.scc && Min(t, y) == m
  }

  lemma LoweredReaches(g: Graph, t: Tree, u: int, m: nat)
    requires LowOk(g, t) && FromSuccessor(g, t, u, m)
    ensures ReachesIdx(g, t, u, m)
  {
    hide Idx, Min;
    var y :| Edge(g, u, y) && y in t.scc && Min(t, y) == m;
    hide Edge;
    assert ReachesIdx(g, t, y, m);
    var w :| w in t.scc && Idx(t, w) == m && Reach(g, y, w);
    ReachEdge(g, u, y);
    ReachTransitive(g, u, y, w);
  }

  lemma SameReaches(g: Graph, t: Tree, t': Tree, u: int, k: nat)
    requires (forall x :: x in t.scc && Idx(t, x) == k ==> x in t'.scc && Idx(t', x) == k) && ReachesIdx(g, t, u, k)
    ensures ReachesIdx(g, t', u, k)
  {
    hide Reach, Idx;
    var w :| w in t.scc && Idx(t, w) == k && Reach(g, u, w);
    assert w in t'.scc && Idx(t', w) == k;
  }

  lemma LowChildStays(g: Graph, t: Tree, t': Tree, x: int, k: nat)
    requires HasLowChild(g, t, x, k)
    requires forall c :: Visited(t, c) && Min(t, c) <= k ==> Visited(t', c) && Min(t', c) <= Min(t, c)
    ensures HasLowChild(g, t', x, k)
  {
    hide Edge, Idx, Min;
    var c :| Edge(g, x, c) && Visited(t, c) && Min(t, c) <= k;
    assert Visited(t', c) && Min(t', c) <= Min(t, c);
  }

  /** A literal that left the path is looked at again. */
  lemma LowerTree(g: Graph, t: Tree, u: int, m: nat)
    requires TreeOk(g, t) && Left(t, u) && t.path != [] && Idx(t, t.path[|t.path| - 1]) < Idx(t, u)
    requires m <= Min(t, u) && (m == Min(t, u) || FromSuccessor(g, t, u, m))
    ensures TreeOk(g, Lowered(t, u, m))
  {
    hide StackOk, PathOk, FinishedOk, LeftOk, LowOk, ReachOk, OwnedOk, Edge, Idx, Min, FromSuccessor;
    var t' := Lowered(t, u, m);
    TreeParts(g, t);
    LoweredMeans(t, u, m);
    MinAtMostIdx(g, t, u);
    LowerStack(g, t, u, m);
    LowerLeft(g, t, u, m);
    LowerLow(g, t, u, m);
    LowerOwned(g, t, u, m);
    TreeWhole(g, t');
  }

  lemma LowerStack(g: Graph, t: Tree, u: int, m: nat)
    requires StackOk(t) && PathOk(g, t) && FinishedOk(g, t) && ReachOk(g, t) && Left(t, u) && m < TRAVERSED
    ensures var t' := Lowered(t, u, m); StackOk(t') && PathOk(g, t') && FinishedOk(g, t') && ReachOk(g, t')
  {
    hide Edge, Reach, Idx, Min, Visited;
    var t' := Lowered(t, u, m);
    LoweredMeans(t, u, m);
    forall x ensures Finished(t', x) == Finished(t, x) { }
  }

  lemma LowerLeft(g: Graph, t: Tree, u: int, m: nat)
    requires StackOk(t) && LeftOk(g, t) && Left(t, u) && m <= Min(t, u) && m < TRAVERSED
    ensures LeftOk(g, Lowered(t, u, m))
  {
    hide Edge, Idx, Min, Visited;
    var t' := Lowered(t, u, m);
    LoweredMeans(t, u, m);
    forall x ensures Finished(t', x) == Finished(t, x) && Left(t', x) == Left(t, x) { }
  }

  lemma LowerLow(g: Graph, t: Tree, u: int, m: nat)
    requires LowOk(g, t) && (m == Min(t, u) || FromSuccessor(g, t, u, m))
    ensures LowOk(g, Lowered(t, u, m))
  {
    hide Idx, Min, ReachesIdx, FromSuccessor;
    var t' := Lowered(t, u, m);
    LoweredMeans(t, u, m);
    if m != Min(t, u) {
      LoweredReaches(g, t, u, m);
    }
    forall v | v in t'.scc ensures ReachesIdx(g, t', v, Min(t', v)) {
      assert ReachesIdx(g, t, v, Min(t, v));
      SameReaches(g, t, t', v, Min(t', v));
    }
  }

  lemma LowerOwned(g: Graph, t: Tree, u: int, m: nat)
    requires StackOk(t) && PathOk(g, t) && OwnedOk(g, t) && Left(t, u) && t.path != []
    requires Idx(t, t.path[|t.path| - 1]) < Idx(t, u)
    requires m <= Min(t, u) && (m == Min(t, u) || FromSuccessor(g, t, u, m))
    ensures OwnedOk(g, Lowered(t, u, m))
  {
    hide Edge, Idx, Min, StackOk, PathOk, HasLowChild, Visited, FromSuccessor;
    var t' := Lowered(t, u, m);
    var n := |t.path| - 1;
    LoweredMeans(t, u, m);
    assert Owner(t, n, u);
    forall i, v ensures Owner(t', i, v) == Owner(t, i, v) { }
    forall i, v | Owner(t', i, v) && Min(t', v) < Idx(t', t'.path[i])
      ensures HasLowChild(g, t', t'.path[i], Min(t', v))
    {
      if v != u || m == Min(t, u) {
        assert HasLowChild(g, t, t.path[i], Min(t, v));
      } else {
        OwnerIsLast(g, t, i, u);
        LoweredOwner(g, t, u, m);
      }
      LowChildStays(g, t, t', t.path[i], Min(t', v));
    }
    forall i, v, y | Owner(t', i, v) && Edge(g, v, y) && y in t'.scc && Idx(t', y) <= Idx(t', t'.path[i])
      ensures Min(t', v) <= Min(t', y)
    {
      LastIdx(g, t, i);
      assert Min(t, v) <= Min(t, y);
    }
  }

  lemma OwnerIsLast(g: Graph, t: Tree, i: int, u: int)
    requires PathOk(g, t) && Owner(t, i, u) && Idx(t, t.path[|t.path| - 1]) < Idx(t, u)
    ensures i == |t.path| - 1
  {
    hide Edge;
    if i + 1 < |t.path| {
      LastIdx(g, t, i + 1);
    }
  }

  /** The new minimum of a literal owned by the last path literal. */
  lemma LoweredOwner(g: Graph, t: Tree, u: int, m: nat)
    requires PathOk(g, t) && OwnedOk(g, t) && t.path != [] && Owner(t, |t.path| - 1, u)
    requires m < Min(t, u) && FromSuccessor(g, t, u, m) && m < Idx(t, t.path[|t.path| - 1])
    ensures HasLowChild(g, t, t.path[|t.path| - 1], m)
  {
    hide Edge, Idx, Min, HasLowChild;
    var n := |t.path| - 1;
    var y :| Edge(g, u, y) && y in t.scc && Min(t, y) == m;
    assert Idx(t, y) <= Idx(t, t.path[n]) ==> Min(t, u) <= Min(t, y);
    assert y !in t.path by {
      forall i | 0 <= i < |t.path| ensures t.path[i] != y { LastIdx(g, t, i); }
    }
    assert Owner(t, n, y);
  }

  // ---------------------------------------------------------------- entering a literal

  function Entered(t: Tree, x: int): Tree {
    Tree(t.dfs[x := Dfs(t.count + 1, t.count + 1)], t.count + 1, t.scc + [x], t.path + [x])
  }

  lemma EnteredMeans(t: Tree, x: int)
    ensures forall y :: Idx(Entered(t, x), y) == if y == x then t.count + 1 else Idx(t, y)
    ensures forall y :: Min(Entered(t, x), y) == if y == x then t.count + 1 else Min(t, y)
    ensures forall y :: Visited(Entered(t, x), y) <==> y == x || Visited(t, y)
  {
  }

  lemma EnterTree(g: Graph, t: Tree, x: int)
    requires TreeOk(g, t) && !Visited(t, x) && t.count + 1 < TRAVERSED && Abs(x) in g.active && x != 0
    requires t.path != [] ==> Edge(g, t.path[|t.path| - 1], x)
    ensures TreeOk(g, Entered(t, x))
  {
    hide StackOk, PathOk, FinishedOk, LeftOk, LowOk, ReachOk, OwnedOk, Edge, Idx, Min, Visited;
    var t' := Entered(t, x);
    TreeParts(g, t);
    EnteredMeans(t, x);
    EnterStack(g, t, x);
    EnterLeft(g, t, x);
    EnterReach(g, t, x);
    EnterOwned(g, t, x);
    TreeWhole(g, t');
  }

  lemma EnterStack(g: Graph, t: Tree, x: int)
    requires StackOk(t) && PathOk(g, t) && FinishedOk(g, t) && !Visited(t, x) && t.count + 1 < TRAVERSED
    requires t.path != [] ==> Edge(g, t.path[|t.path| - 1], x)
    ensures var t' := Entered(t, x); StackOk(t') && PathOk(g, t') && FinishedOk(g, t')
  {
    hide *;
    EnterScc(g, t, x);
    EnterPath(g, t, x);
  }

  lemma EnterScc(g: Graph, t: Tree, x: int)
    requires StackOk(t) && FinishedOk(g, t) && !Visited(t, x) && t.count + 1 < TRAVERSED
    ensures StackOk(Entered(t, x)) && FinishedOk(g, Entered(t, x))
  {
    hide Edge, Idx, Min, Visited;
    var t' := Entered(t, x);
    EnteredMeans(t, x);
    forall y | y in t.scc ensures Idx(t, y) <= t.count && y != x { }
    forall i | 0 <= i < |t.scc| ensures t.scc[i] in t.scc { }
    forall y ensures Finished(t', y) == Finished(t, y) { }
  }

  lemma EnterPath(g: Graph, t: Tree, x: int)
    requires StackOk(t) && PathOk(g, t) && !Visited(t, x) && t.count + 1 < TRAVERSED
    requires t.path != [] ==> Edge(g, t.path[|t.path| - 1], x)
    ensures PathOk(g, Entered(t, x))
  {
    hide Edge, Idx, Min, Visited, Finished, StackOk;
    var t' := Entered(t, x);
    EnteredMeans(t, x);
    PathIsNot(t, x);
    forall i | 0 <= i < |t.path| ensures t.path[i] in t.scc && t.path[i] != x && Idx(t, t.path[i]) <= t.count {
      CountBound(t, t.path[i]);
    }
    assert t.path != [] ==> t.path[0] in t.scc;
    forall i | 0 <= i < |t'.path| - 1 ensures Edge(g, t'.path[i], t'.path[i + 1]) {
      if i < |t.path| - 1 {
        assert Edge(g, t.path[i], t.path[i + 1]);
      }
    }
  }

  lemma EnterLeft(g: Graph, t: Tree, x: int)
    requires StackOk(t) && LeftOk(g, t) && LowOk(g, t) && !Visited(t, x) && t.count + 1 < TRAVERSED
    ensures LeftOk(g, Entered(t, x)) && LowOk(g, Entered(t, x))
  {
    hide Edge, Idx, Min, Visited, ReachesIdx;
    var t' := Entered(t, x);
    EnteredMeans(t, x);
    assert x !in t.scc;
    forall u ensures Left(t', u) == Left(t, u) { }
    forall y ensures Finished(t', y) == Finished(t, y) { }
    forall u | u in t'.scc ensures ReachesIdx(g, t', u, Min(t', u)) {
      if u == x {
        ReachSelf(g, x);
        SelfReaches(g, t', x);
      } else {
        assert ReachesIdx(g, t, u, Min(t, u));
        SameReaches(g, t, t', u, Min(t, u));
      }
    }
  }

  lemma SelfReaches(g: Graph, t: Tree, x: int)
    requires x in t.scc && Reach(g, x, x)
    ensures ReachesIdx(g, t, x, Idx(t, x))
  {
  }

  lemma EnterReach(g: Graph, t: Tree, x: int)
    requires StackOk(t) && PathOk(g, t) && ReachOk(g, t) && !Visited(t, x)
    requires t.path != [] ==> Edge(g, t.path[|t.path| - 1], x)
    ensures ReachOk(g, Entered(t, x))
  {
    hide Edge, Idx, Min, Visited, Reach;
    var t' := Entered(t, x);
    var n := |t.path|;
    EnteredMeans(t, x);
    forall i, u | 0 <= i < |t'.path| && u in t'.scc && Idx(t', t'.path[i]) <= Idx(t', u)
      ensures Reach(g, t'.path[i], u)
    {
      if i < n {
        assert t.path[i] in t.scc;
        if u == x {
          LastIdx(g, t, i);
          assert t.path[n - 1] in t.scc && Reach(g, t.path[i], t.path[n - 1]);
          ReachEdge(g, t.path[n - 1], x);
          ReachTransitive(g, t.path[i], t.path[n - 1], x);
        }
      } else {
        assert u == x;
        ReachSelf(g, x);
      }
    }
  }

  lemma EnteredOwner(g: Graph, t: Tree, x: int, i: int, u: int)
    requires StackOk(t) && PathOk(g, t) && !Visited(t, x) && Owner(Entered(t, x), i, u)
    ensures Owner(t, i, u) && u != x && i < |t.path| && t.path[i] in t.scc
  {
    hide Edge, Idx, Min, Visited, Finished;
    EnteredMeans(t, x);
    assert u in t.scc + [x] && u !in t.path + [x];
    assert u in t.scc && u !in t.path;
    assert Idx(t, u) <= t.count && u != x;
    assert i < |t.path|;
    assert t.path[i] in t.scc;
    PathIsNot(t, x);
  }

  lemma PathIsNot(t: Tree, x: int)
    requires StackOk(t) && !Visited(t, x)
    ensures x !in t.scc
  {
  }

  lemma EnterOwned(g: Graph, t: Tree, x: int)
    requires StackOk(t) && PathOk(g, t) && OwnedOk(g, t) && !Visited(t, x)
    ensures OwnedOk(g, Entered(t, x))
  {
    hide Edge, Idx, Min, Visited, HasLowChild, PathOk, StackOk, OwnedOk;
    var t' := Entered(t, x);
    EnteredMeans(t, x);
    forall i, u | Owner(t', i, u) && Min(t', u) < Idx(t', t'.path[i])
      ensures HasLowChild(g, t', t'.path[i], Min(t', u))
    {
      EnteredOwner(g, t, x, i, u);
      PathIsNot(t, x);
      OwnedMeans(g, t, i, u);
      LowChildStays(g, t, t', t.path[i], Min(t, u));
    }
    forall i, u, y | Owner(t', i, u) && Edge(g, u, y) && y in t'.scc && Idx(t', y) <= Idx(t', t'.path[i])
      ensures Min(t', u) <= Min(t', y)
    {
      EnteredOwner(g, t, x, i, u);
      PathIsNot(t, x);
      CountBound(t, t.path[i]);
      assert y != x;
      OwnedMinima(g, t, i, u, y);
    }
    OwnedIntro(g, t');
  }

  lemma OwnedMeans(g: Graph, t: Tree, i: int, u: int)
    requires OwnedOk(g, t) && Owner(t, i, u)
    ensures Min(t, u) < Idx(t, t.path[i]) ==> HasLowChild(g, t, t.path[i], Min(t, u))
  {
  }

  lemma OwnedMinima(g: Graph, t: Tree, i: int, u: int, y: int)
    requires OwnedOk(g, t) && Owner(t, i, u) && Edge(g, u, y) && y in t.scc && Idx(t, y) <= Idx(t, t.path[i])
    ensures Min(t, u) <= Min(t, y)
  {
  }

  lemma CountBound(t: Tree, x: int)
    requires StackOk(t)
    ensures Idx(t, x) <= t.count
  {
  }

  // ---------------------------------------------------------------- leaving a literal

  function Leaving(t: Tree, m: nat): Tree
    requires t.path != []
  {
    var n := |t.path| - 1;
    Lowered(t, t.path[n], m).(path := t.path[..n])
  }

  /** All successors are visited and their minima are at least the given one. */
  ghost predicate SuccessorsAtLeast(g: Graph, t: Tree, x: int, m: nat) {
    forall y :: Edge(g, x, y) ==> Visited(t, y) && m <= Min(t, y)
  }

  lemma LeaveTree(g: Graph, t: Tree, m: nat)
    requires TreeOk(g, t) && t.path != []
    requires var x := t.path[|t.path| - 1];
             m < Idx(t, x) && FromSuccessor(g, t, x, m) && SuccessorsAtLeast(g, t, x, m)
    ensures TreeOk(g, Leaving(t, m))
  {
    hide StackOk, PathOk, FinishedOk, LeftOk, LowOk, ReachOk, OwnedOk, Edge, Idx, Min, Visited, FromSuccessor,
         SuccessorsAtLeast, Lowered;
    var n := |t.path| - 1;
    var x := t.path[n];
    TreeParts(g, t);
    LoweredMeans(t, x, m);
    PathMember(g, t, n);
    LoweredReaches(g, t, x, m);
    IndexOnStack(g, t, x, m);
    LeaveStack(g, t, m);
    LeaveLeft(g, t, m);
    LeaveLow(g, t, m);
    LeaveReach(g, t, m);
    LeaveOwned(g, t, m);
    LeaveRest(g, t, m);
    TreeWhole(g, Leaving(t, m));
  }

  lemma PathMember(g: Graph, t: Tree, i: nat)
    requires PathOk(g, t) && StackOk(t) && i < |t.path|
    ensures t.path[i] in t.scc && Idx(t, t.path[i]) < TRAVERSED && Min(t, t.path[i]) == Idx(t, t.path[i])
  {
  }

  lemma IndexOnStack(g: Graph, t: Tree, u: int, m: nat)
    requires StackOk(t) && PathOk(g, t) && ReachesIdx(g, t, u, m)
    ensures t.path != [] && Idx(t, t.path[0]) <= m
  {
    hide Edge, Reach, Idx;
    var w :| w in t.scc && Idx(t, w) == m && Reach(g, u, w);
    FirstIsLowest(g, t, w);
  }

  lemma LeavingMeans(t: Tree, m: nat)
    requires t.path != []
    ensures var x := t.path[|t.path| - 1];
            && (forall y :: Idx(Leaving(t, m), y) == Idx(t, y) && Visited(Leaving(t, m), y) == Visited(t, y))
            && (forall y :: Min(Leaving(t, m), y) == if y == x then m else Min(t, y))
  {
  }

  lemma LeaveStack(g: Graph, t: Tree, m: nat)
    requires StackOk(t) && PathOk(g, t) && FinishedOk(g, t) && t.path != [] && m < TRAVERSED
    requires t.path[|t.path| - 1] in t.scc && Idx(t, t.path[0]) <= m < Idx(t, t.path[|t.path| - 1])
    ensures var t' := Leaving(t, m); StackOk(t') && PathOk(g, t') && FinishedOk(g, t')
  {
    hide Edge, Idx, Min, Visited;
    var t' := Leaving(t, m);
    LeavingMeans(t, m);
    forall x ensures Finished(t', x) == Finished(t, x) { }
    forall i | 0 <= i < |t'.path| - 1 ensures Edge(g, t'.path[i], t'.path[i + 1]) {
      assert Edge(g, t.path[i], t.path[i + 1]);
    }
  }

  /** What left the path after the step. */
  lemma LeavingLeft(g: Graph, t: Tree, m: nat)
    requires PathOk(g, t) && t.path != []
    ensures forall u :: Left(Leaving(t, m), u) <==> Left(t, u) || u == t.path[|t.path| - 1]
  {
    hide Edge, Idx, Min;
    var n := |t.path| - 1;
    var x := t.path[n];
    assert x in t.scc;
    forall i | 0 <= i < n ensures t.path[i] != x { }
    assert t.path == t.path[..n] + [x];
  }

  lemma LeaveLeft(g: Graph, t: Tree, m: nat)
    requires StackOk(t) && PathOk(g, t) && LeftOk(g, t) && t.path != []
    requires var x := t.path[|t.path| - 1]; m < Idx(t, x) && SuccessorsAtLeast(g, t, x, m)
    ensures LeftOk(g, Leaving(t, m))
  {
    hide Edge, Idx, Min, Visited;
    var t' := Leaving(t, m);
    var x := t.path[|t.path| - 1];
    LeavingMeans(t, m);
    LeavingLeft(g, t, m);
    PathMember(g, t, |t.path| - 1);
    forall y ensures Finished(t', y) == Finished(t, y) { }
    forall u, y | Left(t', u) && Edge(g, u, y) ensures Visited(t', y) && (Finished(t', y) || Min(t', u) <= Idx(t', y)) {
      if u == x {
        assert Visited(t, y) && m <= Min(t, y);
        if !Finished(t, y) {
          MinAtMostIdx(g, t, y);
        }
      } else {
        assert Left(t, u);
      }
    }
  }

  lemma LeaveLow(g: Graph, t: Tree, m: nat)
    requires LowOk(g, t) && t.path != [] && FromSuccessor(g, t, t.path[|t.path| - 1], m)
    ensures LowOk(g, Leaving(t, m))
  {
    hide Idx, Min, ReachesIdx, FromSuccessor;
    var t' := Leaving(t, m);
    LeavingMeans(t, m);
    LoweredReaches(g, t, t.path[|t.path| - 1], m);
    forall v | v in t'.scc ensures ReachesIdx(g, t', v, Min(t', v)) {
      assert ReachesIdx(g, t, v, Min(t, v));
      SameReaches(g, t, t', v, Min(t', v));
    }
  }

  lemma LeaveReach(g: Graph, t: Tree, m: nat)
    requires ReachOk(g, t) && t.path != []
    ensures ReachOk(g, Leaving(t, m))
  {
    hide Reach, Idx, Min;
    LeavingMeans(t, m);
  }

  /** The owner of a literal after the step is its old owner, or the one below it. */
  lemma LeavingOwner(g: Graph, t: Tree, m: nat, i: int, u: int)
    requires StackOk(t) && PathOk(g, t) && t.path != [] && Owner(Leaving(t, m), i, u)
    ensures var n := |t.path| - 1;
            Owner(t, i, u) || (i == n - 1 && (u == t.path[n] || Owner(t, n, u)))
  {
    hide Edge, Idx, Min, StackOk;
    var n := |t.path| - 1;
    LeavingMeans(t, m);
    LeavingLeft(g, t, m);
    assert i < n;
    assert forall k :: 0 <= k < n ==> Idx(t, t.path[k]) < Idx(t, t.path[n]);
    if i == n - 1 && u != t.path[n] && Idx(t, u) == Idx(t, t.path[n]) {
      SameIdx(t, u, t.path[n]);
    }
  }

  lemma LeftIsNotOnPath(g: Graph, t: Tree, u: int, i: nat)
    requires PathOk(g, t) && Left(t, u) && i < |t.path|
    ensures u != t.path[i]
  {
  }

  lemma LeaveOwned(g: Graph, t: Tree, m: nat)
    requires StackOk(t) && PathOk(g, t) && OwnedOk(g, t) && t.path != []
    requires var x := t.path[|t.path| - 1]; m < Idx(t, x) && SuccessorsAtLeast(g, t, x, m)
    ensures OwnedOk(g, Leaving(t, m))
  {
    hide Edge, Idx, Min, Visited, HasLowChild, PathOk, StackOk, OwnedOk;
    var t' := Leaving(t, m);
    LeavingMeans(t, m);
    forall i, u | Owner(t', i, u) && Min(t', u) < Idx(t', t'.path[i])
      ensures HasLowChild(g, t', t'.path[i], Min(t', u))
    {
      LeaveLowChild(g, t, m, i, u);
    }
    forall i, u, y | Owner(t', i, u) && Edge(g, u, y) && y in t'.scc && Idx(t', y) <= Idx(t', t'.path[i])
      ensures Min(t', u) <= Min(t', y)
    {
      LeaveMinima(g, t, m, i, u, y);
    }
    OwnedIntro(g, t');
  }

  lemma OwnedIntro(g: Graph, t: Tree)
    requires forall i, u :: Owner(t, i, u) && Min(t, u) < Idx(t, t.path[i]) ==> HasLowChild(g, t, t.path[i], Min(t, u))
    requires forall i, u, y ::
      Owner(t, i, u) && Edge(g, u, y) && y in t.scc && Idx(t, y) <= Idx(t, t.path[i]) ==> Min(t, u) <= Min(t, y)
    ensures OwnedOk(g, t)
  {
  }

  lemma LeaveLowChild(g: Graph, t: Tree, m: nat, i: int, u: int)
    requires StackOk(t) && PathOk(g, t) && OwnedOk(g, t) && t.path != [] && Owner(Leaving(t, m), i, u)
    requires var x := t.path[|t.path| - 1]; m < Idx(t, x) && SuccessorsAtLeast(g, t, x, m)
    requires Min(Leaving(t, m), u) < Idx(Leaving(t, m), Leaving(t, m).path[i])
    ensures HasLowChild(g, Leaving(t, m), Leaving(t, m).path[i], Min(Leaving(t, m), u))
  {
    hide Edge, Idx, Min, Visited, HasLowChild, StackOk, SuccessorsAtLeast;
    var t' := Leaving(t, m);
    var n := |t.path| - 1;
    LeavingMeans(t, m);
    LeavingOwner(g, t, m, i, u);
    PathMember(g, t, n);
    if Owner(t, i, u) {
      LeftIsNotOnPath(g, t, u, n);
      assert HasLowChild(g, t, t.path[i], Min(t, u));
      LowChildStays(g, t, t', t.path[i], Min(t, u));
    } else {
      if u != t.path[n] {
        assert Owner(t, n, u) && HasLowChild(g, t, t.path[n], Min(t, u));
        LowChildAtLeast(g, t, t.path[n], m, Min(t, u));
        LeftIsNotOnPath(g, t, u, n);
      }
      assert Edge(g, t.path[n - 1], t.path[n - 1 + 1]);
      PathIsVisited(g, t, n);
      HasLowChildIntro(g, t', t.path[n - 1], t.path[n], Min(t', u));
    }
  }

  lemma PathIsVisited(g: Graph, t: Tree, i: nat)
    requires PathOk(g, t) && StackOk(t) && i < |t.path|
    ensures Visited(t, t.path[i])
  {
  }

  lemma HasLowChildIntro(g: Graph, t: Tree, x: int, c: int, k: nat)
    requires Edge(g, x, c) && Visited(t, c) && Min(t, c) <= k
    ensures HasLowChild(g, t, x, k)
  {
  }

  lemma LowChildAtLeast(g: Graph, t: Tree, x: int, m: nat, k: nat)
    requires SuccessorsAtLeast(g, t, x, m) && HasLowChild(g, t, x, k)
    ensures m <= k
  {
  }

  lemma LeaveMinima(g: Graph, t: Tree, m: nat, i: int, u: int, y: int)
    requires StackOk(t) && PathOk(g, t) && OwnedOk(g, t) && t.path != [] && Owner(Leaving(t, m), i, u)
    requires var x := t.path[|t.path| - 1]; m < Idx(t, x) && SuccessorsAtLeast(g, t, x, m)
    requires Edge(g, u, y) && y in t.scc && Idx(t, y) <= Idx(t, Leaving(t, m).path[i])
    ensures Min(Leaving(t, m), u) <= Min(Leaving(t, m), y)
  {
    hide Edge, Idx, Min, Visited, HasLowChild, StackOk;
    var n := |t.path| - 1;
    LeavingMeans(t, m);
    LeavingOwner(g, t, m, i, u);
    assert i < n;
    assert Idx(t, t.path[i]) < Idx(t, t.path[n]);
    assert y != t.path[n];
    if u != t.path[n] {
      LastIdx(g, t, i);
      if !Owner(t, i, u) {
        assert Owner(t, n, u);
      }
    }
  }

  lemma LeaveRest(g: Graph, t: Tree, m: nat)
    requires t.path != [] && forall x :: Visited(t, x) ==> Abs(x) in g.active && x != 0
    ensures forall x :: Visited(Leaving(t, m), x) ==> Abs(x) in g.active && x != 0
  {
    LeavingMeans(t, m);
  }

  // ---------------------------------------------------------------- finishing a component

  /** The array after the literals of a list were finished. */
  ghost predicate FinishedIn(dfs: map<int, Dfs>, dfs': map<int, Dfs>, done: set<int>) {
    forall x :: IdxIn(dfs', x) == IdxIn(dfs, x) && MinIn(dfs', x) == if x in done then TRAVERSED else MinIn(dfs, x)
  }

  /** The component of the last path literal is what is above it on the stack. */
  ghost predicate Completing(g: Graph, t: Tree, j: nat) {
    && t.path != [] && j < |t.scc| && t.scc[j] == t.path[|t.path| - 1]
    && SuccessorsAtLeast(g, t, t.scc[j], Idx(t, t.scc[j]))
  }

  lemma InComponent(g: Graph, t: Tree, j: nat, u: int)
    requires StackOk(t) && j < |t.scc| && u in t.scc
    ensures u in t.scc[j..] <==> Idx(t, t.scc[j]) <= Idx(t, u)
    ensures u in t.scc[..j] <==> Idx(t, u) < Idx(t, t.scc[j])
  {
    hide Visited, Finished, Idx;
    var k :| 0 <= k < |t.scc| && t.scc[k] == u;
    if k >= j {
      assert t.scc[j..][k - j] == u;
    } else {
      assert t.scc[..j][k] == u;
    }
    if u in t.scc[j..] {
      var a :| 0 <= a < |t.scc| - j && t.scc[j..][a] == u;
      assert t.scc[j + a] == u && (j < j + a ==> Idx(t, t.scc[j]) < Idx(t, t.scc[j + a]));
    }
    if u in t.scc[..j] {
      var a :| 0 <= a < j && t.scc[..j][a] == u;
      assert t.scc[a] == u;
    }
  }

  /** Nothing in the component has a minimum below its entry. */
  lemma NoneLower(g: Graph, t: Tree, j: nat, u: int)
    requires StackOk(t) && PathOk(g, t) && OwnedOk(g, t) && Completing(g, t, j)
    requires u in t.scc && Idx(t, t.scc[j]) <= Idx(t, u)
    ensures u != t.scc[j] ==> Left(t, u)
    ensures Idx(t, t.scc[j]) <= Min(t, u)
  {
    hide Edge, Idx, Min, Visited, HasLowChild, SuccessorsAtLeast;
    var n := |t.path| - 1;
    var x := t.scc[j];
    if u != x {
      assert u !in t.path by {
        forall i | 0 <= i < |t.path| ensures t.path[i] != u { LastIdx(g, t, i); }
      }
      if Idx(t, u) == Idx(t, x) {
        SameIdx(t, u, x);
      }
      assert Owner(t, n, u);
      if Min(t, u) < Idx(t, x) {
        assert HasLowChild(g, t, x, Min(t, u));
        LowChildAtLeast(g, t, x, Idx(t, x), Min(t, u));
      }
    } else {
      PathMember(g, t, n);
    }
  }

  /** Successors of the component are in it or finished. */
  lemma ComponentIsClosed(g: Graph, t: Tree, j: nat, u: int, y: int)
    requires StackOk(t) && PathOk(g, t) && LeftOk(g, t) && OwnedOk(g, t) && Completing(g, t, j)
    requires u in t.scc[j..] && Edge(g, u, y)
    ensures Visited(t, y) && (Finished(t, y) || y in t.scc[j..])
  {
    hide Edge, Idx, Min, Visited, HasLowChild, OwnedOk, StackOk;
    assert u in t.scc by { SuffixMember(t.scc, j, u); }
    var x := t.scc[j];
    InComponent(g, t, j, u);
    NoneLower(g, t, j, u);
    if u == x {
      assert Visited(t, y) && Idx(t, x) <= Min(t, y);
    } else {
      assert Visited(t, y) && (Finished(t, y) || Min(t, u) <= Idx(t, y));
    }
    if !Finished(t, y) {
      OnStack(t, y);
      MinAtMostIdx(g, t, y);
      InComponent(g, t, j, y);
    }
  }

  lemma SuffixMember(s: seq<int>, j: nat, u: int)
    requires j <= |s| && u in s[j..]
    ensures u in s
  {
  }

  lemma OnStack(t: Tree, y: int)
    requires StackOk(t) && Visited(t, y) && !Finished(t, y)
    ensures y in t.scc
  {
  }

  function Completed(t: Tree, j: nat, dfs: map<int, Dfs>): Tree
    requires t.path != [] && j <= |t.scc|
  {
    Tree(dfs, t.count, t.scc[..j], t.path[..|t.path| - 1])
  }

  lemma FinishTree(g: Graph, t: Tree, j: nat, dfs: map<int, Dfs>)
    requires TreeOk(g, t) && Completing(g, t, j) && FinishedIn(t.dfs, dfs, Lits(t.scc[j..]))
    ensures TreeOk(g, Completed(t, j, dfs))
  {
    hide StackOk, PathOk, FinishedOk, LeftOk, LowOk, ReachOk, OwnedOk, Edge, Idx, Min, Visited, Completing, Completed;
    TreeParts(g, t);
    CompletedMeans(g, t, j, dfs);
    FinishStack(g, t, j, dfs);
    FinishFinished(g, t, j, dfs);
    FinishLeft(g, t, j, dfs);
    FinishOwned(g, t, j, dfs);
    TreeWhole(g, Completed(t, j, dfs));
  }

  lemma CompletedMeans(g: Graph, t: Tree, j: nat, dfs: map<int, Dfs>)
    requires Completing(g, t, j) && FinishedIn(t.dfs, dfs, Lits(t.scc[j..]))
    ensures t.path != [] && j < |t.scc|
    ensures forall x :: Idx(Completed(t, j, dfs), x) == Idx(t, x) && Visited(Completed(t, j, dfs), x) == Visited(t, x)
    ensures forall x :: Min(Completed(t, j, dfs), x) == if x in t.scc[j..] then TRAVERSED else Min(t, x)
    ensures Completed(t, j, dfs).scc == t.scc[..j] && Completed(t, j, dfs).path == t.path[..|t.path| - 1]
    ensures Completed(t, j, dfs).count == t.count && t.scc[j] == t.path[|t.path| - 1]
  {
    assert forall x :: x in t.scc[j..] <==> x in Lits(t.scc[j..]);
  }

  lemma FinishStack(g: Graph, t: Tree, j: nat, dfs: map<int, Dfs>)
    requires StackOk(t) && PathOk(g, t) && Completing(g, t, j) && FinishedIn(t.dfs, dfs, Lits(t.scc[j..]))
    ensures var t' := Completed(t, j, dfs); StackOk(t') && PathOk(g, t')
  {
    hide *;
    FinishScc(g, t, j, dfs);
    FinishPath(g, t, j, dfs);
  }

  lemma FinishScc(g: Graph, t: Tree, j: nat, dfs: map<int, Dfs>)
    requires StackOk(t) && Completing(g, t, j) && FinishedIn(t.dfs, dfs, Lits(t.scc[j..]))
    ensures StackOk(Completed(t, j, dfs))
  {
    hide Edge, Idx, Min, Visited, Completing, Completed;
    CompletingMeans(g, t, j);
    var t' := Completed(t, j, dfs);
    CompletedMeans(g, t, j, dfs);
    forall x ensures x in t'.scc <==> Visited(t', x) && !Finished(t', x) {
      if x in t.scc {
        InComponent(g, t, j, x);
      } else {
        PrefixMember(t.scc, j, x);
      }
    }
    forall x | Finished(t', x) ensures Visited(t', x) {
      if x in t.scc[j..] {
        SuffixMember(t.scc, j, x);
      }
    }
  }

  lemma FinishPath(g: Graph, t: Tree, j: nat, dfs: map<int, Dfs>)
    requires StackOk(t) && PathOk(g, t) && Completing(g, t, j) && FinishedIn(t.dfs, dfs, Lits(t.scc[j..]))
    ensures PathOk(g, Completed(t, j, dfs))
  {
    hide Edge, Idx, Min, Visited, Finished, Completing, Completed, StackOk;
    CompletingMeans(g, t, j);
    var t' := Completed(t, j, dfs);
    CompletedMeans(g, t, j, dfs);
    var n := |t.path| - 1;
    forall i | 0 <= i < n ensures t'.path[i] in t'.scc && Min(t', t'.path[i]) == Idx(t', t'.path[i]) {
      InComponent(g, t, j, t.path[i]);
    }
    forall i | 0 <= i < |t'.path| - 1 ensures Edge(g, t'.path[i], t'.path[i + 1]) {
      assert Edge(g, t.path[i], t.path[i + 1]);
    }
    if j > 0 {
      StackIncreases(t, 0, j);
    }
  }

  lemma StackIncreases(t: Tree, i: nat, j: nat)
    requires StackOk(t) && i < j < |t.scc|
    ensures Idx(t, t.scc[i]) < Idx(t, t.scc[j])
  {
  }

  lemma PrefixMember(s: seq<int>, j: nat, x: int)
    requires j <= |s| && x !in s
    ensures x !in s[..j] && x !in s[j..]
  {
  }

  lemma FinishFinished(g: Graph, t: Tree, j: nat, dfs: map<int, Dfs>)
    requires StackOk(t) && PathOk(g, t) && LeftOk(g, t) && OwnedOk(g, t) && FinishedOk(g, t) && ReachOk(g, t)
    requires Completing(g, t, j) && FinishedIn(t.dfs, dfs, Lits(t.scc[j..]))
    ensures var t' := Completed(t, j, dfs); FinishedOk(g, t') && ReachOk(g, t')
  {
    hide Edge, Idx, Min, Visited, Completing, Completed, StackOk, PathOk, LeftOk, OwnedOk, Reach;
    CompletingMeans(g, t, j);
    var t' := Completed(t, j, dfs);
    CompletedMeans(g, t, j, dfs);
    forall x, y | Finished(t', x) && Edge(g, x, y) ensures Finished(t', y) {
      if x in t.scc[j..] {
        ComponentIsClosed(g, t, j, x, y);
      }
    }
  }

  lemma RemainingBelow(g: Graph, t: Tree, j: nat, dfs: map<int, Dfs>)
    requires StackOk(t) && Completing(g, t, j) && FinishedIn(t.dfs, dfs, Lits(t.scc[j..]))
    ensures forall u :: u in Completed(t, j, dfs).scc ==> u in t.scc && u !in t.scc[j..] && Idx(t, u) < Idx(t, t.scc[j])
    ensures forall u :: Left(Completed(t, j, dfs), u) ==> Left(t, u) && u !in t.scc[j..]
  {
    hide Edge, Idx, Min, Visited, Completing, Completed, StackOk;
    CompletingMeans(g, t, j);
    var t' := Completed(t, j, dfs);
    CompletedMeans(g, t, j, dfs);
    var n := |t.path| - 1;
    assert t.path == t.path[..n] + [t.path[n]];
    forall u | u in t'.scc ensures u in t.scc && u !in t.scc[j..] && Idx(t, u) < Idx(t, t.scc[j]) {
      InComponent(g, t, j, u);
    }
    forall u | Left(t', u) ensures Left(t, u) && u !in t.scc[j..] { }
  }

  lemma FinishLeft(g: Graph, t: Tree, j: nat, dfs: map<int, Dfs>)
    requires StackOk(t) && PathOk(g, t) && LeftOk(g, t) && LowOk(g, t)
    requires Completing(g, t, j) && FinishedIn(t.dfs, dfs, Lits(t.scc[j..]))
    ensures var t' := Completed(t, j, dfs); LeftOk(g, t') && LowOk(g, t')
  {
    hide Edge, Idx, Min, Visited, Completing, Completed, StackOk, PathOk, Reach, Left, ReachesIdx;
    CompletingMeans(g, t, j);
    var t' := Completed(t, j, dfs);
    CompletedMeans(g, t, j, dfs);
    RemainingBelow(g, t, j, dfs);
    forall u | u in t'.scc ensures ReachesIdx(g, t', u, Min(t', u)) {
      assert ReachesIdx(g, t, u, Min(t, u));
      MinAtMostIdx(g, t, u);
      forall w | w in t.scc && Idx(t, w) == Min(t, u) ensures w in t'.scc && Idx(t', w) == Min(t, u) {
        InComponent(g, t, j, w);
      }
      SameReaches(g, t, t', u, Min(t, u));
    }
  }

  lemma FinishOwned(g: Graph, t: Tree, j: nat, dfs: map<int, Dfs>)
    requires StackOk(t) && PathOk(g, t) && LeftOk(g, t) && LowOk(g, t) && OwnedOk(g, t)
    requires Completing(g, t, j) && FinishedIn(t.dfs, dfs, Lits(t.scc[j..]))
    ensures OwnedOk(g, Completed(t, j, dfs))
  {
    hide Edge, Idx, Min, Visited, Completing, Completed, StackOk, PathOk, LeftOk, LowOk, OwnedOk, HasLowChild;
    CompletingMeans(g, t, j);
    var t' := Completed(t, j, dfs);
    CompletedMeans(g, t, j, dfs);
    RemainingBelow(g, t, j, dfs);
    forall i, u | Owner(t', i, u)
      ensures Owner(t, i, u) && t'.path[i] == t.path[i] && u !in t.scc[j..] && Idx(t, t.path[i]) < Idx(t, t.scc[j])
    {
      CompletedOwner(g, t, j, dfs, i, u);
    }
    forall i, u | Owner(t', i, u) && Min(t', u) < Idx(t', t'.path[i])
      ensures HasLowChild(g, t', t'.path[i], Min(t', u))
    {
      OwnedMeans(g, t, i, u);
      NoneLowerAll(g, t, j);
      LowChildStays(g, t, t', t.path[i], Min(t, u));
    }
    forall i, u, y | Owner(t', i, u) && Edge(g, u, y) && y in t'.scc && Idx(t', y) <= Idx(t', t'.path[i])
      ensures Min(t', u) <= Min(t', y)
    {
      PrefixIn(t.scc, j, y);
      InComponent(g, t, j, y);
      OwnedMinima(g, t, i, u, y);
    }
    OwnedIntro(g, t');
  }

  lemma PrefixIn(s: seq<int>, j: nat, x: int)
    requires j <= |s| && x in s[..j]
    ensures x in s
  {
  }

  lemma NoneLowerAll(g: Graph, t: Tree, j: nat)
    requires StackOk(t) && PathOk(g, t) && OwnedOk(g, t) && Completing(g, t, j)
    ensures forall u :: u in t.scc[j..] ==> Idx(t, t.scc[j]) <= Min(t, u)
  {
    hide Edge, Idx, Min, Visited, OwnedOk, StackOk, PathOk;
    forall u | u in t.scc[j..] ensures Idx(t, t.scc[j]) <= Min(t, u) {
      SuffixMember(t.scc, j, u);
      InComponent(g, t, j, u);
      NoneLower(g, t, j, u);
    }
  }

  lemma CompletedOwner(g: Graph, t: Tree, j: nat, dfs: map<int, Dfs>, i: int, u: int)
    requires StackOk(t) && PathOk(g, t) && Completing(g, t, j) && FinishedIn(t.dfs, dfs, Lits(t.scc[j..]))
    requires Owner(Completed(t, j, dfs), i, u) && Left(t, u)
    ensures Owner(t, i, u) && i < |t.path| - 1 && u !in t.scc[j..] && Idx(t, t.path[i]) < Idx(t, t.scc[j])
  {
    hide Edge, Idx, Min, Visited, Completing, StackOk;
    CompletedMeans(g, t, j, dfs);
    PrefixIn(t.scc, j, u);
    InComponent(g, t, j, u);
  }

  // ---------------------------------------------------------------- the component

  ghost function FinishedSet(t: Tree): set<int> {
    set x | x in t.dfs && Finished(t, x)
  }

  lemma {:induction false} ReachesEntry(g: Graph, t: Tree, j: nat, u: int)
    requires TreeOk(g, t) && Completing(g, t, j) && u in t.scc && Idx(t, t.scc[j]) <= Idx(t, u)
    ensures Reach(g, u, t.scc[j])
    decreases Idx(t, u)
  {
    hide StackOk, PathOk, FinishedOk, LeftOk, ReachOk, OwnedOk, Edge, Idx, Min, Visited, Completing, Reach, TreeOk,
         LowOk;
    TreeParts(g, t);
    CompletingMeans(g, t, j);
    NoneLower(g, t, j, u);
    if u == t.scc[j] {
      ReachSelf(g, u);
    } else {
      LeftIsLower(g, t, u);
      var w := LowWitness(g, t, u);
      ReachesEntry(g, t, j, w);
      ReachTransitive(g, u, w, t.scc[j]);
    }
  }

  lemma CompletingMeans(g: Graph, t: Tree, j: nat)
    requires Completing(g, t, j)
    ensures t.path != [] && j < |t.scc| && t.scc[j] == t.path[|t.path| - 1]
  {
  }

  lemma LeftIsLower(g: Graph, t: Tree, u: int)
    requires LeftOk(g, t) && Left(t, u)
    ensures Min(t, u) < Idx(t, u)
  {
  }

  lemma LowWitness(g: Graph, t: Tree, u: int) returns (w: int)
    requires LowOk(g, t) && u in t.scc
    ensures w in t.scc && Idx(t, w) == Min(t, u) && Reach(g, u, w)
  {
    assert ReachesIdx(g, t, u, Min(t, u));
    w :| w in t.scc && Idx(t, w) == Min(t, u) && Reach(g, u, w);
  }

  /** The literals above the entry are exactly its component. */
  lemma ComponentIs(g: Graph, t: Tree, j: nat, y: int)
    requires TreeOk(g, t) && Completing(g, t, j)
    ensures y in t.scc[j..] <==> Mutual(g, t.scc[j], y)
  {
    hide StackOk, PathOk, FinishedOk, LeftOk, ReachOk, OwnedOk, Edge, Idx, Min, Visited, Completing, Reach, TreeOk,
         LowOk;
    TreeParts(g, t);
    CompletingMeans(g, t, j);
    if y in t.scc[j..] {
      SuffixMember(t.scc, j, y);
      InComponent(g, t, j, y);
      ReachesEntry(g, t, j, y);
      PathReaches(g, t, y);
    }
    if Mutual(g, t.scc[j], y) {
      var s := Lits(t.scc[j..]) + FinishedSet(t);
      UnionClosed(g, t, j);
      SuffixIn(t.scc, j);
      ReachStays(g, s, t.scc[j], y);
      if y in FinishedSet(t) {
        FinishedClosed(g, t);
        ReachStays(g, FinishedSet(t), y, t.scc[j]);
        EntryIsNotFinished(g, t, j);
      }
    }
  }

  lemma PathReaches(g: Graph, t: Tree, u: int)
    requires ReachOk(g, t) && t.path != [] && u in t.scc && Idx(t, t.path[|t.path| - 1]) <= Idx(t, u)
    ensures Reach(g, t.path[|t.path| - 1], u)
  {
  }

  lemma SuffixIn(s: seq<int>, j: nat)
    requires j < |s|
    ensures s[j] in Lits(s[j..]) && forall x :: x in s[j..] <==> x in Lits(s[j..])
  {
    assert s[j..][0] == s[j];
  }

  lemma FinishedClosed(g: Graph, t: Tree)
    requires FinishedOk(g, t)
    ensures ClosedSet(g, FinishedSet(t))
  {
    hide Edge;
    forall x | Finished(t, x) ensures x in t.dfs { }
  }

  lemma EntryIsNotFinished(g: Graph, t: Tree, j: nat)
    requires StackOk(t) && j < |t.scc|
    ensures t.scc[j] !in FinishedSet(t)
  {
    assert t.scc[j] in t.scc;
  }

  lemma UnionClosed(g: Graph, t: Tree, j: nat)
    requires StackOk(t) && PathOk(g, t) && LeftOk(g, t) && OwnedOk(g, t) && FinishedOk(g, t) && Completing(g, t, j)
    ensures ClosedSet(g, Lits(t.scc[j..]) + FinishedSet(t))
  {
    hide Edge, Visited, Completing, StackOk, PathOk, LeftOk, OwnedOk;
    CompletingMeans(g, t, j);
    SuffixIn(t.scc, j);
    forall x | Finished(t, x) ensures x in t.dfs { }
    forall a, b | a in Lits(t.scc[j..]) + FinishedSet(t) && Edge(g, a, b)
      ensures b in Lits(t.scc[j..]) + FinishedSet(t)
    {
      if a in Lits(t.scc[j..]) {
        ComponentIsClosed(g, t, j, a, b);
      }
    }
  }
}