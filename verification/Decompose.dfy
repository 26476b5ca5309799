/** Equivalent literals: the iterative search for components of the implication graph. */
module Decompose {
  import opened Cnf
  import opened Lists
  import opened Components
  import opened DepthFirst

  // ---------------------------------------------------------------- the work stack

  /** Position `p` of the work stack is above path literal `i` and below the next one. */
  ghost predicate Above(t: Tree, work: seq<int>, pos: seq<int>, i: int, p: int) {
    && 0 <= i < |t.path| && |pos| == |t.path| && pos[i] < p < |work| && 0 <= p
    && (i + 1 < |t.path| ==> p < pos[i + 1])
  }

  ghost predicate Waiting(work: seq<int>, p: int, y: int) {
    exists q :: p < q < |work| && 0 <= q && work[q] == y
  }

  /** Path literals sit on the work stack; what lies above one of them are its successors,
      visited after it, and no successor is missing. */
  ghost predicate WorkOk(g: Graph, t: Tree, work: seq<int>, pos: seq<int>) {
    && |pos| == |t.path|
    && (forall i :: 0 <= i < |pos| ==> 0 <= pos[i] < |work| && work[pos[i]] == t.path[i])
    && (forall i, j :: 0 <= i < j < |pos| ==> pos[i] < pos[j])
    && (t.path == [] ==> |work| <= 1) && (t.path != [] ==> pos[0] == 0)
    && (forall i, p :: Above(t, work, pos, i, p) ==>
          Edge(g, t.path[i], work[p]) && (Visited(t, work[p]) && !Finished(t, work[p]) ==>
                Idx(t, t.path[i]) < Idx(t, work[p])))
    && (forall i, y :: 0 <= i < |t.path| && Edge(g, t.path[i], y) ==> Visited(t, y) || Waiting(work, pos[i], y))
    && (forall p :: 0 <= p < |work| ==> Abs(work[p]) in g.active && work[p] != 0)
  }

  /** The top is taken away, together with the last path literal if it is that one. */
  lemma PopWork(g: Graph, t: Tree, t': Tree, work: seq<int>, pos: seq<int>, pos': seq<int>)
    requires WorkOk(g, t, work, pos) && work != [] && Visited(t, work[|work| - 1])
    requires (forall x :: Idx(t', x) == Idx(t, x)) && forall x :: Finished(t, x) ==> Finished(t', x)
    requires if t.path != [] && pos[|pos| - 1] == |work| - 1
             then t'.path == t.path[..|t.path| - 1] && pos' == pos[..|pos| - 1]
             else t'.path == t.path && pos' == pos
    ensures WorkOk(g, t', work[..|work| - 1], pos')
  {
    hide Edge, Idx, Min;
    var work' := work[..|work| - 1];
    forall i | 0 <= i < |pos'| ensures 0 <= pos'[i] < |work'| && work'[pos'[i]] == t'.path[i] {
      assert i < |pos| - 1 ==> pos[i] < pos[|pos| - 1];
    }
    forall i, p | Above(t', work', pos', i, p) ensures Above(t, work, pos, i, p) { }
    forall i, y | 0 <= i < |t'.path| && Edge(g, t'.path[i], y) && !Visited(t', y) ensures Waiting(work', pos'[i], y) {
      assert !Visited(t, y) && t'.path[i] == t.path[i] && pos'[i] == pos[i];
      StillWaiting(t, work, pos[i], y);
    }
  }

  lemma StillWaiting(t: Tree, work: seq<int>, p: int, y: int)
    requires work != [] && Visited(t, work[|work| - 1]) && !Visited(t, y) && Waiting(work, p, y)
    ensures Waiting(work[..|work| - 1], p, y)
  {
    var q :| p < q < |work| && 0 <= q && work[q] == y;
    assert q != |work| - 1;
    assert work[..|work| - 1][q] == y;
  }

  /** A new path literal with its unvisited successors above it. */
  lemma EnterWork(g: Graph, t: Tree, work: seq<int>, pos: seq<int>, kids: seq<int>)
    requires WorkOk(g, t, work, pos) && StackOk(t) && PathOk(g, t) && work != [] && !Visited(t, work[|work| - 1])
    requires var x := work[|work| - 1];
             && (forall k :: k in kids ==> Edge(g, x, k) && !Visited(Entered(t, x), k) && k != 0)
             && (forall y :: Edge(g, x, y) && !Visited(Entered(t, x), y) ==> y in kids)
    ensures var x := work[|work| - 1]; WorkOk(g, Entered(t, x), work + kids, pos + [|work| - 1])
  {
    hide Edge, Idx, Min, Visited, StackOk, PathOk, Above, Waiting;
    var x := work[|work| - 1];
    var n := |work| - 1;
    var t', work', pos' := Entered(t, x), work + kids, pos + [n];
    forall i | 0 <= i < |pos| ensures pos[i] < n {
      PathIsVisited(g, t, i);
    }
    forall i, p | Above(t', work', pos', i, p)
      ensures 0 <= i < |t'.path| && 0 <= p < |work'| && Edge(g, t'.path[i], work'[p])
      ensures Visited(t', work'[p]) && !Finished(t', work'[p]) ==> Idx(t', t'.path[i]) < Idx(t', work'[p])
    {
      EnterAbove(g, t, work, pos, kids, i, p);
    }
    forall i, y | 0 <= i < |t'.path| && Edge(g, t'.path[i], y) && !Visited(t', y) ensures Waiting(work', pos'[i], y) {
      EnterWaiting(g, t, work, pos, kids, i, y);
    }
    forall p | 0 <= p < |work'| ensures Abs(work'[p]) in g.active && work'[p] != 0 {
      if p >= |work| {
        EdgeActive(g, x, work'[p]);
      }
    }
  }

  lemma EnterAbove(g: Graph, t: Tree, work: seq<int>, pos: seq<int>, kids: seq<int>, i: int, p: int)
    requires WorkOk(g, t, work, pos) && StackOk(t) && PathOk(g, t) && work != [] && !Visited(t, work[|work| - 1])
    requires forall k :: k in kids ==> Edge(g, work[|work| - 1], k) && !Visited(Entered(t, work[|work| - 1]), k)
    requires Above(Entered(t, work[|work| - 1]), work + kids, pos + [|work| - 1], i, p)
    ensures var t', work' := Entered(t, work[|work| - 1]), work + kids;
            && 0 <= i < |t'.path| && 0 <= p < |work'| && Edge(g, t'.path[i], work'[p])
            && (Visited(t', work'[p]) && !Finished(t', work'[p]) ==> Idx(t', t'.path[i]) < Idx(t', work'[p]))
  {
    hide Edge, Idx, Min, Visited, StackOk, PathOk, Waiting;
    var x := work[|work| - 1];
    var t', work', pos' := Entered(t, x), work + kids, pos + [|work| - 1];
    EnteredMeans(t, x);
    FinishedEntered(t, x);
    if i < |pos| {
      assert p < pos'[i + 1] <= |work| - 1;
      assert work'[p] == work[p] && t'.path[i] == t.path[i];
      assert Above(t, work, pos, i, p);
      CountBound(t, t.path[i]);
      PathIsVisited(g, t, i);
    } else {
      assert i == |pos| && t'.path[i] == x && p >= |work|;
      var k := kids[p - |work|];
      assert work'[p] == k && k in kids;
      assert Edge(g, x, k) && !Visited(t', k);
    }
  }

  lemma FinishedEntered(t: Tree, x: int)
    ensures forall y :: Finished(t, y) && y != x ==> Finished(Entered(t, x), y)
  {
  }

  lemma EnterWaiting(g: Graph, t: Tree, work: seq<int>, pos: seq<int>, kids: seq<int>, i: nat, y: int)
    requires WorkOk(g, t, work, pos) && work != []
    requires forall z :: Edge(g, work[|work| - 1], z) && !Visited(Entered(t, work[|work| - 1]), z) ==> z in kids
    requires i < |t.path| + 1 && Edge(g, (t.path + [work[|work| - 1]])[i], y)
    requires !Visited(Entered(t, work[|work| - 1]), y)
    ensures Waiting(work + kids, (pos + [|work| - 1])[i], y)
  {
    hide Edge, Idx, Min, Visited, Above;
    var work' := work + kids;
    EnteredMeans(t, work[|work| - 1]);
    if i < |pos| {
      assert Waiting(work, pos[i], y);
      var q :| pos[i] < q < |work| && 0 <= q && work[q] == y;
      assert work'[q] == y;
    } else {
      assert (t.path + [work[|work| - 1]])[i] == work[|work| - 1] && y in kids;
      var k :| 0 <= k < |kids| && kids[k] == y;
      assert work'[|work| + k] == y;
    }
  }

  lemma EdgeActive(g: Graph, a: int, b: int)
    requires Edge(g, a, b)
    ensures Abs(b) in g.active
  {
  }

  /** The literal on top, if it was visited and is not finished: it is the last path literal,
      or it left the path and was visited after the last path literal. */
  lemma TopIs(g: Graph, t: Tree, work: seq<int>, pos: seq<int>)
    requires WorkOk(g, t, work, pos) && StackOk(t) && PathOk(g, t) && work != []
    requires Visited(t, work[|work| - 1]) && !Finished(t, work[|work| - 1])
    ensures t.path != []
    ensures var x := work[|work| - 1];
            if pos[|pos| - 1] == |work| - 1 then x == t.path[|t.path| - 1]
            else Left(t, x) && Idx(t, t.path[|t.path| - 1]) < Idx(t, x)
  {
    hide Edge, Idx, Min, Visited, Finished;
    var n := |work| - 1;
    var x := work[n];
    OnStack(t, x);
    assert t.scc != [] && t.path != [];
    if pos[|pos| - 1] != n {
      assert Above(t, work, pos, |t.path| - 1, n);
      forall i | 0 <= i < |t.path| ensures t.path[i] != x {
        LastIdx(g, t, i);
      }
    }
  }

  /** All successors of the last path literal have been visited when it is on top again. */
  lemma SuccessorsVisited(g: Graph, t: Tree, work: seq<int>, pos: seq<int>, y: int)
    requires WorkOk(g, t, work, pos) && t.path != [] && pos[|pos| - 1] == |work| - 1 && Edge(g, t.path[|t.path| - 1], y)
    ensures Visited(t, y)
  {
  }

  // ---------------------------------------------------------------- completed components

  /** The literals whose component is complete have the smallest literal of the component, and
      are represented by it unless their variable is frozen. */
  ghost predicate Represented(g: Graph, t: Tree, frozen: set<int>, reprs: map<int, int>, smallest: map<int, int>) {
    && reprs.Keys == smallest.Keys
    && forall x :: (x in smallest <==> Finished(t, x))
                && (x in smallest ==> SmallestOf(g, x, smallest[x]) && !Conflicting(g, x)
                                      && reprs[x] == if Abs(x) in frozen then x else smallest[x])
  }

  ghost function VisitedSet(dfs: map<int, Dfs>): set<int> {
    set x | x in dfs && dfs[x].idx != 0
  }

  lemma VisitedSetMeans(t: Tree)
    ensures forall x :: x in VisitedSet(t.dfs) <==> Visited(t, x)
  {
  }

  ghost predicate SearchOk(g: Graph, t: Tree, work: seq<int>, pos: seq<int>, frozen: set<int>, reprs: map<int, int>,
                           smallest: map<int, int>) {
    TreeOk(g, t) && WorkOk(g, t, work, pos) && Represented(g, t, frozen, reprs, smallest)
             && t.count == |VisitedSet(t.dfs)|
  }

  /** While nothing was counted as substituted, all representatives are the literals themselves. */
  ghost predicate Counted(reprs: map<int, int>, substituted: nat) {
    substituted == 0 ==> forall x :: x in reprs ==> reprs[x] == x
  }

  ghost predicate GoodGraph(g: Graph, maxVar: nat) {
    SkewSymmetric(g) && 2 * maxVar + 1 < TRAVERSED && forall v :: v in g.active ==> 1 <= v <= maxVar
  }

  class Decomposer {
    const g: Graph
    const maxVar: nat
    const frozen: set<int>
    var dfs: map<int, Dfs>
    var reprs: map<int, int>
    var dfsIdx: nat
    var work: seq<int>
    var scc: seq<int>
    var substituted: nat
    var unsat: bool
    ghost var path: seq<int>
    ghost var pos: seq<int>
    ghost var smallest: map<int, int>

    constructor (g: Graph, maxVar: nat, frozen: set<int>)
      requires SkewSymmetric(g) && 2 * maxVar + 1 < TRAVERSED && forall v :: v in g.active ==> 1 <= v <= maxVar
      ensures this.g == g && this.maxVar == maxVar && this.frozen == frozen && !unsat && work == [] && Searching()
    {
      this.g, this.maxVar, this.frozen := g, maxVar, frozen;
      dfs, reprs, dfsIdx, work, scc, substituted, unsat := map[], map[], 0, [], [], 0, false;
      path, pos, smallest := [], [], map[];
      new;
      hide SearchOk, GoodGraph;
      EmptySearch(g, frozen);
    }

    ghost function Now(): Tree
      reads `dfs, `dfsIdx, `scc, `path
    {
      Tree(dfs, dfsIdx, scc, path)
    }

    ghost predicate Searching()
      reads `dfs, `reprs, `dfsIdx, `work, `scc, `substituted, `path, `pos, `smallest
    {
      GoodGraph(g, maxVar) && SearchOk(g, Now(), work, pos, frozen, reprs, smallest) && Counted(reprs, substituted)
    }

    ghost predicate SomeConflict() {
      exists x :: Abs(x) in g.active && Conflicting(g, x)
    }

    // ------------------------------------------------------------ pre-fix work

    /** The first visit of the literal on top: its unvisited successors are pushed. */
    method PreFix()
      requires Searching() && work != [] && !Visited(Now(), work[|work| - 1])
      modifies this`dfs, this`dfsIdx, this`work, this`scc, this`path, this`pos
      ensures Searching() && VisitedSet(dfs) == VisitedSet(old(dfs)) + {old(work)[|old(work)| - 1]}
      ensures old(work)[|old(work)| - 1] in Universe(maxVar) && old(work) <= work
    {
      hide SearchOk, GoodGraph, Edge, Universe, Visited;
      var parent := work[|work| - 1];
      ghost var t, work0, pos0 := Now(), work, pos;
      dfsIdx := dfsIdx + 1;
      dfs := dfs[parent := Dfs(dfsIdx, dfsIdx)];
      scc := scc + [parent];
      path, pos := path + [parent], pos + [|work| - 1];
      var kids := Unvisited(parent);
      EnterSearch(g, maxVar, t, work0, pos0, frozen, reprs, smallest, kids);
      work := work + kids;
    }

    /** The successors that have not been visited yet, in the order of the watches. */
    method Unvisited(parent: int) returns (kids: seq<int>)
      ensures forall k :: k in kids ==> Edge(g, parent, k) && IdxIn(dfs, k) == 0
      ensures forall y :: Edge(g, parent, y) && IdxIn(dfs, y) == 0 ==> y in kids
    {
      kids := [];
      var ws := WatchesOf(g, -parent);
      for i := 0 to |ws|
        invariant forall k :: k in kids ==> Edge(g, parent, k) && IdxIn(dfs, k) == 0
        invariant forall j ::
          0 <= j < i && ws[j].binary && Abs(ws[j].blit) in g.active && IdxIn(dfs, ws[j].blit) == 0 ==>
                ws[j].blit in kids
      {
        assert ws[i] in ws;
        if !ws[i].binary || Abs(ws[i].blit) !in g.active || IdxIn(dfs, ws[i].blit) != 0 {
          continue;
        }
        assert Edge(g, parent, ws[i].blit);
        kids := kids + [ws[i].blit];
      }
    }

    // ------------------------------------------------------------ post-fix work

    /** The minimum over the literal itself and its successors. */
    method NewMin(parent: int) returns (newMin: nat)
      ensures newMin <= MinIn(dfs, parent) && forall y :: Edge(g, parent, y) ==> newMin <= MinIn(dfs, y)
      ensures newMin == MinIn(dfs, parent) || exists y :: Edge(g, parent, y) && MinIn(dfs, y) == newMin
    {
      newMin := MinIn(dfs, parent);
      var ws := WatchesOf(g, -parent);
      for i := 0 to |ws|
        invariant newMin <= MinIn(dfs, parent)
        invariant forall j ::
          0 <= j < i && ws[j].binary && Abs(ws[j].blit) in g.active ==> newMin <= MinIn(dfs, ws[j].blit)
        invariant newMin == MinIn(dfs, parent) || exists y :: Edge(g, parent, y) && MinIn(dfs, y) == newMin
      {
        assert ws[i] in ws;
        if !ws[i].binary || Abs(ws[i].blit) !in g.active {
          continue;
        }
        assert Edge(g, parent, ws[i].blit);
        if newMin > MinIn(dfs, ws[i].blit) {
          newMin := MinIn(dfs, ws[i].blit);
        }
      }
    }

    /** The literal on top was visited before: the minimum over its successors is known now.
        If it equals the index of the literal, then its component is complete. */
    method PostFix()
      requires Searching() && !unsat && work != []
      requires Visited(Now(), work[|work| - 1]) && !Finished(Now(), work[|work| - 1])
      modifies this`dfs, this`reprs, this`work, this`scc, this`substituted, this`unsat, this`path, this`pos,
               this`smallest
      ensures unsat ==> SomeConflict()
      ensures !unsat ==> Searching() && VisitedSet(dfs) == VisitedSet(old(dfs)) && work == old(work)[..|old(work)| - 1]
    {
      hide SearchOk, GoodGraph, Edge, Universe, Visited, Finished, VisitedSet;
      var parent := work[|work| - 1];
      ghost var t, work0, pos0 := Now(), work, pos;
      work := work[..|work| - 1];
      var newMin := NewMin(parent);
      NewMinIs(t, parent, newMin);
      if IdxIn(dfs, parent) == newMin {
        EntryCompletes(g, t, work0, pos0, frozen, reprs, smallest, newMin);
        CompleteComponent(parent, work0, pos0);
      } else {
        UpdateSearch(g, t, work0, pos0, frozen, reprs, smallest, newMin);
        ghost var leaves := pos[|pos| - 1] == |work0| - 1;
        dfs := dfs[parent := Dfs(IdxIn(dfs, parent), newMin)];
        if leaves {
          path, pos := path[..|path| - 1], pos[..|pos| - 1];
        }
      }
    }

    lemma NewMinIs(t: Tree, x: int, m: nat)
      requires m <= MinIn(t.dfs, x) && forall y :: Edge(g, x, y) ==> m <= MinIn(t.dfs, y)
      requires m == MinIn(t.dfs, x) || exists y :: Edge(g, x, y) && MinIn(t.dfs, y) == m
      ensures IsNewMin(g, t, x, m) && Idx(t, x) == IdxIn(t.dfs, x)
    {
      hide Edge;
      if m != MinIn(t.dfs, x) {
        var y :| Edge(g, x, y) && MinIn(t.dfs, y) == m;
        assert Min(t, y) == m;
      }
    }

    /** Looks for the smallest literal of the component on the stack, and for the negation of
        its entry; then finishes the component. */
    method CompleteComponent(parent: int, ghost work0: seq<int>, ghost pos0: seq<int>)
      requires GoodGraph(g, maxVar) && SearchOk(g, Now(), work0, pos0, frozen, reprs, smallest) && !unsat && pos == pos0
      requires Counted(reprs, substituted)
      requires work0 != [] && work == work0[..|work0| - 1] && work0[|work0| - 1] == parent && path != []
      requires |pos| == |path| && pos[|pos| - 1] == |work0| - 1
      requires exists j :: 0 <= j < |scc| && scc[j] == parent && Completing(g, Now(), j)
      modifies this`dfs, this`reprs, this`scc, this`substituted, this`unsat, this`path, this`pos, this`smallest
      ensures unsat ==> SomeConflict()
      ensures !unsat ==> Searching() && VisitedSet(dfs) == VisitedSet(old(dfs))
    {
      hide SearchOk, GoodGraph, Edge, Universe, Visited, Finished, VisitedSet, Completing;
      ghost var t := Now();
      ghost var j :| 0 <= j < |scc| && scc[j] == parent && Completing(g, t, j);
      StackIsDistinct(g, t, work0, pos0, frozen, reprs, smallest);
      var repr := FindSmallest(parent, j);
      if unsat {
        ConflictFound(g, t, work0, pos0, frozen, reprs, smallest, j);
        return;
      }
      Finish(parent, repr, j, work0, pos0);
    }

    method FindSmallest(parent: int, ghost j: nat) returns (repr: int)
      requires j < |scc| && scc[j] == parent && !unsat && forall a, b :: 0 <= a < b < |scc| ==> scc[a] != scc[b]
      modifies this`unsat
      ensures unsat <==> -parent in scc[j..]
      ensures !unsat ==> repr in scc[j..] && forall x :: x in scc[j..] ==> Abs(repr) <= Abs(x)
    {
      repr := parent;
      var k := |scc|;
      var other := 0;
      var first := true;
      while first || (!unsat && other != parent)
        invariant j <= k <= |scc| && (first <==> k == |scc|) && (!first ==> other == scc[k])
        invariant unsat ==> !first && scc[k] == -parent
        invariant !unsat ==> forall i :: k <= i < |scc| ==> scc[i] != -parent && Abs(repr) <= Abs(scc[i])
        invariant Abs(repr) <= Abs(parent) && (repr == parent || exists i :: k <= i < |scc| && scc[i] == repr)
        decreases k, first
      {
        first := false;
        k := k - 1;
        other := scc[k];
        if other == -parent {
          unsat := true;
        } else if Abs(other) < Abs(repr) {
          repr := other;
        }
      }
      InSuffix(scc, j, k, parent, repr, unsat);
    }

    lemma InSuffix(s: seq<int>, j: nat, k: nat, parent: int, repr: int, conflict: bool)
      requires j <= k < |s| && s[j] == parent && forall a, b :: 0 <= a < b < |s| ==> s[a] != s[b]
      requires conflict ==> s[k] == -parent
      requires !conflict ==> s[k] == parent && forall i :: k <= i < |s| ==> s[i] != -parent && Abs(repr) <= Abs(s[i])
      requires !conflict ==> repr == parent || exists i :: k <= i < |s| && s[i] == repr
      ensures conflict <==> -parent in s[j..]
      ensures !conflict ==> repr in s[j..] && forall x :: x in s[j..] ==> Abs(repr) <= Abs(x)
    {
      if conflict {
        assert s[j..][k - j] == -parent;
      } else {
        assert k == j;
        assert forall i :: 0 <= i < |s| - j ==> s[j..][i] == s[j + i];
        if repr == parent {
          assert s[j..][0] == repr;
        } else {
          var i :| k <= i < |s| && s[i] == repr;
          assert s[j..][i - j] == repr;
        }
      }
    }

    /** Takes the component from the stack and notes the representatives. */
    method Finish(parent: int, repr: int, ghost j: nat, ghost work0: seq<int>, ghost pos0: seq<int>)
      requires GoodGraph(g, maxVar) && SearchOk(g, Now(), work0, pos0, frozen, reprs, smallest) && !unsat && pos == pos0
      requires Counted(reprs, substituted)
      requires work0 != [] && work == work0[..|work0| - 1] && work0[|work0| - 1] == parent && path != []
      requires |pos| == |path| && pos[|pos| - 1] == |work0| - 1
      requires j < |scc| && scc[j] == parent && Completing(g, Now(), j)
      requires forall a, b :: 0 <= a < b < |scc| ==> scc[a] != scc[b]
      requires -parent !in scc[j..] && repr in scc[j..] && forall x :: x in scc[j..] ==> Abs(repr) <= Abs(x)
      modifies this`dfs, this`reprs, this`scc, this`substituted, this`path, this`pos, this`smallest
      ensures Searching() && VisitedSet(dfs) == VisitedSet(old(dfs))
    {
      hide SearchOk, GoodGraph, Edge, Universe, Visited, Finished, VisitedSet, Completing, FinishedIn, NoteAll;
      ghost var t, reprs0, smallest0 := Now(), reprs, smallest;
      PopComponent(parent, repr, j);
      smallest := smallest0 + map x | x in Lits(t.scc[j..]) :: repr;
      GraphMeans(g, maxVar);
      FinishSearch(g, t, work0, pos0, frozen, reprs0, smallest0, j, dfs, repr, smallest);
      path, pos := path[..|path| - 1], pos[..|pos| - 1];
      assert Now() == Completed(t, j, dfs);
    }

    method PopComponent(parent: int, repr: int, ghost j: nat)
      requires j < |scc| && scc[j] == parent && Counted(reprs, substituted)
      requires forall a, b :: 0 <= a < b < |scc| ==> scc[a] != scc[b]
      modifies this`dfs, this`reprs, this`scc, this`substituted
      ensures Counted(reprs, substituted)
      ensures scc == old(scc)[..j] && FinishedIn(old(dfs), dfs, Lits(old(scc)[j..]))
      ensures reprs == NoteAll(old(reprs), old(scc), j, frozen, repr)
    {
      hide FinishedIn;
      ghost var scc0 := scc;
      NothingFinished(dfs, scc0);
      assert scc0[|scc0|..] == [];
      var other := 0;
      var first := true;
      while first || other != parent
        invariant j <= |scc| <= |scc0| && scc == scc0[..|scc|] && (first <==> |scc| == |scc0|)
        invariant (!first ==> other == scc0[|scc|])
        invariant FinishedIn(old(dfs), dfs, Lits(scc0[|scc|..]))
        invariant reprs == NoteAll(old(reprs), scc0, |scc|, frozen, repr) && Counted(reprs, substituted)
        decreases |scc|, first
      {
        first := false;
        other := scc[|scc| - 1];
        ghost var k := |scc| - 1;
        FinishOne(old(dfs), dfs, scc0, k);
        scc := scc[..|scc| - 1];
        dfs := dfs[other := Dfs(IdxIn(dfs, other), TRAVERSED)];
        if Abs(other) in frozen {
          reprs := reprs[other := other];
        } else {
          reprs := reprs[other := repr];
          if other != repr {
            substituted := substituted + 1;
          }
        }
        assert scc == scc0[..k];
      }
      assert |scc| == j;
    }

    // ------------------------------------------------------------ the whole search

    /** One look at the literal on top of the work stack. */
    method Step()
      requires Searching() && !unsat && work != []
      modifies this`dfs, this`reprs, this`dfsIdx, this`work, this`scc, this`substituted, this`unsat, this`path,
               this`pos, this`smallest
      ensures unsat ==> SomeConflict()
      ensures !unsat ==> Searching() && Advanced(maxVar, old(dfs), old(work), dfs, work)
    {
      hide SearchOk, GoodGraph, Edge, Universe, VisitedSet;
      var parent := work[|work| - 1];
      ghost var t := Now();
      VisitedMeans(t);
      if MinIn(dfs, parent) == TRAVERSED {
        work := work[..|work| - 1];
        SkipSearch(g, t, old(work), pos, frozen, reprs, smallest);
      } else if IdxIn(dfs, parent) != 0 {
        PostFix();
      } else {
        PreFix();
      }
    }

    /** Searches from one literal. */
    method Search(root: int)
      requires Searching() && !unsat && work == [] && Abs(root) in g.active && root != 0
      modifies this`dfs, this`reprs, this`dfsIdx, this`work, this`scc, this`substituted, this`unsat, this`path,
               this`pos, this`smallest
      ensures unsat ==> SomeConflict()
      ensures !unsat ==> Searching() && work == [] && Finished(Now(), root)
      ensures !unsat ==> forall x :: Finished(old(Now()), x) ==> Finished(Now(), x)
    {
      hide SearchOk, GoodGraph, Edge, Universe, VisitedSet, SomeConflict, Visited, Finished, Advanced;
      ghost var t0 := Now();
      SearchStack(g, t0, work, pos, frozen, reprs, smallest);
      RootSearch(g, Now(), pos, frozen, reprs, smallest, root);
      work := [root];
      ghost var dfs0 := dfs;
      while !unsat && work != []
        invariant unsat ==> SomeConflict()
        invariant !unsat ==> Searching() && (IdxIn(dfs, root) != 0 || root in work)
        invariant !unsat ==> VisitedSet(dfs0) <= VisitedSet(dfs)
        decreases !unsat, Universe(maxVar) - VisitedSet(dfs), |work|
      {
        ghost var before, beforeWork := dfs, work;
        Step();
        if !unsat {
          AdvancedMeans(maxVar, before, beforeWork, dfs, work, root);
        }
      }
      if !unsat {
        EmptyWork(g, Now(), pos, frozen, reprs, smallest);
        AllFinished(g, t0, Now(), root);
      }
    }

    /** Searches from all literals of active variables, negative ones first. */
    method FindComponents()
      requires Searching() && !unsat && work == []
      modifies this`dfs, this`reprs, this`dfsIdx, this`work, this`scc, this`substituted, this`unsat, this`path,
               this`pos, this`smallest
      ensures unsat ==> SomeConflict()
      ensures !unsat ==> Complete(g, frozen, reprs, smallest) && Counted(reprs, substituted)
    {
      hide SearchOk, GoodGraph, Edge, SomeConflict, Finished;
      var rootIdx := 1;
      while rootIdx <= maxVar && !unsat
        invariant 1 <= rootIdx <= maxVar + 1 && (unsat ==> SomeConflict())
        invariant !unsat ==> Searching() && work == []
        invariant !unsat ==> forall x :: Abs(x) in g.active && 1 <= Abs(x) < rootIdx ==> Finished(Now(), x)
        decreases maxVar - rootIdx, !unsat
      {
        if rootIdx in g.active {
          SearchUnlessFinished(-rootIdx);
          if !unsat {
            SearchUnlessFinished(rootIdx);
          }
        }
        rootIdx := rootIdx + 1;
      }
      if !unsat {
        SearchCompletes(g, maxVar, Now(), work, pos, frozen, reprs, smallest);
      }
    }

    method SearchUnlessFinished(root: int)
      requires Searching() && !unsat && work == [] && Abs(root) in g.active && root != 0
      modifies this`dfs, this`reprs, this`dfsIdx, this`work, this`scc, this`substituted, this`unsat, this`path,
               this`pos, this`smallest
      ensures unsat ==> SomeConflict()
      ensures !unsat ==> Searching() && work == [] && Finished(Now(), root)
      ensures !unsat ==> forall x :: Finished(old(Now()), x) ==> Finished(Now(), x)
    {
      hide SearchOk, GoodGraph, Edge, SomeConflict;
      if MinIn(dfs, root) == TRAVERSED {
        return;
      }
      Search(root);
    }
  }

  /** The representatives after those of the literals from position `k` on were noted. */
  ghost function NoteAll(reprs: map<int, int>, s: seq<int>, k: nat, frozen: set<int>, repr: int): map<int, int>
    requires k <= |s|
    decreases |s| - k
  {
    if k == |s| then reprs
    else NoteAll(reprs, s, k + 1, frozen, repr)[s[k] := if Abs(s[k]) in frozen then s[k] else repr]
  }

  lemma {:induction false} NoteAllMeans(reprs: map<int, int>, s: seq<int>, k: nat, frozen: set<int>, repr: int)
    requires k <= |s|
    ensures forall x :: x in NoteAll(reprs, s, k, frozen, repr) <==> x in reprs || x in s[k..]
    ensures forall x :: x in NoteAll(reprs, s, k, frozen, repr) ==>
              NoteAll(reprs, s, k, frozen, repr)[x]
              == if x in s[k..] then (if Abs(x) in frozen then x else repr) else reprs[x]
    decreases |s| - k
  {
    if k < |s| {
      NoteAllMeans(reprs, s, k + 1, frozen, repr);
      assert s[k..] == [s[k]] + s[k + 1..];
    }
  }

  lemma NothingFinished(dfs: map<int, Dfs>, s: seq<int>)
    ensures FinishedIn(dfs, dfs, Lits(s[|s|..]))
  {
    assert s[|s|..] == [];
  }

  lemma FinishOne(dfs0: map<int, Dfs>, dfs: map<int, Dfs>, s: seq<int>, k: nat)
    requires k < |s| && FinishedIn(dfs0, dfs, Lits(s[k + 1..]))
    ensures FinishedIn(dfs0, dfs[s[k] := Dfs(IdxIn(dfs, s[k]), TRAVERSED)], Lits(s[k..]))
  {
    var x0 := s[k];
    assert s[k..] == [x0] + s[k + 1..];
    forall x ensures x in Lits(s[k..]) <==> x == x0 || x in Lits(s[k + 1..]) { }
    assert IdxIn(dfs, x0) == IdxIn(dfs0, x0);
  }

  lemma EnterRepresented(g: Graph, t: Tree, x: int, frozen: set<int>, reprs: map<int, int>, smallest: map<int, int>)
    requires Represented(g, t, frozen, reprs, smallest) && StackOk(t) && !Visited(t, x) && t.count + 1 < TRAVERSED
    ensures Represented(g, Entered(t, x), frozen, reprs, smallest)
  {
    hide SmallestOf, Conflicting;
    EnteredMeans(t, x);
  }

  lemma EnterVisited(t: Tree, x: int)
    requires !Visited(t, x) && t.count == |VisitedSet(t.dfs)|
    ensures VisitedSet(Entered(t, x).dfs) == VisitedSet(t.dfs) + {x}
    ensures Entered(t, x).count == |VisitedSet(Entered(t, x).dfs)|
  {
    assert x !in VisitedSet(t.dfs);
    assert VisitedSet(Entered(t, x).dfs) == VisitedSet(t.dfs) + {x};
  }

  lemma SearchParts(g: Graph, t: Tree, work: seq<int>, pos: seq<int>, frozen: set<int>, reprs: map<int, int>,
                    smallest: map<int, int>)
    requires SearchOk(g, t, work, pos, frozen, reprs, smallest)
    ensures TreeOk(g, t) && WorkOk(g, t, work, pos) && Represented(g, t, frozen, reprs, smallest)
    ensures t.count == |VisitedSet(t.dfs)|
  {
  }

  lemma VisitedMeans(t: Tree)
    ensures forall x :: Visited(t, x) <==> IdxIn(t.dfs, x) != 0
    ensures forall x :: Finished(t, x) <==> MinIn(t.dfs, x) == TRAVERSED
    ensures forall x :: Idx(t, x) == IdxIn(t.dfs, x) && Min(t, x) == MinIn(t.dfs, x)
  {
  }

  lemma TopActive(g: Graph, t: Tree, work: seq<int>, pos: seq<int>)
    requires WorkOk(g, t, work, pos) && work != []
    ensures Abs(work[|work| - 1]) in g.active && work[|work| - 1] != 0
  {
  }

  /** An unvisited literal on top is a successor of the last path literal. */
  lemma EnterPossible(g: Graph, t: Tree, work: seq<int>, pos: seq<int>)
    requires WorkOk(g, t, work, pos) && StackOk(t) && PathOk(g, t) && work != [] && !Visited(t, work[|work| - 1])
    ensures t.path != [] ==> Edge(g, t.path[|t.path| - 1], work[|work| - 1])
  {
    hide Edge, Idx, Min, Visited;
    if t.path != [] {
      PathIsVisited(g, t, |t.path| - 1);
      assert pos[|pos| - 1] != |work| - 1;
      assert Above(t, work, pos, |t.path| - 1, |work| - 1);
    }
  }

  /** The visited literals are literals, so the indices stay below the special minimum. */
  lemma IndexFits(g: Graph, maxVar: nat, t: Tree, x: int)
    requires GoodGraph(g, maxVar) && !Visited(t, x) && Abs(x) in g.active && t.count == |VisitedSet(t.dfs)|
    requires forall y :: Visited(t, y) ==> Abs(y) in g.active && y != 0
    ensures t.count + 1 < TRAVERSED && x in Universe(maxVar)
  {
    hide SkewSymmetric, Universe;
    VisitedSetMeans(t);
    var s := VisitedSet(t.dfs) + {x};
    InUniverse(s, maxVar);
    UniverseSize(maxVar);
    SubsetSize(s, Universe(maxVar));
    assert x in s && x !in VisitedSet(t.dfs);
  }

  lemma EnterSearch(g: Graph, maxVar: nat, t: Tree, work: seq<int>, pos: seq<int>, frozen: set<int>, reprs: map<int,
                    int>,
                    smallest: map<int, int>, kids: seq<int>)
    requires GoodGraph(g, maxVar) && SearchOk(g, t, work, pos, frozen, reprs, smallest) && work != []
    requires !Visited(t, work[|work| - 1])
    requires var x := work[|work| - 1];
             && (forall k :: k in kids ==> Edge(g, x, k) && IdxIn(Entered(t, x).dfs, k) == 0)
             && (forall y :: Edge(g, x, y) && IdxIn(Entered(t, x).dfs, y) == 0 ==> y in kids)
    ensures var x := work[|work| - 1];
            && SearchOk(g, Entered(t, x), work + kids, pos + [|work| - 1], frozen, reprs, smallest)
            && VisitedSet(Entered(t, x).dfs) == VisitedSet(t.dfs) + {x} && x in Universe(maxVar)
  {
    hide WorkOk, Represented, TreeOk, GoodGraph, Idx, Min, Visited, Finished, Edge, Universe, StackOk, PathOk,
         FinishedOk, LeftOk, LowOk,
         ReachOk, OwnedOk, IdxIn, VisitedSet, Entered;
    var x := work[|work| - 1];
    SearchParts(g, t, work, pos, frozen, reprs, smallest);
    TreeParts(g, t);
    TopActive(g, t, work, pos);
    IndexFits(g, maxVar, t, x);
    EnterPossible(g, t, work, pos);
    EnterTree(g, t, x);
    VisitedMeans(Entered(t, x));
    KidsAreLiterals(g, maxVar, x, kids);
    EnterWork(g, t, work, pos, kids);
    EnterRepresented(g, t, x, frozen, reprs, smallest);
    EnterVisited(t, x);
  }

  lemma KidsAreLiterals(g: Graph, maxVar: nat, parent: int, kids: seq<int>)
    requires GoodGraph(g, maxVar) && forall k :: k in kids ==> Edge(g, parent, k)
    ensures forall k :: k in kids ==> k != 0
  {
    forall k | k in kids ensures k != 0 {
      EdgeActive(g, parent, k);
    }
  }

  lemma StackIsDistinct(g: Graph, t: Tree, work: seq<int>, pos: seq<int>, frozen: set<int>, reprs: map<int, int>,
                        smallest: map<int, int>)
    requires SearchOk(g, t, work, pos, frozen, reprs, smallest)
    ensures forall a, b :: 0 <= a < b < |t.scc| ==> t.scc[a] != t.scc[b]
  {
    hide PathOk, FinishedOk, LeftOk, LowOk, ReachOk, OwnedOk, WorkOk, Represented;
    forall a, b | 0 <= a < b < |t.scc| ensures t.scc[a] != t.scc[b] {
      StackIncreases(t, a, b);
    }
  }

  lemma GraphMeans(g: Graph, maxVar: nat)
    requires GoodGraph(g, maxVar)
    ensures SkewSymmetric(g)
  {
  }

  lemma EmptySearch(g: Graph, frozen: set<int>)
    ensures SearchOk(g, Tree(map[], 0, [], []), [], [], frozen, map[], map[])
  {
  }

  /** What is known about the new minimum of the literal on top. */
  ghost predicate IsNewMin(g: Graph, t: Tree, x: int, m: nat) {
    && m <= Min(t, x) && (forall y :: Edge(g, x, y) ==> m <= Min(t, y))
    && (m == Min(t, x) || exists y :: Edge(g, x, y) && Min(t, y) == m)
  }

  /** Only the last path literal can be the entry of a component. */
  lemma EntryCompletes(g: Graph, t: Tree, work: seq<int>, pos: seq<int>, frozen: set<int>, reprs: map<int, int>,
                       smallest: map<int, int>, m: nat)
    requires SearchOk(g, t, work, pos, frozen, reprs, smallest) && work != []
    requires var x := work[|work| - 1]; Visited(t, x) && !Finished(t, x) && IsNewMin(g, t, x, m) && Idx(t, x) == m
    ensures t.path != [] && |pos| == |t.path| && pos[|pos| - 1] == |work| - 1
    ensures exists j :: 0 <= j < |t.scc| && t.scc[j] == work[|work| - 1] && Completing(g, t, j)
  {
    hide Represented, TreeOk, Idx, Min, Visited, Finished, Edge, StackOk, PathOk, FinishedOk, LeftOk, LowOk, ReachOk,
         OwnedOk, WorkOk, VisitedSet;
    var x := work[|work| - 1];
    SearchParts(g, t, work, pos, frozen, reprs, smallest);
    TreeParts(g, t);
    TopIs(g, t, work, pos);
    PosLength(g, t, work, pos);
    if Left(t, x) {
      LeftIsLower(g, t, x);
    }
    assert pos[|pos| - 1] == |work| - 1;
    OnStack(t, x);
    var j :| 0 <= j < |t.scc| && t.scc[j] == x;
    forall y | Edge(g, x, y) ensures Visited(t, y) && m <= Min(t, y) {
      SuccessorsVisited(g, t, work, pos, y);
    }
    assert Completing(g, t, j);
  }

  lemma PosLength(g: Graph, t: Tree, work: seq<int>, pos: seq<int>)
    requires WorkOk(g, t, work, pos)
    ensures |pos| == |t.path|
  {
  }

  /** The state after a literal that is no entry was taken from the work stack. */
  function Updated(t: Tree, x: int, m: nat, leaves: bool): Tree
    requires leaves ==> t.path != []
  {
    Tree(t.dfs[x := Dfs(IdxIn(t.dfs, x), m)], t.count, t.scc, if leaves then t.path[..|t.path| - 1] else t.path)
  }

  lemma UpdateSearch(g: Graph, t: Tree, work: seq<int>, pos: seq<int>, frozen: set<int>, reprs: map<int, int>,
                     smallest: map<int, int>, m: nat)
    requires SearchOk(g, t, work, pos, frozen, reprs, smallest) && work != []
    requires var x := work[|work| - 1]; Visited(t, x) && !Finished(t, x) && IsNewMin(g, t, x, m) && Idx(t, x) != m
    ensures t.path != [] && |pos| == |t.path|
    ensures var leaves := pos[|pos| - 1] == |work| - 1;
            var t' := Updated(t, work[|work| - 1], m, leaves);
            && SearchOk(g, t', work[..|work| - 1], if leaves then pos[..|pos| - 1] else pos, frozen, reprs, smallest)
            && VisitedSet(t'.dfs) == VisitedSet(t.dfs)
  {
    hide Represented, TreeOk, Idx, Min, Visited, Finished, Edge, StackOk, PathOk, FinishedOk, LeftOk, LowOk, ReachOk,
         OwnedOk, WorkOk,
         VisitedSet, Updated, IsNewMin;
    var n := |work| - 1;
    var x := work[n];
    SearchParts(g, t, work, pos, frozen, reprs, smallest);
    TreeParts(g, t);
    TopIs(g, t, work, pos);
    PosLength(g, t, work, pos);
    var leaves := pos[|pos| - 1] == n;
    var t' := Updated(t, x, m, leaves);
    if leaves {
      LeaveUpdate(g, t, work, pos, m);
    } else {
      LowerUpdate(g, t, x, m);
    }
    UpdatedMeans(t, x, m, leaves);
    UpdateVisited(t, x, m, leaves);
    SmallerThanTraversed(g, t, x, m);
    UpdateRepresented(g, t, t', x, frozen, reprs, smallest);
    PopWork(g, t, t', work, pos, if leaves then pos[..|pos| - 1] else pos);
  }

  lemma UpdatedMeans(t: Tree, x: int, m: nat, leaves: bool)
    requires leaves ==> t.path != []
    ensures var t' := Updated(t, x, m, leaves);
            && (forall y :: Idx(t', y) == Idx(t, y)) && (forall y :: Min(t', y) == if y == x then m else Min(t, y))
            && t'.path == (if leaves then t.path[..|t.path| - 1] else t.path) && t'.count == t.count
  {
  }

  lemma SmallerThanTraversed(g: Graph, t: Tree, x: int, m: nat)
    requires StackOk(t) && PathOk(g, t) && LeftOk(g, t) && Visited(t, x) && !Finished(t, x) && IsNewMin(g, t, x, m)
    ensures m < TRAVERSED && x in t.scc
  {
    hide Edge;
    OnStack(t, x);
    MinAtMostIdx(g, t, x);
  }

  lemma UpdateRepresented(g: Graph, t: Tree, t': Tree, x: int, frozen: set<int>, reprs: map<int, int>,
                          smallest: map<int, int>)
    requires Represented(g, t, frozen, reprs, smallest) && !Finished(t, x) && Min(t', x) < TRAVERSED
    requires forall y :: y != x ==> Min(t', y) == Min(t, y)
    ensures Represented(g, t', frozen, reprs, smallest)
    ensures forall y :: Finished(t, y) ==> Finished(t', y)
  {
    hide SmallestOf, Conflicting, Min;
  }

  lemma UpdateVisited(t: Tree, x: int, m: nat, leaves: bool)
    requires leaves ==> t.path != []
    requires Visited(t, x)
    ensures VisitedSet(Updated(t, x, m, leaves).dfs) == VisitedSet(t.dfs)
  {
  }

  /** The minimum comes from a successor on the stack. */
  lemma NewMinFrom(g: Graph, t: Tree, x: int, m: nat)
    requires StackOk(t) && IsNewMin(g, t, x, m) && m != Min(t, x) && m < TRAVERSED
    requires forall y :: Edge(g, x, y) ==> Visited(t, y)
    ensures FromSuccessor(g, t, x, m)
  {
    hide Edge, Idx, Min, Visited;
    var y :| Edge(g, x, y) && Min(t, y) == m;
    OnStack(t, y);
  }

  lemma LeaveUpdate(g: Graph, t: Tree, work: seq<int>, pos: seq<int>, m: nat)
    requires TreeOk(g, t) && WorkOk(g, t, work, pos) && work != [] && t.path != []
    requires pos[|pos| - 1] == |work| - 1 && IsNewMin(g, t, work[|work| - 1], m) && Idx(t, work[|work| - 1]) != m
    ensures TreeOk(g, Updated(t, work[|work| - 1], m, true))
  {
    hide TreeOk, Edge, Idx, Min, StackOk, PathOk, FinishedOk, LeftOk, LowOk, ReachOk, OwnedOk, Visited;
    var x := t.path[|t.path| - 1];
    assert x == work[|work| - 1];
    TreeParts(g, t);
    PathMember(g, t, |t.path| - 1);
    forall y | Edge(g, x, y) ensures Visited(t, y) && m <= Min(t, y) {
      SuccessorsVisited(g, t, work, pos, y);
    }
    NewMinFrom(g, t, x, m);
    LeaveTree(g, t, m);
    LeavingIsUpdated(t, m);
  }

  lemma LeavingIsUpdated(t: Tree, m: nat)
    requires t.path != []
    ensures Leaving(t, m) == Updated(t, t.path[|t.path| - 1], m, true)
  {
  }

  lemma LowerUpdate(g: Graph, t: Tree, x: int, m: nat)
    requires TreeOk(g, t) && Left(t, x) && t.path != [] && Idx(t, t.path[|t.path| - 1]) < Idx(t, x)
    requires IsNewMin(g, t, x, m)
    ensures TreeOk(g, Updated(t, x, m, false))
  {
    hide TreeOk, Edge, Idx, Min, StackOk, PathOk, FinishedOk, LowOk, ReachOk, OwnedOk, Visited, Finished;
    TreeParts(g, t);
    MinAtMostIdx(g, t, x);
    if m != Min(t, x) {
      NewMinFrom(g, t, x, m);
    }
    LowerTree(g, t, x, m);
    LoweredIsUpdated(t, x, m);
  }

  lemma LoweredIsUpdated(t: Tree, x: int, m: nat)
    ensures Lowered(t, x, m) == Updated(t, x, m, false)
  {
  }

  lemma ConflictFound(g: Graph, t: Tree, work: seq<int>, pos: seq<int>, frozen: set<int>, reprs: map<int, int>,
                      smallest: map<int, int>, j: nat)
    requires SearchOk(g, t, work, pos, frozen, reprs, smallest) && Completing(g, t, j) && -t.scc[j] in t.scc[j..]
    ensures Abs(t.scc[j]) in g.active && Conflicting(g, t.scc[j])
  {
    hide TreeOk, Edge, Idx, Min, StackOk, PathOk, FinishedOk, LowOk, LeftOk, ReachOk, OwnedOk, Visited, Finished,
         WorkOk, Represented, Completing, Mutual;
    CompletingMeans(g, t, j);
    ComponentIs(g, t, j, -t.scc[j]);
    TreeParts(g, t);
    PathIsVisited(g, t, |t.path| - 1);
  }

  /** All literals of the component have the same smallest literal, and none conflicts. */
  lemma ComponentRepresented(g: Graph, t: Tree, j: nat, repr: int, x: int)
    requires SkewSymmetric(g) && TreeOk(g, t) && Completing(g, t, j) && x in t.scc[j..]
    requires -t.scc[j] !in t.scc[j..] && repr in t.scc[j..] && forall y :: y in t.scc[j..] ==> Abs(repr) <= Abs(y)
    ensures SmallestOf(g, x, repr) && !Conflicting(g, x)
  {
    hide TreeOk, Edge, Idx, Min, StackOk, PathOk, FinishedOk, LowOk, LeftOk, ReachOk, OwnedOk, Visited, Finished,
         Completing, SkewSymmetric, Mutual;
    CompletingMeans(g, t, j);
    var p := t.scc[j];
    ComponentIs(g, t, j, x);
    ComponentIs(g, t, j, repr);
    ComponentIs(g, t, j, -p);
    MutualSymmetric(g, p, x);
    MutualTransitive(g, x, p, repr);
    forall y | Mutual(g, x, y) ensures Abs(repr) <= Abs(y) {
      MutualTransitive(g, p, x, y);
      ComponentIs(g, t, j, y);
    }
    TreeParts(g, t);
    PathIsVisited(g, t, |t.path| - 1);
    MutualIsActive(g, p, x);
    if Conflicting(g, x) {
      ConflictEverywhere(g, x, p);
    }
  }

  lemma FinishSearch(g: Graph, t: Tree, work: seq<int>, pos: seq<int>, frozen: set<int>, reprs: map<int, int>,
                     smallest: map<int, int>,
                     j: nat, dfs: map<int, Dfs>, repr: int, smallest': map<int, int>)
    requires SkewSymmetric(g) && SearchOk(g, t, work, pos, frozen, reprs, smallest) && work != [] && Completing(g, t, j)
    requires |pos| == |t.path| && pos[|pos| - 1] == |work| - 1 && work[|work| - 1] == t.scc[j]
    requires FinishedIn(t.dfs, dfs, Lits(t.scc[j..]))
    requires -t.scc[j] !in t.scc[j..] && repr in t.scc[j..] && forall y :: y in t.scc[j..] ==> Abs(repr) <= Abs(y)
    requires smallest' == smallest + map x | x in Lits(t.scc[j..]) :: repr
    ensures SearchOk(g, Completed(t, j, dfs), work[..|work| - 1], pos[..|pos| - 1], frozen,
                     NoteAll(reprs, t.scc, j, frozen, repr), smallest')
    ensures VisitedSet(dfs) == VisitedSet(t.dfs)
  {
    hide TreeOk, Edge, Idx, Min, StackOk, PathOk, FinishedOk, LowOk, LeftOk, ReachOk, OwnedOk, Visited, Finished,
         WorkOk, Represented, Completing,
         SkewSymmetric, NoteAll, FinishedIn, VisitedSet, Completed;
    CompletingMeans(g, t, j);
    SearchParts(g, t, work, pos, frozen, reprs, smallest);
    TreeParts(g, t);
    FinishTree(g, t, j, dfs);
    CompletedMeans(g, t, j, dfs);
    FinishVisited(t, dfs, Lits(t.scc[j..]), j);
    FinishRepresented(g, t, frozen, reprs, smallest, j, dfs, repr, smallest');
    CompletedFinished(g, t, j, dfs);
    PathIsVisited(g, t, |t.path| - 1);
    PopWork(g, t, Completed(t, j, dfs), work, pos, pos[..|pos| - 1]);
  }

  lemma CompletedFinished(g: Graph, t: Tree, j: nat, dfs: map<int, Dfs>)
    requires Completing(g, t, j) && FinishedIn(t.dfs, dfs, Lits(t.scc[j..]))
    ensures j < |t.scc| && t.path != []
    ensures forall x :: Finished(Completed(t, j, dfs), x) <==> Finished(t, x) || x in t.scc[j..]
    ensures Completed(t, j, dfs).dfs == dfs
  {
    hide Edge, Idx, Min;
    CompletedMeans(g, t, j, dfs);
  }

  lemma FinishVisited(t: Tree, dfs: map<int, Dfs>, done: set<int>, j: nat)
    requires FinishedIn(t.dfs, dfs, done)
    ensures VisitedSet(dfs) == VisitedSet(t.dfs)
  {
    forall x ensures x in VisitedSet(dfs) <==> x in VisitedSet(t.dfs) {
      assert IdxIn(dfs, x) == IdxIn(t.dfs, x);
    }
  }

  lemma FinishRepresented(g: Graph, t: Tree, frozen: set<int>, reprs: map<int, int>, smallest: map<int, int>,
                          j: nat, dfs: map<int, Dfs>, repr: int, smallest': map<int, int>)
    requires SkewSymmetric(g) && TreeOk(g, t) && Represented(g, t, frozen, reprs, smallest) && Completing(g, t, j)
    requires FinishedIn(t.dfs, dfs, Lits(t.scc[j..])) && j < |t.scc|
    requires -t.scc[j] !in t.scc[j..] && repr in t.scc[j..] && forall y :: y in t.scc[j..] ==> Abs(repr) <= Abs(y)
    requires smallest' == smallest + map x | x in Lits(t.scc[j..]) :: repr
    ensures Represented(g, Completed(t, j, dfs), frozen, NoteAll(reprs, t.scc, j, frozen, repr), smallest')
  {
    hide TreeOk, Edge, Idx, Min, Completing, SkewSymmetric, NoteAll, SmallestOf, Conflicting, Completed, FinishedIn,
         Finished;
    CompletedFinished(g, t, j, dfs);
    NoteAllMeans(reprs, t.scc, j, frozen, repr);
    forall x | x in t.scc[j..] ensures SmallestOf(g, x, repr) && !Conflicting(g, x) {
      ComponentRepresented(g, t, j, repr, x);
    }
    assert forall x :: x in t.scc[j..] <==> x in Lits(t.scc[j..]);
    var noted := NoteAll(reprs, t.scc, j, frozen, repr);
    forall x ensures x in noted <==> x in smallest' { }
  }

  /** A step visits a new literal, or it shortens the work stack by a visited one. */
  ghost predicate Advanced(maxVar: nat, dfs: map<int, Dfs>, work: seq<int>, dfs': map<int, Dfs>, work': seq<int>) {
    && work != []
    && (var x := work[|work| - 1];
        if IdxIn(dfs, x) == 0 then VisitedSet(dfs') == VisitedSet(dfs) + {x} && x in Universe(maxVar) && work <= work'
        else VisitedSet(dfs') == VisitedSet(dfs) && work' == work[..|work| - 1])
  }

  lemma InVisitedSet(dfs: map<int, Dfs>)
    ensures forall x :: x in VisitedSet(dfs) <==> IdxIn(dfs, x) != 0
  {
  }

  lemma AdvancedMeans(maxVar: nat, dfs: map<int, Dfs>, work: seq<int>, dfs': map<int, Dfs>, work': seq<int>, root: int)
    requires Advanced(maxVar, dfs, work, dfs', work') && (IdxIn(dfs, root) != 0 || root in work)
    ensures IdxIn(dfs', root) != 0 || root in work'
    ensures VisitedSet(dfs) <= VisitedSet(dfs')
    ensures Universe(maxVar) - VisitedSet(dfs') < Universe(maxVar) - VisitedSet(dfs)
            || (VisitedSet(dfs') == VisitedSet(dfs) && |work'| < |work|)
  {
    hide Universe, VisitedSet;
    InVisitedSet(dfs);
    InVisitedSet(dfs');
    var n := |work| - 1;
    var x := work[n];
    assert work == work[..n] + [x];
    if IdxIn(dfs, x) == 0 {
      assert x in Universe(maxVar) - VisitedSet(dfs) && x !in Universe(maxVar) - VisitedSet(dfs');
    }
  }

  /** A finished literal is skipped. */
  lemma SkipSearch(g: Graph, t: Tree, work: seq<int>, pos: seq<int>, frozen: set<int>, reprs: map<int, int>,
                   smallest: map<int, int>)
    requires SearchOk(g, t, work, pos, frozen, reprs, smallest) && work != [] && Finished(t, work[|work| - 1])
    ensures SearchOk(g, t, work[..|work| - 1], pos, frozen, reprs, smallest) && Visited(t, work[|work| - 1])
  {
    hide Edge, Idx, Min, FinishedOk, LeftOk, LowOk, ReachOk, OwnedOk, Represented;
    assert Visited(t, work[|work| - 1]);
    if t.path != [] {
      assert work[pos[|pos| - 1]] in t.scc;
    }
    PopWork(g, t, t, work, pos, pos);
  }

  lemma RootSearch(g: Graph, t: Tree, pos: seq<int>, frozen: set<int>, reprs: map<int, int>, smallest: map<int, int>,
                   root: int)
    requires SearchOk(g, t, [], pos, frozen, reprs, smallest) && Abs(root) in g.active && root != 0
    ensures SearchOk(g, t, [root], pos, frozen, reprs, smallest)
  {
    hide TreeOk, Represented, Edge;
    assert t.path == [];
  }

  /** When the work stack is empty all visited literals are finished. */
  lemma EmptyWork(g: Graph, t: Tree, pos: seq<int>, frozen: set<int>, reprs: map<int, int>, smallest: map<int, int>)
    requires SearchOk(g, t, [], pos, frozen, reprs, smallest)
    ensures forall x :: Visited(t, x) <==> Finished(t, x)
  {
    hide Represented, Edge, FinishedOk, LeftOk, LowOk, ReachOk, OwnedOk;
    assert t.path == [];
    assert t.scc == [];
  }

  lemma SearchStack(g: Graph, t: Tree, work: seq<int>, pos: seq<int>, frozen: set<int>, reprs: map<int, int>,
                    smallest: map<int, int>)
    requires SearchOk(g, t, work, pos, frozen, reprs, smallest)
    ensures StackOk(t)
  {
  }

  lemma AllFinished(g: Graph, t0: Tree, t: Tree, root: int)
    requires StackOk(t0) && (forall x :: Visited(t, x) <==> Finished(t, x)) && VisitedSet(t0.dfs) <= VisitedSet(t.dfs)
    requires IdxIn(t.dfs, root) != 0
    ensures Finished(t, root) && forall x :: Finished(t0, x) ==> Finished(t, x)
  {
    VisitedSetMeans(t0);
    VisitedSetMeans(t);
    VisitedMeans(t);
  }

  // ---------------------------------------------------------------- the result

  /** Exactly the literals of active variables have a representative.  It is the smallest literal
      of the component unless the variable is frozen; no component has a conflict. */
  ghost predicate Complete(g: Graph, frozen: set<int>, reprs: map<int, int>, smallest: map<int, int>) {
    forall x :: (x in reprs <==> Abs(x) in g.active)
      && (Abs(x) in g.active ==>
            && x in smallest && SmallestOf(g, x, smallest[x]) && !Conflicting(g, x)
            && reprs[x] == if Abs(x) in frozen then x else smallest[x])
  }

  lemma SearchCompletes(g: Graph, maxVar: nat, t: Tree, work: seq<int>, pos: seq<int>, frozen: set<int>, reprs: map<int,
                        int>, smallest: map<int, int>)
    requires GoodGraph(g, maxVar) && SearchOk(g, t, work, pos, frozen, reprs, smallest)
    requires forall x :: Abs(x) in g.active && 1 <= Abs(x) < maxVar + 1 ==> Finished(t, x)
    ensures Complete(g, frozen, reprs, smallest)
  {
    hide TreeOk, WorkOk, SmallestOf, Conflicting, SkewSymmetric;
    TreeParts(g, t);
    forall x ensures Abs(x) in g.active <==> Finished(t, x) {
      if Finished(t, x) {
        assert Visited(t, x);
      }
    }
    hide Finished;
  }

  /** Two literals that are not frozen have the same representative exactly if they reach each
      other over binary clauses. */
  lemma SameRepresentative(g: Graph, frozen: set<int>, reprs: map<int, int>, smallest: map<int, int>, x: int, y: int)
    requires Complete(g, frozen, reprs, smallest) && Abs(x) in g.active && Abs(y) in g.active && Abs(x) !in frozen
    requires Abs(y) !in frozen
    ensures reprs[x] == reprs[y] <==> Mutual(g, x, y)
  {
    hide Mutual;
    var r := smallest[x];
    assert Mutual(g, x, r);
    MutualIsActive(g, x, r);
    SameSmallest(g, x, y, r, smallest[y]);
  }

  /** Representatives commute with negation, represent themselves and have the smallest
      variable of their component. */
  lemma RepresentativeLaws(g: Graph, frozen: set<int>, reprs: map<int, int>, smallest: map<int, int>, x: int)
    requires SkewSymmetric(g) && Complete(g, frozen, reprs, smallest) && Abs(x) in g.active
    ensures Abs(reprs[x]) in g.active && Mutual(g, x, reprs[x])
    ensures reprs[-x] == -reprs[x] && reprs[reprs[x]] == reprs[x]
    ensures Abs(x) !in frozen ==> forall y :: Mutual(g, x, y) ==> Abs(reprs[x]) <= Abs(y)
  {
    hide Mutual, SkewSymmetric;
    var r := smallest[x];
    assert Mutual(g, x, r);
    MutualIsActive(g, x, r);
    assert Abs(-x) in g.active;
    forall y | Mutual(g, -x, y) ensures Abs(y) in g.active {
      MutualIsActive(g, -x, y);
    }
    SmallestReversed(g, x, r);
    assert Abs(-r) in g.active;
    SameSmallest(g, -x, -x, smallest[-x], -r);
    MutualSelf(g, -x);
    SmallestSelf(g, x, r);
    SameSmallest(g, r, r, smallest[r], r);
    MutualSelf(g, r);
    MutualSelf(g, x);
  }

  lemma MutualSelf(g: Graph, x: int)
    ensures Mutual(g, x, x)
  {
    ReachSelf(g, x);
  }

  lemma SmallestSelf(g: Graph, x: int, r: int)
    requires SmallestOf(g, x, r)
    ensures SmallestOf(g, r, r)
  {
    hide Mutual;
    MutualSelf(g, r);
    forall y | Mutual(g, r, y) ensures Abs(r) <= Abs(y) {
      MutualTransitive(g, x, r, y);
    }
  }

  /** A conflicting component means that the formula is unsatisfiable. */
  lemma ConflictIsUnsatisfiable(f: Formula, g: Graph, x: int)
    requires EdgesImplied(f, g) && Conflicting(g, x) && x != 0
    ensures !Satisfiable(f)
  {
    forall m ensures !Models(m, f) {
      if Models(m, f) {
        MutualMeans(f, g, x, -x, m);
      }
    }
  }
}
