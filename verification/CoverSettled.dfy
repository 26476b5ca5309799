/** Watched propagation of added literals while one clause is ignored. */
module CoverSettled {
  import opened Cnf
  import opened Lists
  import opened Propagation

  /** The ignored clause counts as garbage. */
  function Ignoring(mem: Memory, c: int): Memory {
    if c in mem then mem[c := mem[c].(size := 0)] else mem
  }

  /** In the middle of the list of the false literal `l`: the trail before position `n` and the first `j` watches have
      been dealt with, and the root-level part stays settled even for the ignored clause. */
  ghost predicate Visited(mem: Memory, ws: WatchLists, root: seq<int>, T: seq<int>, c: int, l: int, j: nat, n: nat) {
    && Settling(mem, ws, root, T, c, n) && n < |T| && T[n] == -l && j <= |ListOf(ws, l)|
    && SettledList(Ignoring(mem, c), T, l, ListOf(ws, l)[..j])
  }

  /** Between two lists. */
  ghost predicate Settling(mem: Memory, ws: WatchLists, root: seq<int>, T: seq<int>, c: int, n: nat) {
    && Distinct(T) && root <= T && |root| <= n <= |T|
    && Propagated(mem, ws, root, |root|) && Propagated(Ignoring(mem, c), ws, T, n)
  }

  lemma IgnoringIsGood(mem: Memory, ws: WatchLists, c: int)
    requires WatchInvariant(mem, ws)
    ensures WatchInvariant(Ignoring(mem, c), ws)
  {
    if c in mem {
      var mem' := Ignoring(mem, c);
      assert GoodClause(mem[c]);
      forall l ensures GoodList(mem', l, ListOf(ws, l)) {
        assert GoodList(mem, l, ListOf(ws, l));
        forall w | GoodWatch(mem, l, w) ensures GoodWatch(mem', l, w) { }
      }
      forall q | Live(mem', q) ensures Live(mem, q) { }
    }
  }

  lemma IgnoringSettled(mem: Memory, c: int, T: seq<int>, l: int, list: seq<Watch>)
    requires SettledList(mem, T, l, list)
    ensures SettledList(Ignoring(mem, c), T, l, list)
  {
    forall w | w in list ensures Settled(Ignoring(mem, c), T, l, w) {
      assert Settled(mem, T, l, w);
    }
  }

  lemma IgnoringPropagated(mem: Memory, ws: WatchLists, T: seq<int>, n: nat, c: int)
    requires Propagated(mem, ws, T, n)
    ensures Propagated(Ignoring(mem, c), ws, T, n)
  {
    hide SettledList, Ignoring;
    forall x | x in T[..n] ensures SettledList(Ignoring(mem, c), T, -x, ListOf(ws, -x)) {
      IgnoringSettled(mem, c, T, -x, ListOf(ws, -x));
    }
  }

  /** A propagated root-level trail is where a clause starts to be tried. */
  lemma SettlingStart(mem: Memory, ws: WatchLists, root: seq<int>, c: int)
    requires Distinct(root) && Propagated(mem, ws, root, |root|)
    ensures Settling(mem, ws, root, root, c, |root|)
  {
    IgnoringPropagated(mem, ws, root, |root|, c);
  }

  lemma SettlingAssign(mem: Memory, ws: WatchLists, root: seq<int>, T: seq<int>, c: int, n: nat, u: int)
    requires Settling(mem, ws, root, T, c, n) && u !in T && -u !in T && u != 0
    ensures Settling(mem, ws, root, T + [u], c, n)
  {
    AssignKeepsSettled(Ignoring(mem, c), ws, T, u, n);
    DistinctMore(T, u);
  }

  lemma DistinctMore(T: seq<int>, u: int)
    requires Distinct(T) && u !in T && -u !in T && u != 0
    ensures Distinct(T + [u])
  {
  }

  lemma VisitedStart(mem: Memory, ws: WatchLists, root: seq<int>, T: seq<int>, c: int, l: int, n: nat)
    requires Settling(mem, ws, root, T, c, n) && n < |T| && T[n] == -l
    ensures Visited(mem, ws, root, T, c, l, 0, n)
  {
  }

  lemma VisitedEnd(mem: Memory, ws: WatchLists, root: seq<int>, T: seq<int>, c: int, l: int, j: nat, n: nat)
    requires Visited(mem, ws, root, T, c, l, j, n) && j == |ListOf(ws, l)|
    ensures Settling(mem, ws, root, T, c, n + 1)
  {
    hide SettledList, Ignoring;
    assert ListOf(ws, l)[..j] == ListOf(ws, l);
    assert T[..n + 1] == T[..n] + [T[n]];
  }

  lemma VisitedIsSettling(mem: Memory, ws: WatchLists, root: seq<int>, T: seq<int>, c: int, l: int, j: nat, n: nat)
    requires Visited(mem, ws, root, T, c, l, j, n)
    ensures Settling(mem, ws, root, T, c, n)
  {
  }

  // ---------------------------------------------------------------- one watch

  /** A watch that needs no attention. */
  lemma VisitedKeep(mem: Memory, ws: WatchLists, root: seq<int>, T: seq<int>, c: int, l: int, j: nat, n: nat)
    requires Visited(mem, ws, root, T, c, l, j, n) && j < |ListOf(ws, l)|
    requires var w := ListOf(ws, l)[j];
             w.clause == c || w.blit in T || (w.clause in mem && |mem[w.clause].lits| >= 2
                      && Other(mem[w.clause].lits, l) in T)
    ensures Visited(mem, ws, root, T, c, l, j + 1, n)
  {
    hide Propagated, Distinct;
    SettledOneMore(Ignoring(mem, c), T, l, ListOf(ws, l), j);
  }

  lemma VisitedAssign(mem: Memory, ws: WatchLists, root: seq<int>, T: seq<int>, c: int, l: int, j: nat, n: nat, u: int)
    requires Visited(mem, ws, root, T, c, l, j, n) && u !in T && -u !in T && u != 0
    ensures Visited(mem, ws, root, T + [u], c, l, j, n)
  {
    hide Propagated, Distinct, SettledList, ListOf, Ignoring;
    AssignKeepsSettled(Ignoring(mem, c), ws, T, u, n);
    SettlingAssign(mem, ws, root, T, c, n, u);
  }

  lemma FalseNotBefore(root: seq<int>, T: seq<int>, l: int, n: nat)
    requires Distinct(T) && root <= T && |root| <= n < |T| && T[n] == -l
    ensures l !in T && -l !in T[..n] && l !in root && -l !in root && -l !in root[..|root|]
  {
    NotInPrefix(T, n);
    assert root == T[..n][..|root|];
    forall x | x in root ensures x in T[..n] && x in T {
      var i :| 0 <= i < |root| && root[i] == x;
      assert T[i] == x && T[..n][i] == x;
    }
  }

  /** The blocking literal becomes a true literal. */
  lemma VisitedBlit(mem: Memory, ws: WatchLists, root: seq<int>, T: seq<int>, c: int, l: int, j: nat, n: nat, b: int)
    requires WatchInvariant(mem, ws) && Visited(mem, ws, root, T, c, l, j, n) && j < |ListOf(ws, l)|
    requires var r := ListOf(ws, l)[j].clause; r in mem && b in mem[r].lits && b != l
    requires b in T
    ensures var ws' := ws[l := ListOf(ws, l)[j := ListOf(ws, l)[j].(blit := b)]];
            Visited(mem, ws', root, T, c, l, j + 1, n)
  {
    hide WatchInvariant, Propagated, Distinct, ListOf, SettledList, GoodMemory;
    var list := ListOf(ws, l);
    var ws' := ws[l := list[j := list[j].(blit := b)]];
    FalseNotBefore(root, T, l, n);
    IgnoringIsGood(mem, ws, c);
    ChangeBlit(mem, ws, l, j, b, root, |root|);
    ChangeBlit(Ignoring(mem, c), ws, l, j, b, T, n);
    UpdatedList(ws', l, list[j := list[j].(blit := b)]);
    assert ListOf(ws', l)[..j] == list[..j];
    assert Visited(mem, ws', root, T, c, l, j, n);
    VisitedKeep(mem, ws', root, T, c, l, j, n);
  }

  lemma IgnoringMoves(mem: Memory, mem': Memory, ws: WatchLists, l: int, j: nat, k: nat, c: int)
    requires Moves(mem, mem', ws, l, j, k) && ListOf(ws, l)[j].clause != c
    ensures Moves(Ignoring(mem, c), Ignoring(mem', c), ws, l, j, k)
  {
    hide WatchInvariant;
    IgnoringIsGood(mem, ws, c);
  }

  /** The watch moves to a literal that is not false. */
  lemma VisitedMove(mem: Memory, mem': Memory, ws: WatchLists, root: seq<int>, T: seq<int>, c: int, l: int, j: nat,
                    n: nat,
                    k: nat)
    requires Moves(mem, mem', ws, l, j, k) && ListOf(ws, l)[j].clause != c && Visited(mem, ws, root, T, c, l, j, n)
    requires -mem[ListOf(ws, l)[j].clause].lits[k] !in T
    ensures Visited(mem', Moved(ws, l, j, mem[ListOf(ws, l)[j].clause].lits[k]), root, T, c, l, j, n)
  {
    hide Propagated, Distinct, ListOf, SettledList, Moved, Moves;
    FalseNotBefore(root, T, l, n);
    IgnoringMoves(mem, mem', ws, l, j, k, c);
    MovesMeans(mem, mem', ws, l, j, k);
    MovedPropagated(mem, mem', ws, l, j, k, root, |root|);
    MovedPropagated(Ignoring(mem, c), Ignoring(mem', c), ws, l, j, k, T, n);
    MovedPrefixSettled(Ignoring(mem, c), Ignoring(mem', c), ws, l, j, k, T);
  }

  lemma MovesMeans(mem: Memory, mem': Memory, ws: WatchLists, l: int, j: nat, k: nat)
    requires Moves(mem, mem', ws, l, j, k)
    ensures j < |ListOf(ws, l)| && ListOf(ws, l)[j].clause in mem && k < |mem[ListOf(ws, l)[j].clause].lits|
  {
  }

  /** The two watched literals change places. */
  lemma VisitedSwap(mem: Memory, mem': Memory, ws: WatchLists, root: seq<int>, T: seq<int>, c: int, l: int, j: nat,
                    n: nat,
                    r: int)
    requires WatchInvariant(mem, ws) && SameWatched(mem, mem', r) && r != c && Visited(mem, ws, root, T, c, l, j, n)
    ensures Visited(mem', ws, root, T, c, l, j, n)
  {
    hide Propagated, Distinct, ListOf, SettledList, WatchInvariant;
    IgnoringIsGood(mem, ws, c);
    IgnoringSwap(mem, mem', r, c);
    SwapWatched(mem, mem', ws, r, root, |root|);
    SwapWatched(Ignoring(mem, c), Ignoring(mem', c), ws, r, T, n);
    PrefixIsGood(Ignoring(mem, c), ws, l, j);
  }

  lemma IgnoringSwap(mem: Memory, mem': Memory, r: int, c: int)
    requires SameWatched(mem, mem', r) && r != c
    ensures SameWatched(Ignoring(mem, c), Ignoring(mem', c), r)
  {
  }

  lemma PrefixIsGood(mem: Memory, ws: WatchLists, l: int, j: nat)
    requires WatchInvariant(mem, ws) && j <= |ListOf(ws, l)|
    ensures GoodList(mem, l, ListOf(ws, l)[..j])
  {
    assert GoodList(mem, l, ListOf(ws, l));
  }

  /** A watch of a garbage clause is dropped. */
  lemma VisitedDrop(mem: Memory, ws: WatchLists, root: seq<int>, T: seq<int>, c: int, l: int, j: nat, n: nat)
    requires WatchInvariant(mem, ws) && Visited(mem, ws, root, T, c, l, j, n) && j < |ListOf(ws, l)|
    requires !Live(mem, ListOf(ws, l)[j].clause)
    ensures Visited(mem, ws[l := ListOf(ws, l)[..j] + ListOf(ws, l)[j + 1..]], root, T, c, l, j, n)
  {
    hide Propagated, Distinct, ListOf, SettledList, WatchInvariant;
    var list := ListOf(ws, l)[..j] + ListOf(ws, l)[j + 1..];
    IgnoringIsGood(mem, ws, c);
    DropGarbage(mem, ws, l, j, root, |root|);
    DropGarbage(Ignoring(mem, c), ws, l, j, T, n);
    UpdatedList(ws[l := list], l, list);
    assert list[..j] == ListOf(ws, l)[..j];
  }

  // ---------------------------------------------------------------- the end

  /** Once everything has been propagated, no clause but the ignored one is unit or falsified. */
  lemma SettledIsQuiescent(mem: Memory, ws: WatchLists, root: seq<int>, T: seq<int>, c: int)
    requires WatchInvariant(mem, ws) && Settling(mem, ws, root, T, c, |T|)
    ensures Quiescent(LiveFormula(Ignoring(mem, c)), Lits(T))
  {
    hide Propagated, WatchInvariant, Ignoring;
    IgnoringIsGood(mem, ws, c);
    PropagatedIsQuiescent(Ignoring(mem, c), ws, T);
  }

  // ---------------------------------------------------------------- the trail

  /** The root-level literals, and then the negations of the added ones. */
  function TrailOf(root: seq<int>, added: seq<int>): seq<int> {
    root + seq(|added|, i requires 0 <= i < |added| => -added[i])
  }

  lemma TrailMore(root: seq<int>, added: seq<int>, lit: int)
    ensures TrailOf(root, added + [lit]) == TrailOf(root, added) + [-lit] && |TrailOf(root, added)| == |root| + |added|
    ensures TrailOf(root, []) == root
  {
  }

  lemma TrailAt(root: seq<int>, added: seq<int>, k: nat)
    requires k < |added|
    ensures |TrailOf(root, added)| == |root| + |added| && TrailOf(root, added)[|root| + k] == -added[k]
  {
  }

  /** The trail lists the true literals. */
  lemma TrailIs(root: seq<int>, added: seq<int>, vals: set<int>)
    requires vals == Lits(root) + Negations(Lits(added))
    ensures forall x :: x in TrailOf(root, added) <==> x in vals
    ensures Lits(TrailOf(root, added)) == vals && |TrailOf(root, added)| == |root| + |added|
  {
    var T := TrailOf(root, added);
    forall x ensures x in T <==> x in vals {
      InNegations(Lits(added), x);
      if x in root {
        var i :| 0 <= i < |root| && root[i] == x;
        assert T[i] == x;
      }
      if -x in added {
        var i :| 0 <= i < |added| && added[i] == -x;
        TrailAt(root, added, i);
      }
      if x in T {
        var i :| 0 <= i < |T| && T[i] == x;
        if i >= |root| {
          TrailAt(root, added, i - |root|);
          assert added[i - |root|] in added;
        }
      }
    }
  }

  /** One more literal that had no value is false. */
  lemma SettlingAdded(mem: Memory, ws: WatchLists, root: seq<int>, added: seq<int>, vals: set<int>, c: int, n: nat,
                      lit: int)
    requires Settling(mem, ws, root, TrailOf(root, added), c, n) && vals == Lits(root) + Negations(Lits(added))
    requires lit !in vals && -lit !in vals && lit != 0
    ensures Settling(mem, ws, root, TrailOf(root, added + [lit]), c, n)
  {
    hide TrailOf, Settling;
    TrailIs(root, added, vals);
    TrailMore(root, added, lit);
    SettlingAssign(mem, ws, root, TrailOf(root, added), c, n, -lit);
  }

  lemma VisitedAdded(mem: Memory, ws: WatchLists, root: seq<int>, added: seq<int>, vals: set<int>, c: int, l: int,
                     j: nat,
                     n: nat, lit: int)
    requires Visited(mem, ws, root, TrailOf(root, added), c, l, j, n) && vals == Lits(root) + Negations(Lits(added))
    requires lit !in vals && -lit !in vals && lit != 0
    ensures Visited(mem, ws, root, TrailOf(root, added + [lit]), c, l, j, n)
  {
    hide TrailOf, Visited;
    TrailIs(root, added, vals);
    TrailMore(root, added, lit);
    VisitedAssign(mem, ws, root, TrailOf(root, added), c, l, j, n, -lit);
  }

  lemma DistinctPrefix(a: seq<int>, b: seq<int>)
    requires Distinct(b) && a <= b
    ensures Distinct(a)
  {
    forall x | x in a ensures x in b {
      var i :| 0 <= i < |a| && a[i] == x;
      assert b[i] == x;
    }
    assert forall x :: x in a ==> -x !in b;
    assert forall i :: 0 <= i < |a| ==> a[i] == b[i];
  }
}
