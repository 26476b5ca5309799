/** Simplifying, storing and collecting the clauses of the proof checker. */
module CheckerClauses {
  import opened Cnf
  import opened Lists
  import opened Propagation
  import opened HashTable

  // ---------------------------------------------------------------- simplification

  /** By variable, the negative literal first. */
  predicate LitSmaller(a: int, b: int) {
    Abs(a) < Abs(b) || (Abs(a) == Abs(b) && a < b)
  }

  ghost predicate Sorted(c: Clause) {
    forall i, j :: 0 <= i < j < |c| ==> !LitSmaller(c[j], c[i])
  }

  method InsertLiteral(c: Clause, x: int) returns (r: Clause)
    requires Sorted(c)
    ensures Sorted(r) && multiset(r) == multiset(c + [x])
  {
    var k := 0;
    while k < |c| && LitSmaller(c[k], x)
      invariant 0 <= k <= |c| && forall j :: 0 <= j < k ==> LitSmaller(c[j], x)
    {
      k := k + 1;
    }
    InsertSorted(c, k, x);
    assert c == c[..k] + c[k..];
    r := c[..k] + [x] + c[k..];
  }

  method SortLiterals(c: Clause) returns (r: Clause)
    ensures Sorted(r) && multiset(r) == multiset(c)
  {
    hide Sorted, LitSmaller;
    r := [];
    assert Sorted(r) by { EmptySorted(); }
    for i := 0 to |c|
      invariant Sorted(r) && multiset(r) == multiset(c[..i])
    {
      assert c[..i + 1] == c[..i] + [c[i]];
      r := InsertLiteral(r, c[i]);
    }
    assert c[..|c|] == c;
  }

  lemma EmptySorted()
    ensures Sorted([])
  {
  }

  lemma InsertSorted(r: Clause, k: nat, x: int)
    requires Sorted(r) && k <= |r| && (forall j :: 0 <= j < k ==> LitSmaller(r[j], x))
    requires k < |r| ==> !LitSmaller(r[k], x)
    ensures Sorted(r[..k] + [x] + r[k..])
  {
    forall j | k <= j < |r| ensures !LitSmaller(r[j], x) {
      assert j > k ==> !LitSmaller(r[j], r[k]);
    }
  }

  ghost predicate TrueOrTautological(s: set<int>, trail: seq<int>) {
    exists x :: x in s && (-x in s || x in trail)
  }

  /** Strictly increasing literals of pairwise different variables. */
  ghost predicate Increasing(c: Clause) {
    forall i, j :: 0 <= i < j < |c| ==> Abs(c[i]) < Abs(c[j])
  }

  /** Sorts a clause and removes duplicates; detects tautologies and true literals. */
  method Tautological(c: Clause, trail: seq<int>) returns (res: bool, simplified: Clause)
    requires 0 !in c
    ensures res <==> TrueOrTautological(Lits(c), trail)
    ensures !res ==> Lits(simplified) == Lits(c) && Distinct(simplified)
  {
    var sorted := SortLiterals(c);
    SameMultisetSameLits(sorted, c);
    simplified := [];
    var prev := 0;
    for i := 0 to |sorted|
      invariant prev == (if i == 0 then 0 else sorted[i - 1])
      invariant Lits(simplified) == Lits(sorted[..i]) && Increasing(simplified)
      invariant (simplified == [] <==> i == 0) && (simplified != [] ==> simplified[|simplified| - 1] == prev)
      invariant forall k :: 0 <= k < i ==> sorted[k] !in trail && -sorted[k] !in sorted[..i]
    {
      var lit := sorted[i];
      assert sorted[..i + 1] == sorted[..i] + [lit] && lit in sorted;
      if lit == prev {
        SameAsLast(sorted, i);
        continue;
      }
      if lit == -prev {
        assert prev in sorted;
        assert lit in Lits(c) && -lit in Lits(c);
        return true, [];
      }
      if lit in trail {
        assert lit in Lits(c);
        return true, [];
      }
      LargerThanAll(sorted, i);
      IncreasingAppend(simplified, sorted, i);
      LitsAppend(simplified, lit);
      LitsAppend(sorted[..i], lit);
      simplified := simplified + [lit];
      prev := lit;
    }
    assert sorted[..|sorted|] == sorted;
    res := false;
    IncreasingIsDistinct(simplified, sorted);
    NoneTautological(c, sorted, trail);
  }

  lemma NoneTautological(c: Clause, sorted: Clause, trail: seq<int>)
    requires forall x :: x in sorted <==> x in c
    requires forall k :: 0 <= k < |sorted| ==> sorted[k] !in trail && -sorted[k] !in sorted
    ensures !TrueOrTautological(Lits(c), trail)
  {
    forall x | x in c ensures x !in trail && -x !in c {
      assert x in sorted;
    }
  }

  lemma SameAsLast(s: Clause, i: nat)
    requires 0 < i < |s| && s[i] == s[i - 1] && 0 !in s
    requires forall k :: 0 <= k < i ==> -s[k] !in s[..i]
    ensures Lits(s[..i + 1]) == Lits(s[..i]) && forall k :: 0 <= k < i + 1 ==> -s[k] !in s[..i + 1]
  {
    assert s[..i + 1] == s[..i] + [s[i]] && s[i - 1] in s[..i];
    assert forall x :: x in s[..i + 1] <==> x in s[..i];
  }

  lemma LargerThanAll(s: Clause, i: nat)
    requires Sorted(s) && i < |s| && 0 !in s && (i > 0 ==> s[i] != s[i - 1] && s[i] != -s[i - 1])
    requires forall k :: 0 <= k < i ==> -s[k] !in s[..i]
    ensures forall k :: 0 <= k < i ==> Abs(s[k]) < Abs(s[i])
    ensures forall k :: 0 <= k < i + 1 ==> -s[k] !in s[..i + 1]
  {
    assert s[i] in s;
    forall k | 0 <= k < i ensures Abs(s[k]) < Abs(s[i]) {
      assert !LitSmaller(s[i], s[i - 1]) && (k < i - 1 ==> !LitSmaller(s[i - 1], s[k]));
    }
    assert s[..i + 1] == s[..i] + [s[i]];
    forall k | 0 <= k < i + 1 ensures -s[k] !in s[..i + 1] {
      if k == i {
        forall x | x in s[..i] ensures x != -s[i] {
          var j :| 0 <= j < i && s[j] == x;
        }
      }
    }
  }

  lemma LitsAppend(c: Clause, x: int)
    ensures Lits(c + [x]) == Lits(c) + {x}
  {
  }

  lemma IncreasingAppend(r: Clause, s: Clause, i: nat)
    requires Increasing(r) && i < |s| && Lits(r) == Lits(s[..i])
    requires forall k :: 0 <= k < i ==> Abs(s[k]) < Abs(s[i])
    ensures Increasing(r + [s[i]])
  {
    forall k | 0 <= k < |r| ensures Abs(r[k]) < Abs(s[i]) {
      assert r[k] in Lits(r);
      var j :| 0 <= j < i && s[j] == r[k];
    }
  }

  lemma IncreasingIsDistinct(r: Clause, s: Clause)
    requires Increasing(r) && 0 !in s && Lits(r) == Lits(s)
    ensures Distinct(r)
  {
    assert forall x :: x in r <==> x in Lits(r);
    assert forall x :: x in s <==> x in Lits(s);
    forall x | x in r ensures -x !in r {
      var i :| 0 <= i < |r| && r[i] == x;
      forall j | 0 <= j < |r| ensures r[j] != -x {
        assert i < j ==> Abs(r[i]) < Abs(r[j]);
        assert j < i ==> Abs(r[j]) < Abs(r[i]);
        assert i == j ==> x != 0;
      }
    }
  }

  // ---------------------------------------------------------------- watching a new clause

  /** Exchanges the literal at position `i` with the next one that has no value, if it has one
      itself; `j` is the position it was exchanged with. */
  method BringToFront(c: Clause, i: nat, held: set<int>) returns (r: Clause, j: nat)
    requires exists k :: i <= k < |c| && c[k] !in held
    ensures |r| == |c| && multiset(r) == multiset(c) && i <= j < |c| && r[i] !in held
    ensures c[i] !in held ==> j == i
    ensures r[i] == c[j] && forall k :: 0 <= k < |c| && k != i && k != j ==> r[k] == c[k]
  {
    r, j := c, i;
    if c[i] in held {
      j := i + 1;
      while j < |c| && c[j] in held
        invariant i < j <= |c| && forall k :: i <= k < j ==> c[k] in held
      {
        j := j + 1;
      }
      SwapMultiset(c, i, j);
      r := c[i := c[j]][j := c[i]];
    }
  }

  /** Moves two literals without a value to the front, where they are watched. */
  method WatchableFirst(c: Clause, held: set<int>) returns (lits: Clause)
    requires exists i, j :: 0 <= i < j < |c| && c[i] !in held && c[j] !in held
    ensures multiset(lits) == multiset(c) && |lits| == |c| >= 2
    ensures lits[0] !in held && lits[1] !in held
  {
    ghost var a, b :| 0 <= a < b < |c| && c[a] !in held && c[b] !in held;
    var j, k;
    lits, j := BringToFront(c, 0, held);
    ghost var other := if j == b then a else b;
    assert 1 <= other < |c| && lits[other] == c[other];
    ghost var first := lits[0];
    lits, k := BringToFront(lits, 1, held);
    assert lits[0] == first;
  }

  lemma SwapMultiset(c: Clause, i: nat, j: nat)
    requires i < j < |c|
    ensures multiset(c[i := c[j]][j := c[i]]) == multiset(c)
  {
    assert multiset(c[i := c[j]]) == multiset(c) - multiset{c[i]} + multiset{c[j]};
    assert multiset(c[i := c[j]][j := c[i]]) == multiset(c[i := c[j]]) - multiset{c[j]} + multiset{c[i]};
  }

  function WithWatches(ws: WatchLists, r: int, a: int, b: int, size: nat): WatchLists
    requires a != b
  {
    ws[a := ListOf(ws, a) + [Watch(b, size, r)]][b := ListOf(ws, b) + [Watch(a, size, r)]]
  }

  ghost predicate ExtendedLists(ws: WatchLists, ws': WatchLists, r: int, c: CheckerClause) {
    && |c.lits| >= 2
    && forall x :: ListOf(ws', x) ==
         if x == c.lits[0] then ListOf(ws, x) + [Watch(c.lits[1], c.size, r)]
         else if x == c.lits[1] then ListOf(ws, x) + [Watch(c.lits[0], c.size, r)] else ListOf(ws, x)
  }

  /** Storing a new clause whose watched literals are not false. */
  lemma NewClauseWatched(mem: Memory, ws: WatchLists, r: int, c: CheckerClause)
    requires WatchInvariant(mem, ws) && r !in mem && GoodClause(c) && c.size != 0
    ensures c.lits[0] != c.lits[1]
    ensures WatchInvariant(mem[r := c], WithWatches(ws, r, c.lits[0], c.lits[1], c.size))
    ensures ExtendedLists(ws, WithWatches(ws, r, c.lits[0], c.lits[1], c.size), r, c)
  {
    var ws' := WithWatches(ws, r, c.lits[0], c.lits[1], c.size);
    assert ExtendedLists(ws, ws', r, c);
    hide WithWatches, ListOf, ExtendedLists;
    NewGoodLists(mem, ws, ws', r, c);
    NewAllWatched(mem, ws, ws', r, c);
  }

  lemma NewClausePropagated(mem: Memory, ws: WatchLists, ws': WatchLists, r: int, c: CheckerClause, T: seq<int>, n: nat)
    requires WatchInvariant(mem, ws) && r !in mem && ExtendedLists(ws, ws', r, c)
    requires Propagated(mem, ws, T, n) && -c.lits[0] !in T && -c.lits[1] !in T
    ensures Propagated(mem[r := c], ws', T, n)
  {
    hide *;
    PropagatedLength(mem, ws, T, n);
    forall x | x in T[..n] ensures SettledList(mem[r := c], T, -x, ListOf(ws', -x)) {
      NewClauseSettled(mem, ws, ws', r, c, T, n, x);
    }
    PropagatedIntro(mem[r := c], ws', T, n);
  }

  lemma NewClauseSettled(mem: Memory, ws: WatchLists, ws': WatchLists, r: int, c: CheckerClause, T: seq<int>, n: nat,
                         x: int)
    requires WatchInvariant(mem, ws) && r !in mem && ExtendedLists(ws, ws', r, c)
    requires Propagated(mem, ws, T, n) && -c.lits[0] !in T && -c.lits[1] !in T && x in T[..n]
    ensures SettledList(mem[r := c], T, -x, ListOf(ws', -x))
  {
    hide SettledList, GoodList;
    assert SettledList(mem, T, -x, ListOf(ws, -x)) && GoodList(mem, -x, ListOf(ws, -x));
    NewSettled(mem, r, c, T, -x, ListOf(ws, -x));
    assert x in T && -x != c.lits[0] && -x != c.lits[1];
  }

  lemma NewSettled(mem: Memory, r: int, c: CheckerClause, T: seq<int>, l: int, list: seq<Watch>)
    requires r !in mem && SettledList(mem, T, l, list) && GoodList(mem, l, list)
    ensures SettledList(mem[r := c], T, l, list)
  {
    forall w | w in list ensures Settled(mem[r := c], T, l, w) {
      assert Settled(mem, T, l, w) && GoodWatch(mem, l, w);
    }
  }

  lemma NewGoodLists(mem: Memory, ws: WatchLists, ws': WatchLists, r: int, c: CheckerClause)
    requires GoodLists(mem, ws) && GoodMemory(mem) && r !in mem && GoodClause(c) && c.size != 0
    requires ExtendedLists(ws, ws', r, c)
    ensures GoodLists(mem[r := c], ws') && GoodMemory(mem[r := c])
  {
    hide ListOf;
    forall x ensures GoodList(mem[r := c], x, ListOf(ws', x)) {
      var list := ListOf(ws, x);
      assert GoodList(mem, x, list);
      forall w | w in list ensures GoodWatch(mem[r := c], x, w) && w.clause != r {
        assert GoodWatch(mem, x, w);
      }
      assert forall i :: 0 <= i < |list| ==> list[i] in list;
    }
  }

  lemma NewAllWatched(mem: Memory, ws: WatchLists, ws': WatchLists, r: int, c: CheckerClause)
    requires AllWatched(mem, ws) && r !in mem && |c.lits| >= 2 && c.lits[0] != c.lits[1]
    requires ExtendedLists(ws, ws', r, c)
    ensures AllWatched(mem[r := c], ws')
  {
    hide ListOf;
    forall q, x | Watched(ws, x, q) ensures Watched(ws', x, q) {
      var w :| w in ListOf(ws, x) && w.clause == q;
      assert w in ListOf(ws', x);
    }
    assert Watch(c.lits[1], c.size, r) in ListOf(ws', c.lits[0]);
    assert Watch(c.lits[0], c.size, r) in ListOf(ws', c.lits[1]);
  }

  // ---------------------------------------------------------------- garbage collection

  /** The memory without its garbage clauses. */
  function WithoutGarbage(mem: Memory): Memory {
    map r | r in mem && mem[r].size != 0 :: mem[r]
  }

  /** The watches of clauses that are not garbage, in the same order. */
  function LiveWatches(mem: Memory, list: seq<Watch>): (r: seq<Watch>) {
    if list == [] then [] else
      var n := |list| - 1;
      LiveWatches(mem, list[..n])
      + if list[n].clause in mem && mem[list[n].clause].size == 0 then [] else [list[n]]
  }

  lemma {:induction false} LiveWatchesMembers(mem: Memory, list: seq<Watch>)
    ensures forall w :: w in LiveWatches(mem, list) <==> w in list && !(w.clause in mem && mem[w.clause].size == 0)
    ensures NoRepetition(list) ==> NoRepetition(LiveWatches(mem, list))
  {
    if list != [] {
      var n := |list| - 1;
      LiveWatchesMembers(mem, list[..n]);
      assert list == list[..n] + [list[n]];
      var r := LiveWatches(mem, list[..n]);
      forall i | 0 <= i < |r| && NoRepetition(list) ensures r[i].clause != list[n].clause {
        assert r[i] in r;
        var j :| 0 <= j < n && list[j] == r[i];
      }
    }
  }

  /** One watch list without the watches of garbage clauses. */
  method FlushWatches(mem: Memory, list: seq<Watch>) returns (kept: seq<Watch>)
    requires forall w :: w in list ==> w.clause in mem
    ensures kept == LiveWatches(mem, list)
  {
    var ws := list;
    var i, j := 0, 0;
    assert list[..0] == [];
    while i < |ws|
      invariant 0 <= j <= i <= |ws| == |list|
      invariant ws[..j] == LiveWatches(mem, list[..i])
      invariant forall k :: i <= k < |ws| ==> ws[k] == list[k]
    {
      var w := ws[i];
      assert w in list && list[..i + 1][..i] == list[..i];
      if mem[w.clause].size != 0 {
        ws := ws[j := w];
        assert ws[..j + 1] == LiveWatches(mem, list[..i]) + [w];
        j := j + 1;
      }
      i := i + 1;
    }
    assert list[..i] == list;
    kept := ws[..j];
  }

  /** Lists that agree with the flushed ones, and no garbage: the invariant is kept. */
  lemma CollectKeeps(mem: Memory, ws: WatchLists, ws': WatchLists, T: seq<int>, n: nat)
    requires WatchInvariant(mem, ws) && forall l :: ListOf(ws', l) == LiveWatches(mem, ListOf(ws, l))
    ensures WatchInvariant(WithoutGarbage(mem), ws')
    ensures Propagated(mem, ws, T, n) ==> Propagated(WithoutGarbage(mem), ws', T, n)
  {
    var mem' := WithoutGarbage(mem);
    hide LiveWatches, ListOf, Settled;
    forall l ensures GoodList(mem', l, ListOf(ws', l)) {
      assert GoodList(mem, l, ListOf(ws, l));
      LiveWatchesMembers(mem, ListOf(ws, l));
      assert ListOf(ws', l) == LiveWatches(mem, ListOf(ws, l));
    }
    CollectAllWatched(mem, ws, ws');
    if Propagated(mem, ws, T, n) {
      forall x | x in T[..n] ensures SettledList(mem', T, -x, ListOf(ws', -x)) {
        assert SettledList(mem, T, -x, ListOf(ws, -x));
        CollectSettled(mem, T, -x, ListOf(ws, -x));
        assert ListOf(ws', -x) == LiveWatches(mem, ListOf(ws, -x));
      }
    }
  }

  lemma CollectSettled(mem: Memory, T: seq<int>, l: int, list: seq<Watch>)
    requires SettledList(mem, T, l, list)
    ensures SettledList(WithoutGarbage(mem), T, l, LiveWatches(mem, list))
  {
    LiveWatchesMembers(mem, list);
    forall w | w in LiveWatches(mem, list) ensures Settled(WithoutGarbage(mem), T, l, w) {
      assert Settled(mem, T, l, w);
    }
  }

  lemma CollectAllWatched(mem: Memory, ws: WatchLists, ws': WatchLists)
    requires AllWatched(mem, ws) && forall l :: ListOf(ws', l) == LiveWatches(mem, ListOf(ws, l))
    ensures AllWatched(WithoutGarbage(mem), ws')
  {
    hide LiveWatches, ListOf;
    forall r, x | Live(mem, r) && Watched(ws, x, r) ensures Watched(ws', x, r) {
      var w :| w in ListOf(ws, x) && w.clause == r;
      LiveWatchesMembers(mem, ListOf(ws, x));
      assert ListOf(ws', x) == LiveWatches(mem, ListOf(ws, x));
    }
    forall r | Live(WithoutGarbage(mem), r) && |WithoutGarbage(mem)[r].lits| >= 2
      ensures Watched(ws', mem[r].lits[0], r) && Watched(ws', mem[r].lits[1], r)
    {
      assert Live(mem, r);
    }
  }
}
