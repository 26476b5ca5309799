/** The two-watched-literal propagation of the online proof checker. */
module Propagation {
  import opened Cnf
  import opened Lists

  /** A stored clause; the size is zero once the clause is garbage. */
  datatype CheckerClause = CheckerClause(lits: Clause, size: nat, hash: nat)

  /** A watch: some other literal of the clause, the size of the clause, the clause. */
  datatype Watch = Watch(blit: int, size: nat, clause: int)

  type Memory = map<int, CheckerClause>
  type WatchLists = map<int, seq<Watch>>

  // ---------------------------------------------------------------- clauses in memory

  ghost predicate Distinct(c: Clause) {
    && 0 !in c
    && (forall x :: x in c ==> -x !in c)
    && (forall i, j :: 0 <= i < j < |c| ==> c[i] != c[j])
  }

  ghost predicate GoodClause(c: CheckerClause) {
    Distinct(c.lits) && |c.lits| >= 2 && (c.size == 0 || c.size == |c.lits|)
  }

  ghost predicate GoodMemory(mem: Memory) {
    forall r :: r in mem ==> GoodClause(mem[r])
  }

  ghost predicate Live(mem: Memory, r: int) {
    r in mem && mem[r].size != 0
  }

  /** The literal sets of the clauses that are not garbage. */
  ghost function LiveFormula(mem: Memory): Formula {
    set r | r in mem && mem[r].size != 0 :: Lits(mem[r].lits)
  }

  /** The watched literal other than `l`. */
  function Other(c: Clause, l: int): int
    requires |c| >= 2
  {
    if c[0] == l then c[1] else c[0]
  }

  // ---------------------------------------------------------------- watches

  function ListOf(ws: WatchLists, l: int): seq<Watch> {
    if l in ws then ws[l] else []
  }

  /** A watch in the list of `l` is an entry of a clause in memory that contains `l` and the
      blocking literal; if the clause is live then `l` is one of its first two literals. */
  ghost predicate GoodWatch(mem: Memory, l: int, w: Watch) {
    && w.clause in mem
    && |mem[w.clause].lits| >= 2 && w.size == |mem[w.clause].lits|
    && l in mem[w.clause].lits && w.blit in mem[w.clause].lits && w.blit != l
    && (mem[w.clause].size != 0 ==> l == mem[w.clause].lits[0] || l == mem[w.clause].lits[1])
  }

  ghost predicate NoRepetition(list: seq<Watch>) {
    forall i, k :: 0 <= i < k < |list| ==> list[i].clause != list[k].clause
  }

  ghost predicate GoodList(mem: Memory, l: int, ws: seq<Watch>) {
    && (forall w :: w in ws ==> GoodWatch(mem, l, w))
    && NoRepetition(ws)
  }

  ghost predicate GoodLists(mem: Memory, ws: WatchLists) {
    forall l :: GoodList(mem, l, ListOf(ws, l))
  }

  ghost predicate Watched(ws: WatchLists, l: int, r: int) {
    exists w :: w in ListOf(ws, l) && w.clause == r
  }

  /** Both watched literals of every live clause have a watch for it. */
  ghost predicate AllWatched(mem: Memory, ws: WatchLists) {
    forall r :: Live(mem, r) && |mem[r].lits| >= 2 ==>
      Watched(ws, mem[r].lits[0], r) && Watched(ws, mem[r].lits[1], r)
  }

  ghost predicate WatchInvariant(mem: Memory, ws: WatchLists) {
    GoodMemory(mem) && GoodLists(mem, ws) && AllWatched(mem, ws)
  }

  // ---------------------------------------------------------------- the trail

  ghost predicate GoodTrail(trail: seq<int>) {
    Distinct(trail)
  }

  /** Watches of `l` that need no attention while `l` is false: the blocking literal or the
      other watched literal is true. */
  ghost predicate Settled(mem: Memory, trail: seq<int>, l: int, w: Watch) {
    w.clause in mem && |mem[w.clause].lits| >= 2 && mem[w.clause].size != 0 ==>
      w.blit in trail || Other(mem[w.clause].lits, l) in trail
  }

  ghost predicate SettledList(mem: Memory, trail: seq<int>, l: int, ws: seq<Watch>) {
    forall w :: w in ws ==> Settled(mem, trail, l, w)
  }

  /** All watches of the negations of the first `n` trail literals are settled. */
  ghost predicate Propagated(mem: Memory, ws: WatchLists, trail: seq<int>, n: nat) {
    n <= |trail| && forall x :: x in trail[..n] ==> SettledList(mem, trail, -x, ListOf(ws, -x))
  }

  /** The clause is satisfied, or at least two of its literals are not false. */
  ghost predicate QuietClause(s: set<int>, trail: set<int>) {
    || (exists x :: x in s && x in trail)
    || (exists x, y :: x in s && y in s && x != y && -x !in trail && -y !in trail)
  }

  /** No clause is falsified or unit under the trail. */
  ghost predicate Quiescent(f: Formula, trail: set<int>) {
    forall s :: s in f ==> QuietClause(s, trail)
  }

  /** What two watched literals buy: a completely propagated trail leaves no live clause
      unit or falsified. */
  lemma PropagatedIsQuiescent(mem: Memory, ws: WatchLists, trail: seq<int>)
    requires WatchInvariant(mem, ws) && Propagated(mem, ws, trail, |trail|)
    ensures Quiescent(LiveFormula(mem), Lits(trail))
  {
    hide WatchInvariant, Propagated, QuietClause;
    forall s | s in LiveFormula(mem) ensures QuietClause(s, Lits(trail)) {
      var r :| r in mem && mem[r].size != 0 && s == Lits(mem[r].lits);
      LiveClauseIsQuiet(mem, ws, trail, r);
    }
  }

  lemma LiveClauseIsQuiet(mem: Memory, ws: WatchLists, trail: seq<int>, r: int)
    requires WatchInvariant(mem, ws) && Propagated(mem, ws, trail, |trail|)
    requires r in mem && mem[r].size != 0
    ensures QuietClause(Lits(mem[r].lits), Lits(trail))
  {
    hide GoodLists, AllWatched, Propagated;
    var c := mem[r].lits;
    assert GoodClause(mem[r]);
    assert c[0] in Lits(c) && c[1] in Lits(c) && c[0] != c[1];
    if -c[0] in trail {
      FalseWatch(mem, ws, trail, r, c[0]);
    } else if -c[1] in trail {
      FalseWatch(mem, ws, trail, r, c[1]);
    }
  }

  lemma FalseWatch(mem: Memory, ws: WatchLists, trail: seq<int>, r: int, l: int)
    requires WatchInvariant(mem, ws) && Propagated(mem, ws, trail, |trail|)
    requires Live(mem, r) && |mem[r].lits| >= 2 && (l == mem[r].lits[0] || l == mem[r].lits[1]) && -l in trail
    ensures exists x :: x in Lits(mem[r].lits) && x in Lits(trail)
  {
    assert trail[..|trail|] == trail;
    assert Watched(ws, l, r);
    var w :| w in ListOf(ws, l) && w.clause == r;
    assert SettledList(mem, trail, -(-l), ListOf(ws, -(-l)));
    assert Settled(mem, trail, l, w) && GoodList(mem, l, ListOf(ws, l)) && GoodWatch(mem, l, w);
    var x := if w.blit in trail then w.blit else Other(mem[r].lits, l);
    assert x in Lits(mem[r].lits) && x in Lits(trail);
  }

  // ---------------------------------------------------------------- naive unit propagation

  /** A unit propagation: each step is the only literal of some clause of the formula that is
      not falsified by the literals known so far. */
  ghost predicate Derives(f: Formula, known: set<int>, steps: seq<int>) {
    forall i :: 0 <= i < |steps| ==> HasUnitStep(f, known + Lits(steps[..i]), steps[i])
  }

  ghost predicate HasUnitStep(f: Formula, known: set<int>, u: int) {
    exists s :: s in f && UnitStep(s, known, u)
  }

  ghost predicate UnitStep(s: set<int>, known: set<int>, u: int) {
    u in s && forall x :: x in s && x != u ==> -x in known
  }

  ghost predicate Falsified(s: set<int>, known: set<int>) {
    forall x :: x in s ==> -x in known
  }

  /** Naive unit propagation from the known literals falsifies a clause. */
  ghost predicate Refutes(f: Formula, known: set<int>, steps: seq<int>) {
    Derives(f, known, steps) && exists s :: s in f && Falsified(s, known + Lits(steps))
  }

  lemma UnitStepInside(s: set<int>, known: set<int>, trail: set<int>, u: int)
    requires QuietClause(s, trail) && known <= trail && UnitStep(s, known, u)
    requires forall x :: x in trail ==> -x !in trail
    ensures u in trail
  {
  }

  lemma DerivesPrefix(f: Formula, known: set<int>, steps: seq<int>, n: nat)
    requires Derives(f, known, steps) && n <= |steps|
    ensures Derives(f, known, steps[..n])
  {
    hide HasUnitStep;
    forall i | 0 <= i < n ensures HasUnitStep(f, known + Lits(steps[..n][..i]), steps[..n][i]) {
      assert steps[..n][..i] == steps[..i];
      assert HasUnitStep(f, known + Lits(steps[..i]), steps[i]);
    }
  }

  /** A quiescent consistent trail contains everything that is derivable from it. */
  lemma {:induction false} QuiescentContains(f: Formula, known: set<int>, trail: set<int>, steps: seq<int>)
    requires Quiescent(f, trail) && known <= trail && Derives(f, known, steps)
    requires forall x :: x in trail ==> -x !in trail
    ensures Lits(steps) <= trail
  {
    hide QuietClause, UnitStep;
    if steps != [] {
      var n := |steps| - 1;
      DerivesPrefix(f, known, steps, n);
      QuiescentContains(f, known, trail, steps[..n]);
      assert HasUnitStep(f, known + Lits(steps[..n]), steps[n]);
      var s :| s in f && UnitStep(s, known + Lits(steps[..n]), steps[n]);
      UnitStepInside(s, known + Lits(steps[..n]), trail, steps[n]);
      assert Lits(steps) == Lits(steps[..n]) + {steps[n]};
    }
  }

  lemma QuietIsNotFalsified(s: set<int>, known: set<int>, trail: set<int>)
    requires QuietClause(s, trail) && known <= trail
    requires forall x :: x in trail ==> -x !in trail
    ensures !Falsified(s, known)
  {
    if x :| x in s && x in trail {
      assert -x !in known;
    } else {
      var x, y :| x in s && y in s && x != y && -x !in trail && -y !in trail;
      assert -x !in known;
    }
  }

  lemma QuiescentIsNotRefuted(f: Formula, known: set<int>, trail: set<int>, steps: seq<int>)
    requires Quiescent(f, trail) && known <= trail
    requires forall x :: x in trail ==> -x !in trail
    ensures !Refutes(f, known, steps)
  {
    hide QuietClause, Falsified;
    if Derives(f, known, steps) {
      QuiescentContains(f, known, trail, steps);
      forall s | s in f ensures !Falsified(s, known + Lits(steps)) {
        QuietIsNotFalsified(s, known + Lits(steps), trail);
      }
    }
  }

  // ---------------------------------------------------------------- meaning of the trail

  ghost predicate Extends(m: Assignment, base: set<int>) {
    forall x :: x in base ==> True(m, x)
  }

  /** Every model of the formula that makes the base literals true satisfies the trail. */
  ghost predicate TrailImplied(f: Formula, base: set<int>, trail: seq<int>) {
    forall m :: Models(m, f) && Extends(m, base) ==> Extends(m, Lits(trail))
  }

  ghost predicate Contradicts(f: Formula, base: set<int>) {
    forall m :: !(Models(m, f) && Extends(m, base))
  }

  /** A clause that can be propagated: binary clauses are even after they became garbage. */
  predicate Used(c: CheckerClause) {
    c.size != 0 || |c.lits| == 2
  }

  ghost predicate UsedImplied(f: Formula, mem: Memory) {
    forall r :: r in mem && Used(mem[r]) ==> Implies(f, Lits(mem[r].lits))
  }

  lemma UnitIsImplied(f: Formula, base: set<int>, trail: seq<int>, c: Clause, u: int)
    requires TrailImplied(f, base, trail) && Implies(f, Lits(c)) && Distinct(c)
    requires forall x :: x in c && x != u ==> -x in trail
    ensures TrailImplied(f, base, trail + [u])
  {
    forall m | Models(m, f) && Extends(m, base) ensures Extends(m, Lits(trail + [u])) {
      var x :| x in Lits(c) && True(m, x);
      assert x != u ==> -x in Lits(trail);
      assert forall y :: y in Lits(trail + [u]) ==> y in Lits(trail) || y == u;
    }
  }

  lemma ConflictContradicts(f: Formula, base: set<int>, trail: seq<int>, c: Clause)
    requires TrailImplied(f, base, trail) && Implies(f, Lits(c)) && Distinct(c)
    requires forall x :: x in c ==> -x in trail
    ensures Contradicts(f, base)
  {
    forall m | Models(m, f) ensures !Extends(m, base) {
      var x :| x in Lits(c) && True(m, x);
      assert -x in Lits(trail) && !True(m, -x);
    }
  }

  // ---------------------------------------------------------------- steps of the propagation

  /** The memory with the literals of one clause rearranged. */
  ghost predicate Rearranged(mem: Memory, mem': Memory, r: int) {
    && r in mem && r in mem' && mem' == mem[r := mem'[r]]
    && multiset(mem[r].lits) == multiset(mem'[r].lits)
    && mem'[r].size == mem[r].size && mem'[r].hash == mem[r].hash
  }

  lemma SwapIsRearranged(mem: Memory, mem': Memory, r: int)
    requires r in mem && r in mem' && mem' == mem[r := mem'[r]]
    requires multiset(mem[r].lits) == multiset(mem'[r].lits) && mem'[r].size == mem[r].size
    requires mem'[r].hash == mem[r].hash
    ensures Rearranged(mem, mem', r)
  {
  }

  lemma RearrangedDistinct(a: Clause, b: Clause)
    requires multiset(a) == multiset(b) && Distinct(a)
    ensures Distinct(b)
  {
    SameMultisetSameLits(a, b);
    forall i, j | 0 <= i < j < |b| ensures b[i] != b[j] {
      if b[i] == b[j] {
        assert b == b[..i] + [b[i]] + b[i + 1..j] + [b[j]] + b[j + 1..];
        assert multiset(b)[b[i]] >= 2;
        OccursOnce(a, b[i]);
      }
    }
  }

  lemma {:induction false} OccursOnce(a: Clause, x: int)
    requires forall i, j :: 0 <= i < j < |a| ==> a[i] != a[j]
    ensures multiset(a)[x] <= 1
  {
    if a != [] {
      var n := |a| - 1;
      OccursOnce(a[..n], x);
      assert a == a[..n] + [a[n]];
      if a[n] == x {
        assert x !in a[..n];
        assert multiset(a[..n])[x] == 0;
      }
    }
  }

  lemma RearrangedMemory(f: Formula, mem: Memory, mem': Memory, r: int)
    requires Rearranged(mem, mem', r)
    ensures GoodMemory(mem) ==> GoodMemory(mem')
    ensures LiveFormula(mem) == LiveFormula(mem')
    ensures UsedImplied(f, mem) ==> UsedImplied(f, mem')
  {
    SameMultisetSameLits(mem[r].lits, mem'[r].lits);
    if GoodMemory(mem) {
      assert GoodClause(mem[r]);
      RearrangedDistinct(mem[r].lits, mem'[r].lits);
    }
    forall x | x in mem ensures Lits(mem[x].lits) == Lits(mem'[x].lits) && mem[x].size == mem'[x].size { }
  }

  /** The two watched literals were exchanged, if anything. */
  ghost predicate SameWatched(mem: Memory, mem': Memory, r: int) {
    && Rearranged(mem, mem', r) && Live(mem, r)
    && var c, d := mem[r].lits, mem'[r].lits;
       |c| >= 2 && |d| == |c| && {c[0], c[1]} == {d[0], d[1]} && c[0] != c[1]
  }

  lemma SwapIsSameWatched(mem: Memory, mem': Memory, r: int, l: int)
    requires Rearranged(mem, mem', r) && Live(mem, r)
    requires var c := mem[r].lits;
             && |c| >= 2 && c[0] != c[1] && (l == c[0] || l == c[1]) && mem'[r].lits == [Other(c, l), l] + c[2..]
    ensures SameWatched(mem, mem', r)
  {
  }

  lemma SwapWatch(mem: Memory, mem': Memory, r: int, l: int, w: Watch)
    requires SameWatched(mem, mem', r) && GoodWatch(mem, l, w)
    ensures GoodWatch(mem', l, w)
  {
    SameMultisetSameLits(mem[r].lits, mem'[r].lits);
  }

  lemma SwapSettled(mem: Memory, mem': Memory, T: seq<int>, r: int, l: int, w: Watch)
    requires SameWatched(mem, mem', r) && GoodWatch(mem, l, w) && Settled(mem, T, l, w)
    ensures Settled(mem', T, l, w)
  {
    SameMultisetSameLits(mem[r].lits, mem'[r].lits);
  }

  lemma SwapAllWatched(mem: Memory, mem': Memory, ws: WatchLists, r: int)
    requires SameWatched(mem, mem', r) && AllWatched(mem, ws)
    ensures AllWatched(mem', ws)
  {
    forall x | Live(mem', x) && |mem'[x].lits| >= 2
      ensures Watched(ws, mem'[x].lits[0], x) && Watched(ws, mem'[x].lits[1], x)
    {
      assert Live(mem, x);
      assert Watched(ws, mem[x].lits[0], x) && Watched(ws, mem[x].lits[1], x);
    }
  }

  /** Exchanging the two watched literals changes nothing that matters. */
  lemma SwapWatched(mem: Memory, mem': Memory, ws: WatchLists, r: int, T: seq<int>, n: nat)
    requires WatchInvariant(mem, ws) && SameWatched(mem, mem', r)
    ensures WatchInvariant(mem', ws)
    ensures Propagated(mem, ws, T, n) ==> Propagated(mem', ws, T, n)
    ensures forall l, list :: SettledList(mem, T, l, list) && GoodList(mem, l, list) ==> SettledList(mem', T, l, list)
  {
    hide SameWatched, GoodWatch, Settled, ListOf, AllWatched, GoodMemory;
    SwapMemory(mem, mem', r);
    forall l, w | GoodWatch(mem, l, w) ensures GoodWatch(mem', l, w) {
      SwapWatch(mem, mem', r, l, w);
    }
    forall l ensures GoodList(mem', l, ListOf(ws, l)) {
      assert GoodList(mem, l, ListOf(ws, l));
    }
    SwapAllWatched(mem, mem', ws, r);
    forall l, w | GoodWatch(mem, l, w) && Settled(mem, T, l, w) ensures Settled(mem', T, l, w) {
      SwapSettled(mem, mem', T, r, l, w);
    }
    if Propagated(mem, ws, T, n) {
      forall x | x in T[..n] ensures SettledList(mem', T, -x, ListOf(ws, -x)) {
        assert GoodList(mem, -x, ListOf(ws, -x)) && SettledList(mem, T, -x, ListOf(ws, -x));
      }
    }
  }

  lemma SwapMemory(mem: Memory, mem': Memory, r: int)
    requires SameWatched(mem, mem', r) && GoodMemory(mem)
    ensures GoodMemory(mem')
  {
    RearrangedMemory({}, mem, mem', r);
  }

  /** Assigning a literal keeps everything settled. */
  lemma AssignKeepsSettled(mem: Memory, ws: WatchLists, T: seq<int>, u: int, n: nat)
    requires Propagated(mem, ws, T, n)
    ensures Propagated(mem, ws, T + [u], n)
    ensures forall l, list :: SettledList(mem, T, l, list) ==> SettledList(mem, T + [u], l, list)
  {
    forall l, w | Settled(mem, T, l, w) ensures Settled(mem, T + [u], l, w) { }
    forall l, list | SettledList(mem, T, l, list) ensures SettledList(mem, T + [u], l, list) { }
    assert (T + [u])[..n] == T[..n];
  }

  /** The lists after the watch at position `j` of the list of `l` was moved to `r`. */
  function Moved(ws: WatchLists, l: int, j: nat, r: int): WatchLists
    requires j < |ListOf(ws, l)|
  {
    var list := ListOf(ws, l);
    ws[r := ListOf(ws, r) + [Watch(l, list[j].size, list[j].clause)]][l := list[..j] + list[j + 1..]]
  }

  lemma MovedLists(ws: WatchLists, l: int, j: nat, r: int, x: int)
    requires j < |ListOf(ws, l)| && l != r
    ensures ListOf(Moved(ws, l, j, r), x) ==
            (if x == l then ListOf(ws, l)[..j] + ListOf(ws, l)[j + 1..]
             else if x == r then ListOf(ws, r) + [Watch(l, ListOf(ws, l)[j].size, ListOf(ws, l)[j].clause)]
             else ListOf(ws, x))
  {
  }

  /** The clause after its second watched literal `l` was exchanged with literal `k`. */
  ghost predicate Replaced(c: Clause, d: Clause, l: int, k: nat) {
    && 2 <= k < |c| && c[1] == l && d == c[1 := c[k]][k := l]
  }

  lemma ReplacedMultiset(c: Clause, d: Clause, l: int, k: nat)
    requires Replaced(c, d, l, k)
    ensures multiset(c) == multiset(d)
  {
    assert multiset(c[1 := c[k]]) == multiset(c) - multiset{l} + multiset{c[k]};
    assert multiset(d) == multiset(c[1 := c[k]]) - multiset{c[k]} + multiset{l};
  }

  /** The state around a watch that is moved to another literal of its clause. */
  ghost predicate Moves(mem: Memory, mem': Memory, ws: WatchLists, l: int, j: nat, k: nat) {
    && WatchInvariant(mem, ws) && j < |ListOf(ws, l)|
    && (var r := ListOf(ws, l)[j].clause;
        && Live(mem, r) && Rearranged(mem, mem', r)
        && Replaced(mem[r].lits, mem'[r].lits, l, k))
  }

  lemma MovedFacts(mem: Memory, mem': Memory, ws: WatchLists, l: int, j: nat, k: nat)
    requires Moves(mem, mem', ws, l, j, k)
    ensures var r := ListOf(ws, l)[j].clause;
            var c, d := mem[r].lits, mem'[r].lits;
            && |c| >= 2 && |d| == |c| && c[k] != l && c[k] in c && mem[r].size != 0
            && (forall x :: x in c <==> x in d)
            && d[0] == c[0] && d[1] == c[k] && c[0] != l && c[0] != c[k]
  {
    var r := ListOf(ws, l)[j].clause;
    assert GoodClause(mem[r]);
    SameMultisetSameLits(mem[r].lits, mem'[r].lits);
  }

  lemma OtherClausesSameWatch(mem: Memory, mem': Memory, r: int, x: int, w: Watch)
    requires Rearranged(mem, mem', r) && GoodWatch(mem, x, w) && w.clause != r
    ensures GoodWatch(mem', x, w)
  {
  }

  lemma MovedFrom(mem: Memory, mem': Memory, ws: WatchLists, l: int, j: nat, r: int)
    requires Rearranged(mem, mem', r) && GoodList(mem, l, ListOf(ws, l))
    requires j < |ListOf(ws, l)| && r == ListOf(ws, l)[j].clause
    ensures GoodList(mem', l, ListOf(ws, l)[..j] + ListOf(ws, l)[j + 1..])
  {
    var list := ListOf(ws, l);
    var after := list[..j] + list[j + 1..];
    forall w | w in after ensures GoodWatch(mem', l, w) {
      var i :| 0 <= i < |list| && i != j && list[i] == w;
      OtherClausesSameWatch(mem, mem', r, l, w);
    }
  }

  lemma MovedTo(mem: Memory, mem': Memory, list: seq<Watch>, u: int, w0: Watch)
    requires Rearranged(mem, mem', w0.clause) && GoodList(mem, u, list) && GoodWatch(mem', u, w0)
    requires |mem[w0.clause].lits| >= 2 && mem[w0.clause].size != 0
    requires u != mem[w0.clause].lits[0] && u != mem[w0.clause].lits[1]
    ensures GoodList(mem', u, list + [w0])
  {
    forall w | w in list ensures GoodWatch(mem', u, w) && w.clause != w0.clause {
      assert GoodWatch(mem, u, w);
      OtherClausesSameWatch(mem, mem', w0.clause, u, w);
    }
    forall i | 0 <= i < |list| ensures list[i].clause != w0.clause {
      assert list[i] in list;
    }
  }

  lemma MovedElsewhere(mem: Memory, mem': Memory, ws: WatchLists, l: int, j: nat, k: nat, x: int)
    requires Moves(mem, mem', ws, l, j, k) && x != l && GoodList(mem, x, ListOf(ws, x))
    ensures GoodList(mem', x, ListOf(ws, x))
  {
    MovedFacts(mem, mem', ws, l, j, k);
    forall w | w in ListOf(ws, x) ensures GoodWatch(mem', x, w) {
      assert GoodWatch(mem, x, w);
    }
  }

  lemma MovedGoodList(mem: Memory, mem': Memory, ws: WatchLists, l: int, j: nat, k: nat, x: int)
    requires Moves(mem, mem', ws, l, j, k)
    ensures var u := mem[ListOf(ws, l)[j].clause].lits[k]; u != l && GoodList(mem', x, ListOf(Moved(ws, l, j, u), x))
  {
    var list := ListOf(ws, l);
    var r := list[j].clause;
    var u := mem[r].lits[k];
    MovedFacts(mem, mem', ws, l, j, k);
    assert GoodList(mem, l, list) && GoodList(mem, x, ListOf(ws, x)) && GoodWatch(mem, l, list[j]);
    assert GoodClause(mem[r]);
    hide GoodList, AllWatched, GoodLists, GoodMemory, Moved, ListOf;
    MovedLists(ws, l, j, u, x);
    if x == l {
      MovedFrom(mem, mem', ws, l, j, r);
    } else if x == u {
      MovedTo(mem, mem', ListOf(ws, u), u, Watch(l, list[j].size, r));
    } else {
      MovedElsewhere(mem, mem', ws, l, j, k, x);
    }
  }

  lemma MovedAllWatched(mem: Memory, mem': Memory, ws: WatchLists, l: int, j: nat, k: nat)
    requires Moves(mem, mem', ws, l, j, k)
    ensures var u := mem[ListOf(ws, l)[j].clause].lits[k]; u != l && AllWatched(mem', Moved(ws, l, j, u))
  {
    var list := ListOf(ws, l);
    var r := list[j].clause;
    var c := mem[r].lits;
    var u := c[k];
    assert GoodClause(mem[r]) && u != l;
    var after := Moved(ws, l, j, u);
    assert GoodList(mem, l, list);
    forall q, x | Watched(ws, x, q) && !(x == l && q == r) ensures Watched(after, x, q) {
      var w :| w in ListOf(ws, x) && w.clause == q;
      MovedLists(ws, l, j, u, x);
      if x == l {
        var i :| 0 <= i < |list| && list[i] == w;
        assert i != j;
        assert w in list[..j] + list[j + 1..];
      }
    }
    MovedLists(ws, l, j, u, u);
    assert Watch(l, list[j].size, r) in ListOf(after, u);
    forall q | Live(mem', q) && |mem'[q].lits| >= 2
      ensures Watched(after, mem'[q].lits[0], q) && Watched(after, mem'[q].lits[1], q)
    {
      assert Live(mem, q);
      SameMultisetSameLits(c, mem'[r].lits);
      assert Watched(ws, mem[q].lits[0], q) && Watched(ws, mem[q].lits[1], q);
      assert q == r ==> mem[q].lits[0] != l;
    }
  }

  /** Moving a watch away from `l` to a literal that is not false keeps settled what was
      settled, except in the list of `l` itself. */
  lemma MovedPropagated(mem: Memory, mem': Memory, ws: WatchLists, l: int, j: nat, k: nat, T: seq<int>, n: nat)
    requires Moves(mem, mem', ws, l, j, k) && Propagated(mem, ws, T, n) && l !in T && -l !in T[..n]
    requires -mem[ListOf(ws, l)[j].clause].lits[k] !in T
    ensures mem[ListOf(ws, l)[j].clause].lits[k] != l
    ensures Propagated(mem', Moved(ws, l, j, mem[ListOf(ws, l)[j].clause].lits[k]), T, n)
  {
    var u := mem[ListOf(ws, l)[j].clause].lits[k];
    assert u != l by { MovedFacts(mem, mem', ws, l, j, k); }
    hide *;
    PropagatedLength(mem, ws, T, n);
    var after := Moved(ws, l, j, u);
    forall x | x in T[..n] ensures SettledList(mem', T, -x, ListOf(after, -x)) {
      MovedSettledOne(mem, mem', ws, l, j, k, T, n, x);
    }
    PropagatedIntro(mem', after, T, n);
  }

  lemma PropagatedLength(mem: Memory, ws: WatchLists, T: seq<int>, n: nat)
    requires Propagated(mem, ws, T, n)
    ensures n <= |T|
  {
  }

  lemma PropagatedIntro(mem: Memory, ws: WatchLists, T: seq<int>, n: nat)
    requires n <= |T| && forall x :: x in T[..n] ==> SettledList(mem, T, -x, ListOf(ws, -x))
    ensures Propagated(mem, ws, T, n)
  {
  }

  lemma MovedSettledOne(mem: Memory, mem': Memory, ws: WatchLists, l: int, j: nat, k: nat, T: seq<int>, n: nat, x: int)
    requires Moves(mem, mem', ws, l, j, k) && Propagated(mem, ws, T, n) && l !in T && -l !in T[..n] && x in T[..n]
    requires -mem[ListOf(ws, l)[j].clause].lits[k] !in T
    ensures var u := mem[ListOf(ws, l)[j].clause].lits[k];
            u != l && SettledList(mem', T, -x, ListOf(Moved(ws, l, j, u), -x))
  {
    hide WatchInvariant, SettledList, Moved;
    assert SettledList(mem, T, -x, ListOf(ws, -x));
    MovedSettled(mem, mem', ws, l, j, k, T, x);
  }

  lemma MovedIsGood(mem: Memory, mem': Memory, ws: WatchLists, l: int, j: nat, k: nat)
    requires Moves(mem, mem', ws, l, j, k)
    ensures WatchInvariant(mem', Moved(ws, l, j, mem[ListOf(ws, l)[j].clause].lits[k]))
  {
    var r := ListOf(ws, l)[j].clause;
    var after := Moved(ws, l, j, mem[r].lits[k]);
    RearrangedMemory({}, mem, mem', r);
    assert forall x :: GoodList(mem', x, ListOf(after, x)) by {
      hide GoodList, AllWatched, Moved, ListOf, GoodMemory, Moves;
      forall x ensures GoodList(mem', x, ListOf(after, x)) {
        MovedGoodList(mem, mem', ws, l, j, k, x);
      }
    }
    MovedAllWatched(mem, mem', ws, l, j, k);
  }

  lemma MovedSettled(mem: Memory, mem': Memory, ws: WatchLists, l: int, j: nat, k: nat, T: seq<int>, x: int)
    requires Moves(mem, mem', ws, l, j, k) && l !in T && x in T && -x != l
    requires var u := mem[ListOf(ws, l)[j].clause].lits[k]; -u !in T
    requires SettledList(mem, T, -x, ListOf(ws, -x))
    ensures var u := mem[ListOf(ws, l)[j].clause].lits[k];
            u != l && SettledList(mem', T, -x, ListOf(Moved(ws, l, j, u), -x))
  {
    var r := ListOf(ws, l)[j].clause;
    var u := mem[r].lits[k];
    assert GoodClause(mem[r]) && u != l;
    assert -x != u;
    MovedLists(ws, l, j, u, -x);
    assert GoodList(mem, -x, ListOf(ws, -x));
    var list := ListOf(ws, -x);
    forall w | w in list ensures Settled(mem', T, -x, w) {
      assert Settled(mem, T, -x, w) && GoodWatch(mem, -x, w);
    }
  }

  /** The entries of the list of `l` before the moved one stay settled. */
  lemma MovedPrefixSettled(mem: Memory, mem': Memory, ws: WatchLists, l: int, j: nat, k: nat, T: seq<int>)
    requires Moves(mem, mem', ws, l, j, k)
    requires SettledList(mem, T, l, ListOf(ws, l)[..j])
    ensures var u := mem[ListOf(ws, l)[j].clause].lits[k];
            && u != l && |ListOf(Moved(ws, l, j, u), l)| == |ListOf(ws, l)| - 1
            && ListOf(Moved(ws, l, j, u), l)[..j] == ListOf(ws, l)[..j]
            && SettledList(mem', T, l, ListOf(ws, l)[..j])
  {
    var list := ListOf(ws, l);
    var r := list[j].clause;
    assert GoodClause(mem[r]) && GoodList(mem, l, list);
    forall w | w in list[..j] ensures Settled(mem', T, l, w) {
      assert w.clause != r && Settled(mem, T, l, w);
    }
  }

  /** Changing the blocking literal of one watch to another literal of the clause. */
  lemma ChangeBlit(mem: Memory, ws: WatchLists, l: int, j: nat, b: int, T: seq<int>, n: nat)
    requires WatchInvariant(mem, ws) && j < |ListOf(ws, l)|
    requires var r := ListOf(ws, l)[j].clause; r in mem && b in mem[r].lits && b != l
    ensures var ws' := ws[l := ListOf(ws, l)[j := ListOf(ws, l)[j].(blit := b)]];
            && WatchInvariant(mem, ws')
            && (Propagated(mem, ws, T, n) && -l !in T[..n] ==> Propagated(mem, ws', T, n))
            && (forall x :: x != l ==> ListOf(ws', x) == ListOf(ws, x))
  {
    var list := ListOf(ws, l);
    var ws' := ws[l := list[j := list[j].(blit := b)]];
    assert forall x :: x != l ==> ListOf(ws', x) == ListOf(ws, x);
    hide GoodMemory, GoodLists, AllWatched, SettledList, GoodList;
    BlitGoodLists(mem, ws, l, j, b);
    BlitAllWatched(mem, ws, l, j, b);
  }

  lemma BlitGoodLists(mem: Memory, ws: WatchLists, l: int, j: nat, b: int)
    requires GoodLists(mem, ws) && j < |ListOf(ws, l)|
    requires var r := ListOf(ws, l)[j].clause; r in mem && b in mem[r].lits && b != l
    ensures GoodLists(mem, ws[l := ListOf(ws, l)[j := ListOf(ws, l)[j].(blit := b)]])
  {
    var list := ListOf(ws, l);
    var list' := list[j := list[j].(blit := b)];
    assert GoodList(mem, l, list) && GoodWatch(mem, l, list[j]);
    assert GoodList(mem, l, list') by {
      forall w | w in list' ensures GoodWatch(mem, l, w) {
        assert w in list || w == list'[j];
      }
    }
    var ws' := ws[l := list'];
    forall x ensures GoodList(mem, x, ListOf(ws', x)) {
      assert GoodList(mem, x, ListOf(ws, x));
    }
  }

  lemma BlitAllWatched(mem: Memory, ws: WatchLists, l: int, j: nat, b: int)
    requires AllWatched(mem, ws) && j < |ListOf(ws, l)|
    ensures AllWatched(mem, ws[l := ListOf(ws, l)[j := ListOf(ws, l)[j].(blit := b)]])
  {
    var list := ListOf(ws, l);
    var ws' := ws[l := list[j := list[j].(blit := b)]];
    forall r, x | Watched(ws, x, r) ensures Watched(ws', x, r) {
      var w :| w in ListOf(ws, x) && w.clause == r;
      if x == l {
        var i :| 0 <= i < |list| && list[i] == w;
        assert ListOf(ws', l)[i].clause == r && ListOf(ws', l)[i] in ListOf(ws', l);
      }
    }
  }

  /** Dropping the watch of a garbage clause. */
  lemma DropGarbage(mem: Memory, ws: WatchLists, l: int, j: nat, T: seq<int>, n: nat)
    requires WatchInvariant(mem, ws) && j < |ListOf(ws, l)| && !Live(mem, ListOf(ws, l)[j].clause)
    ensures var ws' := ws[l := ListOf(ws, l)[..j] + ListOf(ws, l)[j + 1..]];
            WatchInvariant(mem, ws') && (Propagated(mem, ws, T, n) ==> Propagated(mem, ws', T, n))
  {
    var ws' := ws[l := ListOf(ws, l)[..j] + ListOf(ws, l)[j + 1..]];
    DroppedList(ListOf(ws, l), j);
    assert forall x :: x != l ==> ListOf(ws', x) == ListOf(ws, x);
    assert ListOf(ws', l) == ListOf(ws, l)[..j] + ListOf(ws, l)[j + 1..];
    hide ListOf, Live, Settled, GoodWatch, GoodMemory;
    forall x ensures GoodList(mem, x, ListOf(ws', x)) {
      assert GoodList(mem, x, ListOf(ws, x));
    }
    DroppedAllWatched(mem, ws, l, j);
    if Propagated(mem, ws, T, n) {
      forall x | x in T[..n] ensures SettledList(mem, T, -x, ListOf(ws', -x)) {
        assert SettledList(mem, T, -x, ListOf(ws, -x));
      }
    }
  }

  /** What remains of a list is part of it, without repetition of clauses. */
  lemma DroppedList(a: seq<Watch>, j: nat)
    requires j < |a|
    ensures forall w :: w in a[..j] + a[j + 1..] ==> w in a
    ensures NoRepetition(a) ==> NoRepetition(a[..j] + a[j + 1..])
  {
    var b := a[..j] + a[j + 1..];
    assert forall i :: 0 <= i < |b| ==> b[i] == if i < j then a[i] else a[i + 1];
  }

  lemma DroppedAllWatched(mem: Memory, ws: WatchLists, l: int, j: nat)
    requires AllWatched(mem, ws) && j < |ListOf(ws, l)| && !Live(mem, ListOf(ws, l)[j].clause)
    ensures AllWatched(mem, ws[l := ListOf(ws, l)[..j] + ListOf(ws, l)[j + 1..]])
  {
    var list := ListOf(ws, l);
    var after := list[..j] + list[j + 1..];
    var ws' := ws[l := after];
    forall r, x | Live(mem, r) && Watched(ws, x, r) ensures Watched(ws', x, r) {
      var w :| w in ListOf(ws, x) && w.clause == r;
      if x == l {
        var i :| 0 <= i < |list| && list[i] == w;
        assert i != j;
        assert w in after;
      }
    }
  }

  /** Memories that differ only in the order of literals. */
  ghost predicate SameClauses(mem: Memory, mem': Memory) {
    && mem.Keys == mem'.Keys
    && forall r :: r in mem ==>
         && multiset(mem[r].lits) == multiset(mem'[r].lits)
         && mem[r].size == mem'[r].size && mem[r].hash == mem'[r].hash
  }

  lemma RearrangedSame(mem0: Memory, mem: Memory, mem': Memory, r: int)
    requires SameClauses(mem0, mem) && Rearranged(mem, mem', r)
    ensures SameClauses(mem0, mem')
  {
  }

  lemma SameClausesLive(mem: Memory, mem': Memory)
    requires SameClauses(mem, mem')
    ensures LiveFormula(mem) == LiveFormula(mem')
  {
    forall r | r in mem ensures Lits(mem[r].lits) == Lits(mem'[r].lits) && mem[r].size == mem'[r].size {
      SameMultisetSameLits(mem[r].lits, mem'[r].lits);
    }
  }

  lemma SwapFront(c: Clause, l: int)
    requires |c| >= 2 && c[0] != c[1] && (l == c[0] || l == c[1])
    ensures multiset([Other(c, l), l] + c[2..]) == multiset(c)
    ensures {Other(c, l), l} == {c[0], c[1]} && Other(c, l) != l
  {
    var d := [Other(c, l), l] + c[2..];
    assert c == [c[0], c[1]] + c[2..];
    assert multiset([Other(c, l), l]) == multiset([c[0], c[1]]);
    assert multiset(d) == multiset([Other(c, l), l]) + multiset(c[2..]);
    assert multiset(c) == multiset([c[0], c[1]]) + multiset(c[2..]);
  }

  lemma SettledOneMore(mem: Memory, T: seq<int>, l: int, list: seq<Watch>, j: nat)
    requires j < |list| && SettledList(mem, T, l, list[..j]) && Settled(mem, T, l, list[j])
    ensures SettledList(mem, T, l, list[..j + 1])
  {
    assert list[..j + 1] == list[..j] + [list[j]];
  }

  lemma NotInPrefix(T: seq<int>, n: nat)
    requires Distinct(T) && n < |T|
    ensures T[n] !in T[..n] && -T[n] !in T && T[n] in T && T[n] != 0
  {
    assert T[n] in T;
    assert forall x :: x in T[..n] ==> exists i :: 0 <= i < n && T[i] == x;
  }

  lemma PrefixInside(T: seq<int>, p: nat, n: nat)
    requires p <= n <= |T|
    ensures forall x :: x in T[..p] ==> x in T[..n] && x in T
  {
  }

  // ---------------------------------------------------------------- range of variables

  /** All variables are smaller than the capacity of the value array. */
  ghost predicate Bounded(mem: Memory, trail: seq<int>, size: nat) {
    && (forall x :: x in trail ==> Abs(x) < size)
    && (forall r, x :: r in mem && x in mem[r].lits ==> Abs(x) < size)
  }

  lemma BoundedSame(mem: Memory, mem': Memory, trail: seq<int>, size: nat)
    requires Bounded(mem, trail, size) && SameClauses(mem, mem')
    ensures Bounded(mem', trail, size)
  {
    forall r, x | r in mem' && x in mem'[r].lits ensures Abs(x) < size {
      SameMultisetSameLits(mem[r].lits, mem'[r].lits);
    }
  }

  ghost function Variables(trail: seq<int>): set<int> {
    if trail == [] then {} else Variables(trail[..|trail| - 1]) + {Abs(trail[|trail| - 1])}
  }

  lemma {:induction false} VariablesOf(trail: seq<int>, v: int)
    requires v in Variables(trail)
    ensures v in trail || -v in trail
  {
    var n := |trail| - 1;
    assert trail[n] in trail;
    if v in Variables(trail[..n]) {
      VariablesOf(trail[..n], v);
    }
  }

  lemma {:induction false} VariablesSize(trail: seq<int>, size: nat)
    requires Distinct(trail) && forall x :: x in trail ==> Abs(x) < size
    ensures |Variables(trail)| == |trail| && forall v :: v in Variables(trail) ==> 0 <= v < size
  {
    if trail != [] {
      var n := |trail| - 1;
      assert trail[n] in trail && forall x :: x in trail[..n] ==> x in trail;
      VariablesSize(trail[..n], size);
      NotInPrefix(trail, n);
      assert Abs(trail[n]) !in Variables(trail[..n]) by {
        if Abs(trail[n]) in Variables(trail[..n]) {
          VariablesOf(trail[..n], Abs(trail[n]));
        }
      }
    }
  }

  lemma {:induction false} RangeSize(s: set<int>, size: nat)
    requires forall x :: x in s ==> 0 <= x < size
    ensures |s| <= size
    decreases size
  {
    if size > 0 {
      RangeSize(s - {size - 1}, size - 1);
    } else {
      assert forall x :: x !in s;
      assert s == {};
    }
  }

  lemma TrailFits(trail: seq<int>, size: nat)
    requires Distinct(trail) && forall x :: x in trail ==> Abs(x) < size
    ensures |trail| <= size
  {
    VariablesSize(trail, size);
    RangeSize(Variables(trail), size);
  }

  // ---------------------------------------------------------------- single watches

  /** Facts about one watch. */
  lemma WatchFacts(mem: Memory, ws: WatchLists, l: int, j: nat)
    requires WatchInvariant(mem, ws) && j < |ListOf(ws, l)|
    ensures var w := ListOf(ws, l)[j];
            && w.clause in mem && |mem[w.clause].lits| >= 2 && w.size == |mem[w.clause].lits|
            && w.blit != l && w.blit != 0 && w.blit in mem[w.clause].lits && l in mem[w.clause].lits
                 && 0 !in mem[w.clause].lits
            && (w.size == 2 ==> forall x :: x in mem[w.clause].lits ==> x == l || x == w.blit)
            && (mem[w.clause].size != 0 ==>
                 var c := mem[w.clause].lits;
                 c[0] != c[1] && (l == c[0] || l == c[1]) && Other(c, l) in c && Other(c, l) != l)
  {
    var w := ListOf(ws, l)[j];
    assert GoodList(mem, l, ListOf(ws, l)) && GoodWatch(mem, l, w) && GoodClause(mem[w.clause]);
  }

  lemma UpdatedList(ws: WatchLists, l: int, list: seq<Watch>)
    requires l in ws && ws[l] == list
    ensures ListOf(ws, l) == list
  {
  }
}
