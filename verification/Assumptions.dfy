/** Decisions under assumptions and a constraint, and the assumptions that made the search fail. */
module Assumptions {
  import opened Cnf
  import opened Lists
  import opened InternalSolver
  import opened Trail
  import opened DecisionQueue
  import opened Search
  import opened ConflictSteps
  import opened BackjumpSteps

  /** The decision of a level within the assumptions is the assumption of that level, unless that
      one was true already. */
  ghost predicate LevelsAreAssumed(control: seq<Level>, assumptions: seq<int>) {
    forall k :: 0 < k < |control| && k <= |assumptions| ==>
      control[k].decision == 0 || control[k].decision == assumptions[k - 1]
  }

  /** Backtracking keeps the levels that are left. */
  lemma BackAssumed(s: Stack, n: nat, assumptions: seq<int>)
    requires n < |s.control| && LevelsAreAssumed(s.control, assumptions)
    ensures LevelsAreAssumed(Back(s, n).control, assumptions)
  {
    hide Keep, KeptVals, MovedVars;
  }

  lemma OpenedAssumed(control: seq<Level>, l: Level, assumptions: seq<int>)
    requires LevelsAreAssumed(control, assumptions) && control != []
    requires |control| <= |assumptions| ==> l.decision == 0 || l.decision == assumptions[|control| - 1]
    ensures LevelsAreAssumed(control + [l], assumptions)
  {
  }

  /** As long as there are no other levels, a literal without reason is a unit or an assumption. */
  lemma DecisionIsAssumed(s: Stack, assumptions: seq<int>, x: int)
    requires Placed(s) && Framed(s) && LevelsAreAssumed(s.control, assumptions) && CurrentLevel(s) <= |assumptions|
    requires x in s.vals && ReasonOf(s, x) == -1 && LevelOf(s, x) > 0
    ensures x in assumptions
  {
    var p := PosOf(s, x);
    assert s.trail[p] == x;
    assert IsDecision(s, p);
  }

  // ---------------------------------------------------------------- the constraint

  /** The constraint while its first `i` literals have been moved up by one. */
  ghost function MovedUp(c: Clause, i: nat): Clause
    requires i <= |c|
  {
    if i == 0 then c else [0] + c[..i - 1] + c[i..]
  }

  lemma MoveUp(c: Clause, i: nat)
    requires i < |c|
    ensures |MovedUp(c, i)| == |c| && MovedUp(c, i)[i] == c[i]
    ensures MovedUp(c, i)[i := if i == 0 then 0 else c[i - 1]] == MovedUp(c, i + 1)
  {
    var a := MovedUp(c, i)[i := if i == 0 then 0 else c[i - 1]];
    var b := MovedUp(c, i + 1);
    assert |a| == |b| == |c|;
    forall k | 0 <= k < |c| ensures a[k] == b[k] {
    }
  }

  /** The literal that was taken out is put in front. */
  lemma MovedToFront(c: Clause, i: nat)
    requires i < |c|
    ensures |MovedUp(c, i + 1)| == |c| && multiset(MovedUp(c, i + 1)[0 := c[i]]) == multiset(c)
  {
    var d := [c[i]] + c[..i] + c[i + 1..];
    assert MovedUp(c, i + 1)[0 := c[i]] == d;
    assert c == c[..i] + [c[i]] + c[i + 1..];
  }

  lemma MovedAll(c: Clause, k: nat)
    requires k < |c|
    ensures |MovedUp(c, |c|)| == |c| && (k > 0 ==> MovedUp(c, |c|)[k] == c[k - 1])
  {
  }

  /** The first true literal has moved to the front. */
  ghost predicate TrueInFront(c: Clause, vals: set<int>, d: Clause) {
    exists i :: && 0 <= i < |c| && c[i] in vals && (forall k :: 0 <= k < i ==> c[k] !in vals)
                && d == [c[i]] + c[..i] + c[i + 1..]
  }

  lemma FoundInFront(c: Clause, i: nat, vals: set<int>)
    requires i < |c| && c[i] in vals && forall k :: 0 <= k < i ==> c[k] !in vals
    ensures |MovedUp(c, i + 1)| == |c| && TrueInFront(c, vals, MovedUp(c, i + 1)[0 := c[i]])
  {
    assert MovedUp(c, i + 1)[0 := c[i]] == [c[i]] + c[..i] + c[i + 1..];
  }

  ghost predicate AllUntrue(c: Clause, vals: set<int>) {
    forall x :: x in c ==> -x in vals
  }

  /** An unassigned literal whose variable has the largest stamp. */
  ghost predicate BestOpen(c: Clause, vals: set<int>, btab: map<int, int>, lit: int) {
    && lit in c && lit !in vals && -lit !in vals && Abs(lit) in btab
    && forall x :: x in c && -x !in vals ==> Abs(x) in btab && btab[Abs(x)] <= btab[Abs(lit)]
  }

  /** What is known after the first `i` literals of the constraint were found not to be true. */
  ghost predicate Searched(c: Clause, i: nat, vals: set<int>, btab: map<int, int>, open: int)
    requires i <= |c|
  {
    && (forall k :: 0 <= k < i ==> c[k] !in vals)
    && if open == 0 then AllUntrue(c[..i], vals) else BestOpen(c[..i], vals, btab, open)
  }

  ghost predicate Stamps(c: Clause, btab: map<int, int>) {
    forall x :: x in c ==> Abs(x) in btab
  }

  lemma StampOf(c: Clause, btab: map<int, int>, i: nat)
    requires Stamps(c, btab) && i < |c|
    ensures c[i] in c && Abs(c[i]) in btab
  {
  }

  lemma SearchedNothing(c: Clause, vals: set<int>, btab: map<int, int>)
    ensures Searched(c, 0, vals, btab, 0) && MovedUp(c, 0) == c
  {
  }

  lemma SameConstraint(c: Clause, d: Clause)
    requires multiset(c) == multiset(d)
    ensures |c| == |d| && (forall x :: x in c <==> x in d) && (NoDuplicates(c) ==> NoDuplicates(d))
  {
    SameMultisetSameLits(c, d);
    if NoDuplicates(c) {
      StaysUnique(c, d);
    }
  }

  lemma SearchedStep(c: Clause, i: nat, vals: set<int>, btab: map<int, int>, open: int)
    requires i < |c| && Searched(c, i, vals, btab, open) && c[i] !in vals && Abs(c[i]) in btab && c[i] != 0
    ensures -c[i] in vals ==> Searched(c, i + 1, vals, btab, open)
    ensures open != 0 ==> Abs(open) in btab
    ensures -c[i] !in vals ==>
              Searched(c, i + 1, vals, btab, if open == 0 || btab[Abs(c[i])] > btab[Abs(open)] then c[i] else open)
  {
    var d := c[..i + 1];
    assert d == c[..i] + [c[i]];
    assert forall x :: x in d <==> x in c[..i] || x == c[i];
  }

  lemma SearchedAll(c: Clause, vals: set<int>, btab: map<int, int>, open: int)
    requires Searched(c, |c|, vals, btab, open)
    ensures !HasTrue(c, vals) && if open == 0 then AllUntrue(c, vals) else BestOpen(c, vals, btab, open)
  {
    assert c[..|c|] == c;
  }

  // ---------------------------------------------------------------- failed assumptions

  /** The formula has no model in which the failed assumptions are true, or if the constraint failed,
      none in which a literal of the constraint is true as well. */
  ghost predicate Core(f: Formula, failed: set<int>, constrained: bool, constraint: Clause) {
    forall m :: Models(m, f) ==> SomeFalse(m, failed) || (constrained && !Satisfies(m, constraint))
  }

  ghost predicate SomeFalse(m: Assignment, failed: set<int>) {
    exists a :: a in failed && !True(m, a)
  }

  /** A literal is a unit, a failed assumption, or its reason has been analyzed. */
  ghost predicate Explained(s: Stack, cs: seq<ClauseRecord>, analyzed: seq<int>, failed: set<int>, x: int) {
    || LevelOf(s, x) == 0
    || (ReasonOf(s, x) == -1 && x in failed)
    || (0 <= ReasonOf(s, x) < |cs| && forall o :: o in cs[ReasonOf(s, x)].lits && o != x ==> -o in analyzed)
  }

  ghost predicate AllExplained(s: Stack, cs: seq<ClauseRecord>, analyzed: seq<int>, failed: set<int>, k: nat)
    requires k <= |analyzed|
  {
    forall j :: 0 <= j < k ==> Explained(s, cs, analyzed, failed, analyzed[j])
  }

  /** The analyzed literals are true, each once, and their variables are seen. */
  ghost predicate Collected(s: Stack, seen: set<int>, analyzed: seq<int>) {
    && NoDuplicates(analyzed)
    && (forall x :: x in analyzed ==> x in s.vals && Abs(x) in seen)
    && (forall v :: v in seen ==> v in analyzed || -v in analyzed)
  }

  lemma CollectedSize(s: Stack, seen: set<int>, analyzed: seq<int>)
    requires Collected(s, seen, analyzed)
    ensures |analyzed| <= |s.vals|
  {
    DistinctSize(analyzed);
    SubsetSize(Lits(analyzed), s.vals);
  }

  lemma CollectedSeen(s: Stack, seen: set<int>, analyzed: seq<int>, x: int)
    requires Placed(s) && Collected(s, seen, analyzed) && x in s.vals && Abs(x) in seen
    ensures x in analyzed
  {
    var v: int := Abs(x);
    PlacedIsConsistent(s);
    hide Placed;
    assert v in analyzed || -v in analyzed;
    assert x == v || x == -v;
  }

  lemma CollectedStep(s: Stack, seen: set<int>, analyzed: seq<int>, x: int)
    requires Collected(s, seen, analyzed) && x in s.vals && Abs(x) !in seen
    ensures Collected(s, seen + {Abs(x)}, analyzed + [x])
  {
    var b := analyzed + [x];
    assert x !in analyzed;
    assert b[|analyzed|] == x;
    forall v | v in seen + {Abs(x)} ensures v in b || -v in b {
      if v in seen {
        assert v in analyzed || -v in analyzed;
      } else {
        assert v == x || -v == x;
      }
    }
  }

  // ---------------------------------------------------------------- what the failure depends on

  /** The reason of the true literal `x`, which is not a unit, contains the negation of the other literal `y`. */
  ghost predicate Follows(s: Stack, cs: seq<ClauseRecord>, x: int, y: int) {
    LevelOf(s, x) > 0 && 0 <= ReasonOf(s, x) < |cs| && -y in cs[ReasonOf(s, x)].lits && -y != x
  }

  /** A chain of literals, each from the reason of the one before. */
  ghost predicate Chain(s: Stack, cs: seq<ClauseRecord>, path: seq<int>) {
    path != [] && forall i, j :: 0 <= i && j == i + 1 && j < |path| ==> Follows(s, cs, path[i], path[j])
  }

  ghost predicate ReachedFrom(s: Stack, cs: seq<ClauseRecord>, start: set<int>, x: int) {
    exists path :: Chain(s, cs, path) && path[0] in start && path[|path| - 1] == x
  }

  /** The literals without reason, on a positive level, that are reached. */
  ghost predicate FailsFrom(s: Stack, cs: seq<ClauseRecord>, start: set<int>, x: int) {
    ReachedFrom(s, cs, start, x) && ReasonOf(s, x) == -1 && LevelOf(s, x) > 0
  }

  /** The list has the negation of each literal of the clause. */
  lemma NegationsAre(c: Clause, l: seq<int>)
    requires |l| == |c| && forall k :: 0 <= k < |c| ==> l[k] == -c[k]
    ensures Lits(l) == Negations(Lits(c))
  {
    forall x | x in Lits(l) ensures x in Negations(Lits(c)) {
      var k :| 0 <= k < |l| && l[k] == x;
      assert c[k] in Lits(c);
    }
    forall x | x in Negations(Lits(c)) ensures x in Lits(l) {
      var y :| y in Lits(c) && x == -y;
      var k :| 0 <= k < |c| && c[k] == y;
      assert l[k] == x;
    }
  }

  lemma ReachedStart(s: Stack, cs: seq<ClauseRecord>, start: set<int>, x: int)
    requires x in start
    ensures ReachedFrom(s, cs, start, x)
  {
    var path := [x];
    assert Chain(s, cs, path) && path[0] in start && path[|path| - 1] == x;
  }

  lemma ReachedNext(s: Stack, cs: seq<ClauseRecord>, start: set<int>, x: int, y: int)
    requires ReachedFrom(s, cs, start, x) && Follows(s, cs, x, y)
    ensures ReachedFrom(s, cs, start, y)
  {
    hide Follows;
    var path :| Chain(s, cs, path) && path[0] in start && path[|path| - 1] == x;
    var more := path + [y];
    forall i, j | 0 <= i && j == i + 1 && j < |more| ensures Follows(s, cs, more[i], more[j]) {
      assert more[i] == path[i] && (j < |path| ==> more[j] == path[j]);
    }
    assert Chain(s, cs, more) && more[0] in start && more[|more| - 1] == y;
  }

  /** Every literal on a chain is analyzed if the first one is. */
  lemma {:induction false} ChainIsAnalyzed(s: Stack, cs: seq<ClauseRecord>, analyzed: seq<int>, failed: set<int>,
                                           path: seq<int>)
    requires AllExplained(s, cs, analyzed, failed, |analyzed|) && Chain(s, cs, path) && path[0] in analyzed
    ensures path[|path| - 1] in analyzed
  {
    hide AllExplained, LevelOf, ReasonOf;
    if |path| > 1 {
      var n := |path| - 1;
      var front := path[..n];
      forall i, j | 0 <= i && j == i + 1 && j < |front| ensures Follows(s, cs, front[i], front[j]) {
        assert front[i] == path[i] && front[j] == path[j];
      }
      ChainIsAnalyzed(s, cs, analyzed, failed, front);
      var x := path[n - 1];
      assert x in analyzed && Follows(s, cs, x, path[n]);
      ExplainedAt(s, cs, analyzed, failed, x);
      assert -(-path[n]) in analyzed;
    }
  }

  /** The analyzed literals when nothing is left to be explained. */
  lemma AnalyzedIsReached(s: Stack, cs: seq<ClauseRecord>, analyzed: seq<int>, failed: set<int>, start: set<int>)
    requires AllExplained(s, cs, analyzed, failed, |analyzed|)
    requires (forall x :: x in start ==> x in analyzed) && AllReached(s, cs, analyzed, start)
    ensures forall x :: x in analyzed <==> ReachedFrom(s, cs, start, x)
  {
    hide AllExplained, Follows;
    forall x | ReachedFrom(s, cs, start, x) ensures x in analyzed {
      var path :| Chain(s, cs, path) && path[0] in start && path[|path| - 1] == x;
      var y := path[0];
      assert y in start;
      assert y in analyzed;
      ChainIsAnalyzed(s, cs, analyzed, failed, path);
    }
  }

  ghost predicate AllReached(s: Stack, cs: seq<ClauseRecord>, analyzed: seq<int>, start: set<int>) {
    forall x :: x in analyzed ==> ReachedFrom(s, cs, start, x)
  }

  lemma StartReached(s: Stack, cs: seq<ClauseRecord>, analyzed: seq<int>, start: set<int>)
    requires start == Lits(analyzed)
    ensures AllReached(s, cs, analyzed, start)
  {
    forall x | x in analyzed ensures ReachedFrom(s, cs, start, x) {
      ReachedStart(s, cs, start, x);
    }
  }

  lemma MoreReached(s: Stack, cs: seq<ClauseRecord>, a: seq<int>, b: seq<int>, start: set<int>, lit: int)
    requires AllReached(s, cs, a, start) && lit in a && LevelOf(s, lit) > 0 && 0 <= ReasonOf(s, lit) < |cs|
    requires forall y :: y in b && y !in a ==> -y in cs[ReasonOf(s, lit)].lits && -y != lit
    ensures AllReached(s, cs, b, start)
  {
    hide ReachedFrom;
    forall y | y in b ensures ReachedFrom(s, cs, start, y) {
      if y !in a {
        ReachedNext(s, cs, start, lit, y);
      }
    }
  }

  /** The failed assumptions so far: those before, and the literals without reason among the first `k`. */
  ghost predicate FailedUpTo(s: Stack, before: set<int>, failed: set<int>, analyzed: seq<int>, k: nat)
    requires k <= |analyzed|
  {
    forall x :: x in failed <==> x in before || (x in analyzed[..k] && ReasonOf(s, x) == -1 && LevelOf(s, x) > 0)
  }

  lemma FailedNothing(s: Stack, before: set<int>, analyzed: seq<int>)
    ensures FailedUpTo(s, before, before, analyzed, 0)
  {
  }

  lemma FailedNext(s: Stack, before: set<int>, failed: set<int>, more: set<int>, a: seq<int>, b: seq<int>, k: nat)
    requires k < |a| && a <= b && FailedUpTo(s, before, failed, a, k)
    requires more == failed + if ReasonOf(s, a[k]) == -1 && LevelOf(s, a[k]) > 0 then {a[k]} else {}
    ensures FailedUpTo(s, before, more, b, k + 1)
  {
    hide ReasonOf, LevelOf;
    assert b[..k + 1] == a[..k] + [a[k]];
    assert forall x :: x in b[..k + 1] <==> x in a[..k] || x == a[k];
  }

  /** Which assumptions are marked: the chosen one, with its negation if they clash, or with all the
      assumptions that the negation of it depends on. */
  ghost predicate FailedAre(s: Stack, cs: seq<ClauseRecord>, failed: set<int>, r: Failure) {
    forall x :: x in failed <==>
      || x == r.lit
      || match r
         case Unit(_) => false
         case Clashing(lit) => x == -lit
         case First(lit) => FailsFrom(s, cs, {-lit}, x)
  }

  lemma FailedIntro(s: Stack, cs: seq<ClauseRecord>, failed: set<int>, r: Failure)
    ensures r.Unit? && failed == {r.lit} ==> FailedAre(s, cs, failed, r)
    ensures r.Clashing? && failed == {r.lit, -r.lit} ==> FailedAre(s, cs, failed, r)
    ensures r.First? && (forall x :: x in failed <==> x == r.lit || FailsFrom(s, cs, {-r.lit}, x)) ==>
              FailedAre(s, cs, failed, r)
  {
    hide FailsFrom;
  }

  lemma FailedAll(s: Stack, cs: seq<ClauseRecord>, before: set<int>, failed: set<int>, analyzed: seq<int>,
                  start: set<int>)
    requires FailedUpTo(s, before, failed, analyzed, |analyzed|)
    requires forall x :: x in analyzed <==> ReachedFrom(s, cs, start, x)
    ensures forall x :: x in failed <==> x in before || FailsFrom(s, cs, start, x)
  {
    hide ReachedFrom, ReasonOf, LevelOf;
    assert analyzed[..|analyzed|] == analyzed;
  }

  lemma ExplainedMore(s: Stack, cs: seq<ClauseRecord>, a: seq<int>, b: seq<int>, failed: set<int>, more: set<int>,
                      k: nat)
    requires k <= |a| && a <= b && failed <= more && AllExplained(s, cs, a, failed, k)
    ensures AllExplained(s, cs, b, more, k)
  {
    forall j | 0 <= j < k ensures Explained(s, cs, b, more, b[j]) {
      assert Explained(s, cs, a, failed, a[j]);
    }
  }

  lemma NothingExplained(s: Stack, cs: seq<ClauseRecord>, analyzed: seq<int>, failed: set<int>)
    ensures AllExplained(s, cs, analyzed, failed, 0)
  {
  }

  lemma CollectedIsTrue(s: Stack, seen: set<int>, analyzed: seq<int>, k: nat)
    requires Collected(s, seen, analyzed) && k < |analyzed|
    ensures analyzed[k] in s.vals && analyzed[k] in analyzed
  {
    assert analyzed[k] in analyzed;
  }

  lemma ReasonExists(s: Stack, cs: seq<ClauseRecord>, lit: int)
    requires Reasoned(s, cs) && lit in s.vals && ReasonOf(s, lit) != -1
    ensures 0 <= ReasonOf(s, lit) < |cs| && forall o :: o in cs[ReasonOf(s, lit)].lits && o != lit ==> -o in s.vals
  {
    assert Justified(s, cs, lit);
  }

  lemma ExplainedNext(s: Stack, cs: seq<ClauseRecord>, analyzed: seq<int>, failed: set<int>, k: nat, lit: int)
    requires k < |analyzed| && analyzed[k] == lit && AllExplained(s, cs, analyzed, failed, k)
    requires Explained(s, cs, analyzed, failed, lit)
    ensures AllExplained(s, cs, analyzed, failed, k + 1)
  {
  }

  lemma ExplainedIntro(s: Stack, cs: seq<ClauseRecord>, analyzed: seq<int>, failed: set<int>, lit: int, v: Var)
    requires v == VarOf(s.vtab, lit)
    requires v.level > 0 ==>
               if v.reason == -1 then lit in failed
               else 0 <= v.reason < |cs| && forall o :: o in cs[v.reason].lits && o != lit ==> -o in analyzed
    ensures Explained(s, cs, analyzed, failed, lit)
    ensures LevelOf(s, lit) == v.level && ReasonOf(s, lit) == v.reason
  {
  }

  /** Every analyzed literal is forced by the failed assumptions. */
  lemma {:induction false} AnalyzedAreForced(s: Stack, cs: seq<ClauseRecord>, f: Formula, analyzed: seq<int>,
                                             failed: set<int>,
                                             m: Assignment, x: int)
    requires TrailOk(s, cs, f) && AllExplained(s, cs, analyzed, failed, |analyzed|)
    requires (forall y :: y in analyzed ==> y in s.vals) && x in analyzed
    requires Models(m, f) && forall a :: a in failed ==> True(m, a)
    ensures True(m, x)
    decreases PosOf(s, x)
  {
    hide TrailOk, AllExplained, Models;
    if !True(m, x) {
      var z := FalseReason(s, cs, f, analyzed, failed, m, x);
      AnalyzedAreForced(s, cs, f, analyzed, failed, m, -z);
    }
  }

  /** If a literal is false although the failed assumptions are true, then another literal of its reason is true. */
  lemma FalseReason(s: Stack, cs: seq<ClauseRecord>, f: Formula, analyzed: seq<int>, failed: set<int>, m: Assignment,
                    x: int) returns (z: int)
    requires TrailOk(s, cs, f) && AllExplained(s, cs, analyzed, failed, |analyzed|)
    requires (forall y :: y in analyzed ==> y in s.vals) && x in analyzed && !True(m, x)
    requires Models(m, f) && forall a :: a in failed ==> True(m, a)
    ensures -z in analyzed && PosOf(s, -z) < PosOf(s, x) && True(m, z) && z != 0
  {
    hide *;
    TrailMeans(s, cs, f);
    ExplainedAt(s, cs, analyzed, failed, x);
    if LevelOf(s, x) == 0 {
      RootIsTrue(s, f, m, x);
    }
    ReasonExists(s, cs, x);
    z := TrueLiteral(cs, f, m, ReasonOf(s, x));
    BeforeReason(s, cs, x, z);
  }

  lemma ExplainedAt(s: Stack, cs: seq<ClauseRecord>, analyzed: seq<int>, failed: set<int>, x: int)
    requires AllExplained(s, cs, analyzed, failed, |analyzed|) && x in analyzed
    ensures LevelOf(s, x) == 0 || (ReasonOf(s, x) == -1 && x in failed) || ReasonOf(s, x) >= 0
    ensures LevelOf(s, x) > 0 && ReasonOf(s, x) >= 0 ==>
              ReasonOf(s, x) < |cs| && forall o :: o in cs[ReasonOf(s, x)].lits && o != x ==> -o in analyzed
  {
    var j :| 0 <= j < |analyzed| && analyzed[j] == x;
    assert Explained(s, cs, analyzed, failed, analyzed[j]);
  }

  lemma RootIsTrue(s: Stack, f: Formula, m: Assignment, x: int)
    requires UnitsImplied(s, f) && x in s.vals && LevelOf(s, x) == 0 && Models(m, f)
    ensures True(m, x)
  {
    assert Implies(f, {x});
    assert Holds(m, {x});
  }

  lemma TrueLiteral(cs: seq<ClauseRecord>, f: Formula, m: Assignment, r: nat) returns (z: int)
    requires ClausesImplied(cs, f) && r < |cs| && Models(m, f)
    ensures z in cs[r].lits && True(m, z) && z != 0
  {
    assert Implies(f, Lits(cs[r].lits));
    z :| z in Lits(cs[r].lits) && True(m, z);
  }

  lemma BeforeReason(s: Stack, cs: seq<ClauseRecord>, x: int, z: int)
    requires Reasoned(s, cs) && x in s.vals && 0 <= ReasonOf(s, x) < |cs| && z in cs[ReasonOf(s, x)].lits && z != x
    ensures PosOf(s, -z) < PosOf(s, x)
  {
    assert Justified(s, cs, x);
  }

  /** Why a set of assumptions fails: one is false at the root, two clash, or one is false for a reason. */
  datatype Failure = Unit(lit: int) | Clashing(lit: int) | First(lit: int)

  ghost predicate NoUnit(s: Stack, assumptions: seq<int>) {
    forall x :: x in assumptions && -x in s.vals ==> LevelOf(s, x) > 0
  }

  /** The chosen failed assumption: the first one that is false at the root, else the first one whose negation
      is a decision, else the first one that was falsified on the lowest level. */
  ghost predicate FailureIs(s: Stack, assumptions: seq<int>, r: Failure) {
    exists i :: 0 <= i < |assumptions| && FailureAt(s, assumptions, r, i)
  }

  ghost predicate FailureAt(s: Stack, a: seq<int>, r: Failure, i: nat)
    requires i < |a|
  {
    && a[i] == r.lit && -r.lit in s.vals
    && match r
       case Unit(lit) => LevelOf(s, lit) == 0 && forall k :: 0 <= k < i && -a[k] in s.vals ==> LevelOf(s, a[k]) > 0
       case Clashing(lit) =>
         && ReasonOf(s, lit) == -1 && NoUnit(s, a)
         && forall k :: 0 <= k < i && -a[k] in s.vals ==> ReasonOf(s, a[k]) != -1
       case First(lit) =>
         && NoUnit(s, a) && (forall x :: x in a && -x in s.vals ==> ReasonOf(s, x) != -1)
         && (forall x :: x in a && -x in s.vals ==> LevelOf(s, lit) <= LevelOf(s, x))
         && forall k :: 0 <= k < i && -a[k] in s.vals ==> LevelOf(s, lit) < LevelOf(s, a[k])
  }

  /** What was found among the first `i` assumptions: the position of the first clashing one or that of the
      first one of the lowest level. */
  ghost predicate Chosen(s: Stack, a: seq<int>, i: nat, clashing: int, first: int, level: nat, at: nat)
    requires i <= |a|
  {
    && (forall k :: 0 <= k < i && -a[k] in s.vals ==> LevelOf(s, a[k]) > 0)
    && if clashing != 0 then
         && at < i && a[at] == clashing && -clashing in s.vals && ReasonOf(s, clashing) == -1
         && forall k :: 0 <= k < at && -a[k] in s.vals ==> ReasonOf(s, a[k]) != -1
       else
         && (forall k :: 0 <= k < i && -a[k] in s.vals ==>
               ReasonOf(s, a[k]) != -1 && first != 0 && level <= LevelOf(s, a[k]))
         && (first != 0 ==>
               && at < i && a[at] == first && -first in s.vals && level == LevelOf(s, first)
               && forall k :: 0 <= k < at && -a[k] in s.vals ==> level < LevelOf(s, a[k]))
  }

  lemma ChosenMeans(s: Stack, a: seq<int>, clashing: int, first: int, level: nat, at: nat)
    requires Chosen(s, a, |a|, clashing, first, level, at) && exists x :: x in a && -x in s.vals
    ensures clashing != 0 ==> FailureIs(s, a, Clashing(clashing))
    ensures clashing == 0 ==> first != 0 && FailureIs(s, a, First(first))
  {
    hide LevelOf, ReasonOf;
    forall x | x in a && -x in s.vals
      ensures LevelOf(s, x) > 0 && (clashing == 0 ==> ReasonOf(s, x) != -1 && first != 0 && level <= LevelOf(s, x))
    {
      var k :| 0 <= k < |a| && a[k] == x;
    }
    if clashing != 0 {
      assert FailureAt(s, a, Clashing(clashing), at);
    } else {
      assert FailureAt(s, a, First(first), at);
    }
  }

  lemma FailureMeans(s: Stack, assumptions: seq<int>, r: Failure)
    requires FailureIs(s, assumptions, r)
    ensures r.lit in assumptions && -r.lit in s.vals
    ensures r.Unit? ==> LevelOf(s, r.lit) == 0
    ensures r.Clashing? ==> ReasonOf(s, -r.lit) == -1 && LevelOf(s, -r.lit) > 0
  {
    SameVariable(s, r.lit);
  }

  lemma UnitCore(s: Stack, f: Formula, failed: set<int>, lit: int, constraint: Clause)
    requires UnitsImplied(s, f) && -lit in s.vals && LevelOf(s, lit) == 0 && lit != 0 && lit in failed
    ensures Core(f, failed, false, constraint)
  {
    forall m | Models(m, f) ensures SomeFalse(m, failed) {
      FalseAtRoot(s, f, m, lit);
    }
  }

  lemma ClashingCore(f: Formula, failed: set<int>, lit: int, constraint: Clause)
    requires lit in failed && -lit in failed && lit != 0
    ensures Core(f, failed, false, constraint)
  {
    forall m | Models(m, f) ensures SomeFalse(m, failed) {
      assert !True(m, lit) || !True(m, -lit);
    }
  }

  lemma FalseIsExplained(s: Stack, cs: seq<ClauseRecord>, f: Formula, seen: set<int>, analyzed: seq<int>,
                         failed: set<int>,
                         m: Assignment, x: int)
    requires TrailOk(s, cs, f) && Collected(s, seen, analyzed) && AllExplained(s, cs, analyzed, failed, |analyzed|)
    requires x in analyzed && Models(m, f) && !True(m, x)
    ensures SomeFalse(m, failed)
  {
    if !SomeFalse(m, failed) {
      AnalyzedAreForced(s, cs, f, analyzed, failed, m, x);
    }
  }

  /** The negation of the first failed assumption is forced by the failed assumptions. */
  lemma FirstCore(s: Stack, cs: seq<ClauseRecord>, f: Formula, seen: set<int>, analyzed: seq<int>, failed: set<int>,
                  lit: int,
                  constraint: Clause)
    requires TrailOk(s, cs, f) && Collected(s, seen, analyzed) && AllExplained(s, cs, analyzed, failed, |analyzed|)
    requires -lit in analyzed && lit in failed && lit != 0
    ensures Core(f, failed, false, constraint)
  {
    hide TrailOk, AllExplained, Collected;
    forall m | Models(m, f) ensures SomeFalse(m, failed) {
      if True(m, lit) {
        FalseIsExplained(s, cs, f, seen, analyzed, failed, m, -lit);
      }
    }
  }

  lemma ConstraintCore(s: Stack, cs: seq<ClauseRecord>, f: Formula, seen: set<int>, analyzed: seq<int>,
                       failed: set<int>,
                       constraint: Clause)
    requires TrailOk(s, cs, f) && Collected(s, seen, analyzed) && AllExplained(s, cs, analyzed, failed, |analyzed|)
    requires forall x :: x in constraint ==> -x in analyzed && x != 0
    ensures Core(f, failed, true, constraint)
  {
    hide TrailOk, AllExplained, Collected;
    forall m | Models(m, f) ensures SomeFalse(m, failed) || !Satisfies(m, constraint) {
      if x :| x in constraint && True(m, x) {
        FalseIsExplained(s, cs, f, seen, analyzed, failed, m, -x);
      }
    }
  }

  lemma NothingCollected(s: Stack)
    ensures Collected(s, {}, [])
  {
  }

  lemma StartCollected(s: Stack, x: int)
    requires x in s.vals
    ensures Collected(s, {} + {Abs(x)}, [] + [x]) && Collected(s, {} + {Abs(-x)}, [] + [x])
  {
    NothingCollected(s);
    CollectedStep(s, {}, [], x);
    assert Abs(x) == Abs(-x);
  }

  lemma NotYetSeen(s: Stack, seen: set<int>, analyzed: seq<int>, c: Clause, i: nat)
    requires Placed(s) && Collected(s, seen, analyzed) && NoDuplicates(c) && i == |analyzed| < |c|
    requires forall k :: 0 <= k < i ==> analyzed[k] == -c[k]
    requires forall x :: x in c ==> -x in s.vals
    ensures Abs(-c[i]) !in seen
  {
    assert c[i] in c;
    assert forall k :: 0 <= k < i ==> analyzed[k] != -c[i];
    if Abs(-c[i]) in seen {
      CollectedSeen(s, seen, analyzed, -c[i]);
    }
  }

  lemma HasStamps(order: seq<int>, btab: map<int, int>, stamp: int)
    requires Stamped(order, btab, stamp)
    ensures forall v :: v in order ==> v in btab
  {
  }

  /** The search is blocked by a false assumption or a false constraint. */
  ghost predicate Blocked(s: Stack, assumptions: seq<int>, constraint: Clause) {
    var level := CurrentLevel(s);
    if 0 <= level < |assumptions| then -assumptions[level] in s.vals
    else level == |assumptions| && constraint != [] && AllUntrue(constraint, s.vals)
  }

  /** A new level: a pseudo level without decision or one with the decision `lit`. */
  ghost function Opened(s: Stack, lit: int): Stack {
    if lit == 0 then Pseudo(s) else Decided(s, lit)
  }

  /** Assumptions come first and then the constraint, with pseudo levels for what is true already.
      After that the variable with the largest stamp is decided. */
  ghost predicate DecisionIs(s: Stack, btab: map<int, int>, order: seq<int>, assumptions: seq<int>,
                             constraint: Clause, positive: bool, lit: int) {
    var level := CurrentLevel(s);
    if 0 <= level < |assumptions| then
      lit == if assumptions[level] in s.vals then 0 else assumptions[level]
    else if level == |assumptions| && constraint != [] then
      if lit == 0 then constraint[0] in s.vals
      else !HasTrue(constraint, s.vals) && BestOpen(constraint, s.vals, btab, lit)
    else
      && lit != 0 && Abs(lit) in order && lit !in s.vals && -lit !in s.vals && Abs(lit) in btab
      && (lit > 0 <==> positive)
      && forall v :: v in order && v !in Variables(s.vals) ==> v in btab && btab[v] <= btab[Abs(lit)]
  }

  lemma OpenedMeans(s: Stack, lit: int)
    ensures Opened(s, lit).control == s.control + [Level(lit, |s.trail|)] && CurrentLevel(s) == |s.control| - 1
    ensures Opened(s, lit) == if lit == 0 then Pseudo(s) else Decided(s, lit)
  {
  }

  lemma BlockedMeans(s: Stack, assumptions: seq<int>, constraint: Clause)
    ensures 0 <= CurrentLevel(s) < |assumptions| ==>
              (Blocked(s, assumptions, constraint) <==> -assumptions[CurrentLevel(s)] in s.vals)
    ensures CurrentLevel(s) >= |assumptions| ==>
              (Blocked(s, assumptions, constraint) <==>
                CurrentLevel(s) == |assumptions| && constraint != [] && AllUntrue(constraint, s.vals))
  {
  }

  /** A blocked search fails for its assumptions or, when they all hold, for the constraint. */
  lemma BlockedFails(s: Stack, assumptions: seq<int>, constraint: Clause)
    requires Blocked(s, assumptions, constraint) && CurrentLevel(s) >= 0
    ensures CurrentLevel(s) <= |assumptions|
    ensures if CurrentLevel(s) < |assumptions| then exists x :: x in assumptions && -x in s.vals
            else AllUntrue(constraint, s.vals)
  {
    if CurrentLevel(s) < |assumptions| {
      assert assumptions[CurrentLevel(s)] in assumptions;
    }
  }

  lemma DecisionIntro(s: Stack, btab: map<int, int>, order: seq<int>, assumptions: seq<int>, constraint: Clause,
                      positive: bool, lit: int)
    requires CurrentLevel(s) >= 0
    requires if CurrentLevel(s) < |assumptions| then
               lit == if assumptions[CurrentLevel(s)] in s.vals then 0 else assumptions[CurrentLevel(s)]
             else if CurrentLevel(s) == |assumptions| && constraint != [] then
               if lit == 0 then constraint[0] in s.vals
               else !HasTrue(constraint, s.vals) && BestOpen(constraint, s.vals, btab, lit)
             else
               && lit != 0 && Abs(lit) in order && lit !in s.vals && -lit !in s.vals && Abs(lit) in btab
               && (lit > 0 <==> positive)
               && forall v :: v in order && v !in Variables(s.vals) ==> v in btab && btab[v] <= btab[Abs(lit)]
    ensures DecisionIs(s, btab, order, assumptions, constraint, positive, lit)
  {
  }

  lemma ConsistentMeans(vals: set<int>, lit: int)
    requires Consistent(vals)
    ensures lit in vals ==> -lit !in vals
  {
  }

  lemma StampsIntro(c: Clause, order: seq<int>, btab: map<int, int>, stamp: int)
    requires Stamped(order, btab, stamp) && forall x :: x in c ==> Abs(x) in order
    ensures Stamps(c, btab)
  {
  }

  lemma NotAllUntrue(c: Clause, d: Clause, vals: set<int>, lit: int)
    requires Consistent(vals) && multiset(c) == multiset(d) && d != [] && d[0] == lit && lit in vals
    ensures !AllUntrue(c, vals)
  {
    SameMultisetSameLits(c, d);
    assert d[0] in d;
  }

  lemma OpenLiteral(c: Clause, vals: set<int>, btab: map<int, int>, lit: int)
    requires BestOpen(c, vals, btab, lit)
    ensures lit in c && lit !in vals && -lit !in vals && !AllUntrue(c, vals)
  {
  }

  lemma VariableIsOpen(vals: set<int>, idx: int, lit: int)
    requires idx !in Variables(vals) && (lit == idx || lit == -idx) && idx > 0
    ensures lit !in vals && -lit !in vals && lit != 0 && Abs(lit) == idx
  {
    assert lit in vals ==> Abs(lit) in Variables(vals);
    assert -lit in vals ==> Abs(-lit) in Variables(vals);
  }

  class Assumer {
    const search: Searcher
    var assumptions: seq<int>
    var constraint: Clause
    var failed: set<int>
    var unsatConstraint: bool
    var seen: set<int>
    var analyzed: seq<int>

    /** Assumptions and the constraint are over queued variables, and levels belong to assumptions. */
    ghost predicate Valid()
      reads `assumptions, `constraint, search, search.queue
    {
      && search.Valid() && LevelsAreAssumed(search.control, assumptions)
      && (forall x :: x in assumptions || x in constraint ==> x != 0 && Abs(x) in search.queue.order)
      && NoDuplicates(constraint)
    }

    lemma ValidMeans()
      requires Valid()
      ensures search.Valid() && LevelsAreAssumed(search.control, assumptions)
      ensures forall x :: x in assumptions || x in constraint ==> x != 0 && Abs(x) in search.queue.order
      ensures NoDuplicates(constraint)
    {
    }

    lemma ValidIntro()
      requires search.Valid() && LevelsAreAssumed(search.control, assumptions)
      requires forall x :: x in assumptions || x in constraint ==> x != 0 && Abs(x) in search.queue.order
      requires NoDuplicates(constraint)
      ensures Valid()
    {
    }

    constructor (s: Searcher)
      requires s.Valid() && |s.control| == 1
      ensures search == s && Valid() && assumptions == [] && constraint == [] && failed == {} && !unsatConstraint
      ensures seen == {} && analyzed == []
    {
      search := s;
      assumptions, constraint, failed, unsatConstraint, seen, analyzed := [], [], {}, false, {}, [];
    }

    // ------------------------------------------------------------ deciding

    /** Opens the next level, or finds out that an assumption or the constraint is false. */
    method Decide(positive: bool) returns (res: int, ghost lit: int)
      requires Valid()
      requires CurrentLevel(search.Now()) < |assumptions| + (if constraint == [] then 0 else 1)
               || exists v :: v in search.queue.order && v !in Variables(search.vals)
      modifies this`constraint, this`unsatConstraint, search`trail, search`vals, search`vtab, search`control
      modifies search.queue`unassigned, search.queue`bumped
      ensures Valid() && multiset(constraint) == multiset(old(constraint))
      ensures if res == 0 && lit == 0 && old(CurrentLevel(search.Now())) == |assumptions|
              then TrueInFront(old(constraint), old(search.vals), constraint) else constraint == old(constraint)
      ensures res == if Blocked(old(search.Now()), assumptions, old(constraint)) then 20 else 0
      ensures res == 20 ==> search.Now() == old(search.Now())
      ensures unsatConstraint == (old(unsatConstraint) || (res == 20 && CurrentLevel(search.Now()) == |assumptions|))
      ensures res == 0 ==> search.Now() == Opened(old(search.Now()), lit)
      ensures res == 0 ==>
                DecisionIs(old(search.Now()), search.queue.btab, search.queue.order, assumptions, constraint, positive,
                           lit)
    {
      hide *;
      ValidMeans();
      search.ValidMeans();
      ghost var s := search.Now();
      var level := search.LevelNow();
      BlockedMeans(s, assumptions, constraint);
      res, lit := 0, 0;
      if level < |assumptions| {
        res, lit := DecideAssumption(assumptions[level]);
      } else if level == |assumptions| && constraint != [] {
        res, lit := DecideConstraint();
      } else {
        lit := DecideVariable(positive);
      }
      if res == 0 {
        DecisionIntro(s, search.queue.btab, search.queue.order, assumptions, constraint, positive, lit);
      }
    }

    /** Decides the next assumption. */
    method DecideAssumption(lit: int) returns (res: int, decision: int)
      requires Valid() && CurrentLevel(search.Now()) < |assumptions| && lit == assumptions[CurrentLevel(search.Now())]
      modifies search`trail, search`vals, search`vtab, search`control
      ensures Valid() && res == if -lit in old(search.vals) then 20 else 0
      ensures res == 20 ==> search.Now() == old(search.Now())
      ensures res == 0 ==> search.Now() == Opened(old(search.Now()), decision)
      ensures decision == if lit in old(search.vals) then 0 else lit
    {
      hide *;
      ValidMeans();
      search.ValidMeans();
      ghost var s := search.Now();
      TrailMeans(s, search.clauses, search.formula);
      PlacedIsConsistent(s);
      ConsistentMeans(search.vals, lit);
      assert lit in assumptions;
      res, decision := 0, if lit in search.vals then 0 else lit;
      if -lit in search.vals {
        res := 20;
        return;
      }
      Open(decision);
    }

    /** Decides a literal of the constraint unless one is true or all are false. */
    method DecideConstraint() returns (res: int, decision: int)
      requires Valid() && CurrentLevel(search.Now()) == |assumptions| && constraint != []
      modifies this`constraint, this`unsatConstraint, search`trail, search`vals, search`vtab, search`control
      ensures Valid() && multiset(constraint) == multiset(old(constraint))
      ensures res == if AllUntrue(old(constraint), old(search.vals)) then 20 else 0
      ensures unsatConstraint == (old(unsatConstraint) || res == 20)
      ensures res == 20 ==> search.Now() == old(search.Now())
      ensures if res == 0 && decision == 0 then TrueInFront(old(constraint), old(search.vals), constraint)
              else constraint == old(constraint)
      ensures res == 0 ==> search.Now() == Opened(old(search.Now()), decision)
      ensures res == 0 ==>
                if decision == 0 then constraint[0] in old(search.vals)
                else !HasTrue(constraint, old(search.vals))
                     && BestOpen(constraint, old(search.vals), search.queue.btab, decision)
    {
      hide *;
      ValidMeans();
      search.ValidMeans();
      search.queue.ValidMeans();
      ghost var s, c := search.Now(), constraint;
      TrailMeans(s, search.clauses, search.formula);
      PlacedIsConsistent(s);
      StampsIntro(c, search.queue.order, search.queue.btab, search.queue.stamp);
      var satisfied, open := SearchConstraint();
      SameConstraint(c, constraint);
      ValidIntro();
      res, decision := 0, 0;
      if satisfied != 0 {
        NotAllUntrue(c, constraint, search.vals, satisfied);
        Open(0);
      } else if open != 0 {
        OpenLiteral(constraint, search.vals, search.queue.btab, open);
        decision := open;
        Open(open);
      } else {
        unsatConstraint, res := true, 20;
      }
    }

    /** Decides the unassigned variable with the largest stamp. */
    method DecideVariable(positive: bool) returns (decision: int)
      requires Valid() && CurrentLevel(search.Now()) >= |assumptions|
      requires exists v :: v in search.queue.order && v !in Variables(search.vals)
      modifies search`trail, search`vals, search`vtab, search`control, search.queue`unassigned, search.queue`bumped
      ensures Valid() && search.Now() == Opened(old(search.Now()), decision)
      ensures decision != 0 && Abs(decision) in search.queue.order && (decision > 0 <==> positive)
      ensures decision !in old(search.vals) && -decision !in old(search.vals) && Abs(decision) in search.queue.btab
      ensures forall v :: v in search.queue.order && v !in Variables(old(search.vals)) ==>
                v in search.queue.btab && search.queue.btab[v] <= search.queue.btab[Abs(decision)]
    {
      hide *;
      ValidMeans();
      search.ValidMeans();
      search.queue.ValidMeans();
      HasStamps(search.queue.order, search.queue.btab, search.queue.stamp);
      var idx := search.NextDecisionVariable();
      decision := if positive then idx else -idx;
      ValidIntro();
      VariableIsOpen(search.vals, idx, decision);
      Open(decision);
    }

    /** Opens a level, which belongs to an assumption or comes after them. */
    method Open(decision: int)
      requires Valid() && CurrentLevel(search.Now()) >= 0
      requires decision != 0 ==>
                 decision !in search.vals && -decision !in search.vals && Abs(decision) in search.queue.order
      requires CurrentLevel(search.Now()) < |assumptions| ==>
                 decision == 0 || decision == assumptions[CurrentLevel(search.Now())]
      modifies search`trail, search`vals, search`vtab, search`control
      ensures Valid() && search.Now() == Opened(old(search.Now()), decision)
    {
      hide *;
      ValidMeans();
      search.ValidMeans();
      ghost var s := search.Now();
      OpenedMeans(s, decision);
      OpenedAssumed(s.control, Level(decision, |s.trail|), assumptions);
      if decision == 0 {
        search.NewPseudoLevel();
      } else {
        search.SearchAssumeDecision(decision);
      }
      search.ValidMeans();
      ValidIntro();
    }

    /** Moves the literals of the constraint up by one until one is true. */
    method ScanConstraint(ghost c: Clause) returns (satisfied: int, open: int, previous: int, ghost i: nat)
      requires constraint == c != [] && 0 !in c && Stamps(c, search.queue.btab)
      modifies this`constraint
      ensures 0 < i <= |c| && constraint == MovedUp(c, i) && previous == c[i - 1]
      ensures satisfied != 0 ==> satisfied == c[i - 1] && satisfied in search.vals
      ensures forall k :: 0 <= k < i - 1 ==> c[k] !in search.vals
      ensures satisfied == 0 ==> i == |c| && Searched(c, i, search.vals, search.queue.btab, open)
    {
      hide *;
      ghost var vals, btab := search.vals, search.queue.btab;
      satisfied, open, previous := 0, 0, 0;
      SearchedNothing(c, vals, btab);
      var k := 0;
      i := 0;
      while k < |constraint|
        invariant k == i <= |c| == |constraint| && constraint == MovedUp(c, i)
        invariant previous == if i == 0 then 0 else c[i - 1]
        invariant satisfied == 0 && Searched(c, i, vals, btab, open) && forall j :: 0 <= j < i ==> c[j] !in vals
      {
        var lit := constraint[k];
        MoveUp(c, i);
        StampOf(c, btab, i);
        search.ValMeans(lit);
        constraint := constraint[k := previous];
        previous := lit;
        k := k + 1;
        i := k;
        if search.Val(lit) > 0 {
          return lit, open, previous, i;
        }
        SearchedStep(c, i - 1, vals, btab, open);
        if search.Val(lit) < 0 {
          continue;
        }
        if open == 0 || search.queue.btab[Abs(lit)] > search.queue.btab[Abs(open)] {
          open := lit;
        }
      }
    }

    /** Looks for a literal of the constraint that is true, which is moved to the front, or for one
        that is unassigned. */
    method SearchConstraint() returns (satisfied: int, open: int)
      requires constraint != [] && 0 !in constraint && Stamps(constraint, search.queue.btab)
      modifies this`constraint
      ensures multiset(constraint) == multiset(old(constraint))
      ensures satisfied != 0 ==>
                && constraint[0] == satisfied && satisfied in search.vals
                && TrueInFront(old(constraint), search.vals, constraint)
      ensures satisfied == 0 ==>
                && constraint == old(constraint) && !HasTrue(constraint, search.vals)
                && if open == 0 then AllUntrue(constraint, search.vals)
                   else BestOpen(constraint, search.vals, search.queue.btab, open)
    {
      hide *;
      ghost var c := constraint;
      var previous;
      ghost var i;
      satisfied, open, previous, i := ScanConstraint(c);
      if satisfied != 0 {
        MovedToFront(c, i - 1);
        FoundInFront(c, i - 1, search.vals);
        constraint := constraint[0 := satisfied];
      } else {
        SearchedAll(c, search.vals, search.queue.btab, open);
        MoveBack(c, previous);
      }
    }

    /** Moves all literals of the constraint back. */
    method MoveBack(ghost c: Clause, previous: int)
      requires c != [] && constraint == MovedUp(c, |c|) && previous == c[|c| - 1]
      modifies this`constraint
      ensures constraint == c
    {
      hide MovedUp;
      MovedAll(c, 0);
      for i := 0 to |constraint| - 1
        invariant |constraint| == |c| && constraint[..i] == c[..i]
        invariant forall k :: i <= k < |c| ==> constraint[k] == MovedUp(c, |c|)[k]
      {
        MovedAll(c, i + 1);
        constraint := constraint[i := constraint[i + 1]];
      }
      constraint := constraint[|constraint| - 1 := previous];
      assert c == c[..|c| - 1] + [previous];
    }

    // ------------------------------------------------------------ failing

    /** Chooses the assumption from which the failure is explained. */
    method ChooseFailing() returns (r: Failure)
      requires 0 !in assumptions && exists x :: x in assumptions && -x in search.vals
      requires Consistent(search.vals)
      ensures FailureIs(search.Now(), assumptions, r)
    {
      ghost var s := search.Now();
      var clashing, first, level := 0, 0, 0;
      ghost var at: nat := 0;
      for i := 0 to |assumptions|
        invariant level >= 0 && Chosen(s, assumptions, i, clashing, first, level, at)
      {
        var lit := assumptions[i];
        if search.Val(lit) >= 0 {
          continue;
        }
        var v := VarOf(search.vtab, lit);
        if v.level == 0 {
          assert FailureAt(s, assumptions, Unit(lit), i);
          return Unit(lit);
        }
        if clashing != 0 {
          continue;
        }
        if v.reason == -1 {
          clashing, at := lit, i;
        } else if first == 0 || v.level < level {
          first, level, at := lit, v.level, i;
        }
      }
      ChosenMeans(s, assumptions, clashing, first, level, at);
      r := if clashing != 0 then Clashing(clashing) else First(first);
    }

    /** Looks at the reasons of the analyzed literals until only units and assumptions are left. */
    method ExplainFailure()
      requires Valid() && CurrentLevel(search.Now()) <= |assumptions|
      requires Collected(search.Now(), seen, analyzed)
      modifies this`failed, this`seen, this`analyzed
      ensures Collected(search.Now(), seen, analyzed) && old(failed) <= failed
      ensures forall x :: x in old(analyzed) ==> x in analyzed
      ensures AllExplained(search.Now(), search.clauses, analyzed, failed, |analyzed|)
      ensures forall x :: x in failed && x !in old(failed) ==> x in assumptions
      ensures forall x :: x in analyzed <==> ReachedFrom(search.Now(), search.clauses, Lits(old(analyzed)), x)
      ensures forall x :: x in failed <==>
                x in old(failed) || FailsFrom(search.Now(), search.clauses, Lits(old(analyzed)), x)
    {
      hide *;
      ghost var start := Lits(analyzed);
      ghost var s, cs := search.Now(), search.clauses;
      ValidMeans();
      search.ValidMeans();
      TrailMeans(s, cs, search.formula);
      var next := 0;
      NothingExplained(s, cs, analyzed, failed);
      CollectedSize(s, seen, analyzed);
      StartReached(s, cs, analyzed, start);
      FailedNothing(s, failed, analyzed);
      while next < |analyzed|
        invariant 0 <= next <= |analyzed| <= |s.vals| && Collected(s, seen, analyzed)
        invariant old(analyzed) <= analyzed && old(failed) <= failed
        invariant AllExplained(s, cs, analyzed, failed, next)
        invariant forall x :: x in failed && x !in old(failed) ==> x in assumptions
        invariant AllReached(s, cs, analyzed, start) && FailedUpTo(s, old(failed), failed, analyzed, next)
        decreases |s.vals| - next
      {
        ghost var before, failedBefore := analyzed, failed;
        var lit := analyzed[next];
        CollectedIsTrue(s, seen, analyzed, next);
        var v := VarOf(search.vtab, lit);
        VarMeans(s, lit, v);
        if v.level != 0 {
          if v.reason != -1 {
            ReasonExists(s, cs, lit);
            CollectReason(lit, v.reason);
            MoreReached(s, cs, before, analyzed, start, lit);
          } else {
            DecisionIsAssumed(s, assumptions, lit);
            failed := failed + {lit};
          }
        }
        FailedNext(s, old(failed), failedBefore, failed, before, analyzed, next);
        ExplainedMore(s, cs, before, analyzed, failedBefore, failed, next);
        ExplainedIntro(s, cs, analyzed, failed, lit, v);
        ExplainedNext(s, cs, analyzed, failed, next, lit);
        CollectedSize(s, seen, analyzed);
        next := next + 1;
      }
      forall x | x in old(analyzed) ensures x in analyzed {
        var k :| 0 <= k < |old(analyzed)| && old(analyzed)[k] == x;
        assert analyzed[k] == x;
      }
      LitsMean(old(analyzed));
      AnalyzedIsReached(s, cs, analyzed, failed, start);
      FailedAll(s, cs, old(failed), failed, analyzed, start);
    }

    lemma LitsMean(l: seq<int>)
      ensures forall x :: x in Lits(l) <==> x in l
    {
    }

    /** Finds the assumptions because of which the search failed: they are a core of the formula,
        together with the constraint if that one failed. */
    method Failing()
      requires Valid() && CurrentLevel(search.Now()) <= |assumptions| && seen == {} && analyzed == [] && failed == {}
      requires if unsatConstraint then forall x :: x in constraint ==> -x in search.vals
               else exists x :: x in assumptions && -x in search.vals
      modifies this`failed, this`seen, this`analyzed
      ensures Valid() && seen == {} && analyzed == []
      ensures forall x :: x in failed ==> x in assumptions
      ensures Core(search.formula, failed, unsatConstraint, constraint)
      ensures unsatConstraint ==> forall x :: x in failed <==>
                FailsFrom(search.Now(), search.clauses, Negations(Lits(constraint)), x)
      ensures !unsatConstraint ==>
                exists r :: && FailureIs(search.Now(), assumptions, r)
                            && FailedAre(search.Now(), search.clauses, failed, r)
    {
      hide *;
      ghost var s, f := search.Now(), search.formula;
      ValidMeans();
      search.ValidMeans();
      TrailMeans(s, search.clauses, f);
      PlacedIsConsistent(s);
      ghost var r := Unit(0);
      if !unsatConstraint {
        r := FailAssumption();
      } else {
        CollectConstraint();
        ExplainFailure();
        ConstraintCore(s, search.clauses, f, seen, analyzed, failed, constraint);
      }
      seen, analyzed := {}, [];
      assert !unsatConstraint ==>
               FailureIs(search.Now(), assumptions, r) && FailedAre(search.Now(), search.clauses, failed, r);
    }

    /** Explains the failure from a false assumption. */
    method FailAssumption() returns (ghost r: Failure)
      requires Valid() && CurrentLevel(search.Now()) <= |assumptions| && seen == {} && analyzed == [] && failed == {}
      requires exists x :: x in assumptions && -x in search.vals
      modifies this`failed, this`seen, this`analyzed
      ensures Valid() && forall x :: x in failed ==> x in assumptions
      ensures Core(search.formula, failed, false, constraint)
      ensures FailureIs(search.Now(), assumptions, r) && FailedAre(search.Now(), search.clauses, failed, r)
    {
      hide *;
      ghost var s, f := search.Now(), search.formula;
      ValidMeans();
      search.ValidMeans();
      TrailMeans(s, search.clauses, f);
      PlacedIsConsistent(s);
      var choice := ChooseFailing();
      r := choice;
      FailureMeans(s, assumptions, choice);
      failed := failed + {choice.lit};
      match choice {
        case Unit(lit) =>
          UnitCore(s, f, failed, lit, constraint);
        case Clashing(lit) =>
          DecisionIsAssumed(s, assumptions, -lit);
          failed := failed + {-lit};
          ClashingCore(f, failed, lit, constraint);
        case First(lit) =>
          FailFirst(lit);
      }
      FailedIntro(s, search.clauses, failed, r);
    }

    /** Explains the failure from an assumption that is false for a reason. */
    method FailFirst(lit: int)
      requires Valid() && CurrentLevel(search.Now()) <= |assumptions| && seen == {} && analyzed == []
      requires failed == {lit} && lit in assumptions && -lit in search.vals
      modifies this`failed, this`seen, this`analyzed
      ensures Valid() && forall x :: x in failed ==> x in assumptions
      ensures Core(search.formula, failed, false, constraint)
      ensures forall x :: x in failed <==> x == lit || FailsFrom(search.Now(), search.clauses, {-lit}, x)
    {
      hide *;
      ghost var s, f := search.Now(), search.formula;
      ValidMeans();
      search.ValidMeans();
      StartCollected(s, -lit);
      seen, analyzed := seen + {Abs(lit)}, analyzed + [-lit];
      assert -lit in analyzed;
      OneLit(-lit);
      ExplainFailure();
      FirstCore(s, search.clauses, f, seen, analyzed, failed, lit, constraint);
    }

    lemma OneLit(x: int)
      ensures [] + [x] == [x] && Lits([x]) == {x}
    {
    }

    /** Starts from the negations of the literals of a failed constraint. */
    method CollectConstraint()
      requires Placed(search.Now()) && seen == {} && analyzed == [] && NoDuplicates(constraint)
      requires forall x :: x in constraint ==> -x in search.vals
      modifies this`seen, this`analyzed
      ensures Collected(search.Now(), seen, analyzed) && forall x :: x in constraint ==> -x in analyzed
      ensures Lits(analyzed) == Negations(Lits(constraint))
    {
      hide Placed, Collected, Negations, Lits;
      ghost var s := search.Now();
      NothingCollected(s);
      for i := 0 to |constraint|
        invariant Collected(s, seen, analyzed) && |analyzed| == i
        invariant forall k :: 0 <= k < i ==> analyzed[k] == -constraint[k]
      {
        var lit := -constraint[i];
        assert constraint[i] in constraint;
        NotYetSeen(s, seen, analyzed, constraint, i);
        CollectedStep(s, seen, analyzed, lit);
        seen := seen + {Abs(lit)};
        analyzed := analyzed + [lit];
      }
      forall x | x in constraint ensures -x in analyzed {
        var k :| 0 <= k < |constraint| && constraint[k] == x;
        assert analyzed[k] == -x;
      }
      NegationsAre(constraint, analyzed);
    }

    /** Adds the negations of the literals of a reason. */
    method CollectReason(lit: int, reason: nat)
      requires Placed(search.Now()) && Collected(search.Now(), seen, analyzed) && reason < |search.clauses|
      requires lit in analyzed
      requires forall o :: o in search.clauses[reason].lits && o != lit ==> -o in search.vals
      modifies this`seen, this`analyzed
      ensures Collected(search.Now(), seen, analyzed) && old(analyzed) <= analyzed
      ensures forall o :: o in search.clauses[reason].lits && o != lit ==> -o in analyzed
      ensures forall y :: y in analyzed && y !in old(analyzed) ==> -y in search.clauses[reason].lits && -y != lit
    {
      hide Placed, Collected;
      ghost var s := search.Now();
      var c := search.clauses[reason].lits;
      for i := 0 to |c|
        invariant Collected(s, seen, analyzed) && old(analyzed) <= analyzed
        invariant forall k :: 0 <= k < i && c[k] != lit ==> -c[k] in analyzed
        invariant forall y :: y in analyzed && y !in old(analyzed) ==> -y in c && -y != lit
      {
        var other := c[i];
        assert other in c;
        if Abs(other) in seen {
          if other != lit {
            CollectedSeen(s, seen, analyzed, -other);
          }
          continue;
        }
        LitIsSeen(s, seen, analyzed, lit);
        CollectedStep(s, seen, analyzed, -other);
        seen := seen + {Abs(other)};
        analyzed := analyzed + [-other];
      }
    }

    lemma LitIsSeen(s: Stack, seen: set<int>, analyzed: seq<int>, lit: int)
      requires Collected(s, seen, analyzed) && lit in analyzed
      ensures Abs(lit) in seen
    {
    }
  }
}
