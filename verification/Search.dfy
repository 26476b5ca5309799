/** The state of the search: clauses, the trail and the queue of decision variables. */
module Search {
  import opened Cnf
  import opened Lists
  import opened InternalSolver
  import opened Trail
  import opened DecisionQueue

  function Variables(vals: set<int>): set<int> {
    set x | x in vals :: Abs(x)
  }

  /** Literals that became unassigned while the trail was walked from position `from` to `i`. */
  ghost function Walked(s: Stack, n: nat, i: nat): Stack
    requires i <= |s.trail|
  {
    Stack(Keep(s, n, i), KeptVals(s, n, i), MovedVars(s, n, i), s.control)
  }

  lemma WalkedStart(s: Stack, n: nat, i: nat)
    requires Placed(s) && i <= |s.trail| && forall p :: 0 <= p < i ==> LevelOf(s, s.trail[p]) <= n
    ensures Walked(s, n, i) == Stack(s.trail[..i], s.vals, s.vtab, s.control)
  {
    KeepAll(s, n, i);
    assert KeptVals(s, n, i) == s.vals;
    forall v | v in s.vtab ensures MovedVar(s, n, i, v) == s.vtab[v] {
      if s.vtab[v].trail < i {
        KeepAll(s, n, s.vtab[v].trail);
      }
    }
    assert MovedVars(s, n, i) == s.vtab;
  }

  lemma WalkedStep(s: Stack, n: nat, i: nat)
    requires Placed(s) && i < |s.trail|
    ensures var lit, a, b := s.trail[i], Walked(s, n, i), Walked(s, n, i + 1);
            && VarOf(a.vtab, lit) == VarOf(s.vtab, lit) && Abs(lit) in a.vtab && lit in a.vals && b.control == a.control
            && if LevelOf(s, lit) > n
               then b.trail == a.trail && b.vals == a.vals - {lit} && b.vtab == a.vtab
               else && b.trail == a.trail + [lit] && b.vals == a.vals
                    && b.vtab == a.vtab[Abs(lit) := a.vtab[Abs(lit)].(trail := |a.trail|)]
  {
    hide Keep;
    var lit, a, b := s.trail[i], Walked(s, n, i), Walked(s, n, i + 1);
    assert lit in s.vals && PosOf(s, lit) == i;
    KeepStep(s, n, i);
    forall x ensures x in b.vals <==> x in a.vals && (x == lit ==> LevelOf(s, lit) <= n) {
      if x in s.vals && PosOf(s, x) == i {
        assert s.trail[PosOf(s, x)] == x;
      }
    }
    forall v | v in s.vtab
      ensures MovedVar(s, n, i + 1, v)
           == if v == Abs(lit) && LevelOf(s, lit) <= n then MovedVar(s, n, i, v).(trail := |a.trail|)
              else MovedVar(s, n, i, v)
    {
    }
  }

  lemma WalkedValue(s: Stack, n: nat, i: nat)
    requires Placed(s) && i < |s.trail|
    ensures s.trail[i] in s.vals && -s.trail[i] !in s.vals
  {
    PlacedIsConsistent(s);
  }

  lemma KeepStep(s: Stack, n: nat, i: nat)
    requires i < |s.trail|
    ensures Keep(s, n, i + 1) == if LevelOf(s, s.trail[i]) <= n then Keep(s, n, i) + [s.trail[i]] else Keep(s, n, i)
  {
  }

  lemma BackIsWalked(s: Stack, cs: seq<ClauseRecord>, f: Formula, n: nat)
    requires TrailOk(s, cs, f) && n + 1 < |s.control|
    ensures Back(s, n) == Walked(s, n, |s.trail|).(control := s.control[..n + 1])
    ensures Placed(s) && s.control[n + 1].trail <= |s.trail|
    ensures forall p :: 0 <= p < s.control[n + 1].trail ==> LevelOf(s, s.trail[p]) <= n
    ensures s.control[n + 1].trail <= |Back(s, n).trail| <= |s.trail| && Back(s, n).vals <= s.vals
  {
    KeepShorter(s, n, |s.trail|);
    KeepAll(s, n, s.control[n + 1].trail);
    KeepPrefix(s, n, s.control[n + 1].trail, |s.trail|);
  }

  lemma BackNothing(s: Stack, cs: seq<ClauseRecord>, f: Formula, n: nat)
    requires TrailOk(s, cs, f) && n + 1 == |s.control|
    ensures Back(s, n) == s
  {
    WalkedStart(s, n, |s.trail|);
    assert s.trail[..|s.trail|] == s.trail && s.control[..n + 1] == s.control;
  }

  // ---------------------------------------------------------------- variables with a value

  lemma AssignedVariables(order: seq<int>, btab: map<int, int>, bumped: int, vals: set<int>, lit: int)
    requires SearchedDown(order, btab, bumped, Variables(vals))
    ensures SearchedDown(order, btab, bumped, Variables(vals + {lit}))
  {
    forall v | v in Variables(vals) ensures v in Variables(vals + {lit}) {
      var x :| x in vals && Abs(x) == v;
      assert x in vals + {lit};
    }
  }

  lemma FewerVariables(vals: set<int>, lit: int)
    requires lit in vals && -lit !in vals
    ensures Variables(vals - {lit}) == Variables(vals) - {Abs(lit)}
  {
    forall v ensures v in Variables(vals - {lit}) <==> v in Variables(vals) && v != Abs(lit) {
      if v in Variables(vals) && v != Abs(lit) {
        var x :| x in vals && Abs(x) == v;
        assert x in vals - {lit};
      }
      if v in Variables(vals - {lit}) {
        var x :| x in vals - {lit} && Abs(x) == v;
        assert x == lit || x == -lit || Abs(x) != Abs(lit);
      }
    }
  }

  // ---------------------------------------------------------------- assignment levels

  /** The highest level of the other literals of a clause. */
  ghost predicate HighestLevel(s: Stack, lits: Clause, lit: int, level: nat) {
    && (forall o :: o in lits && o != lit ==> LevelOf(s, o) <= level)
    && (level == 0 || exists o :: o in lits && o != lit && LevelOf(s, o) == level)
  }

  /** A unit, or a literal of a clause whose other literals are false. */
  ghost predicate Forced(vals: set<int>, cs: seq<ClauseRecord>, f: Formula, lit: int, reason: int) {
    if reason == -1 then Implies(f, {lit})
    else 0 <= reason < |cs| && lit in cs[reason].lits && forall o :: o in cs[reason].lits && o != lit ==> -o in vals
  }

  /** Units are assigned at level zero, forced literals at the highest level of their clause. */
  ghost predicate AssignmentLevelIs(s: Stack, cs: seq<ClauseRecord>, lit: int, reason: int, level: nat) {
    if 0 <= reason < |cs| then HighestLevel(s, cs[reason].lits, lit, level) else level == 0
  }

  lemma ForcedMeans(vals: set<int>, cs: seq<ClauseRecord>, f: Formula, lit: int, reason: int)
    requires Forced(vals, cs, f, lit, reason)
    ensures reason == -1 || 0 <= reason < |cs|
  {
  }

  lemma AssignmentLevelIntro(s: Stack, cs: seq<ClauseRecord>, lit: int, reason: int, level: nat)
    requires reason == -1 || 0 <= reason < |cs|
    requires if reason == -1 then level == 0 else HighestLevel(s, cs[reason].lits, lit, level)
    ensures AssignmentLevelIs(s, cs, lit, reason, level)
  {
  }

  /** A forced literal may be assigned at that level; at level zero it is a unit. */
  lemma LevelIsUsed(s: Stack, cs: seq<ClauseRecord>, f: Formula, lit: int, reason: int, level: nat)
    requires TrailOk(s, cs, f) && lit != 0 && lit !in s.vals && -lit !in s.vals
    requires Forced(s.vals, cs, f, lit, reason) && AssignmentLevelIs(s, cs, lit, reason, level)
    ensures MayAssign(s, cs, f, lit, level, if level == 0 then -1 else reason)
  {
    if reason != -1 {
      var c := cs[reason].lits;
      forall o | o in c && o != lit ensures LevelOf(s, o) < |s.control| {
        assert s.trail[PosOf(s, -o)] == -o;
      }
      if level == 0 {
        forall m | Models(m, f) ensures Holds(m, {lit}) {
          assert Holds(m, Lits(c));
          var x :| x in Lits(c) && True(m, x);
          if x != lit {
            FalseAtRoot(s, f, m, x);
          }
          assert lit in {lit};
        }
      }
    }
  }

  ghost function TableFormula(cs: seq<ClauseRecord>): Formula {
    set i | 0 <= i < |cs| :: Lits(cs[i].lits)
  }

  lemma TableIsImplied(cs: seq<ClauseRecord>)
    requires WellFormed(cs)
    ensures ClausesImplied(cs, TableFormula(cs))
  {
    forall i | 0 <= i < |cs| ensures Implies(TableFormula(cs), Lits(cs[i].lits)) {
      assert Lits(cs[i].lits) in TableFormula(cs);
    }
  }

  lemma StartIsOk(cs: seq<ClauseRecord>)
    requires WellFormed(cs)
    ensures TrailOk(Stack([], {}, map[], [Level(0, 0)]), cs, TableFormula(cs))
  {
    hide ClausesImplied;
    TableIsImplied(cs);
  }

  /** How much of the trail is still propagated after going back: nothing from the first level that is left on,
      as literals that stay although they come later have to be propagated again. */
  function PropagatedBack(propagated: nat, control: seq<Level>, n: nat): (r: nat)
    requires n < |control|
    ensures r <= propagated
    ensures n + 1 == |control| ==> r == propagated
    ensures n + 1 < |control| ==> r <= control[n + 1].trail && (r == propagated || r == control[n + 1].trail)
  {
    if n + 1 == |control| || propagated <= control[n + 1].trail then propagated else control[n + 1].trail
  }

  /** Going back in two steps leaves as much propagated as going back in one. */
  lemma PropagatedTwice(p: nat, s: Stack, level: nat, n: nat)
    requires Framed(s) && n <= level < |s.control|
    ensures PropagatedBack(PropagatedBack(p, s.control, level), Back(s, level).control, n)
         == PropagatedBack(p, s.control, n)
  {
    hide Keep, KeptVals, MovedVars, Placed;
  }

  /** The variables in the order of their indices. */
  ghost function UpTo(maxVar: nat): seq<int> {
    seq(maxVar, i => i + 1)
  }

  lemma UpToMembers(n: nat)
    ensures (forall v :: v in UpTo(n) <==> 1 <= v <= n) && UpTo(n + 1) == UpTo(n) + [n + 1] && UpTo(0) == []
  {
    forall v | 1 <= v <= n ensures v in UpTo(n) {
      assert UpTo(n)[v - 1] == v;
    }
  }

  class Searcher {
    const queue: Queue
    var trail: seq<int>
    var vals: set<int>
    var vtab: map<int, Var>
    var control: seq<Level>
    var propagated: nat
    var clauses: seq<ClauseRecord>
    var unsat: bool
    ghost const formula: Formula

    /** A solver for the given clauses at the root level, with all variables in the queue. */
    constructor (maxVar: nat, cs: seq<ClauseRecord>)
      requires WellFormed(cs)
      ensures Valid() && fresh(queue) && clauses == cs && !unsat && propagated == 0
      ensures trail == [] && vals == {} && vtab == map[] && control == [Level(0, 0)]
      ensures formula == TableFormula(cs) && queue.order == UpTo(maxVar)
    {
      hide *;
      queue := new Queue();
      trail, vals, vtab, control, propagated, clauses, unsat := [], {}, map[], [Level(0, 0)], 0, cs, false;
      formula := TableFormula(cs);
      new;
      StartIsOk(cs);
      UpToMembers(0);
      for idx := 1 to maxVar + 1
        invariant fresh(queue) && queue.Valid() && queue.Points({}) && queue.order == UpTo(idx - 1)
        invariant trail == [] && vals == {} && vtab == map[] && control == [Level(0, 0)] && propagated == 0
        invariant clauses == cs && !unsat
      {
        UpToMembers(idx - 1);
        queue.InitEnqueue(idx, false, {});
      }
      UpToMembers(maxVar);
      ValidStart(cs);
    }

    lemma ValidStart(cs: seq<ClauseRecord>)
      requires queue.Valid() && queue.Points({}) && clauses == cs && !unsat
      requires trail == [] && vals == {} && vtab == map[] && control == [Level(0, 0)] && propagated == 0
      requires TrailOk(Stack([], {}, map[], [Level(0, 0)]), cs, formula) && forall v :: v in queue.order ==> v > 0
      ensures Valid()
    {
      hide SearchedDown;
      assert Variables({}) == {};
    }

    ghost function Now(): Stack
      reads `trail, `vals, `vtab, `control
    {
      Stack(trail, vals, vtab, control)
    }

    function LevelNow(): int
      reads `control
    {
      |control| - 1
    }

    /** What holds between two steps of the search. */
    ghost predicate Valid()
      reads this, queue
    {
      && TrailOk(Now(), clauses, formula) && queue.Valid() && queue.Points(Variables(vals))
      && (forall x :: x in vals ==> Abs(x) in queue.order) && (forall v :: v in queue.order ==> v > 0)
      && propagated <= |trail| && (unsat ==> !Satisfiable(formula))
    }

    function Val(lit: int): int
      reads `vals
    {
      if lit in vals then 1 else if -lit in vals then -1 else 0
    }

    lemma ValMeans(lit: int)
      ensures Val(lit) == if lit in vals then 1 else if -lit in vals then -1 else 0
    {
    }

    // ------------------------------------------------------------ assigning

    /** The level at which a literal is assigned: the highest level of the other literals. */
    method AssignmentLevel(lit: int, lits: Clause) returns (res: nat)
      ensures HighestLevel(Now(), lits, lit, res)
    {
      res := 0;
      for i := 0 to |lits|
        invariant forall k :: 0 <= k < i && lits[k] != lit ==> LevelOf(Now(), lits[k]) <= res
        invariant res == 0 || exists o :: o in lits && o != lit && LevelOf(Now(), o) == res
      {
        var other := lits[i];
        if other == lit {
          continue;
        }
        assert other in lits;
        var tmp := VarOf(vtab, other).level;
        if tmp > res {
          res := tmp;
        }
      }
    }

    /** Assigns a unit, or a literal that a clause forces, at the level of that clause. */
    method SearchAssign(lit: int, reason: int) returns (ghost level: nat)
      requires Valid() && lit != 0 && lit !in vals && -lit !in vals && Abs(lit) in queue.order
      requires Forced(vals, clauses, formula, lit, reason)
      modifies this`trail, this`vals, this`vtab
      ensures Valid() && trail == old(trail) + [lit] && vals == old(vals) + {lit}
      ensures Now() == Assigned(old(Now()), lit, level, if level == 0 then -1 else reason)
      ensures vtab == old(vtab)[Abs(lit) := Var(level, |old(trail)|, if level == 0 then -1 else reason)]
      ensures AssignmentLevelIs(old(Now()), clauses, lit, reason, level)
    {
      hide *;
      ValidMeans();
      ForcedMeans(vals, clauses, formula, lit, reason);
      var litLevel := 0;
      if reason != -1 {
        litLevel := AssignmentLevel(lit, clauses[reason].lits);
      }
      level := litLevel;
      AssignmentLevelIntro(Now(), clauses, lit, reason, level);
      LevelIsUsed(Now(), clauses, formula, lit, reason, litLevel);
      Place(lit, litLevel, if litLevel == 0 then -1 else reason);
    }

    lemma ValidMeans()
      requires Valid()
      ensures TrailOk(Now(), clauses, formula) && Now() == Stack(trail, vals, vtab, control)
      ensures LevelNow() == CurrentLevel(Now()) == |control| - 1
      ensures queue.Valid() && queue.Points(Variables(vals)) && forall x :: x in vals ==> Abs(x) in queue.order
      ensures propagated <= |trail| && (unsat ==> !Satisfiable(formula))
      ensures |control| > 0 && forall v :: v in queue.order ==> v > 0
    {
    }

    lemma ValidIntro()
      requires TrailOk(Stack(trail, vals, vtab, control), clauses, formula)
      requires queue.Valid() && queue.Points(Variables(vals)) && forall x :: x in vals ==> Abs(x) in queue.order
      requires propagated <= |trail| && (unsat ==> !Satisfiable(formula)) && forall v :: v in queue.order ==> v > 0
      ensures Valid()
    {
      hide TrailOk, Variables;
    }

    method Place(lit: int, litLevel: nat, reason: int)
      requires Valid() && MayAssign(Now(), clauses, formula, lit, litLevel, reason) && Abs(lit) in queue.order
      modifies this`trail, this`vals, this`vtab
      ensures Valid() && Now() == Assigned(old(Now()), lit, litLevel, reason)
      ensures trail == old(trail) + [lit] && vals == old(vals) + {lit}
      ensures vtab == old(vtab)[Abs(lit) := Var(litLevel, |old(trail)|, reason)]
    {
      hide TrailOk, SearchedDown, Variables, MayAssign, Unrepeated, Linked, Stamped;
      AssignedOk(Now(), clauses, formula, lit, litLevel, reason);
      AssignedVariables(queue.order, queue.btab, queue.bumped, vals, lit);
      vtab := vtab[Abs(lit) := Var(litLevel, |trail|, reason)];
      vals := vals + {lit};
      trail := trail + [lit];
    }

    // ------------------------------------------------------------ learning

    /** Adds a clause that follows from the formula. */
    method NewClause(r: ClauseRecord) returns (res: nat)
      requires Valid() && Implies(formula, Lits(r.lits)) && 0 !in r.lits && NoDuplicates(r.lits)
      modifies this`clauses
      ensures Valid() && clauses == old(clauses) + [r] && res == |old(clauses)|
    {
      hide TrailOk, SearchedDown, Variables, Unrepeated, Linked, Stamped, NoDuplicates, Implies;
      LearnOk(Now(), clauses, formula, r);
      res := |clauses|;
      clauses := clauses + [r];
    }

    method LearnEmptyClause()
      requires Valid() && !Satisfiable(formula)
      modifies this`unsat
      ensures Valid() && unsat
    {
      unsat := true;
    }

    /** Puts the literals of a clause into another order. */
    method Reorder(c: nat, lits: Clause)
      requires Valid() && c < |clauses| && multiset(lits) == multiset(clauses[c].lits)
      modifies this`clauses
      ensures Valid() && clauses == old(clauses)[c := old(clauses)[c].(lits := lits)]
    {
      hide TrailOk, SearchedDown, Variables, Unrepeated, Linked, Stamped;
      ReorderOk(Now(), clauses, clauses[c := clauses[c].(lits := lits)], formula);
      clauses := clauses[c := clauses[c].(lits := lits)];
    }

    method MarkGarbage(c: nat)
      requires Valid() && c < |clauses|
      modifies this`clauses
      ensures Valid() && clauses == old(clauses)[c := old(clauses)[c].(garbage := true)]
    {
      hide TrailOk, SearchedDown, Variables, Unrepeated, Linked, Stamped;
      ReorderOk(Now(), clauses, clauses[c := clauses[c].(garbage := true)], formula);
      clauses := clauses[c := clauses[c].(garbage := true)];
    }

    lemma IsQueued(x: int)
      requires Valid() && (x in vals || -x in vals)
      ensures Abs(x) in queue.order && Abs(-x) in queue.order
    {
      assert Abs(x) == Abs(-x);
    }

    lemma ClausesAreUnique()
      requires Valid()
      ensures WellFormed(clauses)
    {
    }

    /** Moves variables, sorted by their stamps, behind all others in the queue. */
    method Bump(sorted: seq<int>)
      requires Valid() && Increasing(sorted, queue.btab) && forall v :: v in sorted ==> v in queue.order
      modifies queue
      ensures Valid() && queue.order == Others(old(queue.order), Lits(sorted)) + Among(old(queue.order), Lits(sorted))
    {
      hide TrailOk, SearchedDown, Variables, Unrepeated, Linked, Stamped, Increasing, Others, Among;
      queue.ValidMeans();
      SortedIsAmong(queue.order, sorted, queue.btab, queue.stamp);
      OthersMembers(queue.order, Lits(sorted));
      queue.BumpVariables(sorted, Variables(vals));
    }

    // ------------------------------------------------------------ deciding

    /** Opens a new level with a decision. */
    method SearchAssumeDecision(lit: int)
      requires Valid() && lit != 0 && lit !in vals && -lit !in vals && Abs(lit) in queue.order
      modifies this`trail, this`vals, this`vtab, this`control
      ensures Valid() && Now() == Decided(old(Now()), lit)
      ensures trail == old(trail) + [lit] && vals == old(vals) + {lit}
      ensures control == old(control) + [Level(lit, |old(trail)|)]
      ensures vtab == old(vtab)[Abs(lit) := Var(|old(control)|, |old(trail)|, -1)]
    {
      hide TrailOk, SearchedDown, Variables, Unrepeated, Linked, Stamped;
      DecidedOk(Now(), clauses, formula, lit);
      AssignedVariables(queue.order, queue.btab, queue.bumped, vals, lit);
      control := control + [Level(lit, |trail|)];
      vtab := vtab[Abs(lit) := Var(|control| - 1, |trail|, -1)];
      vals := vals + {lit};
      trail := trail + [lit];
    }

    /** An unassigned variable with the largest stamp. */
    method NextDecisionVariable() returns (res: int)
      requires Valid() && exists v :: v in queue.order && v !in Variables(vals)
      modifies queue`unassigned, queue`bumped
      ensures Valid() && res in queue.order && res !in Variables(vals)
      ensures forall v :: v in queue.order && v !in Variables(vals) ==> queue.btab[v] <= queue.btab[res]
    {
      hide *;
      ValidMeans();
      res := queue.NextDecision(Variables(vals));
      ValidIntro();
    }

    /** Opens a new level without a decision. */
    method NewPseudoLevel()
      requires Valid()
      modifies this`control
      ensures Valid() && Now() == Pseudo(old(Now())) && control == old(control) + [Level(0, |trail|)]
    {
      hide TrailOk, SearchedDown, Variables, Unrepeated, Linked, Stamped;
      PseudoOk(Now(), clauses, formula);
      control := control + [Level(0, |trail|)];
    }

    // ------------------------------------------------------------ backtracking

    /** Unassigns the literals above a level.  Literals of lower levels that were assigned out
        of order stay on the trail, in their order. */
    method Backtrack(newLevel: nat)
      requires Valid() && newLevel < |control|
      modifies this`trail, this`vals, this`vtab, this`control, this`propagated, queue`unassigned, queue`bumped
      ensures Valid() && Now() == Back(old(Now()), newLevel)
      ensures propagated == PropagatedBack(old(propagated), old(control), newLevel)
      ensures propagated <= |trail| <= |old(trail)| && control == old(control)[..newLevel + 1]
      ensures forall x :: x in vals <==> x in old(vals) && LevelOf(old(Now()), x) <= newLevel
      ensures forall x :: x in vals ==> && LevelOf(Now(), x) == LevelOf(old(Now()), x)
                                        && ReasonOf(Now(), x) == ReasonOf(old(Now()), x)
    {
      hide *;
      ValidMeans();
      TrailMeans(Now(), clauses, formula);
      BackMeans(Now(), newLevel);
      if newLevel == |control| - 1 {
        BackNothing(Now(), clauses, formula, newLevel);
        return;
      }
      ghost var s := Now();
      BackOk(s, clauses, formula, newLevel);
      BackIsWalked(s, clauses, formula, newLevel);
      var start := control[newLevel + 1].trail;
      WalkBack(newLevel, start);
      NowMeans();
      if propagated > start {
        propagated := start;
      }
      control := control[..newLevel + 1];
      NowMeans();
      ValidIntro();
    }

    lemma NowMeans()
      ensures Now() == Stack(trail, vals, vtab, control)
    {
    }

    /** The pass over the trail: literals that are kept move down. */
    method WalkBack(newLevel: nat, start: nat)
      requires Placed(Now()) && start <= |trail| && forall p :: 0 <= p < start ==> LevelOf(Now(), trail[p]) <= newLevel
      requires queue.Valid() && queue.Points(Variables(vals)) && forall x :: x in vals ==> Abs(x) in queue.order
      modifies this`trail, this`vals, this`vtab, queue`unassigned, queue`bumped
      ensures Now() == Walked(old(Now()), newLevel, |old(trail)|)
      ensures queue.Valid() && queue.Points(Variables(vals)) && vals <= old(vals)
    {
      hide Placed, Walked, Keep, KeptVals, MovedVars, SearchedDown, Variables, Unrepeated, Linked, Stamped;
      ghost var s := Now();
      var endOfTrail := |trail|;
      var i, j := start, start;
      WalkedStart(s, newLevel, i);
      while i < endOfTrail
        invariant start <= j <= i <= |trail| == endOfTrail == |s.trail|
        invariant Stack(trail[..j], vals, vtab, control) == Walked(s, newLevel, i)
        invariant forall k :: i <= k < |trail| ==> trail[k] == s.trail[k]
        invariant queue.Valid() && queue.Points(Variables(vals)) && vals <= s.vals
      {
        var lit := trail[i];
        WalkedStep(s, newLevel, i);
        WalkedValue(s, newLevel, i);
        i := i + 1;
        if VarOf(vtab, lit).level > newLevel {
          Unassign(lit);
        } else {
          trail := trail[j := lit];
          vtab := vtab[Abs(lit) := vtab[Abs(lit)].(trail := j)];
          j := j + 1;
          assert trail[..j] == trail[..j - 1] + [lit];
        }
      }
      trail := trail[..j];
    }

    /** A variable without value may become the next decision again. */
    method Unassign(lit: int)
      requires lit in vals && -lit !in vals && queue.Valid() && queue.Points(Variables(vals)) && Abs(lit) in queue.order
      modifies this`vals, queue`unassigned, queue`bumped
      ensures vals == old(vals) - {lit} && queue.Valid() && queue.Points(Variables(vals))
    {
      hide SearchedDown, Variables, Unrepeated, Linked, Stamped;
      FewerVariables(vals, lit);
      queue.NoticeUnassigned(Abs(lit), Variables(vals));
      vals := vals - {lit};
    }
  }
}
