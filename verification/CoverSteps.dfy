/** Covered clauses: what asymmetric and covered literal additions mean. */
module CoverSteps {
  import opened Cnf
  import opened Extension
  import opened Reconstruction
  import opened InternalSolver

  /** Every model of the formula that falsifies the covered literals agrees with the values. */
  ghost predicate Entailed(f: Formula, covered: set<int>, vals: set<int>) {
    forall m, x :: Models(m, f) && !Holds(m, covered) && x in vals ==> True(m, x)
  }

  /** The only literal of a clause that is not false is true under the assumptions. */
  lemma AsymmetricAddition(f: Formula, covered: set<int>, vals: set<int>, d: set<int>, u: int)
    requires Entailed(f, covered, vals) && d in f && 0 !in vals && 0 !in d
    requires forall x :: x in d && x != u ==> -x in vals
    ensures Entailed(f, covered, vals + {u})
  {
    forall m | Models(m, f) && !Holds(m, covered) ensures True(m, u) {
      var x :| x in d && True(m, x);
      assert x != u ==> True(m, -x);
    }
  }

  /** A falsified clause shows that the formula implies the covered literals. */
  lemma AsymmetricConflict(f: Formula, covered: set<int>, vals: set<int>, d: set<int>)
    requires Entailed(f, covered, vals) && d in f && 0 !in d
    requires forall x :: x in d ==> -x in vals
    ensures Implies(f, covered)
  {
    forall m | Models(m, f) ensures Holds(m, covered) {
      var x :| x in d && True(m, x);
      assert !Holds(m, covered) ==> True(m, -x);
    }
  }

  // ---------------------------------------------------------------- resolution candidates

  /** The clause is satisfied by a literal other than the resolved one. */
  ghost predicate DoublyTrue(d: Clause, lit: int, vals: set<int>) {
    exists x :: x in d && x != -lit && x in vals
  }

  /** The literals of a candidate that have no value. */
  ghost predicate FreeIn(d: Clause, lit: int, vals: set<int>, x: int) {
    x in d && x != -lit && -x !in vals
  }

  ghost predicate IsCandidate(cs: seq<ClauseRecord>, os: seq<int>, lit: int, vals: set<int>, i: int) {
    i in os && 0 <= i < |cs| && !cs[i].garbage && !DoublyTrue(cs[i].lits, lit, vals)
  }

  ghost predicate HasCandidate(cs: seq<ClauseRecord>, os: seq<int>, lit: int, vals: set<int>) {
    exists i :: IsCandidate(cs, os, lit, vals, i)
  }

  /** The literal is free in all candidates. */
  ghost predicate InAll(cs: seq<ClauseRecord>, os: seq<int>, lit: int, vals: set<int>, x: int) {
    forall i :: IsCandidate(cs, os, lit, vals, i) ==> FreeIn(cs[i].lits, lit, vals, x)
  }

  /** Nothing can be added for the literal: there are candidates, without a common free literal. */
  ghost predicate Exhausted(cs: seq<ClauseRecord>, os: seq<int>, lit: int, vals: set<int>) {
    HasCandidate(cs, os, lit, vals) && forall x :: !InAll(cs, os, lit, vals, x)
  }

  lemma ExhaustedSameMembers(cs: seq<ClauseRecord>, os: seq<int>, os': seq<int>, lit: int, vals: set<int>)
    requires Exhausted(cs, os, lit, vals) && forall i :: i in os' <==> i in os
    ensures Exhausted(cs, os', lit, vals)
  {
    forall i ensures IsCandidate(cs, os', lit, vals, i) == IsCandidate(cs, os, lit, vals, i) { }
    forall x ensures !InAll(cs, os', lit, vals, x) {
      assert !InAll(cs, os, lit, vals, x);
    }
  }

  /** The common free literals of the candidates may be added to the clause. */
  lemma CoveredAdditionHolds(cs: seq<ClauseRecord>, fixedLits: set<int>, os: seq<int>, lit: int, covered: set<int>,
                             vals: set<int>, next: set<int>)
    requires ConnectedIn(cs, os, -lit) && Consistent(vals) && -lit in vals && lit in covered && -lit !in fixedLits
    requires Entailed(FormulaOf(cs, fixedLits), covered, vals)
    requires forall x :: x in next ==> x !in vals && -x !in vals && InAll(cs, os, lit, vals, x)
    ensures CoveredAddition(FormulaOf(cs, fixedLits), CoverStep(lit, covered, Negations(vals), next))
  {
    var f := FormulaOf(cs, fixedLits);
    var s := CoverStep(lit, covered, Negations(vals), next);
    InNegations(vals, -lit);
    assert NonZero(s.added) by { InNegations(vals, 0); }
    forall m, a | Models(m, f) && !Holds(m, covered) && a in s.added ensures !True(m, a) {
      InNegations(vals, a);
      assert True(m, -a);
    }
    var neg := -lit;
    forall d | d in f && neg in d ensures DoublySatisfied(d, lit, s.added) || next <= d {
      assert forall u :: u in fixedLits && d == {u} ==> u == neg;
      var i :| 0 <= i < |cs| && cs[i].Live() && d == Lits(cs[i].lits);
      assert i in os;
      if DoublyTrue(cs[i].lits, lit, vals) {
        var x :| x in cs[i].lits && x != -lit && x in vals;
        InNegations(vals, -x);
        assert x in d && -x in s.added;
      } else {
        assert IsCandidate(cs, os, lit, vals, i);
        assert forall x :: x in next ==> x in cs[i].lits;
      }
    }
  }

  lemma BlockedAdditionHolds(cs: seq<ClauseRecord>, fixedLits: set<int>, os: seq<int>, lit: int, vals: set<int>,
                             s: CoverStep)
    requires ConnectedIn(cs, os, -lit) && -lit !in fixedLits && !HasCandidate(cs, os, lit, vals)
    requires s.lit == lit && s.added == Negations(vals)
    ensures BlockedAddition(FormulaOf(cs, fixedLits), s)
  {
    var f := FormulaOf(cs, fixedLits);
    var neg := -lit;
    forall d | d in f && neg in d ensures DoublySatisfied(d, lit, s.added) {
      assert forall u :: u in fixedLits && d == {u} ==> u == neg;
      var i :| 0 <= i < |cs| && cs[i].Live() && d == Lits(cs[i].lits);
      assert i in os && !IsCandidate(cs, os, lit, vals, i);
      var x :| x in cs[i].lits && x != -lit && x in vals;
      InNegations(vals, -x);
      assert x in d && -x in s.added;
    }
  }

  lemma EntailedMore(f: Formula, covered: set<int>, vals: set<int>, next: set<int>)
    requires Entailed(f, covered, vals) && 0 !in next
    ensures Entailed(f, covered + next, vals + Negations(next))
  {
    forall m, x | Models(m, f) && !Holds(m, covered + next) && x in vals + Negations(next) ensures True(m, x) {
      if x in Negations(next) {
        InNegations(next, x);
        assert -x in covered + next;
        assert !True(m, -x);
      }
      HoldsLarger(m, covered, covered + next);
    }
  }

  lemma HoldsLarger(m: Assignment, a: set<int>, b: set<int>)
    requires a <= b
    ensures Holds(m, a) ==> Holds(m, b)
  {
    if Holds(m, a) {
      var x :| x in a && True(m, x);
      assert x in b;
    }
  }

  // ---------------------------------------------------------------- the chain of steps

  /** The covered literals after the given steps. */
  ghost function CoveredAfter(first: set<int>, steps: seq<CoverStep>): set<int> {
    if steps == [] then first else steps[|steps| - 1].covered + steps[|steps| - 1].next
  }

  /** A sequence of covered literal additions, and the literals that were saved for them. */
  ghost predicate Chain(f: Formula, first: set<int>, steps: seq<CoverStep>, saved: seq<Clause>) {
    && |saved| == |steps|
    && (steps != [] ==> steps[0].covered == first)
    && (forall k :: 0 <= k < |steps| ==> CoveredAddition(f, steps[k]))
    && (forall k :: 0 <= k < |saved| ==>
          saved[k] != [] && saved[k][0] == steps[k].lit && Lits(saved[k]) == steps[k].covered)
    && (forall k :: 0 <= k < |steps| - 1 ==> steps[k + 1].covered == steps[k].covered + steps[k].next)
  }

  lemma ChainStep(f: Formula, first: set<int>, steps: seq<CoverStep>, saved: seq<Clause>, s: CoverStep, c: Clause)
    requires Chain(f, first, steps, saved) && CoveredAddition(f, s) && s.covered == CoveredAfter(first, steps)
    requires c != [] && c[0] == s.lit && Lits(c) == s.covered
    ensures Chain(f, first, steps + [s], saved + [c])
    ensures CoveredAfter(first, steps + [s]) == s.covered + s.next
  {
    hide CoveredAddition;
  }

  /** The final entries: the saved literals and some that are false at the root. */
  ghost predicate EntriesOf(es: seq<Entry>, saved: seq<Clause>, missing: set<int>) {
    && |es| == |saved|
    && forall k :: 0 <= k < |es| && saved[k] != [] ==>
         es[k].cube == [saved[k][0]] && Lits(saved[k]) <= Lits(es[k].clause) <= Lits(saved[k]) + missing
  }

  lemma ChainIsCoverChain(f: Formula, first: set<int>, steps: seq<CoverStep>, saved: seq<Clause>, es: seq<Entry>,
                          missing: set<int>)
    requires Chain(f, first, steps, saved) && EntriesOf(es, saved, missing)
    requires forall x :: x in missing ==> x != 0 && {-x} in f
    ensures CoverChain(f, es, steps)
  {
    hide CoveredAddition;
    forall k, m | 0 <= k < |steps| && Models(m, f) ensures Satisfies(m, es[k].clause) == Holds(m, steps[k].covered) {
      HoldsLits(m, es[k].clause);
      MissingDoNotMatter(m, f, Lits(saved[k]), Lits(es[k].clause), missing);
    }
  }

  lemma MissingDoNotMatter(m: Assignment, f: Formula, a: set<int>, b: set<int>, missing: set<int>)
    requires Models(m, f) && a <= b <= a + missing && forall x :: x in missing ==> x != 0 && {-x} in f
    ensures Holds(m, a) == Holds(m, b)
  {
    forall x | x in missing ensures !True(m, x) {
      assert Holds(m, {-x});
    }
    HoldsLarger(m, a, b);
  }

  /** Removing a covered clause keeps what the solver promises. */
  lemma CoverKeeps(original: Formula, cs: seq<ClauseRecord>, fixedLits: set<int>, stack: seq<Entry>, c: nat,
                   steps: seq<CoverStep>, saved: seq<Clause>, es: seq<Entry>, first: set<int>, missing: set<int>,
                   maxVar: nat)
    requires Reconstructs(original, State(FormulaOf(cs, fixedLits), stack)) && c < |cs|
    requires (forall i :: 0 <= i < |cs| ==> GoodRecord(cs[i], maxVar)) && 0 !in fixedLits
    requires steps != [] && first <= Lits(cs[c].lits)
    requires var f := FormulaOf(cs[c := cs[c].(garbage := true)], fixedLits);
             && Chain(f, first, steps, saved)
             && (BlockedAddition(f, steps[|steps| - 1]) || Implies(f, CoveredAfter(first, steps)))
    requires EntriesOf(es, saved, missing) && forall x :: x in missing ==> x != 0 && -x in fixedLits
    ensures Reconstructs(original, State(FormulaOf(cs[c := cs[c].(garbage := true)], fixedLits), stack + es))
  {
    hide FormulaOf, Reconstructs, NonZeroFormula, CoverChain, BlockedAddition, Implies, EntriesOf, CoveredAddition;
    var ds := cs[c := cs[c].(garbage := true)];
    var f, g := FormulaOf(cs, fixedLits), FormulaOf(ds, fixedLits);
    GarbageFormula(cs, fixedLits, c);
    GoodFormulaIsNonZero(cs, fixedLits, maxVar);
    assert forall i :: 0 <= i < |ds| ==> GoodRecord(ds[i], maxVar);
    GoodFormulaIsNonZero(ds, fixedLits, maxVar);
    UnitsInFormula(ds, fixedLits, missing);
    ChainIsCoverChain(g, first, steps, saved, es, missing);
    GoodIsNonZero(cs[c], maxVar);
    var t := Cover(cs[c].lits, es, steps);
    NextKeeps(t, original, State(f, stack), State(g, stack + Pushed(t)));
  }

  lemma UnitsInFormula(cs: seq<ClauseRecord>, fixedLits: set<int>, missing: set<int>)
    requires forall x :: x in missing ==> -x in fixedLits
    ensures forall x :: x in missing ==> {-x} in FormulaOf(cs, fixedLits)
  {
  }
}
