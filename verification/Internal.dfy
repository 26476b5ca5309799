/** The clause table of the solver and its root-level assignment.  A reference to a clause is
    its position in the table. */
module InternalSolver {
  import opened Cnf
  import opened Lists
  import opened Extension
  import opened Reconstruction

  datatype ClauseRecord = ClauseRecord(lits: Clause, redundant: bool, garbage: bool, gate: bool, id: int)
  {
    predicate Live() {
      !garbage && !redundant
    }
  }

  ghost predicate GoodRecord(r: ClauseRecord, maxVar: nat) {
    && r.lits != []
    && (forall x :: x in r.lits ==> x != 0 && Abs(x) <= maxVar && -x !in r.lits)
    && (forall x :: multiset(r.lits)[x] <= 1)
  }

  /** The irredundant clauses that are not garbage, and the root-level units. */
  ghost function FormulaOf(cs: seq<ClauseRecord>, fixedLits: set<int>): Formula {
    (set i | 0 <= i < |cs| && cs[i].Live() :: Lits(cs[i].lits)) + set u | u in fixedLits :: {u}
  }

  /** Tables that differ at most in the order of literals within clauses. */
  ghost predicate SameUpToOrder(cs: seq<ClauseRecord>, ds: seq<ClauseRecord>) {
    && |cs| == |ds|
    && forall i :: 0 <= i < |cs| ==>
         && multiset(cs[i].lits) == multiset(ds[i].lits)
         && cs[i].(lits := ds[i].lits) == ds[i]
  }

  lemma SameUpToOrderFormula(cs: seq<ClauseRecord>, ds: seq<ClauseRecord>, fixedLits: set<int>)
    requires SameUpToOrder(cs, ds)
    ensures FormulaOf(cs, fixedLits) == FormulaOf(ds, fixedLits)
  {
    forall i | 0 <= i < |cs| ensures Lits(cs[i].lits) == Lits(ds[i].lits) && cs[i].Live() == ds[i].Live() {
      SameMultisetSameLits(cs[i].lits, ds[i].lits);
    }
  }

  lemma InFormula(cs: seq<ClauseRecord>, fixedLits: set<int>, i: nat)
    requires i < |cs| && cs[i].Live()
    ensures Lits(cs[i].lits) in FormulaOf(cs, fixedLits)
  {
  }

  lemma GarbageFormula(cs: seq<ClauseRecord>, fixedLits: set<int>, c: nat)
    requires c < |cs|
    ensures FormulaOf(cs[c := cs[c].(garbage := true)], fixedLits) <= FormulaOf(cs, fixedLits)
    ensures FormulaOf(cs, fixedLits) <= FormulaOf(cs[c := cs[c].(garbage := true)], fixedLits) + {Lits(cs[c].lits)}
  {
    var ds := cs[c := cs[c].(garbage := true)];
    forall s | s in FormulaOf(ds, fixedLits) ensures s in FormulaOf(cs, fixedLits) {
      if i :| 0 <= i < |ds| && ds[i].Live() && s == Lits(ds[i].lits) {
        assert cs[i].Live();
      }
    }
    forall s | s in FormulaOf(cs, fixedLits) && s != Lits(cs[c].lits) ensures s in FormulaOf(ds, fixedLits) {
      if i :| 0 <= i < |cs| && cs[i].Live() && s == Lits(cs[i].lits) {
        assert ds[i].Live();
      }
    }
  }

  /** Some literal of the clause is true. */
  ghost predicate HasTrue(c: Clause, vals: set<int>) {
    exists u :: u in c && u in vals
  }

  lemma TrueAt(c: Clause, k: nat, vals: set<int>)
    requires k < |c| && c[k] in vals
    ensures HasTrue(c, vals)
  {
    var u := c[k];
    assert u in c && u in vals;
  }

  /** A clause with a literal that is true at the root may be removed. */
  lemma SatisfiedKeepsSound(original: Formula, cs: seq<ClauseRecord>, fixedLits: set<int>, stack: seq<Entry>, i: nat)
    requires i < |cs| && HasTrue(cs[i].lits, fixedLits)
    requires Reconstructs(original, State(FormulaOf(cs, fixedLits), stack))
    ensures Reconstructs(original, State(FormulaOf(cs[i := cs[i].(garbage := true)], fixedLits), stack))
  {
    var ds := cs[i := cs[i].(garbage := true)];
    GarbageFormula(cs, fixedLits, i);
    var u :| u in cs[i].lits && u in fixedLits;
    assert {u} in FormulaOf(ds, fixedLits) && u in Lits(cs[i].lits);
    forall m | Models(m, FormulaOf(ds, fixedLits)) ensures Models(m, FormulaOf(cs, fixedLits)) {
      assert Holds(m, {u});
      assert Holds(m, Lits(cs[i].lits));
    }
  }

  lemma GoodFormulaIsNonZero(cs: seq<ClauseRecord>, fixedLits: set<int>, maxVar: nat)
    requires (forall i :: 0 <= i < |cs| ==> GoodRecord(cs[i], maxVar)) && 0 !in fixedLits
    ensures NonZeroFormula(FormulaOf(cs, fixedLits))
  {
  }

  lemma GoodIsNonZero(r: ClauseRecord, maxVar: nat)
    requires GoodRecord(r, maxVar)
    ensures 0 !in r.lits
  {
  }

  lemma GarbageRecords(cs: seq<ClauseRecord>, c: nat, maxVar: nat)
    requires c < |cs| && forall i :: 0 <= i < |cs| ==> GoodRecord(cs[i], maxVar)
    ensures var ds := cs[c := cs[c].(garbage := true)]; forall i :: 0 <= i < |ds| ==> GoodRecord(ds[i], maxVar)
  {
  }

  ghost predicate ConnectedIn(cs: seq<ClauseRecord>, os: seq<int>, lit: int) {
    && (forall i :: i in os ==> 0 <= i < |cs| && lit in cs[i].lits && !cs[i].redundant)
    && (forall i :: 0 <= i < |cs| && cs[i].Live() && lit in cs[i].lits ==> i in os)
  }

  /** Tables that differ in the order of literals and in that some clauses became garbage. */
  ghost predicate SameExcept(cs: seq<ClauseRecord>, ds: seq<ClauseRecord>, removed: set<int>) {
    && |cs| == |ds|
    && forall i :: 0 <= i < |cs| ==>
         && multiset(cs[i].lits) == multiset(ds[i].lits)
         && cs[i].(lits := ds[i].lits, garbage := cs[i].garbage || i in removed) == ds[i]
  }

  lemma SameExceptKeeps(cs: seq<ClauseRecord>, ds: seq<ClauseRecord>, removed: set<int>, os: seq<int>, lit: int,
                        maxVar: nat)
    requires SameExcept(cs, ds, removed)
    ensures ConnectedIn(cs, os, lit) ==> ConnectedIn(ds, os, lit)
    ensures (forall i :: 0 <= i < |cs| ==> GoodRecord(cs[i], maxVar)) ==> forall i :: 0 <= i < |ds| ==>
              GoodRecord(ds[i], maxVar)
  {
    forall i | 0 <= i < |cs| ensures (lit in cs[i].lits) == (lit in ds[i].lits)
                                  && (GoodRecord(cs[i], maxVar) ==> GoodRecord(ds[i], maxVar)) {
      SameMultisetSameLits(cs[i].lits, ds[i].lits);
    }
  }

  lemma SameExceptRemoved(cs: seq<ClauseRecord>, ds: seq<ClauseRecord>, removed: set<int>, c: nat)
    requires SameExcept(cs, ds, removed) && c < |ds|
    ensures SameExcept(cs, ds[c := ds[c].(garbage := true)], removed + {c})
  {
  }

  /** A literal is true inside the solver: its internal value is, or if it has no internal counterpart,
      its previous external one. */
  ghost predicate HoldsInside(maxVar: nat, e2i: seq<int>, ival: int -> int, before: Assignment, x: int)
    requires |e2i| == maxVar + 1
  {
    var i := Abs(x);
    if 1 <= i <= maxVar && e2i[i] != 0 then (if x > 0 then ival(e2i[i]) > 0 else ival(e2i[i]) <= 0)
    else x != 0 && True(before, x)
  }

  class Internal {
    const external: External
    var clauses: seq<ClauseRecord>
    var fixedLits: set<int>
    var marks: set<int>
    var occs: map<int, seq<int>>
    var unsat: bool
    var clauseId: nat
    ghost const original: Formula

    /** A solver for the given clauses; nothing has been removed from them yet. */
    constructor (maxVar: nat, cs: seq<ClauseRecord>)
      requires forall i :: 0 <= i < |cs| ==> GoodRecord(cs[i], maxVar)
      ensures Valid() && Sound() && fresh(external)
      ensures original == FormulaOf(cs, {}) && clauses == cs && fixedLits == {} && external.entries == [] && !unsat
    {
      external := new External(maxVar);
      clauses, fixedLits, marks, occs, unsat, clauseId := cs, {}, {}, map[], false, |cs|;
      original := FormulaOf(cs, {});
    }

    /** The structure is well-formed. */
    ghost predicate Valid()
      reads this, external
    {
      && external.Valid()
      && (forall i :: 0 <= i < |clauses| ==> GoodRecord(clauses[i], external.maxVar))
      && 0 !in fixedLits && (forall u :: u in fixedLits ==> -u !in fixedLits && Abs(u) <= external.maxVar)
      && forall lit, i :: lit in occs && i in occs[lit] ==> 0 <= i < |clauses|
    }

    /** What is left has the models of the given formula, up to the extension stack. */
    ghost predicate Sound()
      reads this, external
    {
      Reconstructs(original, State(FormulaOf(clauses, fixedLits), external.entries))
    }

    function Val(lit: int): int
      reads `fixedLits
    {
      if lit in fixedLits then 1 else if -lit in fixedLits then -1 else 0
    }

    function Occs(lit: int): seq<int>
      reads `occs
    {
      if lit in occs then occs[lit] else []
    }

    /** The occurrence list of the literal lists every live irredundant clause with the
        literal, and besides only garbage clauses with it. */
    ghost predicate Connected(lit: int)
      reads `clauses, `occs
    {
      ConnectedIn(clauses, Occs(lit), lit)
    }

    /** Sign of the mark of a literal: positive if marked, negative if its negation is. */
    function Marked(lit: int): int
      reads `marks
    {
      SignIn(marks, lit)
    }

    /** Extends a model of what is left to a model of the given formula. */
    method ExtendModel(e2i: seq<int>, ival: int -> int)
      requires Valid() && Sound() && !external.extended && |e2i| == external.maxVar + 1
      requires forall s :: s in FormulaOf(clauses, fixedLits) ==>
                 exists x :: x in s && HoldsInside(external.maxVar, e2i, ival, AssignmentOf(external.vals), x)
      modifies external`vals, external`extended
      ensures Models(AssignmentOf(external.vals), original)
    {
      hide FormulaOf, AssignmentOf;
      ghost var before := AssignmentOf(external.vals);
      ghost var init := external.Extend(e2i, ival);
      forall s | s in FormulaOf(clauses, fixedLits) ensures Holds(init, s) {
        var x :| x in s && HoldsInside(external.maxVar, e2i, ival, before, x);
        assert True(init, x);
      }
    }

    method MarkClause(c: nat)
      requires c < |clauses|
      modifies this`marks
      ensures marks == old(marks) + Lits(clauses[c].lits)
    {
      var lits := clauses[c].lits;
      for i := 0 to |lits|
        invariant marks == old(marks) + Lits(lits[..i])
      {
        marks := marks + {lits[i]};
        assert lits[..i + 1] == lits[..i] + [lits[i]];
      }
      assert lits[..|lits|] == lits;
    }

    method UnmarkClause(c: nat)
      requires c < |clauses|
      modifies this`marks
      ensures marks == old(marks) - Lits(clauses[c].lits)
    {
      var lits := clauses[c].lits;
      for i := 0 to |lits|
        invariant marks == old(marks) - Lits(lits[..i])
      {
        marks := marks - {lits[i]};
        assert lits[..i + 1] == lits[..i] + [lits[i]];
      }
      assert lits[..|lits|] == lits;
    }

    method MarkGarbage(c: nat)
      requires c < |clauses|
      modifies this`clauses
      ensures clauses == old(clauses)[c := old(clauses)[c].(garbage := true)]
    {
      clauses := clauses[c := clauses[c].(garbage := true)];
    }

    /** Removes references to garbage clauses from an occurrence list, keeping the order. */
    method FlushOccs(lit: int)
      requires forall i :: i in Occs(lit) ==> 0 <= i < |clauses|
      modifies this`occs
      ensures occs == old(occs)[lit := Filter(old(Occs(lit)), clauses)]
    {
      hide Filter;
      var os := Occs(lit);
      ghost var os0 := os;
      var i, j := 0, 0;
      FilterNothing(clauses);
      while i < |os|
        invariant 0 <= j <= i <= |os| == |os0| && os0 == old(Occs(lit)) && occs == old(occs)
        invariant os[..j] == Filter(os0[..i], clauses)
        invariant forall k :: i <= k < |os| ==> os[k] == os0[k]
      {
        var c := os[i];
        assert c in Occs(lit);
        FilterAppend(os0[..i], c, clauses);
        assert os0[..i + 1] == os0[..i] + [c];
        os := os[j := c];
        assert os[..j + 1] == Filter(os0[..i], clauses) + [c];
        j := j + 1;
        i := i + 1;
        if clauses[c].garbage {
          j := j - 1;
          assert os[..j] == os[..j + 1][..j];
        }
      }
      assert os0[..i] == os0;
      occs := occs[lit := os[..j]];
    }
  }

  lemma FlushedConnected(cs: seq<ClauseRecord>, os: seq<int>, lit: int)
    requires ConnectedIn(cs, os, lit)
    ensures ConnectedIn(cs, Filter(os, cs), lit)
  {
  }

  lemma FilterNothing(cs: seq<ClauseRecord>)
    ensures Filter([], cs) == []
  {
  }

  lemma FilterAppend(os: seq<int>, c: int, cs: seq<ClauseRecord>)
    ensures Filter(os + [c], cs) == Filter(os, cs) + if 0 <= c < |cs| && cs[c].garbage then [] else [c]
  {
    assert (os + [c])[..|os|] == os;
  }

  function Filter(os: seq<int>, cs: seq<ClauseRecord>): (r: seq<int>)
    ensures forall i :: i in r <==> i in os && !(0 <= i < |cs| && cs[i].garbage)
  {
    if os == [] then [] else
      var n := |os| - 1;
      Filter(os[..n], cs) + if 0 <= os[n] < |cs| && cs[os[n]].garbage then [] else [os[n]]
  }
}
