/** Bounded variable elimination with gates, unit propagation and on-the-fly strengthening. */
module Elimination {
  import opened Cnf
  import opened Lists
  import opened Extension
  import opened Reconstruction
  import opened InternalSolver
  import opened ElimTables

  ghost function TableOf(s: Internal): Table
    reads s
  {
    Table(s.clauses, s.fixedLits)
  }

  ghost predicate Listed(cs: seq<ClauseRecord>, i: int, lit: int) {
    0 <= i < |cs| && lit in cs[i].lits && !cs[i].redundant
  }

  /** Well-formed clauses and units; occurrence lists are correct, if not complete. */
  ghost predicate GoodTable(cs: seq<ClauseRecord>, fixedLits: set<int>, occs: map<int, seq<int>>, maxVar: nat) {
    && maxVar < -INT_MIN
    && (forall i :: 0 <= i < |cs| ==> GoodRecord(cs[i], maxVar))
    && 0 !in fixedLits && (forall u :: u in fixedLits ==> -u !in fixedLits && Abs(u) <= maxVar)
    && forall lit, i :: lit in occs && i in occs[lit] ==> Listed(cs, i, lit)
  }

  ghost predicate Ready(s: Internal)
    reads s, s.external
  {
    s.external.Valid() && s.marks == {} && GoodTable(s.clauses, s.fixedLits, s.occs, s.external.maxVar)
  }

  lemma GoodClauseAt(s: Internal, c: int)
    requires Ready(s) && 0 <= c < |s.clauses|
    ensures GoodRecord(s.clauses[c], s.external.maxVar) && 0 !in s.clauses[c].lits && INT_MIN !in s.clauses[c].lits
    ensures forall x :: x in s.clauses[c].lits ==> Abs(x) <= s.external.maxVar && -x !in s.clauses[c].lits
  {
  }

  lemma GoodTableUnit(cs: seq<ClauseRecord>, fixedLits: set<int>, occs: map<int, seq<int>>, maxVar: nat, u: int)
    requires GoodTable(cs, fixedLits, occs, maxVar) && u != 0 && u !in fixedLits && -u !in fixedLits && Abs(u) <= maxVar
    ensures GoodTable(cs, fixedLits + {u}, occs, maxVar)
  {
    hide GoodRecord, Listed;
  }

  lemma GoodTableGarbage(cs: seq<ClauseRecord>, fixedLits: set<int>, occs: map<int, seq<int>>, maxVar: nat, c: nat)
    requires GoodTable(cs, fixedLits, occs, maxVar) && c < |cs|
    ensures GoodTable(cs[c := cs[c].(garbage := true)], fixedLits, occs, maxVar)
  {
    assert GoodRecord(cs[c], maxVar);
  }

  // ---------------------------------------------------------------- propagating units

  /** Two literals of the clause are not false. */
  ghost predicate TwoOpen(c: Clause, falsified: set<int>) {
    exists i, j :: 0 <= i < j < |c| && -c[i] !in falsified && -c[j] !in falsified
  }

  /** Nothing follows from the clause alone when the literals in `processed` are true. */
  ghost predicate Quiet(r: ClauseRecord, fixedLits: set<int>, processed: set<int>) {
    r.garbage || HasTrue(r.lits, fixedLits) || TwoOpen(r.lits, processed)
  }

  ghost predicate QuietAt(cs: seq<ClauseRecord>, i: int, fixedLits: set<int>, processed: set<int>) {
    0 <= i < |cs| ==> Quiet(cs[i], fixedLits, processed)
  }

  ghost predicate IsGarbage(cs: seq<ClauseRecord>, i: int) {
    0 <= i < |cs| ==> cs[i].garbage
  }

  ghost predicate InList(occs: map<int, seq<int>>, lit: int, i: int) {
    lit in occs && i in occs[lit]
  }

  /** The clause is in the lists of all its literals. */
  ghost predicate Everywhere(cs: seq<ClauseRecord>, occs: map<int, seq<int>>, i: int) {
    0 <= i < |cs| && forall x :: x in cs[i].lits ==> InList(occs, x, i)
  }

  /** The clauses in the list of a new unit are garbage, and nothing follows any more from those in the list of
      its negation. */
  ghost predicate UnitDone(cs: seq<ClauseRecord>, occs: map<int, seq<int>>, fixedLits: set<int>,
                           processed: set<int>, u: int) {
    && (forall i :: InList(occs, u, i) ==> IsGarbage(cs, i))
    && forall i :: InList(occs, -u, i) && Everywhere(cs, occs, i) ==> QuietAt(cs, i, fixedLits, processed)
  }

  ghost predicate UnitsDone(cs: seq<ClauseRecord>, occs: map<int, seq<int>>, fixedLits: set<int>,
                            processed: set<int>, units: set<int>) {
    forall u :: u in units ==> UnitDone(cs, occs, fixedLits, processed, u)
  }

  lemma QuietStays(cs: seq<ClauseRecord>, ds: seq<ClauseRecord>, i: int, fixedLits: set<int>, fixed': set<int>,
                   processed: set<int>)
    requires |cs| <= |ds| && (forall k :: 0 <= k < |cs| ==> OnlyGarbage(cs[k], ds[k])) && fixedLits <= fixed'
    requires 0 <= i < |cs| && QuietAt(cs, i, fixedLits, processed)
    ensures QuietAt(ds, i, fixed', processed)
  {
    assert OnlyGarbage(cs[i], ds[i]);
  }

  /** The only literal without a value, if all others are false. */
  method FindUnit(c: Clause, fixedLits: set<int>) returns (unit: int, satisfied: int)
    requires 0 !in c && INT_MIN !in c
    ensures satisfied == 0 && unit == INT_MIN ==> TwoOpen(c, fixedLits)
    ensures satisfied != 0 ==> satisfied in c && satisfied in fixedLits
    ensures satisfied == 0 && unit == 0 ==> forall x :: x in c ==> -x in fixedLits
    ensures satisfied == 0 && unit != 0 && unit != INT_MIN ==>
      unit in c && unit !in fixedLits && -unit !in fixedLits && forall x :: x in c && x != unit ==> -x in fixedLits
  {
    unit, satisfied := 0, 0;
    ghost var at := 0;
    for i := 0 to |c|
      invariant unit != 0 && unit != INT_MIN ==> 0 <= at < i && c[at] == unit && -unit !in fixedLits
      invariant unit == INT_MIN ==> TwoOpen(c, fixedLits)
      invariant satisfied == 0 && forall k :: 0 <= k < i ==> c[k] !in fixedLits || -c[k] in fixedLits
      invariant unit == 0 ==> forall k :: 0 <= k < i ==> -c[k] in fixedLits
      invariant unit != 0 && unit != INT_MIN ==> unit in c && unit !in fixedLits && -unit !in fixedLits
      invariant unit != 0 && unit != INT_MIN ==> forall k :: 0 <= k < i && c[k] != unit ==> -c[k] in fixedLits
    {
      assert c[i] in c;
      if -c[i] in fixedLits {
        continue;
      }
      if c[i] in fixedLits {
        satisfied := c[i];
        break;
      }
      unit, at := if unit != 0 then INT_MIN else c[i], i;
    }
  }

  method AssignUnit(s: Internal, unit: int, ghost v: int)
    requires Ready(s) && s.Val(unit) == 0 && unit != 0 && Abs(unit) <= s.external.maxVar
    requires Implies(Meaning(TableOf(s)), {unit})
    modifies s`fixedLits
    ensures Ready(s) && Grown(old(TableOf(s)), TableOf(s), v) && s.fixedLits == old(s.fixedLits) + {unit}
  {
    hide Meaning, Grown, GoodTable;
    UnitGrown(TableOf(s), unit, v);
    GoodTableUnit(s.clauses, s.fixedLits, s.occs, s.external.maxVar, unit);
    s.fixedLits := s.fixedLits + {unit};
  }

  method MarkSatisfied(s: Internal, c: nat, u: int, ghost v: int)
    requires Ready(s) && c < |s.clauses| && u in s.clauses[c].lits && u in s.fixedLits
    modifies s`clauses
    ensures Ready(s) && Grown(old(TableOf(s)), TableOf(s), v)
    ensures s.clauses == old(s.clauses)[c := old(s.clauses)[c].(garbage := true)]
  {
    hide Grown, GoodTable;
    GoodClauseAt(s, c);
    GoodTableGarbage(s.clauses, s.fixedLits, s.occs, s.external.maxVar, c);
    SatisfiedGrown(TableOf(s), c, u, v);
    s.MarkGarbage(c);
  }

  /** One live clause with a literal that has just become false. */
  method VisitClause(s: Internal, c: nat, ghost v: int) returns (unit: int)
    requires Ready(s) && !s.unsat && c < |s.clauses| && s.clauses[c].Live()
    modifies s`clauses, s`fixedLits, s`unsat
    ensures Ready(s) && Grown(old(TableOf(s)), TableOf(s), v) && (s.unsat ==> Hopeless(TableOf(s)))
    ensures |s.clauses| == |old(s.clauses)|
    ensures unit != 0 ==> s.fixedLits == old(s.fixedLits) + {unit} && unit !in old(s.fixedLits)
                          && Abs(unit) <= s.external.maxVar && unit != 0
    ensures unit == 0 ==> s.fixedLits == old(s.fixedLits)
    ensures !s.unsat ==> Quiet(s.clauses[c], s.fixedLits, old(s.fixedLits))
  {
    hide Meaning, Grown, GoodRecord, GoodTable, Hopeless, TwoOpen;
    GoodClauseAt(s, c);
    var satisfied;
    unit, satisfied := FindUnit(s.clauses[c].lits, s.fixedLits);
    if satisfied != 0 {
      MarkSatisfied(s, c, satisfied, v);
      unit := 0;
    } else if unit == 0 {
      FalsifiedIsHopeless(TableOf(s), c);
      s.unsat := true;
      GrownReflexive(TableOf(s), v);
    } else if unit != INT_MIN {
      UnitImplied(TableOf(s), c, unit);
      AssignUnit(s, unit, v);
    } else {
      unit := 0;
      GrownReflexive(TableOf(s), v);
    }
  }

  /** Visits the listed clauses and collects the new units. */
  method VisitList(s: Internal, ns: seq<int>, work0: seq<int>, ghost v: int) returns (work: seq<int>)
    requires Ready(s) && !s.unsat && forall i :: i in ns ==> 0 <= i < |s.clauses| && !s.clauses[i].redundant
    requires forall u :: u in work0 ==> u in s.fixedLits
    modifies s`clauses, s`fixedLits, s`unsat
    ensures Ready(s) && Grown(old(TableOf(s)), TableOf(s), v) && (s.unsat ==> Hopeless(TableOf(s)))
    ensures |s.clauses| == |old(s.clauses)|
    ensures work0 <= work && forall u :: u in work ==> u in s.fixedLits
    ensures old(s.fixedLits) <= s.fixedLits && (s.fixedLits == old(s.fixedLits) ==> work == work0)
    ensures s.fixedLits == old(s.fixedLits) + Lits(work[|work0|..])
    ensures !s.unsat ==> forall i :: i in ns ==> QuietAt(s.clauses, i, s.fixedLits, old(s.fixedLits))
  {
    hide Meaning, Grown, GoodRecord, Hopeless, Ready, Quiet;
    work := work0;
    assert Lits(work[|work0|..]) == {};
    GrownReflexive(TableOf(s), v);
    for j := 0 to |ns|
      invariant Ready(s) && Grown(old(TableOf(s)), TableOf(s), v) && !s.unsat
      invariant work0 <= work && forall u :: u in work ==> u in s.fixedLits
      invariant old(s.fixedLits) <= s.fixedLits && (s.fixedLits == old(s.fixedLits) ==> work == work0)
      invariant |s.clauses| == |old(s.clauses)|
      invariant forall i :: 0 <= i < |old(s.clauses)| ==> s.clauses[i].redundant == old(s.clauses)[i].redundant
      invariant s.fixedLits == old(s.fixedLits) + Lits(work[|work0|..])
      invariant forall k :: 0 <= k < j ==> QuietAt(s.clauses, ns[k], s.fixedLits, old(s.fixedLits))
    {
      assert ns[j] in ns;
      if s.clauses[ns[j]].garbage {
        GarbageIsQuiet(s.clauses, ns[j], s.fixedLits, old(s.fixedLits));
        continue;
      }
      ghost var t := TableOf(s);
      ghost var work1 := work;
      var unit := VisitClause(s, ns[j], v);
      GrownTransitive(old(TableOf(s)), t, TableOf(s), v);
      GrownRecords(old(TableOf(s)), TableOf(s), v);
      if unit != 0 {
        work := work + [unit];
        assert work[|work0|..] == work1[|work0|..] + [unit];
        assert Lits(work[|work0|..]) == Lits(work1[|work0|..]) + {unit};
      }
      if s.unsat {
        return;
      }
      GrownRecords(t, TableOf(s), v);
      QuietEarlier(s.clauses, ns[j], s.fixedLits, t.fixedLits, old(s.fixedLits));
      forall k | 0 <= k < j ensures QuietAt(s.clauses, ns[k], s.fixedLits, old(s.fixedLits)) {
        assert ns[k] in ns;
        QuietStays(t.cs, s.clauses, ns[k], t.fixedLits, s.fixedLits, old(s.fixedLits));
      }
    }
    forall i | i in ns ensures QuietAt(s.clauses, i, s.fixedLits, old(s.fixedLits)) {
      var k :| 0 <= k < |ns| && ns[k] == i;
    }
  }

  lemma GarbageIsQuiet(cs: seq<ClauseRecord>, i: int, fixedLits: set<int>, processed: set<int>)
    requires 0 <= i < |cs| && cs[i].garbage
    ensures QuietAt(cs, i, fixedLits, processed)
  {
  }

  lemma QuietEarlier(cs: seq<ClauseRecord>, i: int, fixedLits: set<int>, processed: set<int>, before: set<int>)
    requires 0 <= i < |cs| && Quiet(cs[i], fixedLits, processed) && before <= processed
    ensures QuietAt(cs, i, fixedLits, before)
  {
  }

  /** One more unit has been propagated. */
  lemma UnitsStep(cs: seq<ClauseRecord>, ds: seq<ClauseRecord>, occs: map<int, seq<int>>, fixedLits: set<int>,
                  fixed': set<int>, processed: set<int>, more: set<int>, units: set<int>, u: int)
    requires |cs| == |ds| && (forall k :: 0 <= k < |cs| ==> OnlyGarbage(cs[k], ds[k])) && fixedLits <= fixed'
    requires more == processed + {u} && UnitsDone(cs, occs, fixedLits, processed, units)
    requires forall i :: InList(occs, u, i) ==> IsGarbage(ds, i)
    requires forall i :: InList(occs, -u, i) ==> QuietAt(ds, i, fixed', more)
    ensures UnitsDone(ds, occs, fixed', more, units + {u})
  {
    hide TwoOpen, HasTrue;
    forall w | w in units + {u} ensures UnitDone(ds, occs, fixed', more, w) {
      if w != u {
        assert UnitDone(cs, occs, fixedLits, processed, w);
        forall i | InList(occs, w, i) ensures IsGarbage(ds, i) {
          assert IsGarbage(cs, i);
          assert 0 <= i < |cs| ==> OnlyGarbage(cs[i], ds[i]);
        }
        forall i | InList(occs, -w, i) && Everywhere(ds, occs, i) ensures QuietAt(ds, i, fixed', more) {
          if !InList(occs, -u, i) {
            assert OnlyGarbage(cs[i], ds[i]);
            assert Everywhere(cs, occs, i);
            assert QuietAt(cs, i, fixedLits, processed);
            StillQuiet(cs[i], ds[i], fixedLits, fixed', processed, u);
          }
        }
      }
    }
  }

  lemma StillQuiet(a: ClauseRecord, b: ClauseRecord, fixedLits: set<int>, fixed': set<int>, processed: set<int>, u: int)
    requires OnlyGarbage(a, b) && fixedLits <= fixed' && Quiet(a, fixedLits, processed) && -u !in a.lits
    ensures Quiet(b, fixed', processed + {u})
  {
    if TwoOpen(a.lits, processed) {
      var i, j :| 0 <= i < j < |a.lits| && -a.lits[i] !in processed && -a.lits[j] !in processed;
      assert a.lits[i] in a.lits && a.lits[j] in a.lits;
      assert -a.lits[i] !in processed + {u} && -a.lits[j] !in processed + {u};
    }
  }

  lemma GrownRecords(t: Table, t': Table, v: int)
    requires Grown(t, t', v)
    ensures |t.cs| <= |t'.cs| && t.fixedLits <= t'.fixedLits
    ensures forall i :: 0 <= i < |t.cs| ==> OnlyGarbage(t.cs[i], t'.cs[i])
    ensures forall i :: 0 <= i < |t.cs| ==> t.cs[i].redundant == t'.cs[i].redundant && t.cs[i].lits == t'.cs[i].lits
  {
  }

  /** Marks the clauses with a literal that has become true. */
  method MarkList(s: Internal, lit: int, ghost v: int)
    requires Ready(s) && lit in s.fixedLits
    modifies s`clauses
    ensures Ready(s) && Grown(old(TableOf(s)), TableOf(s), v) && |s.clauses| == |old(s.clauses)|
    ensures forall i :: i in s.Occs(lit) ==> IsGarbage(s.clauses, i)
  {
    hide Meaning, Grown, GoodRecord, Ready;
    GrownReflexive(TableOf(s), v);
    ListedClauses(s, lit);
    for j := 0 to |s.Occs(lit)|
      invariant Ready(s) && Grown(old(TableOf(s)), TableOf(s), v) && |s.clauses| == |old(s.clauses)|
      invariant forall k :: 0 <= k < j ==> IsGarbage(s.clauses, s.Occs(lit)[k])
      invariant forall i :: i in s.Occs(lit) ==> 0 <= i < |s.clauses| && lit in s.clauses[i].lits
    {
      var c := s.Occs(lit)[j];
      assert c in s.Occs(lit);
      if !s.clauses[c].garbage {
        ghost var t := TableOf(s);
        MarkSatisfied(s, c, lit, v);
        GrownTransitive(old(TableOf(s)), t, TableOf(s), v);
      }
    }
  }

  lemma ListedClauses(s: Internal, lit: int)
    requires Ready(s)
    ensures forall i :: i in s.Occs(lit) ==> 0 <= i < |s.clauses| && lit in s.clauses[i].lits && !s.clauses[i].redundant
  {
    assert forall i :: i in s.Occs(lit) ==> Listed(s.clauses, i, lit);
  }

  /** Propagates a unit through the occurrence lists. */
  method ElimPropagate(s: Internal, root: int, ghost v: int)
    requires Ready(s) && !s.unsat && root in s.fixedLits
    modifies s`clauses, s`fixedLits, s`unsat
    ensures Ready(s) && Grown(old(TableOf(s)), TableOf(s), v) && (s.unsat ==> Hopeless(TableOf(s)))
    ensures |s.clauses| == |old(s.clauses)|
    ensures !s.unsat ==>
              UnitsDone(s.clauses, s.occs, s.fixedLits, s.fixedLits, {root} + (s.fixedLits - old(s.fixedLits)))
  {
    hide Meaning, Grown, GoodRecord, Hopeless, Ready, UnitsDone, IsGarbage, QuietAt;
    var work := [root];
    var i := 0;
    GrownReflexive(TableOf(s), v);
    ghost var before := s.fixedLits - {root};
    NoUnitsDone(s.clauses, s.occs, s.fixedLits, before);
    PrefixNothing(work);
    while i < |work|
      invariant Ready(s) && Grown(old(TableOf(s)), TableOf(s), v) && !s.unsat && i <= |work|
      invariant |s.clauses| == |old(s.clauses)| && s.fixedLits == before + Lits(work) && root in work
      invariant UnitsDone(s.clauses, s.occs, s.fixedLits, before + Lits(work[..i]), Lits(work[..i]))
      invariant forall u :: u in work ==> u in s.fixedLits
      decreases Universe(s.external.maxVar) - s.fixedLits, |work| - i
    {
      var lit := work[i];
      i := i + 1;
      assert lit in work;
      ListedClauses(s, -lit);
      ghost var t, work0 := TableOf(s), work;
      work := VisitList(s, s.Occs(-lit), work, v);
      WorkGrows(work0, work, i);
      FixedInUniverse(s);
      GrownTransitive(old(TableOf(s)), t, TableOf(s), v);
      if s.unsat {
        break;
      }
      ghost var t1 := TableOf(s);
      GrownRecords(old(TableOf(s)), t1, v);
      MarkList(s, lit, v);
      GrownTransitive(old(TableOf(s)), t1, TableOf(s), v);
      PropagatedOne(s, t, t1, before, work0, lit, i, v);
    }
    if !s.unsat {
      assert work[..i] == work;
      RootIsNew(s.clauses, s.occs, s.fixedLits, before, old(s.fixedLits), work, root);
    }
  }

  lemma NoUnitsDone(cs: seq<ClauseRecord>, occs: map<int, seq<int>>, fixedLits: set<int>, processed: set<int>)
    ensures UnitsDone(cs, occs, fixedLits, processed + Lits([]), Lits([]))
  {
  }

  lemma PrefixNothing(work: seq<int>)
    ensures work[..0] == []
  {
  }

  lemma WorkGrows(a: seq<int>, b: seq<int>, i: nat)
    requires a <= b && i <= |a|
    ensures b[..i] == a[..i] && Lits(b) == Lits(a) + Lits(b[|a|..])
  {
    assert b == a + b[|a|..];
  }

  lemma RootIsNew(cs: seq<ClauseRecord>, occs: map<int, seq<int>>, fixedLits: set<int>, before: set<int>,
                  fixed0: set<int>, work: seq<int>, root: int)
    requires root in work && fixedLits == before + Lits(work) && before == fixed0 - {root}
    requires UnitsDone(cs, occs, fixedLits, before + Lits(work), Lits(work))
    ensures UnitsDone(cs, occs, fixedLits, fixedLits, {root} + (fixedLits - fixed0))
  {
    hide UnitDone;
    assert {root} + (fixedLits - fixed0) <= Lits(work);
  }

  /** One literal has been propagated: first the list of its negation was visited, then its own one. */
  lemma PropagatedOne(s: Internal, t: Table, t1: Table, before: set<int>, work: seq<int>, lit: int, i: nat, v: int)
    requires Ready(s) && 0 < i <= |work| && work[i - 1] == lit && |t.cs| == |t1.cs| == |s.clauses|
    requires Grown(t, t1, v) && Grown(t1, TableOf(s), v) && t.fixedLits == before + Lits(work)
    requires UnitsDone(t.cs, s.occs, t.fixedLits, before + Lits(work[..i - 1]), Lits(work[..i - 1]))
    requires forall k :: k in s.Occs(-lit) ==> QuietAt(t1.cs, k, t1.fixedLits, t.fixedLits)
    requires forall k :: k in s.Occs(lit) ==> IsGarbage(s.clauses, k)
    ensures UnitsDone(s.clauses, s.occs, s.fixedLits, before + Lits(work[..i]), Lits(work[..i]))
  {
    hide Meaning, Grown, Ready, UnitsDone, Quiet, IsGarbage;
    assert work[..i] == work[..i - 1] + [lit];
    assert Lits(work[..i]) == Lits(work[..i - 1]) + {lit};
    var processed, more := before + Lits(work[..i - 1]), before + Lits(work[..i]);
    assert more == processed + {lit};
    GrownTransitive(t, t1, TableOf(s), v);
    GrownRecords(t, TableOf(s), v);
    GrownRecords(t1, TableOf(s), v);
    ListedClauses(s, -lit);
    forall k | InList(s.occs, -lit, k) ensures QuietAt(s.clauses, k, s.fixedLits, more) {
      assert k in s.Occs(-lit);
      QuietStays(t1.cs, s.clauses, k, t1.fixedLits, s.fixedLits, t.fixedLits);
      QuietEarlier(s.clauses, k, s.fixedLits, t.fixedLits, more);
    }
    UnitsStep(t.cs, s.clauses, s.occs, t.fixedLits, s.fixedLits, processed, more, Lits(work[..i - 1]), lit);
  }

  lemma FixedInUniverse(s: Internal)
    requires Ready(s)
    ensures s.fixedLits <= Universe(s.external.maxVar)
  {
    InUniverse(s.fixedLits, s.external.maxVar);
  }

  // ---------------------------------------------------------------- adding clauses

  /** Literals that can make up a clause without the variable. */
  ghost predicate GoodLits(lits: Clause, v: int, maxVar: nat) {
    && lits != [] && (forall x :: x in lits ==> x != 0 && Abs(x) <= maxVar && -x !in lits)
    && (forall x :: multiset(lits)[x] <= 1) && !Mentions(lits, v)
  }

  lemma GoodTableAdded(cs: seq<ClauseRecord>, fixedLits: set<int>, occs: map<int, seq<int>>, maxVar: nat,
                       r: ClauseRecord, occs': map<int, seq<int>>, v: int)
    requires GoodTable(cs, fixedLits, occs, maxVar) && GoodLits(r.lits, v, maxVar) && !r.redundant
    requires forall lit, i :: lit in occs' && i in occs'[lit] ==>
               (lit in occs && i in occs[lit]) || (i == |cs| && lit in r.lits)
    ensures GoodTable(cs + [r], fixedLits, occs', maxVar)
  {
    assert GoodRecord(r, maxVar);
    hide GoodRecord;
    forall lit, i | lit in occs' && i in occs'[lit] ensures Listed(cs + [r], i, lit) {
      if !(i == |cs| && lit in r.lits) {
        assert Listed(cs, i, lit);
      }
    }
  }

  /** Adds an implied clause without the variable and connects it. */
  method AddResolvent(s: Internal, lits: Clause, ghost v: int)
    requires Ready(s) && GoodLits(lits, v, s.external.maxVar) && Implies(Meaning(TableOf(s)), Lits(lits))
    modifies s`clauses, s`occs, s`clauseId
    ensures Ready(s) && Grown(old(TableOf(s)), TableOf(s), v)
    ensures exists id :: s.clauses == old(s.clauses) + [ClauseRecord(lits, false, false, false, id)]
    ensures s.clauseId == old(s.clauseId) + 1 == s.clauses[|old(s.clauses)|].id
    ensures forall lit :: lit !in lits ==> s.Occs(lit) == old(s.Occs(lit))
    ensures forall lit :: lit in lits ==> |old(s.clauses)| in s.Occs(lit)
  {
    hide Meaning, Grown, GoodTable, GoodLits;
    s.clauseId := s.clauseId + 1;
    var r := ClauseRecord(lits, false, false, false, s.clauseId);
    AddedGrown(TableOf(s), r, v) by { GoodLitsMention(lits, v, s.external.maxVar); }
    ghost var occs0 := s.occs;
    var n := |s.clauses|;
    for i := 0 to |lits|
      invariant forall lit, k :: lit in s.occs && k in s.occs[lit] ==>
                  (lit in occs0 && k in occs0[lit]) || (k == n && lit in lits)
      invariant forall lit :: lit !in lits ==> s.Occs(lit) == old(s.Occs(lit))
      invariant forall k :: 0 <= k < i ==> n in s.Occs(lits[k])
      invariant s.clauses == old(s.clauses) && s.clauseId == r.id == old(s.clauseId) + 1
    {
      assert lits[i] in lits;
      s.occs := s.occs[lits[i] := s.Occs(lits[i]) + [n]];
    }
    GoodTableAdded(s.clauses, s.fixedLits, occs0, s.external.maxVar, r, s.occs, v);
    s.clauses := s.clauses + [r];
    assert s.clauses[n] == r;
  }

  lemma GoodLitsMention(lits: Clause, v: int, maxVar: nat)
    requires GoodLits(lits, v, maxVar)
    ensures !Mentions(lits, v)
  {
  }

  // ---------------------------------------------------------------- resolving two clauses

  /** No literal occurs twice. */
  ghost predicate Unique(c: Clause) {
    (forall x :: multiset(c)[x] <= 1) && |Lits(c)| == |c|
  }

  lemma UniqueLength(c: Clause)
    requires Unique(c)
    ensures |c| == |Lits(c)|
  {
  }

  lemma UniqueAppend(c: Clause, x: int)
    requires Unique(c) && x !in c
    ensures Unique(c + [x]) && Lits(c + [x]) == Lits(c) + {x}
  {
    forall y ensures y in Lits(c + [x]) <==> y in Lits(c) + {x} { }
    assert Lits(c + [x]) == Lits(c) + {x};
  }

  lemma LeftAppend(c: Clause, x: int, pivot: int, fixedLits: set<int>)
    ensures Left(c + [x], pivot, fixedLits)
         == Left(c, pivot, fixedLits) + if x != pivot && -x !in fixedLits then {x} else {}
  {
  }

  /** Collects the literals of the first antecedent; `size` counts the pivot as well. */
  method FirstAntecedent(c: Clause, pivot: int, fixedLits: set<int>) returns (satisfied: int, clause: Clause, size: nat)
    requires 0 !in c && forall x :: multiset(c)[x] <= 1
    ensures satisfied != 0 ==> satisfied in c && satisfied in fixedLits && satisfied != pivot
    ensures satisfied == 0 ==> Unique(clause) && Lits(clause) == Left(c, pivot, fixedLits)
    ensures satisfied == 0 && pivot in c ==> size == |clause| + 1
    ensures satisfied == 0 ==> forall x :: x in c && x != pivot ==> x !in fixedLits
  {
    hide Unique, Left;
    satisfied, clause, size := 0, [], 0;
    assert Unique([]) by { EmptyUnique(); }
    assert Left(c[..0], pivot, fixedLits) == Lits([]) by { EmptyLeft(pivot, fixedLits); }
    for i := 0 to |c|
      invariant satisfied == 0 && Unique(clause) && Lits(clause) == Left(c[..i], pivot, fixedLits)
      invariant size == |clause| + if pivot in c[..i] then 1 else 0
      invariant forall k :: 0 <= k < i && c[k] != pivot ==> c[k] !in fixedLits
    {
      var lit := c[i];
      PrefixNew(c, i);
      LeftAppend(c[..i], lit, pivot, fixedLits);
      if lit == pivot {
        size := size + 1;
        continue;
      }
      if lit in fixedLits {
        return lit, clause, size;
      }
      if -lit in fixedLits {
        continue;
      }
      LeftInside(c[..i], pivot, fixedLits, clause);
      UniqueAppend(clause, lit);
      clause := clause + [lit];
      size := size + 1;
    }
    assert c[..|c|] == c;
  }

  lemma EmptyUnique()
    ensures Unique([])
  {
    assert Lits([]) == {};
  }

  lemma EmptyLeft(pivot: int, fixedLits: set<int>)
    ensures Left([], pivot, fixedLits) == {} == Lits([])
  {
  }

  lemma LeftInside(c: Clause, pivot: int, fixedLits: set<int>, clause: Clause)
    requires Lits(clause) == Left(c, pivot, fixedLits)
    ensures forall x :: x in clause ==> x in c && x != pivot && -x !in fixedLits
  {
    assert forall x :: x in clause ==> x in Lits(clause);
  }

  /** Adds the literals of the second antecedent; those of the first one are marked. */
  method SecondAntecedent(d: Clause, pivot: int, fixedLits: set<int>, first: Clause)
    returns (satisfied: int, tautological: int, clause: Clause, size: nat)
    requires 0 !in d && (forall x :: multiset(d)[x] <= 1) && Unique(first)
    ensures satisfied != 0 ==> satisfied in d && satisfied in fixedLits
    ensures satisfied == 0 && tautological != 0 ==> tautological in d && tautological != pivot && -tautological in first
    ensures satisfied == 0 && tautological == 0 ==> Unique(clause)
    ensures satisfied == 0 && tautological == 0 ==> Lits(clause) == Lits(first) + Left(d, pivot, fixedLits)
    ensures satisfied == 0 && tautological == 0 && pivot in d ==> size == |Left(d, pivot, fixedLits)| + 1
    ensures satisfied == 0 && tautological == 0 ==> forall x :: x in d && x != pivot ==> x !in fixedLits
    ensures satisfied == 0 && tautological == 0 ==> NoClash(Left(d, pivot, fixedLits), Lits(first))
  {
    hide *;
    var marks := set x | x in first;
    MarksAreLits(first);
    satisfied, tautological, clause, size := 0, 0, first, 0;
    NothingTaken(d, pivot, fixedLits, first);
    for i := 0 to |d|
      invariant satisfied == 0 && tautological == 0 && Taken(d, i, pivot, fixedLits, first, clause, size)
    {
      var lit := d[i];
      if lit == pivot {
        PivotTaken(d, i, pivot, fixedLits, first, clause, size);
        size := size + 1;
        continue;
      }
      if lit in fixedLits {
        satisfied := lit;
        break;
      }
      if -lit in fixedLits {
        FalseTaken(d, i, pivot, fixedLits, first, clause, size);
        continue;
      }
      if -lit in marks {
        tautological := lit;
        break;
      }
      LiteralTaken(d, i, pivot, fixedLits, first, clause, size, marks);
      if lit !in marks {
        clause := clause + [lit];
      }
      size := size + 1;
    }
    if satisfied == 0 && tautological == 0 {
      AllTaken(d, pivot, fixedLits, first, clause, size);
    }
  }

  /** The literals of the second antecedent before position `i` have joined those of the first one. */
  ghost predicate Taken(d: Clause, i: nat, pivot: int, fixedLits: set<int>, first: Clause, clause: Clause, size: nat)
    requires i <= |d|
  {
    var left := Left(d[..i], pivot, fixedLits);
    && Unique(clause) && Lits(clause) == Lits(first) + left && NoClash(left, Lits(first))
    && size == |left| + (if pivot in d[..i] then 1 else 0)
    && forall k :: 0 <= k < i && d[k] != pivot ==> d[k] !in fixedLits
  }

  lemma NothingTaken(d: Clause, pivot: int, fixedLits: set<int>, first: Clause)
    requires Unique(first)
    ensures Taken(d, 0, pivot, fixedLits, first, first, 0)
  {
    EmptyLeft(pivot, fixedLits);
  }

  lemma PivotTaken(d: Clause, i: nat, pivot: int, fixedLits: set<int>, first: Clause, clause: Clause, size: nat)
    requires i < |d| && Taken(d, i, pivot, fixedLits, first, clause, size) && d[i] == pivot
    requires forall x :: multiset(d)[x] <= 1
    ensures Taken(d, i + 1, pivot, fixedLits, first, clause, size + 1)
  {
    hide Unique, Left, NoClash, Lits;
    PrefixNew(d, i);
    LeftAppend(d[..i], d[i], pivot, fixedLits);
  }

  lemma FalseTaken(d: Clause, i: nat, pivot: int, fixedLits: set<int>, first: Clause, clause: Clause, size: nat)
    requires i < |d| && Taken(d, i, pivot, fixedLits, first, clause, size) && d[i] != pivot
    requires d[i] !in fixedLits && -d[i] in fixedLits && forall x :: multiset(d)[x] <= 1
    ensures Taken(d, i + 1, pivot, fixedLits, first, clause, size)
  {
    hide Unique, Left, NoClash, Lits;
    PrefixNew(d, i);
    LeftAppend(d[..i], d[i], pivot, fixedLits);
  }

  lemma LiteralTaken(d: Clause, i: nat, pivot: int, fixedLits: set<int>, first: Clause, clause: Clause, size: nat,
                     marks: set<int>)
    requires i < |d| && Taken(d, i, pivot, fixedLits, first, clause, size) && d[i] != pivot && marks == Lits(first)
    requires d[i] !in fixedLits && -d[i] !in fixedLits && -d[i] !in marks && forall x :: multiset(d)[x] <= 1
    ensures Taken(d, i + 1, pivot, fixedLits, first, if d[i] in marks then clause else clause + [d[i]], size + 1)
  {
    hide Unique, Left, NoClash, Lits;
    var lit := d[i];
    PrefixNew(d, i);
    LeftAppend(d[..i], lit, pivot, fixedLits);
    NotLeft(d[..i], lit, pivot, fixedLits);
    NoClashAdd(Left(d[..i], pivot, fixedLits), marks, lit);
    if lit !in marks {
      NotIn(clause, lit);
      UniqueAppend(clause, lit);
    }
  }

  lemma AllTaken(d: Clause, pivot: int, fixedLits: set<int>, first: Clause, clause: Clause, size: nat)
    requires Taken(d, |d|, pivot, fixedLits, first, clause, size)
    ensures Unique(clause) && Lits(clause) == Lits(first) + Left(d, pivot, fixedLits)
    ensures pivot in d ==> size == |Left(d, pivot, fixedLits)| + 1
    ensures forall x :: x in d && x != pivot ==> x !in fixedLits
    ensures NoClash(Left(d, pivot, fixedLits), Lits(first))
  {
    hide Unique, Left, NoClash, Lits;
    assert d[..|d|] == d;
  }

  lemma MarksAreLits(c: Clause)
    ensures Lits(c) == set x | x in c
  {
  }

  lemma NotIn(c: Clause, x: int)
    ensures x in c <==> x in Lits(c)
  {
  }

  lemma NoClashAdd(a: set<int>, b: set<int>, x: int)
    ensures NoClash({}, b)
    ensures NoClash(a, b) && -x !in b ==> NoClash(a + {x}, b)
  {
  }

  lemma NotLeft(c: Clause, x: int, pivot: int, fixedLits: set<int>)
    ensures x !in c ==> x !in Left(c, pivot, fixedLits)
  {
  }

  ghost predicate NoClash(a: set<int>, b: set<int>) {
    forall x :: x in a ==> -x !in b
  }

  /** What makes a resolvent a clause that may be added. */
  lemma ResolventIsGood(c: Clause, d: Clause, pivot: int, fixedLits: set<int>, clause: Clause, v: int, maxVar: nat)
    requires forall x :: x in c ==> x != 0 && Abs(x) <= maxVar && -x !in c
    requires forall x :: x in d ==> x != 0 && Abs(x) <= maxVar && -x !in d
    requires pivot in c && -pivot in d && Abs(pivot) == v
    requires Unique(clause) && Lits(clause) == Left(c, pivot, fixedLits) + Left(d, -pivot, fixedLits)
    requires NoClash(Left(d, -pivot, fixedLits), Left(c, pivot, fixedLits))
    ensures clause != [] ==> GoodLits(clause, v, maxVar)
    ensures forall x :: x in clause ==> (x in c || x in d) && Abs(x) != v && -x !in fixedLits
  {
    forall x | x in clause ensures (x in c || x in d) && Abs(x) != v && x != 0 && Abs(x) <= maxVar && -x !in clause {
      assert x in Lits(clause);
      assert x in Left(d, -pivot, fixedLits) ==> -x !in Left(c, pivot, fixedLits);
      assert -x in clause ==> -x in Lits(clause);
      assert -x in Left(d, -pivot, fixedLits) ==> -(-x) !in Left(c, pivot, fixedLits);
    }
    forall x | x in clause ensures -x !in fixedLits {
      assert x in Lits(clause);
    }
  }

  /** The state after a resolution that produced nothing to be added. */
  ghost predicate Settled(s: Internal, c: int, d: int, v: int)
    reads s
  {
    && (s.unsat ==> Hopeless(TableOf(s)))
    && (!s.unsat && Unassigned(TableOf(s), v) ==> Done(TableOf(s), c, d, v) && !Open(TableOf(s), c, d, v))
  }

  /** A clause that two live clauses have as resolvent. */
  ghost predicate GoodResolvent(t: Table, clause: Clause, c: int, d: int, v: int, maxVar: nat) {
    && |clause| >= 2 && GoodLits(clause, v, maxVar) && Implies(Meaning(t), Lits(clause))
    && 0 <= c < |t.cs| && 0 <= d < |t.cs| && (forall x :: x in clause ==> x in t.cs[c].lits || x in t.cs[d].lits)
    && Lits(clause) == Rest(t, c, d, v) && |clause| == |Rest(t, c, d, v)| && Open(t, c, d, v)
  }

  lemma GarbageIsDone(t: Table, c: int, d: int, v: int)
    requires 0 <= c < |t.cs| && 0 <= d < |t.cs| && (t.cs[c].garbage || t.cs[d].garbage)
    ensures Done(t, c, d, v) && !Open(t, c, d, v)
  {
  }

  /** The pivot is removed from a clause that its resolvent subsumes. */
  method SelfSubsume(s: Internal, c: nat, pivot: int, ghost v: int)
    requires Ready(s) && !s.unsat && c < |s.clauses| && s.clauses[c].Live() && Abs(pivot) == v > 0
    requires pivot in s.clauses[c].lits && forall x :: x in s.clauses[c].lits ==> x == pivot || x !in s.fixedLits
    requires Left(s.clauses[c].lits, pivot, s.fixedLits) != {}
    requires Implies(Meaning(TableOf(s)), Left(s.clauses[c].lits, pivot, s.fixedLits))
    modifies s`clauses, s`occs, s`clauseId
    ensures Ready(s) && Grown(old(TableOf(s)), TableOf(s), v) && s.clauses[c].garbage
    ensures s.Occs(v) == old(s.Occs(v)) && s.Occs(-v) == old(s.Occs(-v))
    ensures var r := |old(s.clauses)|;
            && |s.clauses| == r + 1 && s.clauses[r].Live() && !Mentions(s.clauses[r].lits, v)
            && Lits(s.clauses[r].lits) == Left(old(s.clauses)[c].lits, pivot, s.fixedLits)
            && |s.clauses[r].lits| == |Left(old(s.clauses)[c].lits, pivot, s.fixedLits)|
    ensures forall i :: 0 <= i < |old(s.clauses)| && i != c ==> s.clauses[i] == old(s.clauses)[i]
    ensures Strengthened(old(TableOf(s)), TableOf(s))
  {
    hide Meaning, Grown, GoodTable, GoodLits, Left, Unique;
    GoodClauseAt(s, c);
    ghost var t0 := TableOf(s);
    var satisfied, clause, size := FirstAntecedent(s.clauses[c].lits, pivot, s.fixedLits);
    StrengthenedIsGood(s.clauses[c].lits, pivot, s.fixedLits, clause, v, s.external.maxVar);
    UniqueLength(clause);
    GoodLitsMention(clause, v, s.external.maxVar);
    AddResolvent(s, clause, v);
    ghost var t := TableOf(s);
    SubsumedGrown(t, c, |t.cs| - 1, v);
    GoodTableGarbage(s.clauses, s.fixedLits, s.occs, s.external.maxVar, c);
    s.MarkGarbage(c);
    GrownTransitive(t0, t, TableOf(s), v);
    LeftIsLess(t0.cs[c].lits, pivot, t0.fixedLits);
    OneStrengthened(t0, TableOf(s), c);
  }

  lemma LeftIsLess(c: Clause, pivot: int, fixedLits: set<int>)
    requires pivot in c
    ensures Left(c, pivot, fixedLits) < Lits(c)
  {
    assert pivot in Lits(c) && pivot !in Left(c, pivot, fixedLits);
  }

  lemma StrengthenedIsGood(c: Clause, pivot: int, fixedLits: set<int>, clause: Clause, v: int, maxVar: nat)
    requires forall x :: x in c ==> x != 0 && Abs(x) <= maxVar && -x !in c
    requires pivot in c && Abs(pivot) == v && Unique(clause) && Lits(clause) == Left(c, pivot, fixedLits)
    requires Left(c, pivot, fixedLits) != {}
    ensures GoodLits(clause, v, maxVar) && v !in clause && -v !in clause
    ensures forall x :: x in clause ==> x in c
  {
    forall x | x in clause ensures x in c && x != pivot && x != 0 && Abs(x) <= maxVar && -x !in clause && Abs(x) != v {
      assert x in Lits(clause);
      assert -x in clause ==> -x in Lits(clause);
    }
    assert clause == [] ==> Lits(clause) == {};
  }

  /** Resolves two live clauses, the first one being at most as large as the second one. */
  method ResolveLive(s: Internal, c: nat, pivot: int, d: nat, propagateEagerly: bool, ghost v: int)
    returns (res: bool, clause: Clause)
    requires Ready(s) && !s.unsat && Abs(pivot) == v > 0 && Unassigned(TableOf(s), v)
    requires c < |s.clauses| && d < |s.clauses| && s.clauses[c].Live() && s.clauses[d].Live()
    requires pivot in s.clauses[c].lits && -pivot in s.clauses[d].lits
    modifies s`clauses, s`fixedLits, s`occs, s`unsat, s`clauseId
    ensures Ready(s) && Grown(old(TableOf(s)), TableOf(s), v)
    ensures s.Occs(v) == old(s.Occs(v)) && s.Occs(-v) == old(s.Occs(-v))
    ensures !propagateEagerly ==> Unassigned(TableOf(s), v)
    ensures res ==> TableOf(s) == old(TableOf(s)) && !s.unsat
    ensures res ==> GoodResolvent(TableOf(s), clause, c, d, v, s.external.maxVar)
    ensures !res ==> Settled(s, c, d, v)
    ensures (res <==> ToBeAdded(old(TableOf(s)), c, d, v)) && (!res ==> clause == [])
    ensures Strengthened(old(TableOf(s)), TableOf(s))
    ensures !res && !propagateEagerly ==> Appends(old(TableOf(s)), TableOf(s), c, d, v)
  {
    hide Meaning, Grown, GoodTable, GoodLits, Left, Unique, Done, Hopeless, NoClash, Mentions, Open, Rest;
    GoodClauseAt(s, c);
    GoodClauseAt(s, d);
    var satisfied, first, sizeC := FirstAntecedent(s.clauses[c].lits, pivot, s.fixedLits);
    if satisfied != 0 {
      SatisfiedIsNotOpen(TableOf(s), c, d, satisfied, v);
      MarkSatisfied(s, c, satisfied, v);
      GarbageIsDone(TableOf(s), c, d, v);
      return false, [];
    }
    var tautological, sizeD;
    satisfied, tautological, clause, sizeD := SecondAntecedent(s.clauses[d].lits, -pivot, s.fixedLits, first);
    if satisfied != 0 {
      SatisfiedIsNotOpen(TableOf(s), d, c, satisfied, v);
      OpenSymmetric(TableOf(s), c, d, v);
      MarkSatisfied(s, d, satisfied, v);
      GarbageIsDone(TableOf(s), c, d, v);
      return false, [];
    }
    if tautological != 0 {
      TautologyIsDone(TableOf(s), c, d, first, pivot, tautological, v);
      GrownReflexive(TableOf(s), v);
      return false, [];
    }
    res, clause := UseResolvent(s, c, pivot, d, clause, sizeC, sizeD, first, propagateEagerly, v);
  }

  lemma SatisfiedIsNotOpen(t: Table, c: nat, d: nat, x: int, v: int)
    requires c < |t.cs| && d < |t.cs| && x in t.cs[c].lits && x in t.fixedLits && Unassigned(t, v)
    ensures !Open(t, c, d, v)
  {
    assert Abs(x) != v;
  }

  lemma ToBeAddedSymmetric(t: Table, c: int, d: int, v: int)
    ensures ToBeAdded(t, c, d, v) == ToBeAdded(t, d, c, v)
  {
    hide Open, Rest;
    OpenSymmetric(t, c, d, v);
  }

  /** The sizes tell whether an open resolvent is to be added. */
  lemma SizesTell(t: Table, c: nat, d: nat, pivot: int, v: int, clause: Clause, sizeC: nat, sizeD: nat)
    requires c < |t.cs| && d < |t.cs| && Abs(pivot) == v && -pivot !in t.cs[c].lits && pivot !in t.cs[d].lits
    requires Open(t, c, d, v) && |clause| == |Rest(t, c, d, v)|
    requires sizeC == |Left(t.cs[c].lits, pivot, t.fixedLits)| + 1
    requires sizeD == |Left(t.cs[d].lits, -pivot, t.fixedLits)| + 1
    ensures ToBeAdded(t, c, d, v) <==> |clause| >= 2 && sizeC <= |clause| && sizeD <= |clause|
  {
    hide Open, Rest, Left;
    LeftIsRest(t, c, d, pivot, v);
    RestIsFree(t, c, d, v);
    PartTells(Rest(t, c, d, v), t.cs[c].lits, pivot, t.fixedLits, v);
    PartTells(Rest(t, c, d, v), t.cs[d].lits, -pivot, t.fixedLits, v);
  }

  lemma RestIsFree(t: Table, c: int, d: int, v: int)
    ensures forall x :: x in Rest(t, c, d, v) ==> Abs(x) != v && -x !in t.fixedLits
  {
  }

  /** A set that includes what is left of a clause is within the clause only if it is no larger. */
  lemma PartTells(r: set<int>, c: Clause, pivot: int, fixedLits: set<int>, v: int)
    requires Left(c, pivot, fixedLits) <= r && Abs(pivot) == v
    requires forall x :: x in r ==> Abs(x) != v && -x !in fixedLits
    ensures r <= Lits(c) <==> |r| <= |Left(c, pivot, fixedLits)|
  {
    var l := Left(c, pivot, fixedLits);
    SubsetSize(l, r);
    if r <= Lits(c) {
      assert r <= l;
      SubsetSize(r, l);
    } else {
      assert l <= Lits(c);
    }
  }

  /** The resolvent is to be added, unless it is short or subsumes an antecedent. */
  method UseResolvent(s: Internal, c: nat, pivot: int, d: nat, clause0: Clause, sizeC: nat, sizeD: nat,
                      ghost first: Clause,
                      propagateEagerly: bool, ghost v: int) returns (res: bool, clause: Clause)
    requires Ready(s) && !s.unsat && Abs(pivot) == v > 0 && Unassigned(TableOf(s), v)
    requires c < |s.clauses| && d < |s.clauses| && s.clauses[c].Live() && s.clauses[d].Live()
    requires pivot in s.clauses[c].lits && -pivot in s.clauses[d].lits
    requires Unique(first) && Lits(first) == Left(s.clauses[c].lits, pivot, s.fixedLits) && sizeC == |first| + 1
    requires forall x :: x in s.clauses[c].lits && x != pivot ==> x !in s.fixedLits
    requires forall x :: x in s.clauses[d].lits && x != -pivot ==> x !in s.fixedLits
    requires Unique(clause0) && Lits(clause0) == Lits(first) + Left(s.clauses[d].lits, -pivot, s.fixedLits)
    requires NoClash(Left(s.clauses[d].lits, -pivot, s.fixedLits), Lits(first))
    requires sizeD == |Left(s.clauses[d].lits, -pivot, s.fixedLits)| + 1
    modifies s`clauses, s`fixedLits, s`occs, s`unsat, s`clauseId
    ensures Ready(s) && Grown(old(TableOf(s)), TableOf(s), v)
    ensures s.Occs(v) == old(s.Occs(v)) && s.Occs(-v) == old(s.Occs(-v))
    ensures !propagateEagerly ==> Unassigned(TableOf(s), v)
    ensures res ==> TableOf(s) == old(TableOf(s)) && !s.unsat
    ensures res ==> GoodResolvent(TableOf(s), clause, c, d, v, s.external.maxVar)
    ensures !res ==> Settled(s, c, d, v)
    ensures (res <==> ToBeAdded(old(TableOf(s)), c, d, v)) && (!res ==> clause == [])
    ensures Strengthened(old(TableOf(s)), TableOf(s))
    ensures !res && !propagateEagerly ==> Appends(old(TableOf(s)), TableOf(s), c, d, v)
  {
    hide Meaning, Grown, GoodTable, GoodLits, Left, Unique, Done, Hopeless, NoClash, Mentions, Open, Rest, GoodRecord,
         Strengthened, Unassigned, Appends, ToBeAdded;
    GoodClauseAt(s, c);
    GoodClauseAt(s, d);
    clause := clause0;
    ResolventFacts(TableOf(s), c, d, pivot, v, clause, first, s.external.maxVar);
    NothingStrengthened(TableOf(s), TableOf(s));
    UniqueLength(first);
    assert -(-pivot) !in s.clauses[d].lits;
    SizesTell(TableOf(s), c, d, pivot, v, clause, sizeC, sizeD);
    if |clause| >= 2 && sizeC <= |clause| && sizeD <= |clause| {
      GrownReflexive(TableOf(s), v);
      return true, clause;
    }
    res := false;
    SettleResolvent(s, c, pivot, d, clause, sizeC > |clause|, sizeD > |clause|, propagateEagerly, v);
    clause := [];
  }

  /** A resolvent that is short or subsumes an antecedent. */
  method SettleResolvent(s: Internal, c: nat, pivot: int, d: nat, clause: Clause, subsumesC: bool, subsumesD: bool,
                         propagateEagerly: bool, ghost v: int)
    requires Ready(s) && !s.unsat && Abs(pivot) == v > 0 && Unassigned(TableOf(s), v)
    requires c < |s.clauses| && d < |s.clauses| && s.clauses[c].Live() && s.clauses[d].Live()
    requires pivot in s.clauses[c].lits && -pivot in s.clauses[d].lits
    requires forall x :: x in s.clauses[c].lits && x != pivot ==> x !in s.fixedLits
    requires forall x :: x in s.clauses[d].lits && x != -pivot ==> x !in s.fixedLits
    requires Implies(Meaning(TableOf(s)), Lits(clause)) && (clause != [] ==> GoodLits(clause, v, s.external.maxVar))
    requires forall x :: x in clause ==> (x in s.clauses[c].lits || x in s.clauses[d].lits) && Abs(x) != v
    requires forall x :: x in clause ==> x !in s.fixedLits && -x !in s.fixedLits
    requires |clause| >= 2 ==> subsumesC || subsumesD
    requires Open(TableOf(s), c, d, v)
    requires subsumesC ==> Lits(clause) == Left(s.clauses[c].lits, pivot, s.fixedLits)
    requires subsumesD ==> Lits(clause) == Left(s.clauses[d].lits, -pivot, s.fixedLits)
    modifies s`clauses, s`fixedLits, s`occs, s`unsat, s`clauseId
    ensures Ready(s) && Grown(old(TableOf(s)), TableOf(s), v) && Settled(s, c, d, v)
    ensures s.Occs(v) == old(s.Occs(v)) && s.Occs(-v) == old(s.Occs(-v))
    ensures !propagateEagerly ==> Unassigned(TableOf(s), v) && Appends(old(TableOf(s)), TableOf(s), c, d, v)
    ensures Strengthened(old(TableOf(s)), TableOf(s))
  {
    hide Meaning, Grown, GoodTable, GoodLits, Left, Done, Hopeless, Mentions, Open, Rest, GoodRecord, Strengthened;
    if |clause| < 2 {
      ResolveShort(s, c, d, clause, propagateEagerly, v);
      NothingStrengthened(old(TableOf(s)), TableOf(s));
    } else {
      ResolveSubsuming(s, c, d, pivot, clause, subsumesC, subsumesD, v);
    }
  }

  /** What is known of a resolvent in which neither antecedent is satisfied nor literals clash. */
  lemma ResolventFacts(t: Table, c: nat, d: nat, pivot: int, v: int, clause: Clause, first: Clause, maxVar: nat)
    requires c < |t.cs| && d < |t.cs| && t.cs[c].Live() && t.cs[d].Live() && Abs(pivot) == v && Unassigned(t, v)
    requires forall x :: x in t.cs[c].lits ==> x != 0 && Abs(x) <= maxVar && -x !in t.cs[c].lits
    requires forall x :: x in t.cs[d].lits ==> x != 0 && Abs(x) <= maxVar && -x !in t.cs[d].lits
    requires pivot in t.cs[c].lits && -pivot in t.cs[d].lits
    requires forall x :: x in t.cs[c].lits && x != pivot ==> x !in t.fixedLits
    requires forall x :: x in t.cs[d].lits && x != -pivot ==> x !in t.fixedLits
    requires Unique(first) && Lits(first) == Left(t.cs[c].lits, pivot, t.fixedLits) && Unique(clause)
    requires Lits(clause) == Lits(first) + Left(t.cs[d].lits, -pivot, t.fixedLits)
    requires NoClash(Left(t.cs[d].lits, -pivot, t.fixedLits), Lits(first))
    ensures Implies(Meaning(t), Lits(clause)) && (clause != [] ==> GoodLits(clause, v, maxVar))
    ensures forall x :: x in clause ==> (x in t.cs[c].lits || x in t.cs[d].lits) && Abs(x) != v
    ensures forall x :: x in clause ==> x !in t.fixedLits && -x !in t.fixedLits
    ensures Open(t, c, d, v) && Lits(clause) == Rest(t, c, d, v) && |clause| == |Rest(t, c, d, v)|
    ensures |first| + 1 > |clause| ==> Lits(clause) == Left(t.cs[c].lits, pivot, t.fixedLits)
    ensures |Left(t.cs[d].lits, -pivot, t.fixedLits)| + 1 > |clause| ==>
              Lits(clause) == Left(t.cs[d].lits, -pivot, t.fixedLits)
  {
    hide Meaning, GoodLits, Left, Unique, NoClash, Mentions, Open, Rest, Unassigned;
    ResolventImplied(t, c, d, pivot);
    ResolventIsGood(t.cs[c].lits, t.cs[d].lits, pivot, t.fixedLits, clause, v, maxVar);
    UniqueSize(clause, t.cs[c].lits, t.cs[d].lits, pivot, t.fixedLits, |first|, first);
    assert -(-pivot) !in t.cs[d].lits;
    NotYetSettled(t, c, d, pivot, v, clause);
  }

  lemma TautologyIsDone(t: Table, c: nat, d: nat, first: Clause, pivot: int, x: int, v: int)
    requires c < |t.cs| && d < |t.cs| && x in t.cs[d].lits && x != -pivot && -x in first
    requires Lits(first) == Left(t.cs[c].lits, pivot, t.fixedLits) && Abs(pivot) == v
    requires x != 0 && pivot !in t.cs[d].lits
    ensures Done(t, c, d, v) && !Open(t, c, d, v)
  {
    assert -x in Lits(first);
    assert x in t.cs[d].lits && Abs(x) != v && -x in t.cs[c].lits;
    CoveredByClash(Without(t, v), t.cs[c].lits, t.cs[d].lits, x, v);
  }

  /** The resolvent is not larger than an antecedent without its pivot only if it has the
      same literals. */
  lemma UniqueSize(clause: Clause, c: Clause, d: Clause, pivot: int, fixedLits: set<int>, n: nat, first: Clause)
    requires Unique(clause) && Unique(first) && n == |first| && Lits(first) == Left(c, pivot, fixedLits)
    requires Lits(clause) == Left(c, pivot, fixedLits) + Left(d, -pivot, fixedLits)
    ensures n + 1 > |clause| ==> Lits(clause) == Left(c, pivot, fixedLits)
    ensures |Left(d, -pivot, fixedLits)| + 1 > |clause| ==> Lits(clause) == Left(d, -pivot, fixedLits)
  {
    if n + 1 > |clause| {
      SubsetSize(Left(c, pivot, fixedLits), Lits(clause));
    }
    if |Left(d, -pivot, fixedLits)| + 1 > |clause| {
      SubsetSize(Left(d, -pivot, fixedLits), Lits(clause));
    }
  }

  /** An empty or unit resolvent. */
  method ResolveShort(s: Internal, c: nat, d: nat, clause: Clause, propagateEagerly: bool, ghost v: int)
    requires Ready(s) && !s.unsat && v > 0 && Unassigned(TableOf(s), v)
    requires c < |s.clauses| && d < |s.clauses| && |clause| < 2 && Implies(Meaning(TableOf(s)), Lits(clause))
    requires clause != [] ==> GoodLits(clause, v, s.external.maxVar)
    requires forall x :: x in clause ==> (x in s.clauses[c].lits || x in s.clauses[d].lits) && Abs(x) != v
    requires forall x :: x in clause ==> x !in s.fixedLits && -x !in s.fixedLits
    modifies s`clauses, s`fixedLits, s`unsat
    ensures Ready(s) && Grown(old(TableOf(s)), TableOf(s), v) && Settled(s, c, d, v)
    ensures |s.clauses| == |old(s.clauses)|
    ensures !propagateEagerly ==> Unassigned(TableOf(s), v) && s.clauses == old(s.clauses)
  {
    hide Meaning, Grown, GoodTable, Hopeless, Mentions, Done, Open;
    if clause == [] {
      EmptyIsHopeless(TableOf(s), clause);
      s.unsat := true;
      GrownReflexive(TableOf(s), v);
      return;
    }
    var unit := clause[0];
    assert unit in clause;
    assert Lits(clause) == {unit};
    ghost var t0 := TableOf(s);
    AssignUnit(s, unit, v);
    ghost var t := TableOf(s);
    UnitIsDone(t, c, d, unit, v);
    if propagateEagerly {
      ElimPropagate(s, unit, v);
      GrownTransitive(t0, t, TableOf(s), v);
      OpenEarlier(t, TableOf(s), c, d, v);
      if Unassigned(TableOf(s), v) {
        DoneStays(t, TableOf(s), c, d, v);
      }
    }
  }

  lemma EmptyIsHopeless(t: Table, clause: Clause)
    requires clause == [] && Implies(Meaning(t), Lits(clause))
    ensures Hopeless(t)
  {
    forall m ensures !Models(m, Meaning(t)) {
      assert !Holds(m, Lits(clause));
    }
  }

  lemma UnitIsDone(t: Table, c: nat, d: nat, unit: int, v: int)
    requires c < |t.cs| && d < |t.cs| && unit in t.fixedLits && Abs(unit) != v
    requires unit in t.cs[c].lits || unit in t.cs[d].lits
    ensures Done(t, c, d, v) && !Open(t, c, d, v)
  {
    assert {unit} in Without(t, v);
    CoveredByResolvent(Without(t, v), {unit}, t.cs[c].lits, t.cs[d].lits, v);
  }

  /** The resolvent subsumes one or both antecedents. */
  method ResolveSubsuming(s: Internal, c: nat, d: nat, pivot: int, clause: Clause, subsumesC: bool, subsumesD: bool,
                          ghost v: int)
    requires Ready(s) && !s.unsat && Abs(pivot) == v > 0 && Unassigned(TableOf(s), v) && (subsumesC || subsumesD)
    requires c < |s.clauses| && d < |s.clauses| && s.clauses[c].Live() && s.clauses[d].Live() && clause != []
    requires pivot in s.clauses[c].lits && -pivot in s.clauses[d].lits && Implies(Meaning(TableOf(s)), Lits(clause))
    requires forall x :: x in s.clauses[c].lits ==> x == pivot || x !in s.fixedLits
    requires forall x :: x in s.clauses[d].lits ==> x == -pivot || x !in s.fixedLits
    requires subsumesC ==> Lits(clause) == Left(s.clauses[c].lits, pivot, s.fixedLits)
    requires subsumesD ==> Lits(clause) == Left(s.clauses[d].lits, -pivot, s.fixedLits)
    modifies s`clauses, s`occs, s`clauseId
    ensures Ready(s) && Grown(old(TableOf(s)), TableOf(s), v) && Settled(s, c, d, v)
    ensures s.Occs(v) == old(s.Occs(v)) && s.Occs(-v) == old(s.Occs(-v))
    ensures Strengthened(old(TableOf(s)), TableOf(s))
    ensures |s.clauses| == |old(s.clauses)| + 1
    ensures |s.clauses[|old(s.clauses)|].lits| <= |Rest(old(TableOf(s)), c, d, v)|
  {
    hide Meaning, Grown, GoodTable, Hopeless, Mentions, Done, Left, Open, Rest, Strengthened, GoodRecord;
    GoodClauseAt(s, c);
    GoodClauseAt(s, d);
    assert -pivot !in s.clauses[c].lits && -(-pivot) !in s.clauses[d].lits;
    LeftIsRest(TableOf(s), c, d, pivot, v);
    assert clause[0] in Lits(clause);
    ghost var dl := s.clauses[d].lits;
    ghost var t0 := TableOf(s);
    if subsumesC && subsumesD {
      SelfSubsume(s, c, pivot, v);
      ghost var t := TableOf(s);
      LeftIsPart(dl, -pivot, s.fixedLits);
      SubsetLits(s.clauses[|s.clauses| - 1].lits, dl);
      SubsumedGrown(t, d, |s.clauses| - 1, v);
      GoodTableGarbage(s.clauses, s.fixedLits, s.occs, s.external.maxVar, d);
      s.MarkGarbage(d);
      GrownTransitive(t0, t, TableOf(s), v);
      NothingStrengthened(t, TableOf(s));
      StrengthenedTransitive(t0, t, TableOf(s), v);
    } else if subsumesC {
      SelfSubsume(s, c, pivot, v);
    } else {
      SelfSubsume(s, d, -pivot, v);
    }
    GarbageIsDone(TableOf(s), c, d, v);
  }

  lemma LeftIsRest(t: Table, c: nat, d: nat, pivot: int, v: int)
    requires c < |t.cs| && d < |t.cs| && Abs(pivot) == v && -pivot !in t.cs[c].lits && pivot !in t.cs[d].lits
    ensures |Left(t.cs[c].lits, pivot, t.fixedLits)| <= |Rest(t, c, d, v)|
    ensures |Left(t.cs[d].lits, -pivot, t.fixedLits)| <= |Rest(t, c, d, v)|
    ensures Left(t.cs[c].lits, pivot, t.fixedLits) + Left(t.cs[d].lits, -pivot, t.fixedLits) == Rest(t, c, d, v)
  {
    var a, b, r := Left(t.cs[c].lits, pivot, t.fixedLits), Left(t.cs[d].lits, -pivot, t.fixedLits), Rest(t, c, d, v);
    forall x ensures x in a + b <==> x in r { }
    SubsetSize(a, r);
    SubsetSize(b, r);
  }

  lemma ClashIsLeft(t: Table, c: Clause, d: Clause, pivot: int, v: int, x: int)
    requires x in d && Abs(x) != v && -x in c && Abs(pivot) == v
    requires (forall y :: y in c && y != pivot ==> y !in t.fixedLits)
    requires forall y :: y in d && y != -pivot ==> y !in t.fixedLits
    ensures x in Left(d, -pivot, t.fixedLits) && -x in Left(c, pivot, t.fixedLits)
  {
    assert -(-x) == x && x !in t.fixedLits && -x !in t.fixedLits;
  }

  /** No literal is true and no literals clash: the pair is open, and this is its resolvent. */
  lemma NotYetSettled(t: Table, c: nat, d: nat, pivot: int, v: int, clause: Clause)
    requires c < |t.cs| && d < |t.cs| && Abs(pivot) == v && -pivot !in t.cs[c].lits && pivot !in t.cs[d].lits
    requires !t.cs[c].garbage && !t.cs[d].garbage && Unassigned(t, v)
    requires forall x :: x in t.cs[c].lits && x != pivot ==> x !in t.fixedLits
    requires forall x :: x in t.cs[d].lits && x != -pivot ==> x !in t.fixedLits
    requires NoClash(Left(t.cs[d].lits, -pivot, t.fixedLits), Left(t.cs[c].lits, pivot, t.fixedLits))
    requires Unique(clause)
    requires Lits(clause) == Left(t.cs[c].lits, pivot, t.fixedLits) + Left(t.cs[d].lits, -pivot, t.fixedLits)
    ensures Open(t, c, d, v) && Lits(clause) == Rest(t, c, d, v) && |clause| == |Rest(t, c, d, v)|
  {
    LeftIsRest(t, c, d, pivot, v);
    if x :| x in t.cs[d].lits && Abs(x) != v && -x in t.cs[c].lits {
      ClashIsLeft(t, t.cs[c].lits, t.cs[d].lits, pivot, v, x);
    }
  }

  lemma LeftIsPart(c: Clause, pivot: int, fixedLits: set<int>)
    ensures Left(c, pivot, fixedLits) <= Lits(c)
  {
  }

  lemma SubsetLits(a: Clause, b: Clause)
    requires Lits(a) <= Lits(b)
    ensures forall x :: x in a ==> x in b
  {
    assert forall x :: x in a ==> x in Lits(a);
  }

  /** Resolves two clauses on the pivot; the result says whether the resolvent has to be
      added, everything else is dealt with. */
  method ResolveClauses(s: Internal, c: nat, pivot: int, d: nat, propagateEagerly: bool, ghost v: int)
    returns (res: bool, clause: Clause)
    requires Ready(s) && !s.unsat && Abs(pivot) == v > 0 && Unassigned(TableOf(s), v)
    requires Listed(s.clauses, c, pivot) && Listed(s.clauses, d, -pivot)
    modifies s`clauses, s`fixedLits, s`occs, s`unsat, s`clauseId
    ensures Ready(s) && Grown(old(TableOf(s)), TableOf(s), v)
    ensures s.Occs(v) == old(s.Occs(v)) && s.Occs(-v) == old(s.Occs(-v))
    ensures !propagateEagerly ==> Unassigned(TableOf(s), v)
    ensures res ==> TableOf(s) == old(TableOf(s)) && !s.unsat
    ensures res ==> GoodResolvent(TableOf(s), clause, c, d, v, s.external.maxVar)
    ensures !res ==> Settled(s, c, d, v)
    ensures (res <==> ToBeAdded(old(TableOf(s)), c, d, v)) && (!res ==> clause == [])
    ensures Strengthened(old(TableOf(s)), TableOf(s))
    ensures !res && !propagateEagerly ==> Appends(old(TableOf(s)), TableOf(s), c, d, v)
  {
    hide Meaning, Grown, GoodTable, Done, Hopeless, GoodLits, Open, Rest;
    OpenSymmetric(TableOf(s), c, d, v);
    ToBeAddedSymmetric(TableOf(s), c, d, v);
    if s.clauses[c].garbage || s.clauses[d].garbage {
      GarbageIsDone(TableOf(s), c, d, v);
      GrownReflexive(TableOf(s), v);
      return false, [];
    }
    if |s.clauses[c].lits| > |s.clauses[d].lits| {
      res, clause := ResolveLive(s, d, -pivot, c, propagateEagerly, v);
      OpenSymmetric(TableOf(s), c, d, v);
      if !res && !s.unsat && Unassigned(TableOf(s), v) {
        DoneSymmetric(TableOf(s), d, c, v);
      }
    } else {
      res, clause := ResolveLive(s, c, pivot, d, propagateEagerly, v);
    }
  }
}
