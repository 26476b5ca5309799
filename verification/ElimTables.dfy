/** Clause tables during the elimination of one variable: what every step keeps. */
module ElimTables {
  import opened Cnf
  import opened Extension
  import opened Reconstruction
  import opened InternalSolver

  datatype Table = Table(cs: seq<ClauseRecord>, fixedLits: set<int>)

  ghost function Meaning(t: Table): Formula {
    FormulaOf(t.cs, t.fixedLits)
  }

  ghost predicate Mentions(c: Clause, v: int) {
    exists x :: x in c && Abs(x) == v
  }

  ghost predicate Unassigned(t: Table, v: int) {
    v !in t.fixedLits && -v !in t.fixedLits
  }

  /** The units and the live clauses without the variable. */
  ghost function Without(t: Table, v: int): Formula {
    (set i | 0 <= i < |t.cs| && t.cs[i].Live() && !Mentions(t.cs[i].lits, v) :: Lits(t.cs[i].lits))
    + set u | u in t.fixedLits :: {u}
  }

  /** The clause is satisfied by a literal of another variable. */
  ghost predicate Beyond(m: Assignment, c: Clause, v: int) {
    exists x :: x in c && Abs(x) != v && True(m, x)
  }

  ghost predicate Covered(f: Formula, c: Clause, v: int) {
    forall m :: Models(m, f) ==> Beyond(m, c, v)
  }

  /** In every model of the formula the resolvent of the two clauses holds. */
  ghost predicate ResolventCovered(f: Formula, c: Clause, d: Clause, v: int) {
    forall m :: Models(m, f) ==> Beyond(m, c, v) || Beyond(m, d, v)
  }

  ghost predicate Equivalent(f: Formula, g: Formula) {
    Weaker(f, g) && Weaker(g, f)
  }

  /** The same clause, possibly marked as garbage. */
  ghost predicate OnlyGarbage(a: ClauseRecord, b: ClauseRecord) {
    b == a.(garbage := b.garbage) && (a.garbage ==> b.garbage)
  }

  ghost predicate Removed(t: Table, t': Table, i: int) {
    0 <= i < |t.cs| && i < |t'.cs| && t.cs[i].Live() && t'.cs[i].garbage
  }

  /** What was removed holds anyway, whatever the value of the variable. */
  ghost predicate RemovedCovered(t: Table, t': Table, v: int) {
    forall i :: Removed(t, t', i) ==> Covered(Without(t', v), t.cs[i].lits, v)
  }

  /** The steps taken while the variable is tried: clauses become garbage, clauses without the
      variable and units are added, and the meaning stays the same, also of the part without
      the variable. */
  ghost predicate Grown(t: Table, t': Table, v: int) {
    && |t.cs| <= |t'.cs| && t.fixedLits <= t'.fixedLits
    && (forall i :: 0 <= i < |t.cs| ==> OnlyGarbage(t.cs[i], t'.cs[i]))
    && (forall i :: |t.cs| <= i < |t'.cs| ==> !Mentions(t'.cs[i].lits, v))
    && Equivalent(Meaning(t), Meaning(t'))
    && (Unassigned(t', v) ==> Weaker(Without(t', v), Without(t, v)) && RemovedCovered(t, t', v))
  }

  lemma GrownReflexive(t: Table, v: int)
    ensures Grown(t, t, v)
  {
  }

  lemma GrownTransitive(a: Table, b: Table, c: Table, v: int)
    requires Grown(a, b, v) && Grown(b, c, v)
    ensures Grown(a, c, v)
  {
    hide Meaning, Without, Covered, Mentions;
    if Unassigned(c, v) {
      forall i | Removed(a, c, i) ensures Covered(Without(c, v), a.cs[i].lits, v) {
        assert OnlyGarbage(a.cs[i], b.cs[i]) && OnlyGarbage(b.cs[i], c.cs[i]);
        if b.cs[i].garbage {
          assert Removed(a, b, i);
          CoveredStronger(Without(b, v), Without(c, v), a.cs[i].lits, v);
        } else {
          assert Removed(b, c, i);
        }
      }
    }
    forall i | |a.cs| <= i < |b.cs| ensures !Mentions(c.cs[i].lits, v) {
      assert OnlyGarbage(b.cs[i], c.cs[i]);
    }
    forall i | 0 <= i < |a.cs| ensures OnlyGarbage(a.cs[i], c.cs[i]) {
      assert OnlyGarbage(a.cs[i], b.cs[i]) && OnlyGarbage(b.cs[i], c.cs[i]);
    }
  }

  lemma CoveredStronger(f: Formula, g: Formula, c: Clause, v: int)
    requires Weaker(g, f) && Covered(f, c, v)
    ensures Covered(g, c, v)
  {
  }

  // ---------------------------------------------------------------- strengthening

  /** The clause has only some of the literals of a clause that is garbage. */
  ghost predicate Strengthens(cs: seq<ClauseRecord>, c: Clause) {
    exists i :: 0 <= i < |cs| && cs[i].garbage && Lits(c) < Lits(cs[i].lits)
  }

  /** All clauses that were added replace clauses with more literals. */
  ghost predicate Strengthened(t: Table, t': Table) {
    |t.cs| <= |t'.cs| && forall k :: |t.cs| <= k < |t'.cs| ==> Strengthens(t'.cs, t'.cs[k].lits)
  }

  lemma NothingStrengthened(t: Table, t': Table)
    requires |t.cs| == |t'.cs|
    ensures Strengthened(t, t')
  {
  }

  lemma StrengthenedTransitive(a: Table, b: Table, c: Table, v: int)
    requires Strengthened(a, b) && Strengthened(b, c) && Grown(b, c, v)
    ensures Strengthened(a, c)
  {
    hide Meaning, Without, RemovedCovered, Equivalent, Lits;
    forall k | |a.cs| <= k < |b.cs| ensures Strengthens(c.cs, c.cs[k].lits) {
      assert Strengthens(b.cs, b.cs[k].lits) && OnlyGarbage(b.cs[k], c.cs[k]);
      var i :| 0 <= i < |b.cs| && b.cs[i].garbage && Lits(b.cs[k].lits) < Lits(b.cs[i].lits);
      assert OnlyGarbage(b.cs[i], c.cs[i]);
    }
  }

  lemma OneStrengthened(t: Table, t': Table, c: nat)
    requires |t'.cs| == |t.cs| + 1 && c < |t.cs| && t'.cs[c].garbage
    requires Lits(t'.cs[|t.cs|].lits) < Lits(t'.cs[c].lits)
    ensures Strengthened(t, t')
  {
  }

  // ---------------------------------------------------------------- garbage

  function WithGarbage(t: Table, i: nat): Table
    requires i < |t.cs|
  {
    t.(cs := t.cs[i := t.cs[i].(garbage := true)])
  }

  lemma WithoutGarbageClause(t: Table, i: nat, v: int)
    requires i < |t.cs|
    ensures Without(WithGarbage(t, i), v) <= Without(t, v)
    ensures Without(t, v) <= Without(WithGarbage(t, i), v) + {Lits(t.cs[i].lits)}
  {
    var t' := WithGarbage(t, i);
    forall s | s in Without(t', v) ensures s in Without(t, v) {
      if k :| 0 <= k < |t'.cs| && t'.cs[k].Live() && !Mentions(t'.cs[k].lits, v) && s == Lits(t'.cs[k].lits) {
        assert t.cs[k].Live() && t.cs[k].lits == t'.cs[k].lits;
      }
    }
    forall s | s in Without(t, v) && s != Lits(t.cs[i].lits) ensures s in Without(t', v) {
      if k :| 0 <= k < |t.cs| && t.cs[k].Live() && !Mentions(t.cs[k].lits, v) && s == Lits(t.cs[k].lits) {
        assert t'.cs[k].Live() && t.cs[k].lits == t'.cs[k].lits;
      }
    }
  }

  /** A clause that holds anyway may be removed. */
  lemma GarbageGrown(t: Table, i: nat, v: int)
    requires i < |t.cs| && Implies(Meaning(WithGarbage(t, i)), Lits(t.cs[i].lits))
    requires Unassigned(t, v) ==> Covered(Without(WithGarbage(t, i), v), t.cs[i].lits, v)
    ensures Grown(t, WithGarbage(t, i), v)
  {
    hide Covered, Mentions;
    var t' := WithGarbage(t, i);
    GarbageFormula(t.cs, t.fixedLits, i);
    WithoutGarbageClause(t, i, v);
    SubsetWeaker(Meaning(t), Meaning(t'), Lits(t.cs[i].lits));
    if Unassigned(t, v) {
      CoveredHolds(Without(t', v), t.cs[i].lits, v);
      SubsetWeaker(Without(t, v), Without(t', v), Lits(t.cs[i].lits));
    }
    forall k | Removed(t, t', k) && Unassigned(t', v) ensures Covered(Without(t', v), t.cs[k].lits, v) {
      assert k == i;
    }
  }

  lemma CoveredHolds(f: Formula, c: Clause, v: int)
    requires Covered(f, c, v)
    ensures Implies(f, Lits(c))
  {
    forall m | Models(m, f) ensures Holds(m, Lits(c)) {
      var x :| x in c && Abs(x) != v && True(m, x);
      assert x in Lits(c);
    }
  }

  lemma SubsetWeaker(f: Formula, g: Formula, c: set<int>)
    requires g <= f <= g + {c} && Implies(g, c)
    ensures Weaker(f, g) && Weaker(g, f)
  {
    forall m | Models(m, g) ensures Models(m, f) {
      assert Holds(m, c);
    }
  }

  /** A clause with a true literal. */
  lemma SatisfiedGrown(t: Table, i: nat, u: int, v: int)
    requires i < |t.cs| && u in t.cs[i].lits && u in t.fixedLits && u != 0
    ensures Grown(t, WithGarbage(t, i), v)
  {
    var t' := WithGarbage(t, i);
    assert {u} in Meaning(t') && {u} in Without(t', v);
    forall m | Holds(m, {u}) ensures True(m, u) { }
    forall m | Models(m, Meaning(t')) ensures Holds(m, Lits(t.cs[i].lits)) {
      assert u in Lits(t.cs[i].lits) && Holds(m, {u});
    }
    if Unassigned(t, v) {
      assert Abs(u) != v;
      forall m | Models(m, Without(t', v)) ensures Beyond(m, t.cs[i].lits, v) {
        assert Holds(m, {u});
      }
    }
    GarbageGrown(t, i, v);
  }

  /** A clause with a smaller clause beside it that does not mention the variable. */
  lemma SubsumedGrown(t: Table, i: nat, r: nat, v: int)
    requires i < |t.cs| && r < |t.cs| && i != r && t.cs[r].Live() && !Mentions(t.cs[r].lits, v)
    requires forall x :: x in t.cs[r].lits ==> x in t.cs[i].lits
    ensures Grown(t, WithGarbage(t, i), v)
  {
    var t' := WithGarbage(t, i);
    assert t'.cs[r] == t.cs[r];
    assert Lits(t.cs[r].lits) in Meaning(t') && Lits(t.cs[r].lits) in Without(t', v);
    forall m | Holds(m, Lits(t.cs[r].lits)) ensures Holds(m, Lits(t.cs[i].lits)) && Beyond(m, t.cs[i].lits, v) {
      var x :| x in Lits(t.cs[r].lits) && True(m, x);
      assert x in Lits(t.cs[i].lits);
    }
    GarbageGrown(t, i, v);
  }

  // ---------------------------------------------------------------- additions

  lemma AddedFormula(t: Table, r: ClauseRecord, v: int)
    requires r.Live() && !Mentions(r.lits, v)
    ensures Meaning(t.(cs := t.cs + [r])) == Meaning(t) + {Lits(r.lits)}
    ensures Without(t.(cs := t.cs + [r]), v) == Without(t, v) + {Lits(r.lits)}
  {
    var n := |t.cs|;
    var t' := t.(cs := t.cs + [r]);
    assert t'.cs[n] == r && forall k :: 0 <= k < n ==> t'.cs[k] == t.cs[k];
    forall s | s in Meaning(t) + {Lits(r.lits)} ensures s in Meaning(t') {
      if k :| 0 <= k < n && t.cs[k].Live() && s == Lits(t.cs[k].lits) {
        assert t'.cs[k].Live();
      }
    }
    forall s | s in Without(t, v) + {Lits(r.lits)} ensures s in Without(t', v) {
      if k :| 0 <= k < n && t.cs[k].Live() && !Mentions(t.cs[k].lits, v) && s == Lits(t.cs[k].lits) {
        assert t'.cs[k].Live() && !Mentions(t'.cs[k].lits, v);
      }
    }
  }

  lemma AddedGrown(t: Table, r: ClauseRecord, v: int)
    requires r.Live() && !Mentions(r.lits, v) && Implies(Meaning(t), Lits(r.lits))
    ensures Grown(t, t.(cs := t.cs + [r]), v)
  {
    hide Meaning, Without, Covered, Mentions;
    AddedFormula(t, r, v);
    ImpliedWeaker(Meaning(t), Lits(r.lits));
    ModelsOfLarger(Without(t, v), {Lits(r.lits)});
  }

  lemma ImpliedWeaker(f: Formula, c: set<int>)
    requires Implies(f, c)
    ensures Equivalent(f, f + {c})
  {
    SubsetWeaker(f + {c}, f, c);
  }

  lemma ModelsOfLarger(f: Formula, g: Formula)
    ensures Weaker(f + g, f)
  {
    forall m | Models(m, f + g) ensures Models(m, f) {
      ModelsUnion(m, f, g);
    }
  }

  lemma UnitFormula(t: Table, u: int, v: int)
    ensures Meaning(t.(fixedLits := t.fixedLits + {u})) == Meaning(t) + {{u}}
    ensures Without(t.(fixedLits := t.fixedLits + {u}), v) == Without(t, v) + {{u}}
  {
    var t' := t.(fixedLits := t.fixedLits + {u});
    assert (set x | x in t'.fixedLits :: {x}) == (set x | x in t.fixedLits :: {x}) + {{u}} by {
      assert u in t'.fixedLits;
    }
  }

  lemma UnitGrown(t: Table, u: int, v: int)
    requires Implies(Meaning(t), {u})
    ensures Grown(t, t.(fixedLits := t.fixedLits + {u}), v)
  {
    hide Meaning, Without, Covered, Mentions;
    UnitFormula(t, u, v);
    ImpliedWeaker(Meaning(t), {u});
    ModelsOfLarger(Without(t, v), {{u}});
  }

  // ---------------------------------------------------------------- unit propagation

  /** The only literal that is not false is implied. */
  lemma UnitImplied(t: Table, c: nat, u: int)
    requires c < |t.cs| && t.cs[c].Live() && 0 !in t.cs[c].lits
    requires forall x :: x in t.cs[c].lits && x != u ==> -x in t.fixedLits
    ensures Implies(Meaning(t), {u})
  {
    assert Lits(t.cs[c].lits) in Meaning(t);
    forall m | Models(m, Meaning(t)) ensures Holds(m, {u}) {
      var x :| x in Lits(t.cs[c].lits) && True(m, x);
      if x != u {
        assert {-x} in Meaning(t);
        assert Holds(m, {-x});
      }
    }
  }

  ghost predicate Hopeless(t: Table) {
    forall m :: !Models(m, Meaning(t))
  }

  lemma FalsifiedIsHopeless(t: Table, c: nat)
    requires c < |t.cs| && t.cs[c].Live() && 0 !in t.cs[c].lits
    requires forall x :: x in t.cs[c].lits ==> -x in t.fixedLits
    ensures Hopeless(t)
  {
    assert Lits(t.cs[c].lits) in Meaning(t);
    forall x | x in Lits(t.cs[c].lits) ensures {-x} in Meaning(t) { }
    forall m, x | x in Lits(t.cs[c].lits) && Holds(m, {-x}) ensures !True(m, x) { }
  }

  // ---------------------------------------------------------------- resolution

  /** The literals other than the pivot that are not false. */
  ghost function Left(c: Clause, pivot: int, fixedLits: set<int>): set<int> {
    set x | x in c && x != pivot && -x !in fixedLits
  }

  lemma ResolventImplied(t: Table, c: nat, d: nat, pivot: int)
    requires c < |t.cs| && d < |t.cs| && t.cs[c].Live() && t.cs[d].Live() && pivot != 0
    requires 0 !in t.cs[c].lits && 0 !in t.cs[d].lits
    ensures Implies(Meaning(t), Left(t.cs[c].lits, pivot, t.fixedLits) + Left(t.cs[d].lits, -pivot, t.fixedLits))
  {
    var cl, dl := t.cs[c].lits, t.cs[d].lits;
    assert Lits(cl) in Meaning(t) && Lits(dl) in Meaning(t);
    forall m | Models(m, Meaning(t)) ensures Holds(m, Left(cl, pivot, t.fixedLits) + Left(dl, -pivot, t.fixedLits)) {
      var x :| x in Lits(cl) && True(m, x);
      var y :| y in Lits(dl) && True(m, y);
      var z := if x != pivot then x else y;
      assert z in cl || z in dl;
      if -z in t.fixedLits {
        assert {-z} in Meaning(t);
        assert Holds(m, {-z});
      }
      assert z in Left(cl, pivot, t.fixedLits) + Left(dl, -pivot, t.fixedLits);
    }
  }

  /** A clause or unit that is left and consists of literals of the two antecedents. */
  lemma CoveredByResolvent(f: Formula, s: set<int>, c: Clause, d: Clause, v: int)
    requires s in f && forall x :: x in s ==> Abs(x) != v && (x in c || x in d)
    ensures ResolventCovered(f, c, d, v)
  {
    forall m | Models(m, f) ensures Beyond(m, c, v) || Beyond(m, d, v) {
      var x :| x in s && True(m, x);
    }
  }

  lemma CoveredByClash(f: Formula, c: Clause, d: Clause, x: int, v: int)
    requires x in d && -x in c && Abs(x) != v && x != 0
    ensures ResolventCovered(f, c, d, v)
  {
    forall m | Models(m, f) ensures Beyond(m, c, v) || Beyond(m, d, v) {
      assert True(m, x) || True(m, -x);
    }
  }

  /** The pair needs no attention any more. */
  ghost predicate Done(t: Table, c: int, d: int, v: int) {
    && 0 <= c < |t.cs| && 0 <= d < |t.cs|
    && (t.cs[c].garbage || t.cs[d].garbage || ResolventCovered(Without(t, v), t.cs[c].lits, t.cs[d].lits, v))
  }

  lemma DoneStays(t: Table, t': Table, c: int, d: int, v: int)
    requires Done(t, c, d, v) && Grown(t, t', v) && Unassigned(t', v)
    ensures Done(t', c, d, v)
  {
    hide Without, Meaning, Mentions;
    assert OnlyGarbage(t.cs[c], t'.cs[c]) && OnlyGarbage(t.cs[d], t'.cs[d]);
  }

  lemma DoneSymmetric(t: Table, c: int, d: int, v: int)
    requires Done(t, c, d, v)
    ensures Done(t, d, c, v)
  {
  }

  // ---------------------------------------------------------------- pairs left to be resolved

  ghost predicate SatisfiedBeyond(c: Clause, fixedLits: set<int>, v: int) {
    exists x :: x in c && Abs(x) != v && x in fixedLits
  }

  ghost predicate ClashBeyond(c: Clause, d: Clause, v: int) {
    exists x :: x in d && Abs(x) != v && -x in c
  }

  /** Neither clause is garbage or true, and the resolvent is not tautological. */
  ghost predicate Open(t: Table, c: int, d: int, v: int) {
    && 0 <= c < |t.cs| && 0 <= d < |t.cs| && !t.cs[c].garbage && !t.cs[d].garbage
    && !SatisfiedBeyond(t.cs[c].lits, t.fixedLits, v) && !SatisfiedBeyond(t.cs[d].lits, t.fixedLits, v)
    && !ClashBeyond(t.cs[c].lits, t.cs[d].lits, v)
  }

  /** The literals of the resolvent that are not false. */
  ghost function Rest(t: Table, c: int, d: int, v: int): set<int> {
    if 0 <= c < |t.cs| && 0 <= d < |t.cs|
    then set x | x in t.cs[c].lits + t.cs[d].lits && Abs(x) != v && -x !in t.fixedLits
    else {}
  }

  /** The resolvent has at least two literals and subsumes neither of the clauses. */
  ghost predicate ToBeAdded(t: Table, c: int, d: int, v: int) {
    && Open(t, c, d, v) && |Rest(t, c, d, v)| >= 2
    && !(Rest(t, c, d, v) <= Lits(t.cs[c].lits)) && !(Rest(t, c, d, v) <= Lits(t.cs[d].lits))
  }

  /** Pairs are never opened again, and their resolvents only shrink. */
  lemma OpenEarlier(t: Table, t': Table, c: int, d: int, v: int)
    requires Grown(t, t', v) && 0 <= c < |t.cs| && 0 <= d < |t.cs|
    ensures Open(t', c, d, v) ==> Open(t, c, d, v)
    ensures Rest(t', c, d, v) <= Rest(t, c, d, v)
  {
    hide Meaning, Without, RemovedCovered, Equivalent, Weaker;
    assert OnlyGarbage(t.cs[c], t'.cs[c]) && OnlyGarbage(t.cs[d], t'.cs[d]);
  }

  lemma OpenSymmetric(t: Table, c: int, d: int, v: int)
    ensures Open(t, c, d, v) == Open(t, d, c, v)
    ensures Rest(t, c, d, v) == Rest(t, d, c, v)
  {
    if 0 <= c < |t.cs| && 0 <= d < |t.cs| {
      ClashSymmetric(t.cs[c].lits, t.cs[d].lits, v);
      ClashSymmetric(t.cs[d].lits, t.cs[c].lits, v);
    }
  }

  lemma ClashSymmetric(c: Clause, d: Clause, v: int)
    ensures ClashBeyond(c, d, v) ==> ClashBeyond(d, c, v)
  {
    if x :| x in d && Abs(x) != v && -x in c {
      assert -x in c && Abs(-x) != v && -(-x) in d;
    }
  }

  /** At most one clause is appended, and none if the pair was not open. */
  ghost predicate Appends(t: Table, t': Table, c: int, d: int, v: int) {
    && |t'.cs| <= |t.cs| + (if Open(t, c, d, v) then 1 else 0)
    && forall k :: |t.cs| <= k < |t'.cs| ==> |t'.cs[k].lits| <= |Rest(t, c, d, v)|
  }

  // ---------------------------------------------------------------- gates

  ghost predicate LiveGate(t: Table, i: int, lit: int) {
    0 <= i < |t.cs| && t.cs[i].Live() && t.cs[i].gate && lit in t.cs[i].lits
  }

  ghost predicate GatesBeyond(m: Assignment, t: Table, lit: int, v: int) {
    forall i :: LiveGate(t, i, lit) ==> Beyond(m, t.cs[i].lits, v)
  }

  /** The gate clauses determine the pivot, and unless all pairs are resolved the resolvents
      among gate clauses hold (those of the usual gates are tautological). */
  ghost predicate GatesDefine(t: Table, pivot: int, v: int, resolveGates: bool) {
    && (forall m :: Models(m, Without(t, v)) ==> !(GatesBeyond(m, t, pivot, v) && GatesBeyond(m, t, -pivot, v)))
    && (resolveGates || forall i, j :: LiveGate(t, i, pivot) && LiveGate(t, j, -pivot) ==> Done(t, i, j, v))
  }

  /** Gate clauses that become garbage on the way do not matter. */
  lemma GatesStay(t: Table, t': Table, pivot: int, v: int, resolveGates: bool)
    requires GatesDefine(t, pivot, v, resolveGates) && Grown(t, t', v) && Unassigned(t', v) && Abs(pivot) == v
    ensures GatesDefine(t', pivot, v, resolveGates)
  {
    hide Without, Meaning;
    forall m | Models(m, Without(t', v)) ensures !(GatesBeyond(m, t', pivot, v) && GatesBeyond(m, t', -pivot, v)) {
      assert Models(m, Without(t, v));
      if GatesBeyond(m, t', pivot, v) && GatesBeyond(m, t', -pivot, v) {
        GateGroupStays(t, t', m, pivot, v);
        GateGroupStays(t, t', m, -pivot, v);
      }
    }
    forall i, j | LiveGate(t', i, pivot) && LiveGate(t', j, -pivot) && !resolveGates ensures Done(t', i, j, v) {
      OldGate(t, t', i, pivot, v);
      OldGate(t, t', j, -pivot, v);
      DoneStays(t, t', i, j, v);
    }
  }

  lemma OldGate(t: Table, t': Table, i: int, lit: int, v: int)
    requires Grown(t, t', v) && LiveGate(t', i, lit) && Abs(lit) == v
    ensures LiveGate(t, i, lit)
  {
    assert Mentions(t'.cs[i].lits, v);
    assert OnlyGarbage(t.cs[i], t'.cs[i]);
  }

  lemma GateGroupStays(t: Table, t': Table, m: Assignment, lit: int, v: int)
    requires Grown(t, t', v) && Unassigned(t', v) && Models(m, Without(t', v)) && GatesBeyond(m, t', lit, v)
    ensures GatesBeyond(m, t, lit, v)
  {
    hide Without, Meaning, Mentions;
    forall i | LiveGate(t, i, lit) ensures Beyond(m, t.cs[i].lits, v) {
      assert OnlyGarbage(t.cs[i], t'.cs[i]);
      if t'.cs[i].garbage {
        assert Removed(t, t', i);
      } else {
        assert LiveGate(t', i, lit);
      }
    }
  }

  lemma GrownKeepsSound(original: Formula, t: Table, t': Table, v: int, stack: seq<Entry>)
    requires Grown(t, t', v) && Reconstructs(original, State(FormulaOf(t.cs, t.fixedLits), stack))
    ensures Reconstructs(original, State(FormulaOf(t'.cs, t'.fixedLits), stack))
  {
    hide FormulaOf;
  }

  lemma GrownKeepsConnected(t: Table, t': Table, v: int, os: seq<int>, lit: int)
    requires Grown(t, t', v) && ConnectedIn(t.cs, os, lit) && Abs(lit) == v
    ensures ConnectedIn(t'.cs, os, lit)
  {
    hide Meaning, Without;
    forall i | i in os ensures 0 <= i < |t'.cs| && lit in t'.cs[i].lits && !t'.cs[i].redundant {
      assert OnlyGarbage(t.cs[i], t'.cs[i]);
    }
    forall i | 0 <= i < |t'.cs| && t'.cs[i].Live() && lit in t'.cs[i].lits ensures i in os {
      assert Mentions(t'.cs[i].lits, v);
      assert OnlyGarbage(t.cs[i], t'.cs[i]);
    }
  }

}
