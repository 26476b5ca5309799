/** Why every inprocessing technique may remove clauses: any assignment of what is left is
    turned by the extension stack into an assignment of what was given. */
module Reconstruction {
  import opened Cnf
  import opened Extension

  /** What survives of the formula (units included) and the extension stack. */
  datatype State = State(formula: Formula, stack: seq<Entry>)

  // ---------------------------------------------------------------- the two invariants

  /** Nothing beyond the consequences of the given formula is left. */
  ghost predicate Weaker(original: Formula, f: Formula) {
    forall m :: Models(m, original) ==> Models(m, f)
  }

  /** Undoing the entries turns every model of `f` into a model of `original`. */
  ghost predicate Restores(f: Formula, es: seq<Entry>, original: Formula) {
    forall m :: Models(m, f) ==> Models(Replay(es, m), original)
  }

  ghost predicate Reconstructs(original: Formula, s: State) {
    Weaker(original, s.formula) && Restores(s.formula, s.stack, original)
  }

  // ---------------------------------------------------------------- single entries

  lemma ReplayOne(e: Entry, m: Assignment)
    ensures Replay([e], m) == Undo(e, m)
  {
    assert [e][..0] == [];
  }

  lemma SetAllOne(m: Assignment, lit: int)
    ensures SetAll(m, [lit]) == SetTrue(m, lit)
  {
    assert [lit][..0] == [];
  }

  /** Entries with one common witness literal, which all their clauses contain. */
  ghost predicate Common(es: seq<Entry>, lit: int) {
    forall e :: e in es ==> e.cube == [lit] && lit in e.clause
  }

  ghost predicate SomeFalsified(es: seq<Entry>, m: Assignment) {
    exists e :: e in es && !Satisfies(m, e.clause)
  }

  lemma {:induction false} ReplayCommon(es: seq<Entry>, lit: int, m: Assignment)
    requires lit != 0 && Common(es, lit)
    ensures Replay(es, m) == if SomeFalsified(es, m) then SetTrue(m, lit) else m
    decreases |es|
  {
    if es != [] {
      var n := |es| - 1;
      var e := es[n];
      assert es == es[..n] + [e] && e in es;
      assert forall x :: x in es <==> x in es[..n] || x == e;
      SetAllOne(m, lit);
      ReplayCommon(es[..n], lit, Undo(e, m));
      if !Satisfies(m, e.clause) {
        assert True(SetTrue(m, lit), lit);
        assert SetTrue(SetTrue(m, lit), lit) == SetTrue(m, lit);
      }
    }
  }

  // ---------------------------------------------------------------- blocked clauses

  /** Every resolvent of `c` on `lit` contains a clashing pair of literals. */
  ghost predicate Blocked(f: Formula, c: set<int>, lit: int) {
    forall d :: d in f && -lit in d ==> exists x :: x in d && x != -lit && -x in c
  }

  lemma BlockedRestores(f: Formula, c: Clause, lit: int, id: int)
    requires NonZeroFormula(f) && lit in c && 0 !in c
    requires Blocked(f, Lits(c), lit)
    ensures Restores(f, [Entry([lit], id, c)], f + {Lits(c)})
  {
    var e := Entry([lit], id, c);
    forall m | Models(m, f) ensures Models(Replay([e], m), f + {Lits(c)}) {
      ReplayOne(e, m);
      HoldsLits(m, c);
      if !Satisfies(m, c) {
        SetAllOne(m, lit);
        var m' := SetTrue(m, lit);
        assert True(m', lit) && lit in Lits(c);
        forall d | d in f ensures Holds(m', d) {
          BlockedStillHolds(m, c, lit, d, f);
        }
      }
    }
  }

  lemma BlockedStillHolds(m: Assignment, c: Clause, lit: int, d: set<int>, f: Formula)
    requires NonZeroFormula(f) && lit in c && 0 !in c && d in f && Holds(m, d)
    requires Blocked(f, Lits(c), lit) && !Satisfies(m, c)
    ensures Holds(SetTrue(m, lit), d)
  {
    var m' := SetTrue(m, lit);
    if -lit in d {
      var x :| x in d && x != -lit && -x in Lits(c);
      assert !True(m, -x);
      TrueAfterSet(m, lit, x);
      assert True(m', x);
    } else {
      var x :| x in d && True(m, x);
      TrueAfterSet(m, lit, x);
      assert True(m', x);
    }
  }

  // ---------------------------------------------------------------- variable elimination

  ghost predicate HoldsWithout(m: Assignment, s: set<int>, lit: int) {
    exists x :: x in s && x != lit && True(m, x)
  }

  /** The resolvent of `c` and `d` on `pivot` holds (tautological ones always do). */
  ghost predicate ResolventHolds(m: Assignment, c: set<int>, d: set<int>, pivot: int) {
    HoldsWithout(m, c, pivot) || HoldsWithout(m, d, -pivot)
  }

  ghost predicate AllHoldWithout(m: Assignment, cs: Formula, lit: int) {
    forall c :: c in cs ==> HoldsWithout(m, c, lit)
  }

  ghost predicate PivotClauses(cs: Formula, pivot: int) {
    forall c :: c in cs ==> pivot in c && -pivot !in c && NonZero(c)
  }

  ghost predicate FreeOf(f: Formula, pivot: int) {
    forall c :: c in f ==> pivot !in c && -pivot !in c && NonZero(c)
  }

  ghost function EntryClauses(es: seq<Entry>): Formula {
    set e | e in es :: Lits(e.clause)
  }

  lemma WithoutIsStable(m: Assignment, q: int, s: set<int>, lit: int)
    requires q != 0 && Abs(q) == Abs(lit) && NonZero(s) && -lit !in s
    ensures HoldsWithout(SetTrue(m, q), s, lit) == HoldsWithout(m, s, lit)
  {
    var m' := SetTrue(m, q);
    if HoldsWithout(m, s, lit) {
      var x :| x in s && x != lit && True(m, x);
      TrueAfterSet(m, q, x);
      assert True(m', x);
    }
    if HoldsWithout(m', s, lit) {
      var x :| x in s && x != lit && True(m', x);
      TrueAfterSet(m, q, x);
      assert True(m, x);
    }
  }

  lemma HoldsIffWithout(m: Assignment, s: set<int>, lit: int)
    requires lit in s
    ensures Holds(m, s) == (True(m, lit) || HoldsWithout(m, s, lit))
  {
  }

  lemma FreeIsStable(m: Assignment, q: int, f: Formula)
    requires q != 0 && FreeOf(f, q) && Models(m, f)
    ensures Models(SetTrue(m, q), f)
  {
    forall c | c in f ensures Holds(SetTrue(m, q), c) {
      var x :| x in c && True(m, x);
      TrueAfterSet(m, q, x);
      assert True(SetTrue(m, q), x);
    }
  }

  /** The pushed clauses `es` with `lit` decide whether `lit` is made true. */
  lemma FalsifiedMeans(m: Assignment, es: seq<Entry>, lit: int)
    requires lit != 0 && Common(es, lit)
    ensures SomeFalsified(es, m) == (!True(m, lit) && !AllHoldWithout(m, EntryClauses(es), lit))
  {
    forall e | e in es
      ensures Satisfies(m, e.clause) == (True(m, lit) || HoldsWithout(m, Lits(e.clause), lit))
    {
      HoldsLits(m, e.clause);
      HoldsIffWithout(m, Lits(e.clause), lit);
    }
    forall e | e in es ensures Lits(e.clause) in EntryClauses(es) { }
  }

  /** One group of entries: afterwards the literal is true or nothing was pushed for it. */
  lemma GroupEffect(m: Assignment, es: seq<Entry>, lit: int)
    requires lit != 0 && Common(es, lit)
    ensures Replay(es, m) == if !True(m, lit) && !AllHoldWithout(m, EntryClauses(es), lit) then SetTrue(m, lit) else m
    ensures !AllHoldWithout(m, EntryClauses(es), lit) ==> True(Replay(es, m), lit)
  {
    hide Replay, Common, AllHoldWithout, EntryClauses, SomeFalsified;
    ReplayCommon(es, lit, m);
    FalsifiedMeans(m, es, lit);
    TrueAfterSet(m, lit, lit);
  }

  lemma AllWithoutIsStable(m: Assignment, q: int, cs: Formula, lit: int)
    requires q != 0 && Abs(q) == Abs(lit) && PivotClauses(cs, lit)
    ensures AllHoldWithout(SetTrue(m, q), cs, lit) == AllHoldWithout(m, cs, lit)
  {
    forall c | c in cs ensures HoldsWithout(SetTrue(m, q), c, lit) == HoldsWithout(m, c, lit) {
      WithoutIsStable(m, q, c, lit);
    }
  }

  /** What the two groups of entries do: afterwards the pivot has the value its pushed
      clauses ask for, positive clauses having the last word. */
  lemma EliminationEffect(m: Assignment, ps: seq<Entry>, ns: seq<Entry>, pivot: int)
    requires pivot != 0 && Common(ps, pivot) && Common(ns, -pivot)
    requires PivotClauses(EntryClauses(ps), pivot) && PivotClauses(EntryClauses(ns), -pivot)
    ensures var m' := Replay(ps + ns, m);
            && (m' == m || m' == SetTrue(m, pivot) || m' == SetTrue(m, -pivot))
            && (!AllHoldWithout(m, EntryClauses(ps), pivot) ==> True(m', pivot))
            && (AllHoldWithout(m, EntryClauses(ps), pivot) && !AllHoldWithout(m, EntryClauses(ns), -pivot)
                ==> True(m', -pivot))
  {
    hide Replay, Common, AllHoldWithout, EntryClauses, PivotClauses;
    ReplayConcat(ps, ns, m);
    GroupEffect(m, ns, -pivot);
    var m1 := Replay(ns, m);
    GroupEffect(m1, ps, pivot);
    AllWithoutIsStable(m, -pivot, EntryClauses(ps), pivot);
    assert SetTrue(SetTrue(m, -pivot), pivot) == SetTrue(m, pivot);
  }

  /** In models of what is left the gate clauses never leave both values of the pivot open. */
  ghost predicate Defines(f: Formula, gp: Formula, gn: Formula, pivot: int) {
    forall m :: Models(m, f) ==> !(AllHoldWithout(m, gp, pivot) && AllHoldWithout(m, gn, -pivot))
  }

  /** In every model of what is left the resolvents of the two groups hold. */
  ghost predicate Resolved(f: Formula, ps: Formula, ns: Formula, pivot: int) {
    forall m, c, d :: Models(m, f) && c in ps && d in ns ==> ResolventHolds(m, c, d, pivot)
  }

  lemma ResolvedMeans(m: Assignment, f: Formula, ps: Formula, ns: Formula, pivot: int)
    requires Models(m, f) && Resolved(f, ps, ns, pivot)
    ensures AllHoldWithout(m, ps, pivot) || AllHoldWithout(m, ns, -pivot)
  {
    if !AllHoldWithout(m, ps, pivot) {
      var c :| c in ps && !HoldsWithout(m, c, pivot);
      forall d | d in ns ensures HoldsWithout(m, d, -pivot) {
        assert ResolventHolds(m, c, d, pivot);
      }
    }
  }

  lemma PivotClausesHold(m: Assignment, m': Assignment, cs: Formula, lit: int)
    requires lit != 0 && PivotClauses(cs, lit)
    requires m' == m || m' == SetTrue(m, lit) || m' == SetTrue(m, -lit)
    requires True(m', lit) || AllHoldWithout(m, cs, lit)
    ensures Models(m', cs)
  {
    forall c | c in cs ensures Holds(m', c) {
      HoldsIffWithout(m', c, lit);
      WithoutIsStable(m, lit, c, lit);
      WithoutIsStable(m, -lit, c, lit);
    }
  }

  /** The effect of elimination on one model, however many clauses were pushed. */
  lemma EliminationOfModel(m: Assignment, f: Formula, ps: Formula, ns: Formula,
                           ep: seq<Entry>, en: seq<Entry>, pivot: int)
    requires pivot != 0 && FreeOf(f, pivot) && PivotClauses(ps, pivot) && PivotClauses(ns, -pivot)
    requires Common(ep, pivot) && Common(en, -pivot)
    requires EntryClauses(ep) <= ps && EntryClauses(en) <= ns
    requires Models(m, f)
    requires AllHoldWithout(m, ps, pivot)
             || (AllHoldWithout(m, ns, -pivot) && !AllHoldWithout(m, EntryClauses(ep), pivot))
    requires AllHoldWithout(m, ns, -pivot)
             || (AllHoldWithout(m, EntryClauses(ep), pivot) && !AllHoldWithout(m, EntryClauses(en), -pivot))
    ensures Models(Replay(ep + en, m), f + ps + ns)
  {
    EliminationEffect(m, ep, en, pivot);
    var m' := Replay(ep + en, m);
    FreeIsStable(m, pivot, f);
    FreeIsStable(m, -pivot, f);
    PivotClausesHold(m, m', ps, pivot);
    PivotClausesHold(m, m', ns, -pivot);
    ModelsUnion(m', f, ps);
    ModelsUnion(m', f + ps, ns);
  }

  /** Clause distribution: all clauses with the pivot are pushed, all resolvents hold. */
  lemma EliminationRestores(f: Formula, ep: seq<Entry>, en: seq<Entry>, pivot: int)
    requires pivot != 0 && FreeOf(f, pivot) && Common(ep, pivot) && Common(en, -pivot)
    requires PivotClauses(EntryClauses(ep), pivot) && PivotClauses(EntryClauses(en), -pivot)
    requires Resolved(f, EntryClauses(ep), EntryClauses(en), pivot)
    ensures Restores(f, ep + en, f + EntryClauses(ep) + EntryClauses(en))
  {
    var ps, ns := EntryClauses(ep), EntryClauses(en);
    forall m | Models(m, f) ensures Models(Replay(ep + en, m), f + ps + ns) {
      ResolvedMeans(m, f, ps, ns, pivot);
      EliminationOfModel(m, f, ps, ns, ep, en, pivot);
    }
  }

  /** Substitution of a defined pivot: only gate clauses are pushed, and only resolvents of
      a gate clause with a non-gate clause or of two gate clauses have to hold. */
  lemma GateEliminationRestores(f: Formula, ep: seq<Entry>, en: seq<Entry>, hp: Formula, hn: Formula, pivot: int)
    requires pivot != 0 && FreeOf(f, pivot) && Common(ep, pivot) && Common(en, -pivot)
    requires PivotClauses(EntryClauses(ep) + hp, pivot) && PivotClauses(EntryClauses(en) + hn, -pivot)
    requires Defines(f, EntryClauses(ep), EntryClauses(en), pivot)
    requires Resolved(f, EntryClauses(ep), EntryClauses(en), pivot)
    requires Resolved(f, EntryClauses(ep), hn, pivot) && Resolved(f, hp, EntryClauses(en), pivot)
    ensures Restores(f, ep + en, f + (EntryClauses(ep) + hp) + (EntryClauses(en) + hn))
  {
    var gp, gn := EntryClauses(ep), EntryClauses(en);
    forall m | Models(m, f) ensures Models(Replay(ep + en, m), f + (gp + hp) + (gn + hn)) {
      ResolvedMeans(m, f, gp, gn, pivot);
      ResolvedMeans(m, f, gp, hn, pivot);
      ResolvedMeans(m, f, hp, gn, pivot);
      assert !(AllHoldWithout(m, gp, pivot) && AllHoldWithout(m, gn, -pivot));
      EliminationOfModel(m, f, gp + hp, gn + hn, ep, en, pivot);
    }
  }

  // ---------------------------------------------------------------- equivalent literals

  /** Representatives commute with negation and represent themselves; exactly the
      variables in `xs` have a different one. */
  ghost predicate Representatives(xs: seq<int>, repr: int -> int) {
    && (forall lit :: lit != 0 ==> repr(lit) != 0 && repr(-lit) == -repr(lit) && repr(repr(lit)) == repr(lit))
    && (forall lit :: lit > 0 ==> (lit in xs <==> repr(lit) != lit))
    && (forall i :: 0 <= i < |xs| ==> xs[i] > 0)
    && (forall i, j :: 0 <= i < j < |xs| ==> xs[i] != xs[j])
  }

  /** Two binary clauses per substituted variable, in the order they are pushed. */
  ghost predicate EquivalenceEntries(es: seq<Entry>, xs: seq<int>, repr: int -> int) {
    && |es| == 2 * |xs|
    && forall i :: 0 <= i < |xs| ==>
         var x, r := xs[i], repr(xs[i]);
         && es[2 * i].cube == [-x] && es[2 * i].clause == [-x, r]
         && es[2 * i + 1].cube == [x] && es[2 * i + 1].clause == [x, -r]
  }

  ghost function Image(s: set<int>, repr: int -> int): set<int> {
    set lit | lit in s :: repr(lit)
  }

  lemma UndoBinary(m: Assignment, e: Entry, x: int, y: int)
    requires x != 0 && e.cube == [x] && e.clause == [x, y]
    ensures Undo(e, m) == if True(m, x) || True(m, y) then m else SetTrue(m, x)
  {
    SetAllOne(m, x);
    assert x in e.clause && y in e.clause;
    assert forall z :: z in e.clause <==> z == x || z == y;
  }

  lemma UndoEquivalence(m: Assignment, d: Entry, e: Entry, x: int, r: int, lit: int)
    requires x > 0 && r != 0 && Abs(r) != x && lit != 0
    requires d.cube == [-x] && d.clause == [-x, r] && e.cube == [x] && e.clause == [x, -r]
    ensures True(Undo(d, Undo(e, m)), lit) ==
            (if lit == x then True(m, r) else if lit == -x then !True(m, r) else True(m, lit))
  {
    UndoBinary(m, e, x, -r);
    var m1 := Undo(e, m);
    UndoBinary(m1, d, -x, r);
    TrueAfterSet(m, x, r);
    TrueAfterSet(m, x, lit);
    TrueAfterSet(m1, -x, lit);
  }

  lemma ReplayPair(es: seq<Entry>, k: nat, m: Assignment)
    requires 0 < k && 2 * k <= |es|
    ensures Replay(es[..2 * k], m) == Replay(es[..2 * (k - 1)], Undo(es[2 * k - 2], Undo(es[2 * k - 1], m)))
  {
    assert es[..2 * k][..2 * k - 1] == es[..2 * k - 1] && es[..2 * k - 1][..2 * k - 2] == es[..2 * (k - 1)];
  }

  /** `m` differs from `m0` in that the given variables have the value of their representative. */
  ghost predicate Follows(m: Assignment, m0: Assignment, xs: seq<int>, repr: int -> int) {
    forall x :: x != 0 ==> True(m, x) == if Abs(x) in xs then True(m0, repr(x)) else True(m0, x)
  }

  lemma FollowsOneMore(m: Assignment, m0: Assignment, d: Entry, e: Entry, xs: seq<int>, x: int, repr: int -> int)
    requires x > 0 && x !in xs && Follows(m, m0, xs, repr)
    requires var r := repr(x); r != 0 && Abs(r) != x && Abs(r) !in xs && repr(-x) == -r
    requires d.cube == [-x] && d.clause == [-x, repr(x)] && e.cube == [x] && e.clause == [x, -repr(x)]
    ensures Follows(Undo(d, Undo(e, m)), m0, [x] + xs, repr)
  {
    var r := repr(x);
    assert True(m, r) == True(m0, r);
    forall y | y != 0
      ensures True(Undo(d, Undo(e, m)), y) == if Abs(y) in [x] + xs then True(m0, repr(y)) else True(m0, y)
    {
      UndoEquivalence(m, d, e, x, r, y);
    }
  }

  lemma EquivalencePair(es: seq<Entry>, xs: seq<int>, k: nat, repr: int -> int)
    requires EquivalenceEntries(es, xs, repr) && 0 < k <= |xs|
    ensures |es| == 2 * |xs|
    ensures es[2 * k - 2].cube == [-xs[k - 1]] && es[2 * k - 2].clause == [-xs[k - 1], repr(xs[k - 1])]
    ensures es[2 * k - 1].cube == [xs[k - 1]] && es[2 * k - 1].clause == [xs[k - 1], -repr(xs[k - 1])]
  {
    assert es[2 * k - 2] == es[2 * (k - 1)] && es[2 * k - 1] == es[2 * (k - 1) + 1];
  }

  /** Replaying gives every literal the value of its representative. */
  lemma {:induction false} EquivalenceEffect(es: seq<Entry>, xs: seq<int>, k: nat, repr: int -> int,
                                             m: Assignment, m0: Assignment)
    requires Representatives(xs, repr) && EquivalenceEntries(es, xs, repr) && k <= |xs|
    requires Follows(m, m0, xs[k..], repr) && |es| == 2 * |xs|
    ensures Follows(Replay(es[..2 * k], m), m0, xs, repr)
    decreases k
  {
    hide Follows, Replay, EquivalenceEntries;
    if k == 0 {
      ReplayNone(m);
      assert xs[0..] == xs && es[..2 * k] == [];
    } else {
      var x, r := xs[k - 1], repr(xs[k - 1]);
      var e, d := es[2 * k - 1], es[2 * k - 2];
      EquivalencePair(es, xs, k, repr);
      assert x in xs && repr(-x) == -r && repr(r) == r && repr(-r) == -repr(r);
      assert xs[k - 1..] == [x] + xs[k..];
      FollowsOneMore(m, m0, d, e, xs[k..], x, repr);
      ReplayPair(es, k, m);
      EquivalenceEffect(es, xs, k - 1, repr, Undo(d, Undo(e, m)), m0);
    }
  }

  lemma SubstitutedHolds(m: Assignment, m': Assignment, s: set<int>, xs: seq<int>, repr: int -> int)
    requires Representatives(xs, repr) && NonZero(s)
    requires Follows(m', m, xs, repr) && Holds(m, Image(s, repr))
    ensures Holds(m', s)
  {
    var y :| y in Image(s, repr) && True(m, y);
    var lit :| lit in s && repr(lit) == y;
    assert repr(-lit) == -repr(lit);
    assert Abs(lit) in xs || repr(Abs(lit)) == Abs(lit);
    assert True(m', lit);
  }

  lemma SubstitutionRestores(f: Formula, g: Formula, es: seq<Entry>, xs: seq<int>, repr: int -> int)
    requires Representatives(xs, repr) && EquivalenceEntries(es, xs, repr) && NonZeroFormula(g)
    requires forall m, s :: Models(m, f) && s in g ==> Holds(m, Image(s, repr))
    ensures Restores(f, es, g)
  {
    hide Follows, Replay, Representatives;
    forall m, s | Models(m, f) && s in g ensures Holds(Replay(es, m), s) {
      assert Holds(m, Image(s, repr));
      assert es[..2 * |xs|] == es && xs[|xs|..] == [];
      NothingFollows(m, repr);
      EquivalenceEffect(es, xs, |xs|, repr, m, m);
      SubstitutedHolds(m, Replay(es, m), s, xs, repr);
    }
  }

  lemma NothingFollows(m: Assignment, repr: int -> int)
    ensures Follows(m, m, [], repr)
  {
  }

  // ---------------------------------------------------------------- global blocking

  /** An assignment split into an autarky and a conditional part: the clause contains an
      autarky literal and the negation of every conditional literal, and every clause the
      autarky part touches negatively is satisfied by the whole assignment. */
  ghost predicate GloballyBlocked(f: Formula, c: set<int>, autarky: seq<int>, conditional: set<int>) {
    && 0 !in autarky
    && (forall a :: a in autarky ==> -a !in autarky && -a !in conditional)
    && (forall k :: k in conditional ==> -k in c)
    && (exists a :: a in autarky && a in c)
    && forall d, a :: d in f && a in autarky && -a in d ==>
         exists x :: x in d && (x in autarky || x in conditional)
  }

  lemma GlobalBlockingRestores(f: Formula, c: Clause, autarky: seq<int>, conditional: set<int>, id: int)
    requires NonZeroFormula(f) && 0 !in c
    requires GloballyBlocked(f, Lits(c), autarky, conditional)
    ensures Restores(f, [Entry(autarky, id, c)], f + {Lits(c)})
  {
    var e := Entry(autarky, id, c);
    forall m | Models(m, f) ensures Models(Replay([e], m), f + {Lits(c)}) {
      ReplayOne(e, m);
      HoldsLits(m, c);
      if !Satisfies(m, c) {
        var m' := SetAll(m, autarky);
        forall d | d in f + {Lits(c)} ensures Holds(m', d) {
          if d in f {
            AutarkyStillHolds(m, f, c, autarky, conditional, d);
          } else {
            var a :| a in autarky && a in Lits(c);
            SetAllEffect(m, autarky, a);
          }
        }
      }
    }
  }

  lemma AutarkyStillHolds(m: Assignment, f: Formula, c: Clause, autarky: seq<int>, conditional: set<int>, d: set<int>)
    requires NonZeroFormula(f) && 0 !in c && d in f && Holds(m, d) && !Satisfies(m, c)
    requires GloballyBlocked(f, Lits(c), autarky, conditional)
    ensures Holds(SetAll(m, autarky), d)
  {
    var m' := SetAll(m, autarky);
    if exists a :: a in autarky && -a in d {
      var a :| a in autarky && -a in d;
      var x :| x in d && (x in autarky || x in conditional);
      SetAllEffect(m, autarky, x);
      if x !in autarky {
        assert -x in Lits(c) && !True(m, -x);
        assert -x in autarky ==> -(-x) !in conditional;
      }
      assert True(m', x);
    } else {
      var x :| x in d && True(m, x);
      assert -x in autarky ==> -(-x) in d;
      SetAllEffect(m, autarky, x);
      assert True(m', x);
    }
  }

  // ---------------------------------------------------------------- covered clauses

  /** A model of the formula that falsifies all covered literals falsifies all added ones. */
  ghost predicate Forces(f: Formula, covered: set<int>, added: set<int>) {
    forall m, a :: Models(m, f) && !Holds(m, covered) && a in added ==> !True(m, a)
  }

  /** A resolution candidate that an added literal blocks. */
  ghost predicate DoublySatisfied(d: set<int>, lit: int, added: set<int>) {
    exists x :: x in d && x != -lit && -x in added
  }

  /** One covered literal addition: every candidate is doubly satisfied or contains all
      literals that are to be added. */
  datatype CoverStep = CoverStep(lit: int, covered: set<int>, added: set<int>, next: set<int>)

  ghost predicate CoveredAddition(f: Formula, s: CoverStep) {
    && s.lit != 0 && s.lit in s.covered && NonZero(s.added)
    && s.lit !in s.next && -s.lit !in s.next && -s.lit !in s.added
    && Forces(f, s.covered, s.added)
    && forall d :: d in f && -s.lit in d ==> DoublySatisfied(d, s.lit, s.added) || s.next <= d
  }

  ghost predicate BlockedAddition(f: Formula, s: CoverStep) {
    forall d :: d in f && -s.lit in d ==> DoublySatisfied(d, s.lit, s.added)
  }

  /** Undoing one step turns the larger covered clause into the smaller one. */
  lemma CoverStepUndone(m: Assignment, f: Formula, s: CoverStep)
    requires NonZeroFormula(f) && Models(m, f) && CoveredAddition(f, s)
    requires BlockedAddition(f, s) || Holds(m, s.covered + s.next)
    ensures var m' := if Holds(m, s.covered) then m else SetTrue(m, s.lit);
            Models(m', f) && Holds(m', s.covered)
  {
    if !Holds(m, s.covered) {
      var m' := SetTrue(m, s.lit);
      assert True(m', s.lit);
      forall d | d in f ensures Holds(m', d) {
        if -s.lit in d && DoublySatisfied(d, s.lit, s.added) {
          var x :| x in d && x != -s.lit && -x in s.added;
          assert !True(m, -x);
          TrueAfterSet(m, s.lit, x);
          assert True(m', x);
        } else if -s.lit in d {
          var y :| y in s.covered + s.next && True(m, y);
          assert y in s.next && y in d;
          TrueAfterSet(m, s.lit, y);
          assert True(m', y);
        } else {
          var x :| x in d && True(m, x);
          TrueAfterSet(m, s.lit, x);
          assert True(m', x);
        }
      }
    }
  }

  /** The private entries of a covered clause: under the units every entry's clause means
      the covered literals of its step. */
  ghost predicate CoverChain(f: Formula, es: seq<Entry>, steps: seq<CoverStep>) {
    && |es| == |steps|
    && (forall k :: 0 <= k < |steps| ==> CoveredAddition(f, steps[k]) && es[k].cube == [steps[k].lit])
    && (forall k, m :: 0 <= k < |steps| && Models(m, f) ==>
          Satisfies(m, es[k].clause) == Holds(m, steps[k].covered))
    && (forall k :: 0 <= k < |steps| - 1 ==> steps[k + 1].covered == steps[k].covered + steps[k].next)
  }

  lemma {:induction false} CoverChainUndone(m: Assignment, f: Formula, es: seq<Entry>, steps: seq<CoverStep>)
    requires NonZeroFormula(f) && Models(m, f) && CoverChain(f, es, steps) && steps != []
    requires var s := steps[|steps| - 1]; BlockedAddition(f, s) || Holds(m, s.covered + s.next)
    ensures Models(Replay(es, m), f) && Holds(Replay(es, m), steps[0].covered)
    decreases |steps|
  {
    var n := |steps| - 1;
    var s := steps[n];
    CoverStepUndone(m, f, s);
    var m' := Undo(es[n], m);
    assert m' == if Holds(m, s.covered) then m else SetTrue(m, s.lit) by {
      SetAllOne(m, s.lit);
      assert Satisfies(m, es[n].clause) == Holds(m, s.covered);
    }
    if n == 0 {
      assert es[..n] == [] && Replay(es, m) == m';
    } else {
      assert steps[(n - 1) + 1].covered == steps[n - 1].covered + steps[n - 1].next;
      CoverChainUndone(m', f, es[..n], steps[..n]);
    }
  }

  /** Covered clause elimination: the chain ends with a blocked clause, or with a clause
      that the remaining formula implies. */
  lemma CoverRestores(f: Formula, c: set<int>, es: seq<Entry>, steps: seq<CoverStep>)
    requires NonZeroFormula(f) && CoverChain(f, es, steps) && steps != []
    requires steps[0].covered <= c
    requires var s := steps[|steps| - 1]; BlockedAddition(f, s) || Implies(f, s.covered + s.next)
    ensures Restores(f, es, f + {c})
  {
    forall m | Models(m, f) ensures Models(Replay(es, m), f + {c}) {
      CoverChainUndone(m, f, es, steps);
    }
  }

  // ---------------------------------------------------------------- any interleaving

  /** One application of a technique, with everything it decided. */
  datatype Technique =
    | Block(c: Clause, lit: int, id: int)
    | Eliminate(ep: seq<Entry>, en: seq<Entry>, hp: Formula, hn: Formula, pivot: int)
    | Substitute(es: seq<Entry>, xs: seq<int>, repr: int -> int)
    | Condition(c: Clause, autarky: seq<int>, conditional: set<int>, id: int)
    | Cover(c: Clause, es: seq<Entry>, steps: seq<CoverStep>)
    | Rewrite

  ghost predicate Removes(f: Formula, g: Formula, c: Clause) {
    g <= f <= g + {Lits(c)} && 0 !in c
  }

  ghost predicate Eliminates(f: Formula, g: Formula, ep: seq<Entry>, en: seq<Entry>, hp: Formula, hn: Formula,
                             pivot: int) {
    var gp, gn := EntryClauses(ep), EntryClauses(en);
    && pivot != 0 && FreeOf(g, pivot) && Common(ep, pivot) && Common(en, -pivot)
    && PivotClauses(gp + hp, pivot) && PivotClauses(gn + hn, -pivot)
    && f <= g + (gp + hp) + (gn + hn) && Weaker(f, g)
    && Resolved(g, gp, gn, pivot) && Resolved(g, gp, hn, pivot) && Resolved(g, hp, gn, pivot)
    && (hp + hn == {} || Defines(g, gp, gn, pivot))
  }

  /** The formulas before and after one application.  Substitution and rewriting may use
      whatever the given formula implies, such as learned clauses. */
  ghost predicate Applies(t: Technique, original: Formula, f: Formula, g: Formula) {
    NonZeroFormula(f) && NonZeroFormula(g) &&
    match t
    case Block(c, lit, id) => Removes(f, g, c) && lit in c && Blocked(g, Lits(c), lit)
    case Eliminate(ep, en, hp, hn, pivot) => Eliminates(f, g, ep, en, hp, hn, pivot)
    case Substitute(es, xs, repr) =>
      && Representatives(xs, repr) && EquivalenceEntries(es, xs, repr) && Weaker(original, g)
      && forall m, s :: Models(m, g) && s in f ==> Holds(m, Image(s, repr))
    case Condition(c, autarky, conditional, id) =>
      Removes(f, g, c) && GloballyBlocked(g, Lits(c), autarky, conditional)
    case Cover(c, es, steps) =>
      && Removes(f, g, c) && CoverChain(g, es, steps) && steps != [] && steps[0].covered <= Lits(c)
      && (var s := steps[|steps| - 1]; BlockedAddition(g, s) || Implies(g, s.covered + s.next))
    case Rewrite => Weaker(original, g) && Weaker(g, f)
  }

  function Pushed(t: Technique): seq<Entry> {
    match t
    case Block(c, lit, id) => [Entry([lit], id, c)]
    case Eliminate(ep, en, hp, hn, pivot) => ep + en
    case Substitute(es, xs, repr) => es
    case Condition(c, autarky, conditional, id) => [Entry(autarky, id, c)]
    case Cover(c, es, steps) => es
    case Rewrite => []
  }

  ghost predicate Next(t: Technique, original: Formula, s: State, s': State) {
    Applies(t, original, s.formula, s'.formula) && s'.stack == s.stack + Pushed(t)
  }

  lemma ModelsSubset(m: Assignment, f: Formula, g: Formula)
    requires Models(m, g) && f <= g
    ensures Models(m, f)
  {
  }

  lemma RestoresSubset(g: Formula, es: seq<Entry>, f: Formula, h: Formula)
    requires Restores(g, es, h) && f <= h
    ensures Restores(g, es, f)
  {
    forall m | Models(m, g) ensures Models(Replay(es, m), f) {
      ModelsSubset(Replay(es, m), f, h);
    }
  }

  lemma TechniqueRestores(t: Technique, original: Formula, f: Formula, g: Formula)
    requires Applies(t, original, f, g) && Weaker(original, f)
    ensures Weaker(original, g) && Restores(g, Pushed(t), f)
  {
    match t
    case Block(c, lit, id) =>
      BlockedRestores(g, c, lit, id);
      RestoresSubset(g, Pushed(t), f, g + {Lits(c)});
    case Eliminate(ep, en, hp, hn, pivot) =>
      var gp, gn := EntryClauses(ep), EntryClauses(en);
      if hp + hn == {} {
        EliminationRestores(g, ep, en, pivot);
        assert gp + hp == gp && gn + hn == gn;
        RestoresSubset(g, Pushed(t), f, g + gp + gn);
      } else {
        GateEliminationRestores(g, ep, en, hp, hn, pivot);
        RestoresSubset(g, Pushed(t), f, g + (gp + hp) + (gn + hn));
      }
    case Substitute(es, xs, repr) =>
      SubstitutionRestores(g, f, es, xs, repr);
    case Condition(c, autarky, conditional, id) =>
      GlobalBlockingRestores(g, c, autarky, conditional, id);
      RestoresSubset(g, Pushed(t), f, g + {Lits(c)});
    case Cover(c, es, steps) =>
      CoverRestores(g, Lits(c), es, steps);
      RestoresSubset(g, Pushed(t), f, g + {Lits(c)});
    case Rewrite =>
  }

  lemma NextKeeps(t: Technique, original: Formula, s: State, s': State)
    requires Reconstructs(original, s) && Next(t, original, s, s')
    ensures Reconstructs(original, s')
  {
    hide Applies, Pushed, Replay;
    TechniqueRestores(t, original, s.formula, s'.formula);
    forall m | Models(m, s'.formula) ensures Models(Replay(s'.stack, m), original) {
      ReplayConcat(s.stack, Pushed(t), m);
    }
  }

  /** A run of techniques in any order and number. */
  ghost predicate Run(ts: seq<Technique>, original: Formula, states: seq<State>) {
    && |states| == |ts| + 1
    && forall i :: 0 <= i < |ts| ==> Next(ts[i], original, states[i], states[i + 1])
  }

  lemma {:induction false} RunKeeps(ts: seq<Technique>, states: seq<State>, original: Formula, k: nat)
    requires Run(ts, original, states) && Reconstructs(original, states[0]) && k <= |ts|
    ensures Reconstructs(original, states[k])
  {
    hide Next, Reconstructs;
    if k > 0 {
      RunKeeps(ts, states, original, k - 1);
      NextKeeps(ts[k - 1], original, states[k - 1], states[k - 1 + 1]);
    }
  }

  /** Starting from the given formula: what is left is satisfiable exactly if the given
      formula is, and extending any of its models yields a model of the given formula. */
  lemma RunReconstructs(ts: seq<Technique>, states: seq<State>, original: Formula)
    requires Run(ts, original, states) && states[0] == State(original, [])
    ensures Satisfiable(states[|ts|].formula) <==> Satisfiable(original)
    ensures forall m :: Models(m, states[|ts|].formula) ==> Models(Replay(states[|ts|].stack, m), original)
  {
    RunKeeps(ts, states, original, |ts|);
  }
}
