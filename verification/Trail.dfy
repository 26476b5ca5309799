/** The assignment trail of the search, with literals kept out of order by backtracking. */
module Trail {
  import opened Cnf
  import opened Lists
  import opened InternalSolver

  /** What is noted for an assigned variable: its decision level, its position on the trail and
      the position of its reason in the clause table, which is -1 for decisions and units. */
  datatype Var = Var(level: nat, trail: nat, reason: int)

  /** A decision level: the decision, zero for pseudo levels, and the trail before it. */
  datatype Level = Level(decision: int, trail: nat)

  datatype Stack = Stack(trail: seq<int>, vals: set<int>, vtab: map<int, Var>, control: seq<Level>)

  function CurrentLevel(s: Stack): int {
    |s.control| - 1
  }

  function VarOf(vtab: map<int, Var>, lit: int): Var {
    if Abs(lit) in vtab then vtab[Abs(lit)] else Var(0, 0, -1)
  }

  function LevelOf(s: Stack, lit: int): nat {
    VarOf(s.vtab, lit).level
  }

  function PosOf(s: Stack, lit: int): nat {
    VarOf(s.vtab, lit).trail
  }

  function ReasonOf(s: Stack, lit: int): int {
    VarOf(s.vtab, lit).reason
  }

  // ---------------------------------------------------------------- the invariant

  /** Values, positions and the trail agree. */
  ghost predicate Placed(s: Stack) {
    && (forall i :: 0 <= i < |s.trail| ==>
          s.trail[i] in s.vals && PosOf(s, s.trail[i]) == i && LevelOf(s, s.trail[i]) < |s.control|)
    && (forall x :: x in s.vals ==>
          x != 0 && Abs(x) in s.vtab && PosOf(s, x) < |s.trail| && s.trail[PosOf(s, x)] == x)
  }

  /** Below the start of a level there are only literals of lower levels; a literal of a
      positive level without reason is the decision at the start of its level. */
  ghost predicate Framed(s: Stack) {
    && s.control != [] && s.control[0].trail == 0
    && (forall k :: 0 <= k < |s.control| ==> s.control[k].trail <= |s.trail|)
    && (forall j, k :: 0 <= j <= k < |s.control| ==> s.control[j].trail <= s.control[k].trail)
    && (forall k, p :: 0 <= k < |s.control| && 0 <= p < s.control[k].trail ==> LevelOf(s, s.trail[p]) < k)
    && (forall p :: 0 <= p < |s.trail| && ReasonOf(s, s.trail[p]) == -1 && LevelOf(s, s.trail[p]) > 0 ==>
          IsDecision(s, p))
  }

  ghost predicate IsDecision(s: Stack, p: nat)
    requires p < |s.trail|
  {
    var k := LevelOf(s, s.trail[p]);
    k < |s.control| && s.control[k] == Level(s.trail[p], p)
  }

  /** The other literals of a reason are false, were assigned before and are of no higher level. */
  ghost predicate Justified(s: Stack, cs: seq<ClauseRecord>, lit: int) {
    var r := ReasonOf(s, lit);
    && 0 <= r < |cs| && lit in cs[r].lits
    && forall o :: o in cs[r].lits && o != lit ==>
         -o in s.vals && PosOf(s, o) < PosOf(s, lit) && LevelOf(s, o) <= LevelOf(s, lit)
  }

  ghost predicate Reasoned(s: Stack, cs: seq<ClauseRecord>) {
    forall x :: x in s.vals && ReasonOf(s, x) != -1 ==> Justified(s, cs, x)
  }

  /** Root-level literals follow from the formula. */
  ghost predicate UnitsImplied(s: Stack, f: Formula) {
    forall x :: x in s.vals && LevelOf(s, x) == 0 ==> Implies(f, {x})
  }

  ghost predicate WellFormed(cs: seq<ClauseRecord>) {
    forall i :: 0 <= i < |cs| ==> 0 !in cs[i].lits && NoDuplicates(cs[i].lits)
  }

  ghost predicate ClausesImplied(cs: seq<ClauseRecord>, f: Formula) {
    WellFormed(cs) && forall i :: 0 <= i < |cs| ==> Implies(f, Lits(cs[i].lits))
  }

  ghost predicate TrailOk(s: Stack, cs: seq<ClauseRecord>, f: Formula) {
    Placed(s) && Framed(s) && Reasoned(s, cs) && UnitsImplied(s, f) && ClausesImplied(cs, f)
  }

  lemma TrailMeans(s: Stack, cs: seq<ClauseRecord>, f: Formula)
    requires TrailOk(s, cs, f)
    ensures Placed(s) && Framed(s) && Reasoned(s, cs) && UnitsImplied(s, f) && WellFormed(cs) && ClausesImplied(cs, f)
  {
  }

  lemma VarMeans(s: Stack, lit: int, v: Var)
    requires v == VarOf(s.vtab, lit)
    ensures LevelOf(s, lit) == v.level && ReasonOf(s, lit) == v.reason
  {
  }

  lemma FalseAtRoot(s: Stack, f: Formula, m: Assignment, x: int)
    requires UnitsImplied(s, f) && -x in s.vals && LevelOf(s, x) == 0 && x != 0 && Models(m, f)
    ensures !True(m, x)
  {
    assert Implies(f, {-x});
    assert Holds(m, {-x});
  }

  lemma PlacedIsConsistent(s: Stack)
    requires Placed(s)
    ensures Consistent(s.vals)
  {
    forall x | x in s.vals ensures -x !in s.vals {
      assert -x in s.vals ==> PosOf(s, -x) == PosOf(s, x);
    }
  }

  // ---------------------------------------------------------------- assigning

  function Assigned(s: Stack, lit: int, level: nat, reason: int): Stack {
    s.(trail := s.trail + [lit], vals := s.vals + {lit}, vtab := s.vtab[Abs(lit) := Var(level, |s.trail|, reason)])
  }

  /** A literal may be assigned as a unit, or with a reason at the level of the latest of the
      other literals. */
  ghost predicate MayAssign(s: Stack, cs: seq<ClauseRecord>, f: Formula, lit: int, level: nat, reason: int) {
    && lit != 0 && lit !in s.vals && -lit !in s.vals && level < |s.control|
    && (reason == -1 ==> level == 0)
    && (level == 0 ==> Implies(f, {lit}))
    && (reason != -1 ==>
          && 0 <= reason < |cs| && lit in cs[reason].lits
          && forall o :: o in cs[reason].lits && o != lit ==> -o in s.vals && LevelOf(s, o) <= level)
  }

  lemma AssignedMeans(s: Stack, lit: int, level: nat, reason: int)
    requires Placed(s) && lit !in s.vals && -lit !in s.vals
    ensures var t := Assigned(s, lit, level, reason);
            && VarOf(t.vtab, lit) == Var(level, |s.trail|, reason)
            && (forall x :: x in s.vals ==> Abs(x) != Abs(lit) && VarOf(t.vtab, x) == VarOf(s.vtab, x))
            && forall x :: x in s.vals ==> VarOf(t.vtab, -x) == VarOf(s.vtab, -x)
  {
  }

  lemma AssignedPlaced(s: Stack, lit: int, level: nat, reason: int)
    requires Placed(s) && lit != 0 && lit !in s.vals && -lit !in s.vals && level < |s.control|
    ensures Placed(Assigned(s, lit, level, reason))
  {
    AssignedMeans(s, lit, level, reason);
  }

  lemma AssignedFramed(s: Stack, lit: int, level: nat, reason: int)
    requires Placed(s) && Framed(s) && lit !in s.vals && -lit !in s.vals && (reason == -1 ==> level == 0)
    ensures Framed(Assigned(s, lit, level, reason))
  {
    AssignedMeans(s, lit, level, reason);
    var t := Assigned(s, lit, level, reason);
    forall p | 0 <= p < |t.trail| && ReasonOf(t, t.trail[p]) == -1 && LevelOf(t, t.trail[p]) > 0
      ensures IsDecision(t, p)
    {
      assert p < |s.trail| ==> IsDecision(s, p);
    }
  }

  lemma AssignedReasoned(s: Stack, cs: seq<ClauseRecord>, f: Formula, lit: int, level: nat, reason: int)
    requires Placed(s) && Reasoned(s, cs) && MayAssign(s, cs, f, lit, level, reason)
    ensures Reasoned(Assigned(s, lit, level, reason), cs)
  {
    AssignedMeans(s, lit, level, reason);
    var t := Assigned(s, lit, level, reason);
    forall x | x in t.vals && ReasonOf(t, x) != -1 ensures Justified(t, cs, x) {
      if x == lit {
        forall o | o in cs[reason].lits && o != lit
          ensures -o in t.vals && PosOf(t, o) < PosOf(t, lit) && LevelOf(t, o) <= LevelOf(t, lit)
        {
          assert PosOf(s, -o) < |s.trail| && VarOf(t.vtab, -(-o)) == VarOf(s.vtab, -(-o));
        }
      } else {
        assert Justified(s, cs, x);
        forall o | o in cs[ReasonOf(s, x)].lits && o != x
          ensures -o in t.vals && PosOf(t, o) < PosOf(t, x) && LevelOf(t, o) <= LevelOf(t, x)
        {
          assert VarOf(t.vtab, -(-o)) == VarOf(s.vtab, -(-o));
        }
      }
    }
  }

  lemma AssignedOk(s: Stack, cs: seq<ClauseRecord>, f: Formula, lit: int, level: nat, reason: int)
    requires TrailOk(s, cs, f) && MayAssign(s, cs, f, lit, level, reason)
    ensures TrailOk(Assigned(s, lit, level, reason), cs, f)
  {
    hide Framed, Reasoned, ClausesImplied, Implies;
    AssignedMeans(s, lit, level, reason);
    AssignedPlaced(s, lit, level, reason);
    AssignedFramed(s, lit, level, reason);
    AssignedReasoned(s, cs, f, lit, level, reason);
  }

  /** A new level with its decision. */
  function Decided(s: Stack, lit: int): Stack {
    Assigned(s.(control := s.control + [Level(lit, |s.trail|)]), lit, |s.control|, -1)
  }

  lemma DecidedOk(s: Stack, cs: seq<ClauseRecord>, f: Formula, lit: int)
    requires TrailOk(s, cs, f) && lit != 0 && lit !in s.vals && -lit !in s.vals
    ensures TrailOk(Decided(s, lit), cs, f)
  {
    hide ClausesImplied, Implies;
    var u := s.(control := s.control + [Level(lit, |s.trail|)]);
    assert Placed(u);
    AssignedMeans(u, lit, |s.control|, -1);
    AssignedPlaced(u, lit, |s.control|, -1);
    DecidedFramed(s, lit);
    DecidedReasoned(s, cs, lit);
  }

  lemma DecidedFramed(s: Stack, lit: int)
    requires Placed(s) && Framed(s) && lit != 0 && lit !in s.vals && -lit !in s.vals
    ensures Framed(Decided(s, lit))
  {
    var u := s.(control := s.control + [Level(lit, |s.trail|)]);
    var t := Decided(s, lit);
    assert Placed(u);
    AssignedMeans(u, lit, |s.control|, -1);
    forall p | 0 <= p < |s.trail| ensures VarOf(t.vtab, t.trail[p]) == VarOf(s.vtab, s.trail[p]) {
      assert s.trail[p] in s.vals;
    }
    hide Placed;
    forall p | 0 <= p < |t.trail| && ReasonOf(t, t.trail[p]) == -1 && LevelOf(t, t.trail[p]) > 0
      ensures IsDecision(t, p)
    {
      assert p < |s.trail| ==> IsDecision(s, p);
    }
    hide VarOf;
  }

  lemma DecidedReasoned(s: Stack, cs: seq<ClauseRecord>, lit: int)
    requires Placed(s) && Reasoned(s, cs) && lit != 0 && lit !in s.vals && -lit !in s.vals
    ensures Reasoned(Decided(s, lit), cs)
  {
    var u := s.(control := s.control + [Level(lit, |s.trail|)]);
    assert Placed(u);
    AssignedMeans(u, lit, |s.control|, -1);
    var t := Decided(s, lit);
    forall x | x in t.vals && ReasonOf(t, x) != -1 ensures Justified(t, cs, x) {
      assert Justified(s, cs, x);
      forall o | o in cs[ReasonOf(s, x)].lits && o != x
        ensures -o in t.vals && PosOf(t, o) < PosOf(t, x) && LevelOf(t, o) <= LevelOf(t, x)
      {
        assert VarOf(t.vtab, -(-o)) == VarOf(s.vtab, -(-o));
      }
    }
  }

  /** A pseudo level without decision. */
  function Pseudo(s: Stack): Stack {
    s.(control := s.control + [Level(0, |s.trail|)])
  }

  lemma PseudoOk(s: Stack, cs: seq<ClauseRecord>, f: Formula)
    requires TrailOk(s, cs, f)
    ensures TrailOk(Pseudo(s), cs, f)
  {
    hide ClausesImplied, Implies;
    var t := Pseudo(s);
    forall p | 0 <= p < |t.trail| && ReasonOf(t, t.trail[p]) == -1 && LevelOf(t, t.trail[p]) > 0
      ensures IsDecision(t, p)
    {
      assert IsDecision(s, p);
    }
    forall x | x in t.vals && ReasonOf(t, x) != -1 ensures Justified(t, cs, x) {
      assert Justified(s, cs, x);
    }
  }

  // ---------------------------------------------------------------- tables with the same clauses

  /** Tables that agree up to the order of literals and the flags of clauses. */
  ghost predicate SameLiterals(cs: seq<ClauseRecord>, ds: seq<ClauseRecord>) {
    |cs| == |ds| && forall i :: 0 <= i < |cs| ==> multiset(cs[i].lits) == multiset(ds[i].lits)
  }

  lemma {:induction false} UniqueCounts(c: Clause)
    requires NoDuplicates(c)
    ensures forall x :: multiset(c)[x] <= 1
  {
    if c != [] {
      var n: nat := |c| - 1;
      var r := c[..n];
      assert c == r + [c[n]];
      UniqueCounts(r);
      forall x ensures multiset(c)[x] <= 1 {
        assert multiset(c)[x] == multiset(r)[x] + multiset([c[n]])[x];
        if x in multiset(r) {
          assert x in r;
          var k :| 0 <= k < n && r[k] == x;
          assert c[k] == x;
        }
      }
    }
  }

  lemma StaysUnique(c: Clause, d: Clause)
    requires NoDuplicates(c) && multiset(c) == multiset(d)
    ensures NoDuplicates(d)
  {
    UniqueCounts(c);
    forall i, j | 0 <= i < j < |d| ensures d[i] != d[j] {
      PrefixNew(d, j);
      assert d[..j][i] == d[i];
    }
  }

  lemma ReorderOk(s: Stack, cs: seq<ClauseRecord>, ds: seq<ClauseRecord>, f: Formula)
    requires TrailOk(s, cs, f) && SameLiterals(cs, ds)
    ensures TrailOk(s, ds, f)
  {
    hide Placed, Framed, UnitsImplied, Implies, NoDuplicates, LevelOf, PosOf;
    forall i | 0 <= i < |cs|
      ensures (forall x :: x in cs[i].lits <==> x in ds[i].lits) && Lits(cs[i].lits) == Lits(ds[i].lits)
      ensures NoDuplicates(ds[i].lits)
    {
      SameMultisetSameLits(cs[i].lits, ds[i].lits);
      StaysUnique(cs[i].lits, ds[i].lits);
    }
    forall x | x in s.vals && ReasonOf(s, x) != -1 ensures Justified(s, ds, x) {
      assert Justified(s, cs, x);
    }
  }

  /** A clause that follows may be added. */
  lemma LearnOk(s: Stack, cs: seq<ClauseRecord>, f: Formula, r: ClauseRecord)
    requires TrailOk(s, cs, f) && Implies(f, Lits(r.lits)) && 0 !in r.lits && NoDuplicates(r.lits)
    ensures TrailOk(s, cs + [r], f)
  {
    hide Placed, Framed, UnitsImplied, Implies, NoDuplicates, LevelOf, PosOf;
    var ds := cs + [r];
    forall x | x in s.vals && ReasonOf(s, x) != -1 ensures Justified(s, ds, x) {
      assert Justified(s, cs, x);
    }
  }

  // ---------------------------------------------------------------- backtracking

  /** Those of the first `k` literals that are kept, in their order. */
  ghost function Keep(s: Stack, n: nat, k: nat): seq<int>
    requires k <= |s.trail|
  {
    if k == 0 then [] else Keep(s, n, k - 1) + if LevelOf(s, s.trail[k - 1]) <= n then [s.trail[k - 1]] else []
  }

  lemma {:induction false} KeepPrefix(s: Stack, n: nat, i: nat, k: nat)
    requires i <= k <= |s.trail|
    ensures Keep(s, n, i) <= Keep(s, n, k)
    ensures i < k && LevelOf(s, s.trail[i]) <= n ==>
              |Keep(s, n, i)| < |Keep(s, n, k)| && Keep(s, n, k)[|Keep(s, n, i)|] == s.trail[i]
    decreases k - i
  {
    if i < k {
      KeepPrefix(s, n, i + 1, k);
    }
  }

  lemma {:induction false} KeepShorter(s: Stack, n: nat, k: nat)
    requires k <= |s.trail|
    ensures |Keep(s, n, k)| <= k
  {
    if k > 0 {
      KeepShorter(s, n, k - 1);
    }
  }

  /** Every kept literal has the place where it was kept. */
  lemma {:induction false} KeepMember(s: Stack, n: nat, k: nat, j: nat) returns (i: nat)
    requires k <= |s.trail| && j < |Keep(s, n, k)|
    ensures i < k && LevelOf(s, s.trail[i]) <= n && |Keep(s, n, i)| == j && Keep(s, n, k)[j] == s.trail[i]
    decreases k
  {
    if j < |Keep(s, n, k - 1)| {
      i := KeepMember(s, n, k - 1, j);
    } else {
      i := k - 1;
    }
  }

  /** Nothing is dropped below the first level that is left. */
  lemma {:induction false} KeepAll(s: Stack, n: nat, k: nat)
    requires k <= |s.trail| && forall p :: 0 <= p < k ==> LevelOf(s, s.trail[p]) <= n
    ensures Keep(s, n, k) == s.trail[..k]
    decreases k
  {
    if k > 0 {
      KeepAll(s, n, k - 1);
      assert s.trail[..k] == s.trail[..k - 1] + [s.trail[k - 1]];
    }
  }

  /** The entry of a variable after the first `i` literals were looked at. */
  ghost function MovedVar(s: Stack, n: nat, i: nat, v: int): Var
    requires i <= |s.trail| && v in s.vtab
  {
    var p := s.vtab[v].trail;
    if p < i && Abs(s.trail[p]) == v && LevelOf(s, s.trail[p]) <= n then s.vtab[v].(trail := |Keep(s, n, p)|)
    else s.vtab[v]
  }

  ghost function MovedVars(s: Stack, n: nat, i: nat): map<int, Var>
    requires i <= |s.trail|
  {
    map v | v in s.vtab :: MovedVar(s, n, i, v)
  }

  /** The values after the first `i` literals were looked at. */
  ghost function KeptVals(s: Stack, n: nat, i: nat): set<int> {
    set x | x in s.vals && (PosOf(s, x) < i ==> LevelOf(s, x) <= n)
  }

  /** The state after backtracking to level `n`. */
  ghost function Back(s: Stack, n: nat): Stack
    requires n < |s.control|
  {
    Stack(Keep(s, n, |s.trail|), KeptVals(s, n, |s.trail|), MovedVars(s, n, |s.trail|), s.control[..n + 1])
  }

  lemma BackVars(s: Stack, n: nat, x: int)
    requires Placed(s) && n < |s.control| && x in s.vals && LevelOf(s, x) <= n
    ensures x in Back(s, n).vals
    ensures LevelOf(Back(s, n), x) == LevelOf(s, x) && ReasonOf(Back(s, n), x) == ReasonOf(s, x)
    ensures PosOf(Back(s, n), x) == |Keep(s, n, PosOf(s, x))|
    ensures VarOf(Back(s, n).vtab, -x) == VarOf(Back(s, n).vtab, x) && VarOf(s.vtab, -x) == VarOf(s.vtab, x)
  {
    assert s.trail[PosOf(s, x)] == x;
  }

  /** Exactly the literals of higher levels lose their values; the others keep level and reason. */
  lemma BackMeans(s: Stack, n: nat)
    requires Placed(s) && n < |s.control|
    ensures Back(s, n).control == s.control[..n + 1]
    ensures forall x :: x in Back(s, n).vals <==> x in s.vals && LevelOf(s, x) <= n
    ensures forall x :: x in Back(s, n).vals ==>
              LevelOf(Back(s, n), x) == LevelOf(s, x) && ReasonOf(Back(s, n), x) == ReasonOf(s, x)
  {
    hide Keep, MovedVars;
    forall x | x in s.vals && LevelOf(s, x) <= n
      ensures LevelOf(Back(s, n), x) == LevelOf(s, x) && ReasonOf(Back(s, n), x) == ReasonOf(s, x)
    {
      BackVars(s, n, x);
    }
  }

  lemma BackPlaced(s: Stack, n: nat)
    requires Placed(s) && n < |s.control|
    ensures Placed(Back(s, n))
  {
    hide Keep, MovedVars;
    var t := Back(s, n);
    forall j | 0 <= j < |t.trail|
      ensures t.trail[j] in t.vals && PosOf(t, t.trail[j]) == j && LevelOf(t, t.trail[j]) < |t.control|
    {
      var i := KeepMember(s, n, |s.trail|, j);
      BackVars(s, n, s.trail[i]);
    }
    forall x | x in t.vals ensures x != 0 && Abs(x) in t.vtab && PosOf(t, x) < |t.trail| && t.trail[PosOf(t, x)] == x {
      BackVars(s, n, x);
      KeepPrefix(s, n, PosOf(s, x), |s.trail|);
      MovedKeys(s, n, |s.trail|);
    }
  }

  lemma MovedKeys(s: Stack, n: nat, i: nat)
    requires i <= |s.trail|
    ensures MovedVars(s, n, i).Keys == s.vtab.Keys
  {
  }

  /** The order of the kept literals is the old one. */
  lemma BackOrder(s: Stack, n: nat, x: int, y: int)
    requires Placed(s) && n < |s.control| && x in Back(s, n).vals && y in Back(s, n).vals
    ensures PosOf(Back(s, n), x) < PosOf(Back(s, n), y) <==> PosOf(s, x) < PosOf(s, y)
  {
    BackVars(s, n, x);
    BackVars(s, n, y);
    if PosOf(s, x) < PosOf(s, y) {
      KeepPrefix(s, n, PosOf(s, x), PosOf(s, y));
    } else {
      KeepPrefix(s, n, PosOf(s, y), PosOf(s, x));
    }
  }

  lemma BackReasoned(s: Stack, cs: seq<ClauseRecord>, n: nat)
    requires Placed(s) && Reasoned(s, cs) && n < |s.control|
    ensures Reasoned(Back(s, n), cs)
  {
    hide Keep, MovedVars;
    var t := Back(s, n);
    forall x | x in t.vals && ReasonOf(t, x) != -1 ensures Justified(t, cs, x) {
      BackVars(s, n, x);
      assert Justified(s, cs, x);
      forall o | o in cs[ReasonOf(s, x)].lits && o != x
        ensures -o in t.vals && PosOf(t, o) < PosOf(t, x) && LevelOf(t, o) <= LevelOf(t, x)
      {
        assert VarOf(s.vtab, -o) == VarOf(s.vtab, o) && VarOf(t.vtab, -o) == VarOf(t.vtab, o);
        BackVars(s, n, -o);
        BackOrder(s, n, -o, x);
      }
    }
  }

  /** Up to the start of a level that is left nothing changes. */
  lemma BackBelow(s: Stack, n: nat, k: nat)
    requires Placed(s) && Framed(s) && k <= n < |s.control|
    ensures s.control[k].trail <= |Back(s, n).trail|
    ensures forall p :: 0 <= p < s.control[k].trail ==> Back(s, n).trail[p] == s.trail[p]
  {
    var e, t := s.control[k].trail, Back(s, n);
    KeepAll(s, n, e);
    KeepPrefix(s, n, e, |s.trail|);
    forall p | 0 <= p < e ensures t.trail[p] == s.trail[p] {
      assert t.trail[p] == t.trail[..e][p];
    }
  }

  lemma BackDecision(s: Stack, n: nat, j: nat)
    requires Placed(s) && Framed(s) && n < |s.control| && j < |Back(s, n).trail|
    requires ReasonOf(Back(s, n), Back(s, n).trail[j]) == -1 && LevelOf(Back(s, n), Back(s, n).trail[j]) > 0
    ensures IsDecision(Back(s, n), j)
  {
    hide MovedVars;
    var i := KeepMember(s, n, |s.trail|, j);
    BackVars(s, n, s.trail[i]);
    assert IsDecision(s, i);
    KeepAll(s, n, i);
  }

  lemma BackFramed(s: Stack, n: nat)
    requires Placed(s) && Framed(s) && n < |s.control|
    ensures Framed(Back(s, n))
  {
    hide MovedVars, Keep, Placed, IsDecision;
    var t := Back(s, n);
    forall k | 0 <= k <= n
      ensures s.control[k].trail <= |t.trail| && forall p :: 0 <= p < s.control[k].trail ==> t.trail[p] == s.trail[p]
    {
      BackBelow(s, n, k);
    }
    forall k, p | 0 <= k < |t.control| && 0 <= p < t.control[k].trail ensures LevelOf(t, t.trail[p]) < k {
      InTrail(s, p);
      BackVars(s, n, s.trail[p]);
    }
    forall j | 0 <= j < |t.trail| && ReasonOf(t, t.trail[j]) == -1 && LevelOf(t, t.trail[j]) > 0
      ensures IsDecision(t, j)
    {
      BackDecision(s, n, j);
    }
  }

  lemma InTrail(s: Stack, p: nat)
    requires Placed(s) && p < |s.trail|
    ensures s.trail[p] in s.vals
  {
  }

  /** Backtracking keeps the invariant, with literals of lower levels left on the trail. */
  lemma BackOk(s: Stack, cs: seq<ClauseRecord>, f: Formula, n: nat)
    requires TrailOk(s, cs, f) && n < |s.control|
    ensures TrailOk(Back(s, n), cs, f)
  {
    hide Keep, MovedVars, Framed, Reasoned, ClausesImplied, Implies;
    BackPlaced(s, n);
    BackFramed(s, n);
    BackReasoned(s, cs, n);
    var t := Back(s, n);
    forall x | x in t.vals && LevelOf(t, x) == 0 ensures Implies(f, {x}) {
      BackVars(s, n, x);
    }
  }
}
