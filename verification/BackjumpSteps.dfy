/** Conflict levels, the choice of the level to return to, and the clauses that become units there. */
module BackjumpSteps {
  import opened Cnf
  import opened Lists
  import opened InternalSolver
  import opened Trail
  import opened Search
  import opened ConflictSteps

  datatype Options = Options(chrono: bool, chronoalways: bool, chronolevelim: int, chronoreusetrail: bool,
                             bump: bool, eagersubsume: bool, eagersubsumelim: nat)

  ghost predicate AllFalse(s: Stack, c: Clause) {
    forall x :: x in c ==> -x in s.vals && x != 0
  }

  // ---------------------------------------------------------------- the conflict level

  /** The only literal of the highest level. */
  ghost predicate OnlyTop(s: Stack, c: Clause, lit: int, level: nat) {
    lit in c && LevelOf(s, lit) == level && forall x :: x in c && x != lit ==> LevelOf(s, x) < level
  }

  ghost predicate TwoTop(s: Stack, c: Clause, level: nat) {
    exists x, y :: x in c && y in c && x != y && LevelOf(s, x) == level && LevelOf(s, y) == level
  }

  /** The highest level of a clause, and its only literal of that level if it is positive. */
  ghost predicate ConflictLevelIs(s: Stack, c: Clause, level: nat, forced: int) {
    && (forall x :: x in c ==> LevelOf(s, x) <= level)
    && (exists x :: x in c && LevelOf(s, x) == level)
    && (forced != 0 ==> level > 0 && OnlyTop(s, c, forced, level))
    && (forced == 0 && level > 0 ==> TwoTop(s, c, level))
  }

  /** The scan before position `i`; `at` and `other` are places of literals on the highest level. */
  ghost predicate Scanned(s: Stack, c: Clause, i: nat, res: nat, count: nat, forced: int, at: nat, other: nat)
    requires i <= |c|
  {
    && (forall k :: 0 <= k < i ==> LevelOf(s, c[k]) <= res)
    && (res == 0 ==> forced == 0 && count == i)
    && (res > 0 ==>
          && count >= 1 && at < i && c[at] == forced && LevelOf(s, forced) == res
          && (count == 1 ==> forall k :: 0 <= k < i && k != at ==> LevelOf(s, c[k]) < res)
          && (count > 1 ==> other < i && other != at && LevelOf(s, c[other]) == res))
  }

  lemma ScannedStep(s: Stack, c: Clause, i: nat, j: nat, res: nat, count: nat, forced: int, at: nat, other: nat)
    requires i < |c| && j == i + 1 && Scanned(s, c, i, res, count, forced, at, other)
    ensures LevelOf(s, c[i]) > res ==> Scanned(s, c, j, LevelOf(s, c[i]), 1, c[i], i, other)
    ensures LevelOf(s, c[i]) == res ==> Scanned(s, c, j, res, count + 1, forced, at, if count == 1 then i else other)
    ensures LevelOf(s, c[i]) < res ==> Scanned(s, c, j, res, count, forced, at, other)
    ensures res > 0 ==> count > 0
  {
    hide LevelOf;
  }

  lemma ScannedMeans(s: Stack, c: Clause, i: nat, res: nat, count: nat, forced: int, at: nat, other: nat)
    requires i <= |c| && |c| >= 2 && NoDuplicates(c) && 0 !in c && Scanned(s, c, i, res, count, forced, at, other)
    requires i == |c| || (count > 1 && forall x :: x in c ==> LevelOf(s, x) <= res)
    ensures ConflictLevelIs(s, c, res, if count == 1 then forced else 0)
  {
    assert forall x :: x in c ==> LevelOf(s, x) <= res;
    if res == 0 {
      assert c[0] in c;
    } else {
      assert c[at] in c;
      if count > 1 {
        assert c[other] in c && c[other] != c[at];
      }
    }
  }

  /** The order of the literals does not matter. */
  lemma SameConflictLevel(s: Stack, c: Clause, d: Clause, level: nat, forced: int)
    requires ConflictLevelIs(s, c, level, forced) && multiset(c) == multiset(d)
    ensures ConflictLevelIs(s, d, level, forced)
  {
    SameMultisetSameLits(c, d);
    if TwoTop(s, c, level) {
      var x, y :| x in c && y in c && x != y && LevelOf(s, x) == level && LevelOf(s, y) == level;
      assert x in d && y in d;
    }
  }

  /** The two literals of the highest levels come first. */
  ghost predicate HighestFirst(s: Stack, c: Clause) {
    HighestAt(s, c, 0) && HighestAt(s, c, 1)
  }

  ghost predicate HighestAt(s: Stack, c: Clause, i: nat) {
    i < |c| && forall k :: i <= k < |c| ==> LevelOf(s, c[k]) <= LevelOf(s, c[i])
  }

  lemma Swapped(c: Clause, i: nat, j: nat)
    requires i < |c| && j < |c|
    ensures multiset(c[i := c[j]][j := c[i]]) == multiset(c)
  {
  }

  // ---------------------------------------------------------------- units after backtracking

  /** A false clause with one literal above a level. */
  ghost predicate UnitAfter(s: Stack, c: Clause, lit: int, n: nat) {
    lit in c && LevelOf(s, lit) > n && AllFalse(s, c) && forall x :: x in c && x != lit ==> LevelOf(s, x) <= n
  }

  /** Backtracking to that level leaves exactly this literal without value. */
  lemma BackForces(s: Stack, c: Clause, lit: int, n: nat)
    requires Placed(s) && n < |s.control| && UnitAfter(s, c, lit, n)
    ensures lit !in Back(s, n).vals && -lit !in Back(s, n).vals
    ensures forall o :: o in c && o != lit ==> -o in Back(s, n).vals && LevelOf(Back(s, n), o) == LevelOf(s, o)
  {
    hide Keep, MovedVars;
    OnlyOne(s, lit);
    SameVariable(s, lit);
    forall o | o in c && o != lit ensures -o in Back(s, n).vals && LevelOf(Back(s, n), o) == LevelOf(s, o) {
      SameVariable(s, o);
      BackVars(s, n, -o);
    }
  }

  /** The level at which such a literal is assigned is the second highest of the clause. */
  lemma DrivenLevel(s: Stack, c: Clause, lit: int, n: nat, jump: nat, level: nat)
    requires Placed(s) && n < |s.control| && UnitAfter(s, c, lit, n)
    requires HighestLevel(Back(s, n), c, lit, level) && HighestLevel(s, c, lit, jump)
    ensures level == jump
  {
    BackForces(s, c, lit, n);
  }

  /** What the conflict needs to stay false goes away when its highest level is left. */
  lemma ConflictResolved(s: Stack, c: Clause, top: int, n: nat, lit: int)
    requires Placed(s) && n < |s.control| && AllFalse(s, c) && top in c && LevelOf(s, top) > n && -lit in s.vals
    ensures -top !in Back(s, n).vals + {lit}
  {
    OnlyOne(s, lit);
    SameVariable(s, top);
  }

  // ---------------------------------------------------------------- sorting the learned clause

  /** Literals of higher levels, and later ones of the same level, have smaller ranks. */
  function NegativeRank(v: Var): int {
    0xFFFF_FFFF_FFFF_FFFF - (v.level * 0x1_0000_0000 + v.trail)
  }

  lemma RankOrder(v: Var, w: Var)
    requires v.trail < 0x1_0000_0000 && w.trail < 0x1_0000_0000
    ensures NegativeRank(v) < NegativeRank(w) <==> v.level > w.level || (v.level == w.level && v.trail > w.trail)
  {
  }

  ghost predicate RankSorted(s: Stack, d: Clause) {
    forall i, j :: 0 <= i < j < |d| ==> NegativeRank(VarOf(s.vtab, d[i])) < NegativeRank(VarOf(s.vtab, d[j]))
  }

  /** In the sorted clause levels do not increase. */
  lemma SortedLevels(s: Stack, d: Clause)
    requires Placed(s) && |s.trail| < 0x1_0000_0000 && AllFalse(s, d) && RankSorted(s, d)
    ensures forall i, j :: 0 <= i <= j < |d| ==> LevelOf(s, d[i]) >= LevelOf(s, d[j])
  {
    hide NegativeRank, Placed;
    forall i, j | 0 <= i < j < |d| ensures LevelOf(s, d[i]) >= LevelOf(s, d[j]) {
      assert d[i] in d && d[j] in d;
      TrailBounded(s, d[i]);
      TrailBounded(s, d[j]);
      RankOrder(VarOf(s.vtab, d[i]), VarOf(s.vtab, d[j]));
    }
  }

  lemma AssertingReordered(s: Stack, f: Formula, c: Clause, uip: int, d: Clause)
    requires Asserting(s, f, c, uip) && multiset(c) == multiset(d)
    ensures Asserting(s, f, d, uip)
  {
    hide Implies, NoDuplicates, LevelOf;
    SameMultisetSameLits(c, d);
    StaysUnique(c, d);
  }

  /** The literal of the current level comes first and the jump level is that of the second one. */
  lemma SortedClause(s: Stack, f: Formula, d: Clause, uip: int)
    requires Placed(s) && |s.trail| < 0x1_0000_0000 && Asserting(s, f, d, uip) && RankSorted(s, d)
    ensures d != [] && d[0] == -uip
    ensures |d| > 1 ==> HighestLevel(s, d, -uip, LevelOf(s, d[1])) && LevelOf(s, d[1]) < CurrentLevel(s)
  {
    hide Implies, NegativeRank, RankSorted;
    SortedLevels(s, d);
    SameVariable(s, uip);
    hide Placed, LevelOf;
    var k :| 0 <= k < |d| && d[k] == -uip;
    assert LevelOf(s, d[0]) >= LevelOf(s, d[k]) && d[0] in d;
    if |d| > 1 {
      assert d[1] in d && d[1] != d[0];
    }
  }

  lemma TrailBounded(s: Stack, x: int)
    requires Placed(s) && -x in s.vals
    ensures PosOf(s, x) < |s.trail|
  {
    SameVariable(s, x);
  }

  // ---------------------------------------------------------------- the level to return to

  /** Of all variables on the trail from the level above the jump level, one with the largest stamp. */
  ghost predicate BestAt(s: Stack, btab: map<int, int>, jump: nat, best: nat)
    requires jump + 1 < |s.control|
  {
    && s.control[jump + 1].trail <= best < |s.trail| && Abs(s.trail[best]) in btab
    && forall p :: s.control[jump + 1].trail <= p < |s.trail| ==>
         Abs(s.trail[p]) in btab && btab[Abs(s.trail[p])] <= btab[Abs(s.trail[best])]
  }

  /** The highest level below the current one at which the position is still on the trail. */
  ghost predicate ReusedTo(s: Stack, best: nat, res: nat)
    requires res < CurrentLevel(s) < |s.control|
  {
    && s.control[res].trail <= best
    && (res < CurrentLevel(s) - 1 ==> best < s.control[res + 1].trail)
  }

  /** All literals that lose their value have no larger stamp than one that keeps it. */
  ghost predicate BestIsKept(s: Stack, btab: map<int, int>, res: nat)
    requires res < |s.control|
  {
    exists b :: b in Back(s, res).vals && Abs(b) in btab
             && forall x :: x in s.vals && x !in Back(s, res).vals ==> Abs(x) in btab && btab[Abs(x)] <= btab[Abs(b)]
  }

  lemma BestStays(s: Stack, btab: map<int, int>, jump: nat, best: nat, res: nat)
    requires Placed(s) && Framed(s) && jump <= res && res + 2 < |s.control| && BestAt(s, btab, jump, best)
    requires ReusedTo(s, best, res)
    ensures BestIsKept(s, btab, res)
  {
    hide Keep, MovedVars;
    var b := s.trail[best];
    InTrail(s, best);
    assert LevelOf(s, b) <= res;
    BackVars(s, res, b);
    forall x | x in s.vals && x !in Back(s, res).vals ensures Abs(x) in btab && btab[Abs(x)] <= btab[Abs(b)] {
      AboveLevel(s, res, x);
      assert s.trail[PosOf(s, x)] == x && s.control[jump + 1].trail <= s.control[res + 1].trail;
    }
  }

  lemma AboveLevel(s: Stack, n: nat, x: int)
    requires Placed(s) && Framed(s) && n + 1 < |s.control| && x in s.vals && x !in Back(s, n).vals
    ensures PosOf(s, x) >= s.control[n + 1].trail
  {
    hide Keep, MovedVars;
    var p := PosOf(s, x);
    assert s.trail[p] == x;
    assert LevelOf(s, x) > n;
  }

  /** The trail goes on above the start of a level if there is a literal of a higher level. */
  lemma LevelStartsBelow(s: Stack, x: int, k: nat)
    requires Placed(s) && Framed(s) && k < |s.control| && x in s.vals && LevelOf(s, x) >= k
    ensures s.control[k].trail < |s.trail|
  {
    assert s.trail[PosOf(s, x)] == x;
  }

  /** The level to return to: the jump level when chronological backtracking is off, would undo assumptions
      or is not worth it, else one that keeps more of the trail. */
  ghost predicate BacktrackLevelIs(s: Stack, btab: map<int, int>, opts: Options, jump: nat, assumptions: nat,
                                   res: nat) {
    var level := CurrentLevel(s);
    && jump <= res < level
    && if !opts.chrono then res == jump
       else if opts.chronoalways then res == level - 1
       else if jump < assumptions || jump == level - 1 then res == jump
       else if level - jump > opts.chronolevelim then res == level - 1
       else if !opts.chronoreusetrail then res == jump
       else jump < res && exists best :: BestAt(s, btab, jump, best) && ReusedTo(s, best, res)
  }

  /** Literals up to a level stay false when everything above is unassigned. */
  lemma BackKeepsFalse(s: Stack, c: Clause, n: nat)
    requires Placed(s) && n < |s.control| && AllFalse(s, c) && forall x :: x in c ==> LevelOf(s, x) <= n
    ensures AllFalse(Back(s, n), c) && forall x :: x in c ==> LevelOf(Back(s, n), x) == LevelOf(s, x)
  {
    hide Keep, MovedVars;
    forall x | x in c ensures -x in Back(s, n).vals && LevelOf(Back(s, n), x) == LevelOf(s, x) {
      SameVariable(s, x);
      BackVars(s, n, -x);
    }
  }

  /** A clause that is false at the root refutes the formula. */
  lemma RootConflict(s: Stack, f: Formula, c: Clause)
    requires UnitsImplied(s, f) && Implies(f, Lits(c)) && AllFalse(s, c) && forall x :: x in c ==> LevelOf(s, x) == 0
    ensures !Satisfiable(f)
  {
    if m :| Models(m, f) {
      assert Holds(m, Lits(c));
      var x :| x in Lits(c) && True(m, x);
      FalseAtRoot(s, f, m, x);
    }
  }

  // ---------------------------------------------------------------- subsumed clauses

  /** The literals before position `j` that are in the other clause. */
  ghost function Common(d: Clause, j: nat, c: Clause): set<int>
    requires j <= |d|
  {
    set x | x in d[..j] && x in c
  }

  lemma CommonStep(d: Clause, j: nat, c: Clause)
    requires j < |d| && NoDuplicates(d)
    ensures Common(d, j + 1, c) == Common(d, j, c) + (if d[j] in c then {d[j]} else {})
    ensures d[j] !in Common(d, j, c)
  {
    assert d[..j + 1] == d[..j] + [d[j]];
  }

  lemma CommonAll(d: Clause, j: nat, c: Clause)
    requires j <= |d| && NoDuplicates(c)
    ensures Common(d, j, c) <= Lits(c) && |Lits(c)| == |c| && |Common(d, j, c)| <= |c|
    ensures |Common(d, j, c)| == |c| ==> Lits(c) <= Lits(d)
    ensures j == |d| && Lits(c) <= Lits(d) ==> |Common(d, j, c)| == |c|
  {
    DistinctSize(c);
    SubsetSize(Common(d, j, c), Lits(c));
    if j == |d| && Lits(c) <= Lits(d) {
      assert d[..j] == d;
      forall x | x in Lits(c) ensures x in Common(d, j, c) {
        assert x in Lits(d);
      }
      assert Common(d, j, c) == Lits(c);
    }
    if Common(d, j, c) == Lits(c) {
      forall x | x in Lits(c) ensures x in Lits(d) {
        assert x in Common(d, j, c);
      }
    }
  }

  /** Redundant clauses from a position on that contain the new clause became garbage. */
  ghost predicate SubsumedFrom(cs: seq<ClauseRecord>, ds: seq<ClauseRecord>, c: nat, from: int)
    requires c < |cs|
  {
    && |ds| == |cs|
    && forall j :: 0 <= j < |cs| ==>
         ds[j] == if from <= j && j != c && cs[j].redundant && Lits(cs[c].lits) <= Lits(cs[j].lits)
                  then cs[j].(garbage := true) else cs[j]
  }

  /** The clauses that are in use. */
  ghost function InUse(cs: seq<ClauseRecord>): Formula {
    set i | 0 <= i < |cs| && !cs[i].garbage :: Lits(cs[i].lits)
  }

  /** Every model of what is left in use satisfies the clauses that were removed. */
  lemma SubsumptionKeeps(cs: seq<ClauseRecord>, ds: seq<ClauseRecord>, c: nat, from: int, m: Assignment)
    requires c < |cs| && SubsumedFrom(cs, ds, c, from) && !cs[c].garbage
    ensures Models(m, InUse(ds)) <==> Models(m, InUse(cs))
  {
    forall i | 0 <= i < |ds| && !ds[i].garbage ensures Lits(ds[i].lits) in InUse(cs) {
      assert !cs[i].garbage && ds[i].lits == cs[i].lits;
    }
    if Models(m, InUse(ds)) {
      assert Lits(ds[c].lits) in InUse(ds) && ds[c] == cs[c];
      forall i | 0 <= i < |cs| && !cs[i].garbage ensures Holds(m, Lits(cs[i].lits)) {
        if ds[i].garbage {
          var x :| x in Lits(cs[c].lits) && True(m, x);
          assert x in Lits(cs[i].lits);
        } else {
          assert Lits(ds[i].lits) in InUse(ds);
        }
      }
    }
  }
}
