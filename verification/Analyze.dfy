/** Conflict analysis: the first unique implication point, backjumping and learning. */
module Analyze {
  import opened Cnf
  import opened Lists
  import opened InternalSolver
  import opened Trail
  import opened DecisionQueue
  import opened Search
  import opened ConflictSteps
  import opened ImplicationGraph
  import opened BackjumpSteps

  // ---------------------------------------------------------------- literals of a reason

  /** The literals of a clause from position `k` on, without one of them. */
  ghost function Rest(c: Clause, lit: int, k: nat): set<int>
    requires k <= |c|
  {
    set x | x in c[k..] && x != lit
  }

  lemma RestStep(c: Clause, lit: int, k: nat)
    requires k < |c|
    ensures Rest(c, lit, k) == if c[k] == lit then Rest(c, lit, k + 1) else Rest(c, lit, k + 1) + {c[k]}
  {
    assert c[k..] == [c[k]] + c[k + 1..];
  }

  lemma RestAll(c: Clause, lit: int)
    ensures Rest(c, lit, 0) == Lits(c) - {lit} && Rest(c, lit, |c|) == {}
  {
    assert c[0..] == c;
  }

  /** The other literals of a clause are false, of no higher level than the current one, and
      were assigned before position `i`. */
  ghost predicate FalseBelow(s: Stack, c: Clause, lit: int, i: nat) {
    forall o :: o in c && o != lit ==> -o in s.vals && o != 0 && PosOf(s, o) < i && LevelOf(s, o) <= CurrentLevel(s)
  }

  lemma LevelBounded(s: Stack)
    requires Placed(s)
    ensures forall x :: x in s.vals ==> LevelOf(s, x) <= CurrentLevel(s)
    ensures forall x :: -x in s.vals ==> LevelOf(s, x) <= CurrentLevel(s) && PosOf(s, x) < |s.trail|
  {
    forall x | x in s.vals ensures LevelOf(s, x) <= CurrentLevel(s) {
      assert s.trail[PosOf(s, x)] == x;
    }
    forall x | -x in s.vals ensures LevelOf(s, x) <= CurrentLevel(s) && PosOf(s, x) < |s.trail| {
      SameVariable(s, x);
    }
  }

  lemma ConflictIsBelow(s: Stack, c: Clause)
    requires Placed(s) && AllFalse(s, c)
    ensures FalseBelow(s, c, 0, |s.trail|)
  {
    hide Placed, LevelOf, PosOf;
    LevelBounded(s);
  }

  lemma ReasonIsBelow(s: Stack, cs: seq<ClauseRecord>, i: nat)
    requires Placed(s) && WellFormed(cs) && i < |s.trail| && Justified(s, cs, s.trail[i])
    ensures FalseBelow(s, cs[ReasonOf(s, s.trail[i])].lits, s.trail[i], i)
  {
    LevelBounded(s);
    assert PosOf(s, s.trail[i]) == i;
  }

  /** If a literal of the current level was looked at, then something is left to be resolved. */
  lemma OpenAfter(s: Stack, a: Analysis, i: nat, x: int)
    requires Analyzing(s, a, i) && Handled(s, a, i, x) && LevelOf(s, x) == CurrentLevel(s) > 0
    ensures a.open > 0
  {
    FrontMember(s, a.seen, i, -x);
  }

  ghost predicate HasCurrent(s: Stack, c: Clause) {
    CurrentLevel(s) > 0 && exists x :: x in c && LevelOf(s, x) == CurrentLevel(s)
  }

  lemma SomethingOpen(s: Stack, c: Clause, a: Analysis, i: nat)
    requires Analyzing(s, a, i) && HasCurrent(s, c) && 0 !in c
    requires forall o :: o in c && o != 0 ==> Handled(s, a, i, o)
    ensures a.open > 0
  {
    var x :| x in c && LevelOf(s, x) == CurrentLevel(s);
    OpenAfter(s, a, i, x);
  }

  lemma StartAnalysis(s: Stack, cs: seq<ClauseRecord>, f: Formula, conflict: nat)
    requires TrailOk(s, cs, f) && conflict < |cs| && AllFalse(s, cs[conflict].lits)
    ensures Analyzing(s, Analysis({}, [], [], [], map[], 0, 0), |s.trail|)
    ensures FalseBelow(s, cs[conflict].lits, 0, |s.trail|)
    ensures Derived(f, Lits([]) + (Lits(cs[conflict].lits) - {0}), Front(s, {}, |s.trail|))
    ensures 0 !in cs[conflict].lits && (HasCurrent(s, cs[conflict].lits) ==> CurrentLevel(s) > 0)
    ensures forall o :: o in cs[conflict].lits ==> -o in s.vals
  {
    hide Placed;
    NothingSeen(s, |s.trail|);
    ConflictIsBelow(s, cs[conflict].lits);
    ImpliesIsDerived(f, cs[conflict].lits);
    assert Lits([]) + (Lits(cs[conflict].lits) - {0}) == Lits(cs[conflict].lits) - {0};
  }

  lemma FrontSize(s: Stack, a: Analysis, i: nat)
    requires Analyzing(s, a, i)
    ensures a.open == 0 <==> Front(s, a.seen, i) == {}
  {
  }

  lemma ReasonFollows(s: Stack, cs: seq<ClauseRecord>, f: Formula, x: int, reason: int)
    requires ClausesImplied(cs, f) && Justified(s, cs, x) && ReasonOf(s, x) == reason
    ensures 0 <= reason < |cs| && Implies(f, Lits(cs[reason].lits))
  {
    hide Implies;
  }

  /** With nothing left to be resolved the clause and the negated literal form the learned clause. */
  lemma UipFound(s: Stack, cs: seq<ClauseRecord>, f: Formula, a: Analysis, i: nat)
    requires TrailOk(s, cs, f) && Analyzing(s, a, i) && a.open == 0 && i < |s.trail|
    requires Abs(s.trail[i]) in a.seen && LevelOf(s, s.trail[i]) == CurrentLevel(s) > 0
    requires Derived(f, Lits(a.clause), Front(s, a.seen, i) + {s.trail[i]})
    ensures Asserting(s, f, a.clause + [-s.trail[i]], s.trail[i])
    ensures |a.levels| == |LevelsOf(s, a.clause + [-s.trail[i]])|
    ensures NoDuplicates(a.analyzed) && forall x :: x in a.analyzed ==> -x in s.vals
  {
    hide Placed, Split, Listed, Derived, Front, Asserting, LevelsOf;
    FrontEmpty(s, a, i);
    assert {} + {s.trail[i]} == {s.trail[i]};
    InTrail(s, i);
    LevelBounded(s);
    LearnedIsAsserting(s, f, a, i);
    LevelsAreListed(s, a, s.trail[i]);
    AnalyzedAreFalse(s, a);
  }

  lemma AnalyzedAreFalse(s: Stack, a: Analysis)
    requires Listed(s, a)
    ensures NoDuplicates(a.analyzed) && forall x :: x in a.analyzed ==> -x in s.vals
  {
  }

  // ---------------------------------------------------------------- sorting

  lemma Inserted(r: seq<int>, key: map<int, int>, k: nat, x: int)
    requires Increasing(r, key) && k <= |r| && x in key
    requires (k > 0 ==> key[r[k - 1]] < key[x]) && (k < |r| ==> key[x] < key[r[k]])
    ensures Increasing(r[..k] + [x] + r[k..], key)
  {
    var t := r[..k] + [x] + r[k..];
    forall i | 0 <= i < |t|
      ensures t[i] == (if i < k then r[i] else if i == k then x else r[i - 1]) && t[i] in key
    {
    }
    InsertedRanks(r, key, k, x);
  }

  lemma InsertedRanks(r: seq<int>, key: map<int, int>, k: nat, x: int)
    requires Increasing(r, key) && k <= |r| && x in key
    requires (k > 0 ==> key[r[k - 1]] < key[x]) && (k < |r| ==> key[x] < key[r[k]])
    ensures forall i :: 0 <= i < k ==> key[r[i]] < key[x]
    ensures forall i :: k <= i < |r| ==> key[x] < key[r[i]]
  {
  }

  lemma InsertedSame(r: seq<int>, k: nat, l: seq<int>, i: nat)
    requires k <= |r| && i < |l| && multiset(r) == multiset(l[..i])
    ensures multiset(r[..k] + [l[i]] + r[k..]) == multiset(l[..i + 1])
  {
    assert r == r[..k] + r[k..];
    assert l[..i + 1] == l[..i] + [l[i]];
  }

  lemma NothingIncreasing(key: map<int, int>)
    ensures Increasing([], key)
  {
  }

  lemma NewKey(l: seq<int>, i: nat, r: seq<int>, key: map<int, int>)
    requires NoDuplicates(l) && i < |l| && multiset(r) == multiset(l[..i]) && forall x :: x in l ==> x in key
    requires forall x, y :: x in l && y in l && x != y ==> key[x] != key[y]
    ensures forall j :: 0 <= j < |r| ==> r[j] in key && key[r[j]] != key[l[i]]
  {
    var p := l[..i];
    forall j | 0 <= j < |r| ensures r[j] in key && key[r[j]] != key[l[i]] {
      assert r[j] in multiset(p);
      var m :| 0 <= m < i && p[m] == r[j];
      assert l[m] == r[j] && l[m] in l && l[i] in l;
    }
  }

  method InsertionPoint(r: seq<int>, key: map<int, int>, x: int) returns (k: nat)
    requires x in key && forall j :: 0 <= j < |r| ==> r[j] in key && key[r[j]] != key[x]
    ensures k <= |r| && (k > 0 ==> key[r[k - 1]] < key[x]) && (k < |r| ==> key[x] < key[r[k]])
  {
    k := |r|;
    while k > 0 && key[r[k - 1]] > key[x]
      invariant k <= |r| && (k < |r| ==> key[x] < key[r[k]])
    {
      k := k - 1;
    }
  }

  /** Sorts by a rank that differs between the elements. */
  method Msort(l: seq<int>, key: map<int, int>) returns (r: seq<int>)
    requires NoDuplicates(l) && forall x :: x in l ==> x in key
    requires forall x, y :: x in l && y in l && x != y ==> key[x] != key[y]
    ensures Increasing(r, key) && multiset(r) == multiset(l)
  {
    hide *;
    r := [];
    NothingIncreasing(key);
    for i := 0 to |l|
      invariant Increasing(r, key) && multiset(r) == multiset(l[..i])
    {
      var x := l[i];
      NewKey(l, i, r, key);
      var k := InsertionPoint(r, key, x);
      Inserted(r, key, k, x);
      InsertedSame(r, k, l, i);
      r := r[..k] + [x] + r[k..];
    }
    assert l[..|l|] == l;
  }

  /** The variables of literals. */
  function Indices(l: seq<int>): seq<int> {
    seq(|l|, i requires 0 <= i < |l| => Abs(l[i]))
  }

  lemma IndicesAre(l: seq<int>)
    ensures Lits(Indices(l)) == set x | x in l :: Abs(x)
  {
    forall v | v in (set x | x in l :: Abs(x)) ensures v in Indices(l) {
      var k :| 0 <= k < |l| && Abs(l[k]) == v;
      assert Indices(l)[k] == v;
    }
  }

  lemma SameIndices(l: seq<int>, m: seq<int>)
    requires multiset(l) == multiset(m)
    ensures Lits(Indices(l)) == Lits(Indices(m))
  {
    SameMultisetSameLits(l, m);
    IndicesAre(l);
    IndicesAre(m);
  }

  /** The queue after an analysis: if variables are bumped, they have moved behind all others, in their order. */
  ghost predicate BumpedTo(order: seq<int>, order': seq<int>, bumped: bool, vs: set<int>) {
    order' == if bumped then Others(order, vs) + Among(order, vs) else order
  }

  lemma BumpedIntro(order: seq<int>, order': seq<int>, bumped: bool, vs: set<int>)
    requires order' == if bumped then Others(order, vs) + Among(order, vs) else order
    ensures BumpedTo(order, order', bumped, vs)
  {
  }

  lemma LearnedReordered(s: Stack, cs: seq<ClauseRecord>, c: Clause, d: Clause, e: Clause, uip: int)
    requires LearnedFrom(s, cs, c, d, uip) && forall x :: x in d <==> x in e
    ensures LearnedFrom(s, cs, c, e, uip)
  {
    hide Involved, LevelOf;
  }

  lemma StampsDiffer(s: Stack, l: seq<int>, order: seq<int>, btab: map<int, int>, stamp: int)
    requires Placed(s) && Stamped(order, btab, stamp) && NoDuplicates(l)
    requires forall x :: x in l ==> -x in s.vals
    requires forall x :: x in s.vals ==> Abs(x) in order
    ensures forall x :: x in l ==> Abs(x) in order && Abs(x) in btab
    ensures forall x, y :: x in l && y in l && x != y ==> btab[Abs(x)] != btab[Abs(y)]
  {
    hide Placed;
    forall x | x in l ensures Abs(x) in order && Abs(x) in btab {
      assert Abs(-x) in order;
    }
    SameStampSame(order, btab, stamp);
    forall x, y | x in l && y in l && x != y ensures btab[Abs(x)] != btab[Abs(y)] {
      OnlyOne(s, x);
    }
  }

  lemma StampsIncrease(l: seq<int>, r: seq<int>, ranks: map<int, int>, order: seq<int>, btab: map<int, int>)
    requires forall x :: x in l ==> Abs(x) in order && Abs(x) in btab
    requires multiset(l) == multiset(r) && ranks == (map x | x in l :: btab[Abs(x)]) && Increasing(r, ranks)
    ensures Increasing(Indices(r), btab) && forall v :: v in Indices(r) ==> v in order
  {
    SameMultisetSameLits(l, r);
    var n := Indices(r);
    forall i | 0 <= i < |n| ensures n[i] in btab && n[i] in order && n[i] == Abs(r[i]) && r[i] in l {
      assert r[i] in r;
    }
  }

  // ---------------------------------------------------------------- outcomes of an analysis

  /** What a conflict leads to: a refutation, a literal that the conflict itself forces, or a learned clause
      with its first unique implication point, jump level and glue. */
  datatype Outcome = Refuted | Driven(lit: int) | Learned(clause: Clause, uip: int, jump: nat, glue: int)

  /** The learned clause is added, and among the most recent clauses those that contain it are removed. */
  ghost predicate LearnedTable(cs: seq<ClauseRecord>, ds: seq<ClauseRecord>, opts: Options, c: Clause, id: int) {
    && |ds| == |cs| + 1 && ds[|cs|] == ClauseRecord(c, true, false, false, id)
    && forall i :: 0 <= i < |cs| ==>
         ds[i] == if opts.eagersubsume && |cs| - i <= opts.eagersubsumelim && cs[i].redundant
                     && Lits(c) <= Lits(cs[i].lits)
                  then cs[i].(garbage := true) else cs[i]
  }

  lemma SubsumedTable(cs: seq<ClauseRecord>, ds: seq<ClauseRecord>, opts: Options, c: Clause, id: int)
    requires var es, recent := cs + [ClauseRecord(c, true, false, false, id)], |cs| - opts.eagersubsumelim;
             if opts.eagersubsume then SubsumedFrom(es, ds, |cs|, if recent < 0 then 0 else recent) else ds == es
    ensures LearnedTable(cs, ds, opts, c, id)
  {
    hide Lits;
    var es := cs + [ClauseRecord(c, true, false, false, id)];
    assert es[|cs|].lits == c;
    forall i | 0 <= i < |cs| ensures es[i] == cs[i] {
    }
  }

  /** The learned clause is asserting at the conflict level; after going back to level `n`, which is below
      that level and not below the jump level, it assigns the flipped literal at the jump level. */
  ghost predicate Jumped(s: Stack, f: Formula, r: Outcome, n: nat, t: Stack, id: int) {
    && r.Learned? && Asserting(s, f, r.clause, r.uip) && HighestLevel(s, r.clause, -r.uip, r.jump)
    && r.jump <= n < CurrentLevel(s) && r.glue + 1 == |LevelsOf(s, r.clause)|
    && t == Assigned(Back(s, n), -r.uip, r.jump, if r.jump == 0 then -1 else id)
  }

  lemma JumpsBelow(s: Stack, f: Formula, r: Outcome, n: nat, t: Stack, id: int)
    requires Jumped(s, f, r, n, t, id)
    ensures n < CurrentLevel(s)
  {
    hide Asserting, HighestLevel, LevelsOf, Back;
  }

  lemma AssertingMeans(s: Stack, f: Formula, c: Clause, uip: int)
    requires Asserting(s, f, c, uip)
    ensures Implies(f, Lits(c)) && 0 !in c && NoDuplicates(c) && AllFalse(s, c) && -uip in c && CurrentLevel(s) > 0
    ensures |c| >= 1 && LevelOf(s, -uip) == CurrentLevel(s) == LevelOf(s, uip) && uip in s.vals
  {
    SameVariable(s, uip);
  }

  lemma SameLevels(s: Stack, c: Clause, d: Clause)
    requires multiset(c) == multiset(d)
    ensures LevelsOf(s, c) == LevelsOf(s, d)
  {
    SameMultisetSameLits(c, d);
  }

  /** Going back makes an asserting clause a unit. */
  lemma AssertingForces(s: Stack, cs: seq<ClauseRecord>, f: Formula, c: Clause, uip: int, jump: nat, n: nat,
                        reason: int)
    requires Placed(s) && Asserting(s, f, c, uip) && HighestLevel(s, c, -uip, jump) && jump <= n < CurrentLevel(s)
    requires if |c| == 1 then reason == -1 && c == [-uip] else 0 <= reason < |cs| && cs[reason].lits == c
    ensures -uip !in Back(s, n).vals && uip !in Back(s, n).vals && uip != 0
    ensures Forced(Back(s, n).vals, cs, f, -uip, reason)
  {
    hide Placed, Back, LevelOf, Implies;
    AssertingMeans(s, f, c, uip);
    assert UnitAfter(s, c, -uip, n);
    BackForces(s, c, -uip, n);
    if |c| == 1 {
      assert Lits(c) == {-uip};
    }
  }

  lemma AssertedLevel(s: Stack, cs: seq<ClauseRecord>, f: Formula, c: Clause, uip: int, jump: nat, n: nat, reason: int,
                      level: nat)
    requires Placed(s) && Asserting(s, f, c, uip) && HighestLevel(s, c, -uip, jump) && jump <= n < CurrentLevel(s)
    requires if |c| == 1 then reason == -1 && c == [-uip] else 0 <= reason < |cs| && cs[reason].lits == c
    requires AssignmentLevelIs(Back(s, n), cs, -uip, reason, level)
    ensures level == jump
  {
    hide Placed, Back, LevelOf, Implies;
    AssertingMeans(s, f, c, uip);
    assert UnitAfter(s, c, -uip, n);
    if |c| != 1 {
      DrivenLevel(s, c, -uip, n, jump, level);
    }
  }

  /** Going back below the conflict level makes a conflict with one literal of that level a unit. */
  lemma ConflictForces(s: Stack, cs: seq<ClauseRecord>, f: Formula, conflict: nat, lit: int, n: nat)
    requires Placed(s) && conflict < |cs| && AllFalse(s, cs[conflict].lits) && OnlyTop(s, cs[conflict].lits, lit, n + 1)
    requires n + 1 < |s.control|
    ensures lit !in Back(s, n).vals && -lit !in Back(s, n).vals && lit != 0 && -lit in s.vals
    ensures Forced(Back(s, n).vals, cs, f, lit, conflict)
  {
    hide Placed, Back, LevelOf;
    assert UnitAfter(s, cs[conflict].lits, lit, n);
    BackForces(s, cs[conflict].lits, lit, n);
  }

  lemma ConflictedLevel(s: Stack, cs: seq<ClauseRecord>, conflict: nat, lit: int, n: nat, level: nat)
    requires Placed(s) && conflict < |cs| && AllFalse(s, cs[conflict].lits) && OnlyTop(s, cs[conflict].lits, lit, n + 1)
    requires n + 1 < |s.control| && AssignmentLevelIs(Back(s, n), cs, lit, conflict, level)
    ensures HighestLevel(s, cs[conflict].lits, lit, level)
  {
    hide Placed, Back, LevelOf;
    assert UnitAfter(s, cs[conflict].lits, lit, n);
    BackForces(s, cs[conflict].lits, lit, n);
  }

  /** After going back to level `n` the conflict assigns the literal at its second highest level. */
  ghost predicate DrivenTo(s: Stack, c: Clause, lit: int, n: nat, t: Stack, conflict: int)
    requires n < |s.control|
  {
    exists level: nat :: HighestLevel(s, c, lit, level)
                      && t == Assigned(Back(s, n), lit, level, if level == 0 then -1 else conflict)
  }

  lemma DrivenIntro(s: Stack, c: Clause, lit: int, n: nat, t: Stack, conflict: int, level: nat)
    requires n < |s.control| && HighestLevel(s, c, lit, level)
    requires t == Assigned(Back(s, n), lit, level, if level == 0 then -1 else conflict)
    ensures DrivenTo(s, c, lit, n, t, conflict)
  {
  }

  lemma JumpedIntro(s: Stack, f: Formula, r: Outcome, n: nat, t: Stack, id: int, driving: int)
    requires r.Learned? && Asserting(s, f, r.clause, r.uip) && HighestLevel(s, r.clause, -r.uip, r.jump)
    requires r.jump <= n < |s.control| - 1 && r.glue + 1 == |LevelsOf(s, r.clause)|
    requires (|r.clause| == 1 ==> r.jump == 0) && (|r.clause| > 1 ==> driving == id)
    requires t == Assigned(Back(s, n), -r.uip, r.jump, if r.jump == 0 then -1 else driving)
    ensures Jumped(s, f, r, n, t, id)
  {
    hide Implies, Back, LevelsOf;
    AssertingMeans(s, f, r.clause, r.uip);
  }

  /** What a conflict leads to, with its highest level and the level to which the search goes back. */
  ghost predicate ConflictLeadsTo(s: Stack, c: Clause, f: Formula, r: Outcome, level: nat, n: nat, t: Stack,
                                  conflict: int, id: int)
  {
    match r
    case Refuted => level == 0 && ConflictLevelIs(s, c, level, 0) && !Satisfiable(f)
    case Driven(lit) =>
      && lit != 0 && ConflictLevelIs(s, c, level, lit) && level == n + 1 && n < |s.control|
      && DrivenTo(s, c, lit, n, t, conflict)
    case Learned(_, _, _, _) =>
      && level > 0 && ConflictLevelIs(s, c, level, 0) && level < |s.control|
      && Jumped(Back(s, level), f, r, n, t, id)
  }

  /** The learned clause is that of the first unique implication point, it consists of exactly what the
      analysis came across on lower levels, and the variables that it came across are bumped. */
  ghost predicate DerivedFrom(s: Stack, cs: seq<ClauseRecord>, c: Clause, r: Outcome, opts: Options,
                              order: seq<int>, order': seq<int>) {
    && r.Learned? && IsFirstUip(s, cs, c, r.uip) && LearnedFrom(s, cs, c, r.clause, r.uip)
    && BumpedTo(order, order', |r.clause| > 1 && opts.bump, InvolvedVars(s, cs, c, r.uip))
  }

  lemma DerivedIntro(s: Stack, cs: seq<ClauseRecord>, c: Clause, r: Outcome, opts: Options,
                     order: seq<int>, order': seq<int>)
    requires r.Learned? && IsFirstUip(s, cs, c, r.uip) && LearnedFrom(s, cs, c, r.clause, r.uip)
    requires BumpedTo(order, order', |r.clause| > 1 && opts.bump, InvolvedVars(s, cs, c, r.uip))
    ensures DerivedFrom(s, cs, c, r, opts, order, order')
  {
    hide IsFirstUip, LearnedFrom, BumpedTo, InvolvedVars;
  }

  lemma RefutedIntro(s: Stack, c: Clause, f: Formula, n: nat, t: Stack, conflict: int, id: int)
    requires ConflictLevelIs(s, c, 0, 0) && !Satisfiable(f)
    ensures ConflictLeadsTo(s, c, f, Refuted, 0, n, t, conflict, id)
  {
  }

  lemma LearnedIntro(s: Stack, c: Clause, f: Formula, r: Outcome, level: nat, n: nat, t: Stack, conflict: int, id: int)
    requires level > 0 && ConflictLevelIs(s, c, level, 0) && level < |s.control|
    requires Jumped(Back(s, level), f, r, n, t, id)
    ensures ConflictLeadsTo(s, c, f, r, level, n, t, conflict, id) && r.Learned? && |r.clause| >= 1
  {
    hide Back, ConflictLevelIs, Implies, LevelsOf;
    AssertingMeans(Back(s, level), f, r.clause, r.uip);
  }

  lemma DrivenOutcome(s: Stack, c: Clause, f: Formula, lit: int, level: nat, n: nat, t: Stack, conflict: int, id: int)
    requires lit != 0 && ConflictLevelIs(s, c, level, lit) && level == n + 1 && n < |s.control|
    requires DrivenTo(s, c, lit, n, t, conflict)
    ensures ConflictLeadsTo(s, c, f, Driven(lit), level, n, t, conflict, id)
  {
    hide ConflictLevelIs, DrivenTo;
  }

  /** The order of the literals of the conflict does not matter. */
  lemma DrivenSame(s: Stack, c: Clause, d: Clause, lit: int, n: nat, t: Stack, conflict: int)
    requires multiset(c) == multiset(d) && n < |s.control| && DrivenTo(s, c, lit, n, t, conflict)
    ensures DrivenTo(s, d, lit, n, t, conflict)
  {
    SameMultisetSameLits(c, d);
    var level: nat :| HighestLevel(s, c, lit, level)
                   && t == Assigned(Back(s, n), lit, level, if level == 0 then -1 else conflict);
    DrivenIntro(s, d, lit, n, t, conflict, level);
  }

  /** The conflict is no longer false. */
  ghost predicate Resolved(c: Clause, vals: set<int>) {
    exists x :: x in c && -x !in vals
  }

  lemma ResolvedSame(c: Clause, d: Clause, vals: set<int>)
    requires multiset(c) == multiset(d) && Resolved(c, vals)
    ensures Resolved(d, vals)
  {
    SameMultisetSameLits(c, d);
    var x :| x in c && -x !in vals;
    assert x in d;
  }

  lemma DrivenResolves(s: Stack, c: Clause, lit: int, n: nat, t: Stack, conflict: int)
    requires Placed(s) && n < |s.control| && AllFalse(s, c) && OnlyTop(s, c, lit, n + 1)
    requires DrivenTo(s, c, lit, n, t, conflict)
    ensures Resolved(c, t.vals)
  {
    hide Back, Placed;
    ConflictResolved(s, c, lit, n, lit);
  }

  lemma JumpResolves(s: Stack, f: Formula, c: Clause, r: Outcome, n: nat, t: Stack, id: int)
    requires Placed(s) && AllFalse(s, c) && HasCurrent(s, c) && Jumped(s, f, r, n, t, id)
    ensures Resolved(c, t.vals)
  {
    hide Back, Placed, LevelsOf, Implies;
    var x :| x in c && LevelOf(s, x) == CurrentLevel(s);
    AssertingMeans(s, f, r.clause, r.uip);
    ConflictResolved(s, c, x, n, -r.uip);
  }

  /** After going back to its highest level the conflict is still false and has literals of the current level. */
  lemma AtConflictLevel(s: Stack, c: Clause, level: nat)
    requires Placed(s) && AllFalse(s, c) && ConflictLevelIs(s, c, level, 0) && level < |s.control|
    ensures AllFalse(Back(s, level), c) && CurrentLevel(Back(s, level)) == level
    ensures level > 0 ==> HasCurrent(Back(s, level), c)
    ensures level == 0 ==> forall x :: x in c ==> LevelOf(Back(s, level), x) == 0
  {
    hide Placed, Keep, KeptVals, MovedVars, LevelOf;
    BackKeepsFalse(s, c, level);
    var x :| x in c && LevelOf(s, x) == level;
    assert LevelOf(Back(s, level), x) == level;
  }

  lemma ConflictLevelBelow(s: Stack, c: Clause, level: nat, forced: int)
    requires Placed(s) && AllFalse(s, c) && ConflictLevelIs(s, c, level, forced)
    ensures level < |s.control|
    ensures forced != 0 ==> level > 0 && OnlyTop(s, c, forced, level)
  {
    LevelBounded(s);
  }

  class Analyzer {
    const search: Searcher
    const opts: Options
    var seen: set<int>
    var analyzed: seq<int>
    var clause: Clause
    var levels: seq<int>
    var counts: map<int, nat>
    var clauseId: int
    var eagertried: nat

    constructor (s: Searcher, o: Options)
      ensures search == s && opts == o && Clean() && clauseId == 0 && eagertried == 0
    {
      search, opts := s, o;
      seen, analyzed, clause, levels, counts, clauseId, eagertried := {}, [], [], [], map[], 0, 0;
    }

    /** The flags and lists as they are between two conflicts. */
    ghost predicate Clean()
      reads `seen, `analyzed, `clause, `levels, `counts
    {
      seen == {} && analyzed == [] && clause == [] && levels == [] && counts == map[]
    }

    ghost function State(open: int, size: int): Analysis
      reads this
    {
      Analysis(seen, analyzed, clause, levels, counts, open, size)
    }

    // ------------------------------------------------------------ the conflict level

    /** The highest level in a conflict, and its literal if there is only one. */
    method ConflictLevel(c: Clause) returns (res: nat, forced: int)
      requires Placed(search.Now()) && AllFalse(search.Now(), c) && |c| >= 2 && NoDuplicates(c)
      ensures ConflictLevelIs(search.Now(), c, res, forced)
    {
      hide Placed, Scanned, ConflictLevelIs;
      ghost var s := search.Now();
      LevelBounded(s);
      var count: nat := 0;
      ghost var at: nat, other: nat := 0, 0;
      res, forced := 0, 0;
      ScannedNothing(s, c);
      var i := 0;
      while i < |c|
        invariant 0 <= i <= |c| && Scanned(s, c, i, res, count, forced, at, other)
      {
        ScannedStep(s, c, i, i + 1, res, count, forced, at, other);
        var lit := c[i];
        var tmp := VarOf(search.vtab, lit).level;
        i := i + 1;
        if tmp > res {
          res, forced, count, at := tmp, lit, 1, i - 1;
        } else if tmp == res {
          other := if count == 1 then i - 1 else other;
          count := count + 1;
          if res == search.LevelNow() && count > 1 {
            break;
          }
        }
      }
      ScannedMeans(s, c, i, res, count, forced, at, other);
      if count != 1 {
        forced := 0;
      }
    }

    /** The position of a literal of the highest level from position `i` on. */
    method HighestPosition(c: Clause, i: nat, res: nat) returns (at: nat)
      requires i < |c| && forall x :: x in c ==> LevelOf(search.Now(), x) <= res
      ensures i <= at < |c| && forall k :: i <= k < |c| ==> LevelOf(search.Now(), c[k]) <= LevelOf(search.Now(), c[at])
    {
      at := i;
      var highest := VarOf(search.vtab, c[i]).level;
      for j := i + 1 to |c|
        invariant i <= at < |c| && highest == LevelOf(search.Now(), c[at])
        invariant forall k :: i <= k < j ==> LevelOf(search.Now(), c[k]) <= highest
      {
        var tmp := VarOf(search.vtab, c[j]).level;
        if highest >= tmp {
          continue;
        }
        at, highest := j, tmp;
        if highest == res {
          break;
        }
      }
    }

    /** Moves literals of the two highest levels to the front. */
    method MoveHighest(c: Clause, res: nat) returns (d: Clause)
      requires |c| >= 2 && forall x :: x in c ==> LevelOf(search.Now(), x) <= res
      ensures multiset(d) == multiset(c) && HighestFirst(search.Now(), d)
    {
      hide LevelOf;
      ghost var s := search.Now();
      d := c;
      for i := 0 to 2
        invariant multiset(d) == multiset(c) && forall k :: 0 <= k < i ==> HighestAt(s, d, k)
      {
        SameMultisetSameLits(c, d);
        var at := HighestPosition(d, i, res);
        Swapped(d, i, at);
        HighestSwapped(s, d, i, at, d[i := d[at]][at := d[i]]);
        d := d[i := d[at]][at := d[i]];
      }
      SameMultisetSameLits(c, d);
    }

    lemma HighestSwapped(s: Stack, d: Clause, i: nat, at: nat, e: Clause)
      requires i <= at < |d| && forall k :: i <= k < |d| ==> LevelOf(s, d[k]) <= LevelOf(s, d[at])
      requires (forall k :: 0 <= k < i ==> HighestAt(s, d, k)) && e == d[i := d[at]][at := d[i]]
      ensures forall k :: 0 <= k <= i ==> HighestAt(s, e, k)
    {
      hide LevelOf;
      forall k, j | 0 <= k <= i && k <= j < |e| ensures LevelOf(s, e[j]) <= LevelOf(s, e[k]) {
        var m := if j == i then at else if j == at then i else j;
        assert e[j] == d[m] && e[k] == d[if k == i then at else k];
        assert k < i ==> HighestAt(s, d, k);
      }
    }

    lemma ScannedNothing(s: Stack, c: Clause)
      ensures Scanned(s, c, 0, 0, 0, 0, 0, 0)
    {
    }

    /** Finds the conflict level and moves literals of the highest levels to the front. */
    method FindConflictLevel(conflict: nat) returns (res: nat, forced: int)
      requires search.Valid() && conflict < |search.clauses|
      requires |search.clauses[conflict].lits| >= 2 && AllFalse(search.Now(), search.clauses[conflict].lits)
      modifies search`clauses
      ensures search.Valid() && SameUpToOrder(old(search.clauses), search.clauses)
      ensures |search.clauses| == |old(search.clauses)|
      ensures multiset(search.clauses[conflict].lits) == multiset(old(search.clauses)[conflict].lits)
      ensures var c := search.clauses[conflict].lits;
              && AllFalse(search.Now(), c) && HighestFirst(search.Now(), c)
              && ConflictLevelIs(search.Now(), c, res, forced)
      ensures forall i :: 0 <= i < |search.clauses| && i != conflict ==> search.clauses[i] == old(search.clauses)[i]
    {
      hide TrailOk, AllFalse, HighestFirst, ConflictLevelIs, SearchedDown, Variables, Unrepeated, Linked, Stamped;
      ghost var s, cs, f := search.Now(), search.clauses, search.formula;
      TrailMeans(s, cs, f);
      var c := search.clauses[conflict].lits;
      res, forced := ConflictLevel(c);
      ConflictLevelBound(s, c, res, forced);
      var d := MoveHighest(c, res);
      SameConflictLevel(s, c, d, res, forced);
      StillFalse(s, c, d);
      search.Reorder(conflict, d);
    }

    lemma ConflictLevelBound(s: Stack, c: Clause, level: nat, forced: int)
      requires ConflictLevelIs(s, c, level, forced)
      ensures forall x :: x in c ==> LevelOf(s, x) <= level
    {
    }

    lemma StillFalse(s: Stack, c: Clause, d: Clause)
      requires AllFalse(s, c) && multiset(c) == multiset(d)
      ensures AllFalse(s, d)
    {
      SameMultisetSameLits(c, d);
    }

    // ------------------------------------------------------------ the first unique implication point

    /** Looks at a false literal: a new one of a positive level joins the clause or is left to be
        resolved. */
    method AnalyzeLiteral(lit: int, open: int, size: int, ghost i: nat) returns (open': int, size': int)
      requires Placed(search.Now()) && Analyzing(search.Now(), State(open, size), i)
      requires FalseBelow(search.Now(), [lit], 0, i) && lit != 0
      modifies this`seen, this`analyzed, this`clause, this`levels, this`counts
      ensures Analyzing(search.Now(), State(open', size'), i)
      ensures Grown(search.Now(), old(State(open, size)), State(open', size'), i)
      ensures Handled(search.Now(), State(open', size'), i, lit) && seen <= old(seen) + {Abs(lit)} && open <= open'
    {
      hide Placed, Split, Listed, Counted, Front, Handled;
      ghost var s, a := search.Now(), State(open, size);
      assert lit in [lit];
      open', size' := open, size;
      var v := VarOf(search.vtab, lit);
      if v.level == 0 {
        RootIsHandled(s, a, i, lit);
        return;
      }
      if Abs(lit) in seen {
        SeenIsHandled(s, a, i, lit);
        return;
      }
      Seen(s, a, i, lit);
      seen := seen + {Abs(lit)};
      analyzed := analyzed + [lit];
      if v.level < search.LevelNow() {
        clause := clause + [lit];
      }
      if CountOf(counts, v.level) == 0 {
        levels := levels + [v.level];
      }
      counts := counts[v.level := CountOf(counts, v.level) + 1];
      size' := size' + 1;
      if v.level == search.LevelNow() {
        open' := open' + 1;
      }
      assert State(open', size') == See(s, a, lit);
    }

    lemma RootIsHandled(s: Stack, a: Analysis, i: nat, x: int)
      requires LevelOf(s, x) == 0
      ensures Handled(s, a, i, x)
    {
    }

    /** Looks at all literals of a clause but one. */
    method AnalyzeReason(lit: int, reason: nat, open: int, size: int, ghost i: nat) returns (open': int, size': int)
      requires Placed(search.Now()) && UnitsImplied(search.Now(), search.formula)
      requires Analyzing(search.Now(), State(open, size), i)
      requires reason < |search.clauses| && FalseBelow(search.Now(), search.clauses[reason].lits, lit, i)
      requires Derived(search.formula, Lits(clause) + (Lits(search.clauses[reason].lits) - {lit}),
                       Front(search.Now(), seen, i))
      modifies this`seen, this`analyzed, this`clause, this`levels, this`counts
      ensures Analyzing(search.Now(), State(open', size'), i)
      ensures Derived(search.formula, Lits(clause), Front(search.Now(), seen, i))
      ensures forall o :: o in search.clauses[reason].lits && o != lit ==>
                Handled(search.Now(), State(open', size'), i, o)
      ensures SeenMore(search.Now(), search.clauses[reason].lits, lit, old(seen), seen) && open <= open'
    {
      hide Placed, UnitsImplied, Analyzing, Front, Handled, Derived, Grown, Rest, FalseBelow, SeenMore, Split;
      ghost var s, f := search.Now(), search.formula;
      var c := search.clauses[reason].lits;
      open', size' := open, size;
      RestAll(c, lit);
      SeenNothingMore(s, c, lit, seen);
      for k := 0 to |c|
        invariant Analyzing(s, State(open', size'), i) && SeenMore(s, c[..k], lit, old(seen), seen) && open <= open'
        invariant Derived(f, Lits(clause) + Rest(c, lit, k), Front(s, seen, i))
        invariant forall j :: 0 <= j < k && c[j] != lit ==> Handled(s, State(open', size'), i, c[j])
      {
        RestStep(c, lit, k);
        ghost var a := State(open', size');
        if c[k] != lit {
          OneIsBelow(s, c, lit, i, c[k]);
          open', size' := AnalyzeLiteral(c[k], open', size', i);
          ghost var b := State(open', size');
          assert Lits(a.clause) + (Rest(c, lit, k + 1) + {c[k]}) == Lits(a.clause) + Rest(c, lit, k + 1) + {c[k]};
          DropHandled(s, f, a, b, i, Rest(c, lit, k + 1), c[k]);
          StillHandled(s, a, b, i);
        }
        AnalyzingIsSplit(s, State(open', size'), i);
        SeenMoreStep(s, c, lit, k, old(seen), a.seen, State(open', size'), i);
      }
      assert Lits(clause) + {} == Lits(clause) && c[..|c|] == c;
    }

    lemma AnalyzingIsSplit(s: Stack, a: Analysis, i: nat)
      requires Analyzing(s, a, i)
      ensures Split(s, a)
    {
    }

    lemma AnalyzingIsListed(s: Stack, a: Analysis, i: nat)
      requires Analyzing(s, a, i)
      ensures Split(s, a) && Listed(s, a)
    {
    }

    lemma OneIsBelow(s: Stack, c: Clause, lit: int, i: nat, x: int)
      requires FalseBelow(s, c, lit, i) && x in c && x != lit
      ensures FalseBelow(s, [x], 0, i) && x != 0 && -x in s.vals
    {
    }

    lemma StillHandled(s: Stack, a: Analysis, b: Analysis, i: nat)
      requires Grown(s, a, b, i)
      ensures a.seen <= b.seen && forall x :: Handled(s, a, i, x) ==> Handled(s, b, i, x)
    {
      hide Front;
      forall x | Handled(s, a, i, x) ensures Handled(s, b, i, x) {
        if x in a.clause {
          assert x in Lits(b.clause);
        }
      }
    }

    /** Walks down the trail to the next seen literal of the current level. */
    method NextSeen(start: nat, ghost open: int, ghost size: int, ghost c: Clause) returns (i: nat, uip: int)
      requires Placed(search.Now()) && Analyzing(search.Now(), State(open, size), start) && open > 0
      requires start <= |search.trail|
      requires SeenIsReached(search.Now(), search.clauses, c, seen, start)
      requires NoUipFrom(search.Now(), search.clauses, c, start)
      ensures i < start && uip == search.trail[i] && Abs(uip) in seen && uip in search.vals
      ensures LevelOf(search.Now(), uip) == CurrentLevel(search.Now())
      ensures Analyzing(search.Now(), State(open - 1, size - 1), i)
      ensures Front(search.Now(), seen, start) == Front(search.Now(), seen, i) + {uip}
      ensures SeenIsReached(search.Now(), search.clauses, c, seen, i + 1)
      ensures NoUipFrom(search.Now(), search.clauses, c, i + 1)
    {
      hide Placed, Analyzing, Front, SeenIsReached, NoUipFrom;
      ghost var s, cs, a := search.Now(), search.clauses, State(open, size);
      i, uip := start, 0;
      FrontIsBelow(s, a, i);
      InTrail(s, i - 1);
      while true
        invariant 0 < i <= start && Analyzing(s, a, i) && Front(s, seen, start) == Front(s, seen, i)
        invariant SeenIsReached(s, cs, c, seen, i) && NoUipFrom(s, cs, c, i)
        decreases i
      {
        i := i - 1;
        InTrail(s, i);
        var lit := search.trail[i];
        if Abs(lit) in seen && VarOf(search.vtab, lit).level == search.LevelNow() {
          uip := lit;
          TakePosition(s, a, i, i + 1);
          break;
        }
        SkipPosition(s, a, i, i + 1);
        SkipReached(s, cs, c, seen, i, i + 1);
        FrontIsBelow(s, a, i);
      }
      assert State(open - 1, size - 1) == a.(open := a.open - 1, size := a.size - 1);
    }

    /** Derives the clause of the first unique implication point from a conflict. */
    method FirstUip(conflict: nat) returns (uip: int)
      requires TrailOk(search.Now(), search.clauses, search.formula) && Clean()
      requires conflict < |search.clauses| && AllFalse(search.Now(), search.clauses[conflict].lits)
      requires HasCurrent(search.Now(), search.clauses[conflict].lits)
      modifies this`seen, this`analyzed, this`clause, this`levels, this`counts
      ensures Asserting(search.Now(), search.formula, clause, uip)
      ensures IsFirstUip(search.Now(), search.clauses, search.clauses[conflict].lits, uip)
      ensures |levels| == |LevelsOf(search.Now(), clause)|
      ensures NoDuplicates(analyzed) && forall x :: x in analyzed ==> -x in search.vals
      ensures LearnedFrom(search.Now(), search.clauses, search.clauses[conflict].lits, clause, uip)
      ensures forall x :: x in analyzed <==>
                Involved(search.Now(), search.clauses, search.clauses[conflict].lits, uip, x)
    {
      hide *;
      ghost var s, f, cs, c := search.Now(), search.formula, search.clauses, search.clauses[conflict].lits;
      search.NowMeans();
      var i, open, size := |search.trail|, 0, 0;
      var reason := conflict;
      uip := 0;
      StateMeans(0, 0);
      StartAnalysis(s, cs, f, conflict);
      PendingStart(s, cs, conflict);
      while true
        invariant 0 <= i <= |s.trail| && Analyzing(s, State(open, size), i) && 0 <= reason < |cs|
        invariant FalseBelow(s, cs[reason].lits, uip, i) && Pending(s, cs, c, seen, uip, reason, i)
        invariant Derived(f, Lits(clause) + (Lits(cs[reason].lits) - {uip}), Front(s, seen, i))
        invariant open > 0 || (open == 0 && uip == 0 && reason == conflict)
        decreases i
      {
        TrailMeans(s, cs, f);
        ghost var open0, seen0 := open, seen;
        open, size := AnalyzeReason(uip, reason, open, size, i);
        StateMeans(open, size);
        if open0 == 0 {
          SomethingOpen(s, c, State(open, size), i);
        }
        Expanded(s, cs, c, seen0, seen, uip, reason, i);
        i, uip := NextSeen(i, open, size, c);
        StateMeans(open - 1, size - 1);
        FrontSize(s, State(open - 1, size - 1), i);
        Taken(s, cs, c, seen, i);
        open := open - 1;
        if open == 0 {
          UipFound(s, cs, f, State(open, size - 1), i);
          AnalyzingIsListed(s, State(open, size - 1), i);
          SeenIsInvolved(s, cs, c, State(open, size - 1), i);
          break;
        }
        HasReason(s, cs, State(open, size - 1), i);
        ReasonIsBelow(s, cs, i);
        PendingNext(s, cs, c, seen, uip, i);
        reason := VarOf(search.vtab, uip).reason;
        VarMeans(s, uip, VarOf(search.vtab, uip));
        size := size - 1;
        ReasonFollows(s, cs, f, uip, reason);
        Resolve(f, Lits(clause), Front(s, seen, i), cs[reason].lits, uip);
      }
      clause := clause + [-uip];
    }

    lemma StateMeans(open: int, size: int)
      ensures State(open, size) == Analysis(seen, analyzed, clause, levels, counts, open, size)
      ensures Clean() ==> State(0, 0) == Analysis({}, [], [], [], map[], 0, 0) && seen == {} && clause == []
    {
    }

    // ------------------------------------------------------------ learning

    /** Sorts the learned clause for watching, adds it unless it is a unit and finds the jump level. */
    method NewDrivingClause(ghost uip: int) returns (res: int, jump: nat)
      requires search.Valid() && |search.trail| < 0x1_0000_0000
      requires Asserting(search.Now(), search.formula, clause, uip)
      modifies this`clause, this`clauseId, search`clauses
      ensures search.Valid() && multiset(clause) == multiset(old(clause))
      ensures Asserting(search.Now(), search.formula, clause, uip)
      ensures HighestLevel(search.Now(), clause, -uip, jump) && jump < CurrentLevel(search.Now())
      ensures if |clause| == 1 then res == -1 && jump == 0 && clause == [-uip] && search.clauses == old(search.clauses)
              else res == |old(search.clauses)| && HighestFirst(search.Now(), clause) && clauseId == old(clauseId) + 1
                   && search.clauses == old(search.clauses) + [ClauseRecord(clause, true, false, false, clauseId)]
    {
      hide *;
      search.ValidMeans();
      ghost var s, f := search.Now(), search.formula;
      TrailMeans(s, search.clauses, f);
      AssertingMeans(s, f, clause, uip);
      if |clause| == 1 {
        res, jump := -1, 0;
        UnitLevel(s, clause, uip);
        return;
      }
      jump := SortClause(uip);
      AssertingMeans(s, f, clause, uip);
      clauseId := clauseId + 1;
      res := search.NewClause(ClauseRecord(clause, true, false, false, clauseId));
    }

    /** The last assigned literals of the highest levels come first. */
    method SortClause(ghost uip: int) returns (jump: nat)
      requires Placed(search.Now()) && |search.trail| < 0x1_0000_0000 && |clause| > 1
      requires Asserting(search.Now(), search.formula, clause, uip)
      modifies this`clause
      ensures multiset(clause) == multiset(old(clause)) && RankSorted(search.Now(), clause) && |clause| > 1
      ensures Asserting(search.Now(), search.formula, clause, uip) && HighestFirst(search.Now(), clause)
      ensures HighestLevel(search.Now(), clause, -uip, jump) && jump < CurrentLevel(search.Now())
    {
      hide Placed, Asserting, HighestFirst, NegativeRank, HighestLevel, RankSorted, Increasing, NoDuplicates;
      ghost var s, f := search.Now(), search.formula;
      AssertingMeans(s, f, clause, uip);
      var ranks := map x | x in clause :: NegativeRank(VarOf(search.vtab, x));
      RanksDiffer(s, clause);
      var d := Msort(clause, ranks);
      RanksSorted(s, clause, d, ranks);
      AssertingReordered(s, f, clause, uip, d);
      SortedClause(s, f, d, uip);
      SortedHighest(s, f, d, uip);
      clause := d;
      jump := VarOf(search.vtab, clause[1]).level;
    }

    lemma UnitLevel(s: Stack, c: Clause, uip: int)
      requires |c| == 1 && -uip in c
      ensures c == [-uip] && HighestLevel(s, c, -uip, 0)
    {
    }

    lemma RanksDiffer(s: Stack, c: Clause)
      requires Placed(s) && AllFalse(s, c) && |s.trail| < 0x1_0000_0000
      ensures forall x, y :: x in c && y in c && x != y ==>
                NegativeRank(VarOf(s.vtab, x)) != NegativeRank(VarOf(s.vtab, y))
    {
      hide NegativeRank;
      forall x, y | x in c && y in c && x != y
        ensures NegativeRank(VarOf(s.vtab, x)) != NegativeRank(VarOf(s.vtab, y))
      {
        TrailBounded(s, x);
        TrailBounded(s, y);
        SameVariable(s, x);
        SameVariable(s, y);
        assert s.trail[PosOf(s, -x)] == -x && s.trail[PosOf(s, -y)] == -y;
        RankOrder(VarOf(s.vtab, x), VarOf(s.vtab, y));
        RankOrder(VarOf(s.vtab, y), VarOf(s.vtab, x));
      }
    }

    lemma RanksSorted(s: Stack, c: Clause, d: Clause, ranks: map<int, int>)
      requires multiset(c) == multiset(d) && Increasing(d, ranks)
      requires ranks == map x | x in c :: NegativeRank(VarOf(s.vtab, x))
      ensures RankSorted(s, d) && |c| == |d|
    {
      hide NegativeRank;
      SameMultisetSameLits(c, d);
    }

    lemma SortedHighest(s: Stack, f: Formula, d: Clause, uip: int)
      requires Placed(s) && |s.trail| < 0x1_0000_0000 && Asserting(s, f, d, uip) && RankSorted(s, d) && |d| > 1
      ensures HighestFirst(s, d)
    {
      hide NegativeRank, Placed, LevelOf, Implies;
      SortedLevels(s, d);
    }

    /** Moves the variables that were analyzed behind all others in the decision queue. */
    method BumpVariables()
      requires search.Valid() && NoDuplicates(analyzed) && forall x :: x in analyzed ==> -x in search.vals
      modifies this`analyzed, search.queue
      ensures search.Valid() && multiset(analyzed) == multiset(old(analyzed))
      ensures var vs := Lits(Indices(analyzed));
              search.queue.order == Others(old(search.queue.order), vs) + Among(old(search.queue.order), vs)
    {
      hide *;
      var queue := search.queue;
      search.ValidMeans();
      queue.ValidMeans();
      ghost var before := analyzed;
      TrailMeans(search.Now(), search.clauses, search.formula);
      StampsDiffer(search.Now(), analyzed, queue.order, queue.btab, queue.stamp);
      var ranks := map x | x in analyzed :: queue.btab[Abs(x)];
      analyzed := Msort(analyzed, ranks);
      StampsIncrease(before, analyzed, ranks, queue.order, queue.btab);
      search.Bump(Indices(analyzed));
    }

    // ------------------------------------------------------------ the level to return to

    /** The level to which the search returns: the jump level, or a higher one below the current level. */
    method ActualBacktrackLevel(jump: nat, assumptions: nat, ghost uip: int) returns (res: nat)
      requires search.Valid() && uip in search.vals && LevelOf(search.Now(), uip) == search.LevelNow() > jump
      ensures jump <= res < |search.control| - 1
      ensures BacktrackLevelIs(search.Now(), search.queue.btab, opts, jump, assumptions, res)
    {
      hide TrailOk, SearchedDown, Variables, Unrepeated, Linked, Stamped, BestAt, ReusedTo;
      var level := search.LevelNow();
      if !opts.chrono {
        res := jump;
      } else if opts.chronoalways {
        res := level - 1;
      } else if jump >= level - 1 {
        res := jump;
      } else if jump < assumptions {
        res := jump;
      } else if level - jump > opts.chronolevelim {
        res := level - 1;
      } else if opts.chronoreusetrail {
        res := ReuseTrail(jump, uip);
      } else {
        res := jump;
      }
    }

    /** The highest level below the current one that keeps a variable with the largest stamp, if any does. */
    method ReuseTrail(jump: nat, ghost uip: int) returns (res: nat)
      requires search.Valid() && uip in search.vals && LevelOf(search.Now(), uip) == search.LevelNow() > jump + 1
      ensures jump < res < search.LevelNow()
      ensures exists best :: BestAt(search.Now(), search.queue.btab, jump, best) && ReusedTo(search.Now(), best, res)
    {
      hide TrailOk, SearchedDown, Variables, Unrepeated, Linked, Stamped, Placed, Framed, BestAt;
      search.ValidMeans();
      ghost var s := search.Now();
      TrailMeans(s, search.clauses, search.formula);
      var best := BestPosition(jump, uip);
      res := jump;
      BestIsAbove(s, search.queue.btab, jump, best);
      while res < search.LevelNow() - 1 && search.control[res + 1].trail <= best
        invariant jump <= res < search.LevelNow()
        invariant if res == jump then search.control[res + 1].trail <= best else search.control[res].trail <= best
      {
        res := res + 1;
      }
      assert ReusedTo(s, best, res);
    }

    lemma BestIsAbove(s: Stack, btab: map<int, int>, jump: nat, best: nat)
      requires jump + 1 < |s.control| && BestAt(s, btab, jump, best)
      ensures s.control[jump + 1].trail <= best
    {
    }

    /** The position of a variable with the largest stamp above the jump level. */
    method BestPosition(jump: nat, ghost uip: int) returns (best: nat)
      requires search.Valid() && uip in search.vals && LevelOf(search.Now(), uip) == search.LevelNow() > jump + 1
      ensures BestAt(search.Now(), search.queue.btab, jump, best)
    {
      hide TrailOk, SearchedDown, Variables, Unrepeated, Linked, Placed, Framed;
      search.ValidMeans();
      ghost var s := search.Now();
      TrailMeans(s, search.clauses, search.formula);
      LevelStartsBelow(s, uip, jump + 1);
      var queue := search.queue;
      queue.ValidMeans();
      var bestIdx := 0;
      best := 0;
      for i := search.control[jump + 1].trail to |search.trail|
        invariant if i == search.control[jump + 1].trail then bestIdx == 0
                  else search.control[jump + 1].trail <= best < i
                       && bestIdx == Abs(search.trail[best]) && bestIdx in queue.btab
        invariant forall p :: search.control[jump + 1].trail <= p < i ==>
                    && Abs(search.trail[p]) in queue.btab
                    && queue.btab[Abs(search.trail[p])] <= queue.btab[Abs(search.trail[best])]
      {
        InTrail(s, i);
        var idx := Abs(search.trail[i]);
        assert idx in queue.order;
        if bestIdx != 0 && queue.btab[bestIdx] >= queue.btab[idx] {
          continue;
        }
        bestIdx, best := idx, i;
      }
    }

    // ------------------------------------------------------------ eager subsumption

    /** Whether all literals of one clause occur in another. */
    method Subsumes(c: Clause, d: Clause) returns (subsumed: bool)
      requires NoDuplicates(c) && NoDuplicates(d) && c != []
      ensures subsumed <==> Lits(c) <= Lits(d)
    {
      hide NoDuplicates, Common;
      var needed := |c|;
      assert Common(d, 0, c) == {} by {
        CommonNothing(d, c);
      }
      for j := 0 to |d|
        invariant needed == |c| - |Common(d, j, c)| && needed > 0
      {
        CommonStep(d, j, c);
        CommonAll(d, j + 1, c);
        if d[j] !in c {
          continue;
        }
        needed := needed - 1;
        if needed == 0 {
          return true;
        }
      }
      CommonAll(d, |d|, c);
      subsumed := false;
    }

    lemma CommonNothing(d: Clause, c: Clause)
      ensures Common(d, 0, c) == {}
    {
    }

    /** Removes recently learned clauses that contain the new one. */
    method EagerlySubsume(c: nat)
      requires search.Valid() && c < |search.clauses| && search.clauses[c].lits != []
      modifies this`eagertried, search`clauses
      ensures search.Valid()
      ensures var recent := |old(search.clauses)| - opts.eagersubsumelim - 1;
              SubsumedFrom(old(search.clauses), search.clauses, c, if recent < 0 then 0 else recent)
    {
      hide TrailOk, SearchedDown, Variables, Unrepeated, Linked, Stamped, SubsumedFrom;
      ghost var cs := search.clauses;
      var lim := eagertried + opts.eagersubsumelim;
      var it := |search.clauses|;
      SubsumedNothing(cs, c, it);
      while it != 0
        invariant search.Valid() && 0 <= it <= |cs| && SubsumedFrom(cs, search.clauses, c, it)
        invariant eagertried == old(eagertried) + (|cs| - it) && eagertried <= lim + 1 && |search.clauses| == |cs|
      {
        eagertried := eagertried + 1;
        if eagertried - 1 > lim {
          break;
        }
        it := it - 1;
        SubsumedStep(cs, search.clauses, c, it, it + 1);
        var d := search.clauses[it];
        if it == c || d.garbage || !d.redundant {
          continue;
        }
        search.ClausesAreUnique();
        var needless := Subsumes(search.clauses[c].lits, d.lits);
        if needless {
          search.MarkGarbage(it);
        }
      }
    }

    lemma SubsumedNothing(cs: seq<ClauseRecord>, c: nat, from: int)
      requires c < |cs| && from == |cs|
      ensures SubsumedFrom(cs, cs, c, from)
    {
    }

    /** One more clause is looked at. */
    lemma SubsumedStep(cs: seq<ClauseRecord>, ds: seq<ClauseRecord>, c: nat, i: nat, j: nat)
      requires c < |cs| && i < |cs| && j == i + 1 && SubsumedFrom(cs, ds, c, j)
      ensures |ds| == |cs| && ds[i] == cs[i] && ds[c].lits == cs[c].lits
      ensures SubsumedFrom(cs, if i != c && cs[i].redundant && Lits(cs[c].lits) <= Lits(cs[i].lits)
                               then ds[i := ds[i].(garbage := true)] else ds, c, i)
      ensures cs[i].garbage ==> ds[i := ds[i].(garbage := true)] == ds
    {
      hide Lits;
      assert ds[c] == cs[c];
    }

    // ------------------------------------------------------------ the whole analysis

    /** Forces the only literal of the conflict level by the conflict itself. */
    method DriveConflict(conflict: nat, level: nat, forced: int)
      requires search.Valid() && conflict < |search.clauses| && 0 < level < |search.control|
      requires AllFalse(search.Now(), search.clauses[conflict].lits)
      requires OnlyTop(search.Now(), search.clauses[conflict].lits, forced, level)
      modifies search`trail, search`vals, search`vtab, search`control, search`propagated
      modifies search.queue`unassigned, search.queue`bumped
      ensures search.Valid()
      ensures DrivenTo(old(search.Now()), search.clauses[conflict].lits, forced, level - 1, search.Now(), conflict)
      ensures search.propagated == PropagatedBack(old(search.propagated), old(search.control), level - 1)
    {
      hide *;
      ghost var s, cs, f := search.Now(), search.clauses, search.formula;
      search.ValidMeans();
      TrailMeans(s, cs, f);
      ConflictForces(s, cs, f, conflict, forced, level - 1);
      search.IsQueued(forced);
      search.Backtrack(level - 1);
      search.ValidMeans();
      ghost var l := search.SearchAssign(forced, conflict);
      ConflictedLevel(s, cs, conflict, forced, level - 1, l);
      DrivenIntro(s, cs[conflict].lits, forced, level - 1, search.Now(), conflict, l);
    }

    /** Derives the learned clause, bumps its variables and adds it. */
    method DeriveDriving(conflict: nat) returns (uip: int, driving: int, jump: nat, glue: int)
      requires search.Valid() && Clean() && conflict < |search.clauses| && |search.trail| < 0x1_0000_0000
      requires AllFalse(search.Now(), search.clauses[conflict].lits)
      requires HasCurrent(search.Now(), search.clauses[conflict].lits)
      modifies this`seen, this`analyzed, this`clause, this`levels, this`counts, this`clauseId
      modifies search`clauses, search.queue
      ensures search.Valid() && Asserting(search.Now(), search.formula, clause, uip)
      ensures IsFirstUip(search.Now(), old(search.clauses), old(search.clauses)[conflict].lits, uip)
      ensures HighestLevel(search.Now(), clause, -uip, jump) && jump < CurrentLevel(search.Now())
      ensures glue + 1 == |LevelsOf(search.Now(), clause)|
      ensures LearnedFrom(search.Now(), old(search.clauses), old(search.clauses)[conflict].lits, clause, uip)
      ensures BumpedTo(old(search.queue.order), search.queue.order, |clause| > 1 && opts.bump,
                       InvolvedVars(search.Now(), old(search.clauses), old(search.clauses)[conflict].lits, uip))
      ensures if |clause| == 1 then
                driving == -1 && jump == 0 && clause == [-uip] && search.clauses == old(search.clauses)
              else driving == |old(search.clauses)| && clauseId == old(clauseId) + 1
                   && search.clauses == old(search.clauses) + [ClauseRecord(clause, true, false, false, clauseId)]
    {
      hide *;
      search.ValidMeans();
      ghost var s, cs, order := search.Now(), search.clauses, search.queue.order;
      uip := FirstUip(conflict);
      glue := |levels| - 1;
      IndicesAre(analyzed);
      InvolvedVarsAre(s, cs, cs[conflict].lits, uip, analyzed, Lits(Indices(analyzed)));
      if |clause| > 1 && opts.bump {
        ghost var before := analyzed;
        BumpVariables();
        SameIndices(before, analyzed);
      }
      BumpedIntro(order, search.queue.order, |clause| > 1 && opts.bump, InvolvedVars(s, cs, cs[conflict].lits, uip));
      ghost var c := clause;
      driving, jump := NewDrivingClause(uip);
      SameLevels(search.Now(), c, clause);
      SameMultisetSameLits(c, clause);
      LearnedReordered(s, cs, cs[conflict].lits, c, clause, uip);
    }

    /** Goes back and assigns the flipped literal. */
    method Jump(uip: int, driving: int, jump: nat, assumptions: nat) returns (level: nat)
      requires search.Valid() && Asserting(search.Now(), search.formula, clause, uip)
      requires HighestLevel(search.Now(), clause, -uip, jump) && jump < CurrentLevel(search.Now())
      requires if |clause| == 1 then driving == -1 && clause == [-uip]
               else 0 <= driving < |search.clauses| && search.clauses[driving].lits == clause
      modifies search`trail, search`vals, search`vtab, search`control, search`propagated
      modifies search.queue`unassigned, search.queue`bumped
      ensures search.Valid() && jump <= level < |old(search.control)| - 1
      ensures BacktrackLevelIs(old(search.Now()), search.queue.btab, opts, jump, assumptions, level)
      ensures search.propagated == PropagatedBack(old(search.propagated), old(search.control), level)
      ensures search.Now() == Assigned(Back(old(search.Now()), level), -uip, jump, if jump == 0 then -1 else driving)
    {
      hide *;
      ghost var s, cs, f := search.Now(), search.clauses, search.formula;
      search.ValidMeans();
      TrailMeans(s, cs, f);
      AssertingMeans(s, f, clause, uip);
      level := ActualBacktrackLevel(jump, assumptions, uip);
      search.IsQueued(uip);
      search.Backtrack(level);
      search.ValidMeans();
      AssertingForces(s, cs, f, clause, uip, jump, level, driving);
      ghost var l := search.SearchAssign(-uip, driving);
      AssertedLevel(s, cs, f, clause, uip, jump, level, driving, l);
    }

    /** Learns a clause from a conflict on the current level and returns to an earlier one. */
    method LearnAndJump(conflict: nat, assumptions: nat) returns (r: Outcome, ghost n: nat)
      requires search.Valid() && Clean() && conflict < |search.clauses| && |search.trail| < 0x1_0000_0000
      requires AllFalse(search.Now(), search.clauses[conflict].lits)
      requires HasCurrent(search.Now(), search.clauses[conflict].lits)
      modifies this, search, search.queue
      ensures search.Valid() && Clean() && search.unsat == old(search.unsat)
      ensures Jumped(old(search.Now()), search.formula, r, n, search.Now(), |old(search.clauses)|)
      ensures BacktrackLevelIs(old(search.Now()), search.queue.btab, opts, r.jump, assumptions, n)
      ensures n < |old(search.control)|
      ensures search.propagated == PropagatedBack(old(search.propagated), old(search.control), n)
      ensures DerivedFrom(old(search.Now()), old(search.clauses), old(search.clauses)[conflict].lits, r, opts,
                          old(search.queue.order), search.queue.order)
      ensures if |r.clause| == 1 then search.clauses == old(search.clauses)
              else LearnedTable(old(search.clauses), search.clauses, opts, r.clause, clauseId)
                   && clauseId == old(clauseId) + 1
    {
      hide *;
      ghost var s, cs, f, order := search.Now(), search.clauses, search.formula, search.queue.order;
      search.NowMeans();
      var uip, driving, jump, glue := DeriveDriving(conflict);
      AssertingMeans(s, f, clause, uip);
      var level := Jump(uip, driving, jump, assumptions);
      n := level;
      r := Learned(clause, uip, jump, glue);
      JumpedIntro(s, f, r, n, search.Now(), |cs|, driving);
      DerivedIntro(s, cs, cs[conflict].lits, r, opts, order, search.queue.order);
      Clear();
      if driving != -1 {
        ghost var es := cs + [ClauseRecord(r.clause, true, false, false, clauseId)];
        assert |es| - opts.eagersubsumelim - 1 == |cs| - opts.eagersubsumelim && es[driving].lits == r.clause;
        if opts.eagersubsume {
          EagerlySubsume(driving);
        }
        SubsumedTable(cs, search.clauses, opts, r.clause, clauseId);
      }
    }

    /** Analyzes a conflict: refutes the formula, forces a literal or learns a clause.  Afterwards the
        conflict is no longer false. */
    method Analyze(conflict: nat, assumptions: nat)
      returns (r: Outcome, ghost level: nat, ghost n: nat, ghost table: seq<ClauseRecord>)
      requires search.Valid() && Clean() && conflict < |search.clauses| && |search.trail| < 0x1_0000_0000
      requires |search.clauses[conflict].lits| >= 2 && AllFalse(search.Now(), search.clauses[conflict].lits)
      modifies this, search, search.queue
      ensures search.Valid() && Clean() && search.unsat == (old(search.unsat) || r.Refuted?)
      ensures ConflictLeadsTo(old(search.Now()), old(search.clauses)[conflict].lits, search.formula, r, level, n,
                              search.Now(), conflict, |old(search.clauses)|)
      ensures SameUpToOrder(old(search.clauses), table) && |table| == |old(search.clauses)|
      ensures r.Learned? ==>
                && level < |old(search.control)|
                && BacktrackLevelIs(Back(old(search.Now()), level), search.queue.btab, opts, r.jump, assumptions, n)
                && DerivedFrom(Back(old(search.Now()), level), table, table[conflict].lits, r, opts,
                               old(search.queue.order), search.queue.order)
      ensures !r.Learned? ==> search.queue.order == old(search.queue.order)
      ensures n < |old(search.control)|
      ensures search.propagated == PropagatedBack(old(search.propagated), old(search.control), n)
      ensures !r.Refuted? ==> Resolved(old(search.clauses)[conflict].lits, search.vals)
      ensures if r.Learned? && |r.clause| > 1
              then LearnedTable(table, search.clauses, opts, r.clause, clauseId) && clauseId == old(clauseId) + 1
              else search.clauses == table
    {
      hide *;
      ghost var s, c, f, id := search.Now(), search.clauses[conflict].lits, search.formula, |search.clauses|;
      ghost var p: nat := search.propagated;
      search.ValidMeans();
      search.NowMeans();
      TrailMeans(s, search.clauses, f);
      var res, forced := FindConflictLevel(conflict);
      level, n, table := res, 0, search.clauses;
      ghost var d := search.clauses[conflict].lits;
      ConflictLevelBelow(s, d, res, forced);
      SameConflictLevel(s, d, c, res, forced);
      if forced != 0 {
        DriveConflict(conflict, res, forced);
        r, n := Driven(forced), res - 1;
        search.ValidMeans();
        DrivenSame(s, d, c, forced, n, search.Now(), conflict);
        DrivenOutcome(s, c, f, forced, level, n, search.Now(), conflict, id);
        DrivenResolves(s, c, forced, n, search.Now(), conflict);
        return;
      }
      search.Backtrack(res);
      ghost var s1 := search.Now();
      search.ValidMeans();
      TrailMeans(s1, search.clauses, f);
      AtConflictLevel(s, d, res);
      if res == 0 {
        PropagatedTwice(p, s, 0, 0);
        RootConflict(s1, f, d);
        search.LearnEmptyClause();
        r := Refuted;
        RefutedIntro(s, c, f, n, search.Now(), conflict, id);
        return;
      }
      r, n := LearnAndJump(conflict, assumptions);
      JumpsBelow(s1, f, r, n, search.Now(), id);
      PropagatedTwice(p, s, level, n);
      LearnedIntro(s, c, f, r, level, n, search.Now(), conflict, id);
      JumpResolves(s1, f, d, r, n, search.Now(), id);
      search.ValidMeans();
      ResolvedSame(d, c, search.vals);
    }

    method Clear()
      modifies this`seen, this`analyzed, this`clause, this`levels, this`counts
      ensures Clean()
    {
      seen, analyzed, clause, levels, counts := {}, [], [], [], map[];
    }
  }
}
