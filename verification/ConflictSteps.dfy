/** Conflict analysis as values: the clause derived so far and the literals left to be resolved. */
module ConflictSteps {
  import opened Cnf
  import opened Lists
  import opened InternalSolver
  import opened Trail

  /** The flags and lists that the analysis of a conflict builds up, with the number of literals
      left to be resolved and the size of the resolvent. */
  datatype Analysis = Analysis(seen: set<int>, analyzed: seq<int>, clause: Clause, levels: seq<int>,
                               counts: map<int, nat>, open: int, size: int)

  function CountOf(counts: map<int, nat>, l: int): nat {
    if l in counts then counts[l] else 0
  }

  /** Seen literals of the current level below position `i`: they are still to be resolved. */
  ghost function Front(s: Stack, seen: set<int>, i: nat): set<int> {
    set x | x in s.vals && InFront(s, seen, i, x)
  }

  ghost predicate InFront(s: Stack, seen: set<int>, i: nat, x: int) {
    Abs(x) in seen && LevelOf(s, x) == CurrentLevel(s) && PosOf(s, x) < i
  }

  /** The literals of the clause are false, of lower positive levels, and exactly the seen ones
      of those levels. */
  ghost predicate Split(s: Stack, a: Analysis) {
    && NoDuplicates(a.clause)
    && (forall x :: x in a.clause ==> -x in s.vals && 0 < LevelOf(s, x) < CurrentLevel(s) && Abs(x) in a.seen)
    && (forall x :: -x in s.vals && Abs(x) in a.seen ==>
          0 < LevelOf(s, x) && (LevelOf(s, x) < CurrentLevel(s) ==> x in a.clause))
  }

  /** The seen variables are those of the analyzed literals, each once, and the levels theirs. */
  ghost predicate Listed(s: Stack, a: Analysis) {
    && NoDuplicates(a.analyzed) && NoDuplicates(a.levels)
    && (forall x :: x in a.analyzed ==> -x in s.vals && Abs(x) in a.seen && LevelOf(s, x) in a.levels)
    && (forall v :: v in a.seen ==> v in a.analyzed || -v in a.analyzed)
    && (forall l :: l in a.levels ==> exists x :: x in a.analyzed && LevelOf(s, x) == l)
    && (forall l :: l in a.levels <==> CountOf(a.counts, l) > 0)
  }

  ghost predicate Counted(s: Stack, a: Analysis, i: nat) {
    a.open == |Front(s, a.seen, i)| && a.size == a.open + |a.clause|
  }

  ghost predicate Analyzing(s: Stack, a: Analysis, i: nat) {
    Split(s, a) && Listed(s, a) && Counted(s, a, i)
  }

  /** A model in which the front is true satisfies one of the literals: the resolvent consists
      of the literals and the negated front. */
  ghost predicate Derived(f: Formula, lits: set<int>, front: set<int>) {
    forall m :: Models(m, f) && (forall x :: x in front ==> True(m, x)) ==> Holds(m, lits)
  }

  lemma SameVariable(s: Stack, x: int)
    ensures LevelOf(s, -x) == LevelOf(s, x) && PosOf(s, -x) == PosOf(s, x) && ReasonOf(s, -x) == ReasonOf(s, x)
  {
  }

  lemma OnlyOne(s: Stack, x: int)
    requires Placed(s) && -x in s.vals
    ensures forall y :: -y in s.vals && Abs(y) == Abs(x) ==> y == x
    ensures forall y :: y in s.vals && Abs(y) == Abs(x) ==> y == -x
    ensures x != 0 && x !in s.vals
  {
    PlacedIsConsistent(s);
    forall y | -y in s.vals && Abs(y) == Abs(x) ensures y == x {
      assert y == x || y == -x;
    }
  }

  lemma NothingSeen(s: Stack, i: nat)
    ensures Analyzing(s, Analysis({}, [], [], [], map[], 0, 0), i) && Front(s, {}, i) == {}
  {
    assert Front(s, {}, i) == {};
  }

  // ---------------------------------------------------------------- one literal

  /** What is known of a literal that was looked at. */
  ghost predicate Handled(s: Stack, a: Analysis, i: nat, x: int) {
    LevelOf(s, x) == 0 || x in a.clause || -x in Front(s, a.seen, i)
  }

  ghost predicate Grown(s: Stack, a: Analysis, b: Analysis, i: nat) {
    && Lits(a.clause) <= Lits(b.clause) && Front(s, a.seen, i) <= Front(s, b.seen, i) && a.seen <= b.seen
    && a.analyzed <= b.analyzed
  }

  lemma SeenIsHandled(s: Stack, a: Analysis, i: nat, x: int)
    requires Split(s, a) && -x in s.vals && Abs(x) in a.seen && PosOf(s, x) < i && LevelOf(s, x) <= CurrentLevel(s)
    ensures Handled(s, a, i, x)
  {
    SameVariable(s, x);
  }

  /** The analysis after a new literal of a positive level. */
  function See(s: Stack, a: Analysis, x: int): Analysis {
    var l, lower := LevelOf(s, x), LevelOf(s, x) < CurrentLevel(s);
    Analysis(a.seen + {Abs(x)}, a.analyzed + [x], if lower then a.clause + [x] else a.clause,
             if CountOf(a.counts, l) == 0 then a.levels + [l] else a.levels, a.counts[l := CountOf(a.counts, l) + 1],
             if lower then a.open else a.open + 1, a.size + 1)
  }

  lemma SeeSplit(s: Stack, a: Analysis, x: int)
    requires Placed(s) && Split(s, a) && -x in s.vals && Abs(x) !in a.seen && 0 < LevelOf(s, x) <= CurrentLevel(s)
    ensures Split(s, See(s, a, x))
  {
    OnlyOne(s, x);
    hide Placed, LevelOf, CountOf;
    var b := See(s, a, x);
    assert x !in a.clause;
    forall y ensures y in b.clause <==> y in a.clause || (y == x && LevelOf(s, x) < CurrentLevel(s)) {
      assert LevelOf(s, x) < CurrentLevel(s) ==> b.clause[|a.clause|] == x;
    }
    forall y | -y in s.vals && Abs(y) in b.seen
      ensures 0 < LevelOf(s, y) && (LevelOf(s, y) < CurrentLevel(s) ==> y in b.clause)
    {
      assert Abs(y) in a.seen || y == x;
    }
  }

  lemma SeeAnalyzed(s: Stack, a: Analysis, x: int)
    requires Listed(s, a) && -x in s.vals && Abs(x) !in a.seen
    ensures NoDuplicates(a.analyzed + [x]) && forall y :: y in a.analyzed + [x] <==> y in a.analyzed || y == x
    ensures forall v :: v in a.seen + {Abs(x)} ==> v in a.analyzed + [x] || -v in a.analyzed + [x]
  {
    var b := a.analyzed + [x];
    assert x !in a.analyzed;
    assert b[|a.analyzed|] == x;
    forall v | v in a.seen + {Abs(x)} ensures v in b || -v in b {
      if v in a.seen {
        assert v in a.analyzed || -v in a.analyzed;
      } else {
        assert v == x || -v == x;
      }
    }
  }

  /** A level is listed when its first literal is seen. */
  lemma SeeLevel(s: Stack, a: Analysis, x: int)
    requires NoDuplicates(a.levels) && forall l :: l in a.levels <==> CountOf(a.counts, l) > 0
    ensures var b := See(s, a, x);
            && NoDuplicates(b.levels) && (forall l :: l in b.levels <==> l in a.levels || l == LevelOf(s, x))
            && (forall l :: l in b.levels <==> CountOf(b.counts, l) > 0)
  {
    var b, l := See(s, a, x), LevelOf(s, x);
    assert CountOf(a.counts, l) == 0 ==> b.levels[|a.levels|] == l;
    forall k ensures k in b.levels <==> k in a.levels || k == l {
    }
  }

  lemma SeeListed(s: Stack, a: Analysis, x: int)
    requires Listed(s, a) && -x in s.vals && Abs(x) !in a.seen
    ensures Listed(s, See(s, a, x))
  {
    hide NoDuplicates, CountOf, LevelOf, Abs;
    SeeAnalyzed(s, a, x);
    SeeLevel(s, a, x);
    var b := See(s, a, x);
    forall k | k in b.levels ensures exists y :: y in b.analyzed && LevelOf(s, y) == k {
      if k in a.levels {
        var y :| y in a.analyzed && LevelOf(s, y) == k;
        assert y in b.analyzed;
      } else {
        assert x in b.analyzed;
      }
    }
  }

  lemma FrontMember(s: Stack, seen: set<int>, i: nat, x: int)
    ensures x in Front(s, seen, i) <==> x in s.vals && InFront(s, seen, i, x)
  {
  }

  lemma FrontGrows(s: Stack, seen: set<int>, i: nat, x: int)
    requires Placed(s) && -x in s.vals && Abs(x) !in seen && PosOf(s, x) < i
    ensures var more := if LevelOf(s, x) == CurrentLevel(s) then {-x} else {};
            && Front(s, seen + {Abs(x)}, i) == Front(s, seen, i) + more
            && -x !in Front(s, seen, i)
  {
    hide Front;
    var more := if LevelOf(s, x) == CurrentLevel(s) then {-x} else {};
    OnlyOne(s, x);
    SameVariable(s, x);
    forall y ensures y in Front(s, seen + {Abs(x)}, i) <==> y in Front(s, seen, i) + more {
      FrontMember(s, seen, i, y);
      FrontMember(s, seen + {Abs(x)}, i, y);
    }
    FrontMember(s, seen, i, -x);
  }

  lemma SeeCounted(s: Stack, a: Analysis, i: nat, x: int)
    requires Placed(s) && Counted(s, a, i) && -x in s.vals && Abs(x) !in a.seen && PosOf(s, x) < i
    requires LevelOf(s, x) <= CurrentLevel(s)
    ensures Counted(s, See(s, a, x), i)
    ensures Front(s, a.seen, i) <= Front(s, See(s, a, x).seen, i)
  {
    hide Front, Placed, LevelOf, PosOf, CountOf, Abs;
    FrontGrows(s, a.seen, i, x);
  }

  lemma Seen(s: Stack, a: Analysis, i: nat, x: int)
    requires Placed(s) && Analyzing(s, a, i) && -x in s.vals && Abs(x) !in a.seen && PosOf(s, x) < i
    requires 0 < LevelOf(s, x) <= CurrentLevel(s)
    ensures Analyzing(s, See(s, a, x), i) && Grown(s, a, See(s, a, x), i) && Handled(s, See(s, a, x), i, x)
  {
    hide Split, Listed, Counted, Front, Placed;
    SeeSplit(s, a, x);
    SeeListed(s, a, x);
    SeeCounted(s, a, i, x);
    SeenIsHandled(s, See(s, a, x), i, x);
  }

  // ---------------------------------------------------------------- implied clauses

  /** A literal that was looked at is no longer needed beside the clause and the front. */
  lemma DropHandled(s: Stack, f: Formula, a: Analysis, b: Analysis, i: nat, rest: set<int>, x: int)
    requires UnitsImplied(s, f) && -x in s.vals && x != 0 && Handled(s, b, i, x) && Grown(s, a, b, i)
    requires Derived(f, Lits(a.clause) + rest + {x}, Front(s, a.seen, i))
    ensures Derived(f, Lits(b.clause) + rest, Front(s, b.seen, i))
  {
    hide Front;
    SameVariable(s, x);
    var front := Front(s, b.seen, i);
    forall m | Models(m, f) && forall y :: y in front ==> True(m, y) ensures Holds(m, Lits(b.clause) + rest) {
      assert Holds(m, Lits(a.clause) + rest + {x});
      var z :| z in Lits(a.clause) + rest + {x} && True(m, z);
      assert z != x ==> z in Lits(b.clause) + rest;
      if z == x {
        DropOne(s, f, m, front, b, i, x);
        assert x in Lits(b.clause) + rest;
      }
    }
  }

  lemma DropOne(s: Stack, f: Formula, m: Assignment, front: set<int>, a: Analysis, i: nat, x: int)
    requires UnitsImplied(s, f) && -x in s.vals && x != 0 && Handled(s, a, i, x) && front == Front(s, a.seen, i)
    requires Models(m, f) && (forall y :: y in front ==> True(m, y)) && True(m, x)
    ensures x in a.clause
  {
    hide Front;
    SameVariable(s, x);
    if LevelOf(s, x) == 0 {
      FalseAtRoot(s, f, m, x);
    }
    assert -x in front ==> True(m, -x);
  }

  /** Resolving with a clause that contains a literal of the front. */
  lemma Resolve(f: Formula, lits: set<int>, front: set<int>, c: Clause, u: int)
    requires Derived(f, lits, front + {u}) && Implies(f, Lits(c))
    ensures Derived(f, lits + (Lits(c) - {u}), front)
  {
    forall m | Models(m, f) && forall x :: x in front ==> True(m, x) ensures Holds(m, lits + (Lits(c) - {u})) {
      if True(m, u) {
        var y :| y in lits && True(m, y);
        assert y in lits + (Lits(c) - {u});
      } else {
        var z :| z in Lits(c) && True(m, z);
        assert z in lits + (Lits(c) - {u});
      }
    }
  }

  lemma ImpliesIsDerived(f: Formula, c: Clause)
    requires Implies(f, Lits(c)) && 0 !in c
    ensures Derived(f, Lits(c) - {0}, {})
  {
    assert Lits(c) - {0} == Lits(c);
  }

  lemma DerivedIsImplied(f: Formula, c: Clause, u: int)
    requires Derived(f, Lits(c), {u}) && u != 0
    ensures Implies(f, Lits(c + [-u]))
  {
    forall m | Models(m, f) ensures Holds(m, Lits(c + [-u])) {
      if True(m, u) {
        var y :| y in Lits(c) && True(m, y);
        assert y in Lits(c + [-u]);
      } else {
        assert -u in Lits(c + [-u]) && True(m, -u);
      }
    }
  }

  // ---------------------------------------------------------------- the next literal

  /** A trail position that is not to be resolved is skipped. */
  lemma SkipPosition(s: Stack, a: Analysis, i: nat, j: nat)
    requires Placed(s) && Analyzing(s, a, j) && j == i + 1 && i < |s.trail|
    requires Abs(s.trail[i]) !in a.seen || LevelOf(s, s.trail[i]) != CurrentLevel(s)
    ensures Analyzing(s, a, i) && Front(s, a.seen, i) == Front(s, a.seen, j)
  {
    forall x | x in Front(s, a.seen, j) ensures PosOf(s, x) < i {
      assert s.trail[PosOf(s, x)] == x;
    }
    assert Front(s, a.seen, i) == Front(s, a.seen, j);
  }

  /** The last literal to be resolved leaves the front. */
  lemma TakePosition(s: Stack, a: Analysis, i: nat, j: nat)
    requires Placed(s) && Analyzing(s, a, j) && j == i + 1 && i < |s.trail|
    requires Abs(s.trail[i]) in a.seen && LevelOf(s, s.trail[i]) == CurrentLevel(s)
    ensures Analyzing(s, a.(open := a.open - 1, size := a.size - 1), i)
    ensures Front(s, a.seen, j) == Front(s, a.seen, i) + {s.trail[i]}
  {
    LastOfFront(s, a.seen, i, j);
    hide Front, Split, Listed;
  }

  lemma LastOfFront(s: Stack, seen: set<int>, i: nat, j: nat)
    requires Placed(s) && j == i + 1 && i < |s.trail|
    requires Abs(s.trail[i]) in seen && LevelOf(s, s.trail[i]) == CurrentLevel(s)
    ensures Front(s, seen, j) == Front(s, seen, i) + {s.trail[i]} && s.trail[i] !in Front(s, seen, i)
  {
    hide Front;
    var u := s.trail[i];
    assert u in s.vals && PosOf(s, u) == i;
    forall x ensures x in Front(s, seen, j) <==> x in Front(s, seen, i) || x == u {
      FrontMember(s, seen, i, x);
      FrontMember(s, seen, j, x);
      assert x in s.vals ==> s.trail[PosOf(s, x)] == x;
    }
    FrontMember(s, seen, i, u);
  }

  lemma FrontIsBelow(s: Stack, a: Analysis, i: nat)
    requires Analyzing(s, a, i) && a.open > 0
    ensures i > 0
  {
    var x :| x in Front(s, a.seen, i);
  }

  lemma FrontEmpty(s: Stack, a: Analysis, i: nat)
    requires Analyzing(s, a, i) && a.open == 0
    ensures Front(s, a.seen, i) == {}
  {
  }

  /** If other literals of the level are left, then this one is not its decision. */
  lemma HasReason(s: Stack, cs: seq<ClauseRecord>, a: Analysis, i: nat)
    requires Placed(s) && Framed(s) && Reasoned(s, cs) && Analyzing(s, a, i) && a.open > 0
    requires i < |s.trail| && LevelOf(s, s.trail[i]) == CurrentLevel(s) > 0
    ensures Justified(s, cs, s.trail[i]) && s.trail[i] in s.vals
  {
    assert Front(s, a.seen, i) != {};
    var x :| x in Front(s, a.seen, i);
    assert s.trail[PosOf(s, x)] == x;
    NoLaterDecision(s, PosOf(s, x), i);
  }

  lemma NoLaterDecision(s: Stack, p: nat, i: nat)
    requires Framed(s) && p < i < |s.trail| && LevelOf(s, s.trail[p]) == LevelOf(s, s.trail[i]) > 0
    ensures ReasonOf(s, s.trail[i]) != -1
  {
    assert ReasonOf(s, s.trail[i]) == -1 ==> IsDecision(s, i);
  }

  // ---------------------------------------------------------------- the learned clause

  /** A clause that follows, is false, and has exactly one literal of the current level. */
  ghost predicate Asserting(s: Stack, f: Formula, clause: Clause, uip: int) {
    && Implies(f, Lits(clause)) && NoDuplicates(clause) && -uip in clause && uip in s.vals
    && LevelOf(s, uip) == CurrentLevel(s) > 0
    && (forall x :: x in clause ==> -x in s.vals && x != 0)
    && forall x :: x in clause && x != -uip ==> 0 < LevelOf(s, x) < CurrentLevel(s)
  }

  lemma LearnedIsAsserting(s: Stack, f: Formula, a: Analysis, i: nat)
    requires Placed(s) && Split(s, a) && i < |s.trail| && LevelOf(s, s.trail[i]) == CurrentLevel(s) > 0
    requires Derived(f, Lits(a.clause), {s.trail[i]})
    ensures Asserting(s, f, a.clause + [-s.trail[i]], s.trail[i])
  {
    var uip := s.trail[i];
    assert uip in s.vals;
    SameVariable(s, uip);
    DerivedIsImplied(f, a.clause, uip);
    var c := a.clause + [-uip];
    assert c[|a.clause|] == -uip;
    assert -uip !in a.clause;
    forall x | x in c ensures -x in s.vals && x != 0 && (x != -uip ==> 0 < LevelOf(s, x) < CurrentLevel(s)) {
      assert x in a.clause || x == -uip;
    }
  }

  ghost function LevelsOf(s: Stack, c: Clause): set<int> {
    set x | x in c :: LevelOf(s, x) as int
  }

  lemma ListedLevel(s: Stack, a: Analysis, uip: int, l: int)
    requires Split(s, a) && Listed(s, a) && LevelOf(s, uip) == CurrentLevel(s)
    requires forall x :: x in s.vals ==> LevelOf(s, x) <= CurrentLevel(s)
    requires l in a.levels
    ensures l in LevelsOf(s, a.clause + [-uip])
  {
    var c := a.clause + [-uip];
    assert c[|a.clause|] == -uip;
    SameVariable(s, uip);
    var x :| x in a.analyzed && LevelOf(s, x) == l;
    SameVariable(s, x);
    assert -x in s.vals;
    if l < CurrentLevel(s) {
      assert x in c;
    } else {
      assert -uip in c;
    }
  }

  lemma SeenIsListed(s: Stack, a: Analysis, x: int)
    requires Placed(s) && Listed(s, a) && -x in s.vals && Abs(x) in a.seen
    ensures LevelOf(s, x) in a.levels
  {
    var v: int := Abs(x);
    OnlyOne(s, x);
    hide Placed, LevelOf, NoDuplicates;
    assert v in a.analyzed || -v in a.analyzed;
    assert v in a.analyzed ==> -v in s.vals && Abs(v) == v;
    assert -v in a.analyzed ==> -(-v) in s.vals && Abs(-v) == v;
  }

  /** The listed levels are those of the learned clause. */
  lemma LevelsAreListed(s: Stack, a: Analysis, uip: int)
    requires Placed(s) && Split(s, a) && Listed(s, a) && uip in s.vals && Abs(uip) in a.seen
    requires LevelOf(s, uip) == CurrentLevel(s) && forall x :: x in s.vals ==> LevelOf(s, x) <= CurrentLevel(s)
    ensures |a.levels| == |LevelsOf(s, a.clause + [-uip])|
  {
    hide Placed, LevelOf;
    var c := a.clause + [-uip];
    forall l ensures l in a.levels <==> l in LevelsOf(s, c) {
      if l in a.levels {
        ListedLevel(s, a, uip, l);
      }
      if l in LevelsOf(s, c) {
        var x :| x in c && LevelOf(s, x) == l;
        assert x in a.clause || x == -uip;
        SeenIsListed(s, a, x);
      }
    }
    hide Listed, Split, LevelsOf;
    DistinctSize(a.levels);
    assert Lits(a.levels) == LevelsOf(s, c);
  }
}
