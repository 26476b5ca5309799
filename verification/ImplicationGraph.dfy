/** Unique implication points of a conflict, defined on the implication graph of the current level. */
module ImplicationGraph {
  import opened Cnf
  import opened InternalSolver
  import opened Trail
  import opened ConflictSteps

  ghost predicate IsCurrent(s: Stack, p: nat)
    requires p < |s.trail|
  {
    LevelOf(s, s.trail[p]) == CurrentLevel(s)
  }

  ghost predicate InReason(s: Stack, cs: seq<ClauseRecord>, q: nat, x: int)
    requires q < |s.trail|
  {
    0 <= ReasonOf(s, s.trail[q]) < |cs| && x in cs[ReasonOf(s, s.trail[q])].lits
  }

  /** A literal of the current level that the conflict depends on. */
  ghost predicate Reached(s: Stack, cs: seq<ClauseRecord>, c: Clause, q: nat)
    requires q < |s.trail|
    decreases |s.trail| - q, 1
  {
    IsCurrent(s, q) && ReachedFrom(s, cs, c, q, q + 1)
  }

  /** The conflict, or the reason of a literal that it depends on at position `i` or later, contains the
      negation of the literal at position `p`. */
  ghost predicate ReachedFrom(s: Stack, cs: seq<ClauseRecord>, c: Clause, p: nat, i: nat)
    requires p < i <= |s.trail|
    decreases |s.trail| - p, 0
  {
    || -s.trail[p] in c
    || exists q: nat :: i <= q < |s.trail| && Reached(s, cs, c, q) && InReason(s, cs, q, -s.trail[p])
  }

  /** All dependencies of the conflict on earlier literals of the level go through this one. */
  ghost predicate IsUip(s: Stack, cs: seq<ClauseRecord>, c: Clause, u: nat)
    requires u < |s.trail|
  {
    && Reached(s, cs, c, u)
    && forall p: nat :: p < u && IsCurrent(s, p) ==> !ReachedFrom(s, cs, c, p, u + 1)
  }

  ghost predicate NoUipFrom(s: Stack, cs: seq<ClauseRecord>, c: Clause, i: nat) {
    forall q: nat :: i <= q < |s.trail| ==> !IsUip(s, cs, c, q)
  }

  /** The unique implication point that comes last on the trail, which is the one next to the conflict. */
  ghost predicate IsFirstUip(s: Stack, cs: seq<ClauseRecord>, c: Clause, uip: int) {
    exists u: nat :: u < |s.trail| && s.trail[u] == uip && IsUip(s, cs, c, u) && NoUipFrom(s, cs, c, u + 1)
  }

  /** Before position `i`, the seen literals of the current level are those reached from there on; on all
      levels but the root the seen literals are those that occur in the clauses that were looked at. */
  ghost predicate SeenIsReached(s: Stack, cs: seq<ClauseRecord>, c: Clause, seen: set<int>, i: nat)
    requires i <= |s.trail|
  {
    && (forall p: nat :: p < i && IsCurrent(s, p) ==> (Abs(s.trail[p]) in seen <==> ReachedFrom(s, cs, c, p, i)))
    && forall x :: -x in s.vals && LevelOf(s, x) > 0 ==> (Abs(x) in seen <==> Occurs(s, cs, c, x, i))
  }

  /** The literal is in the conflict, or in the reason of a literal that the conflict depends on at position
      `i` or later. */
  ghost predicate Occurs(s: Stack, cs: seq<ClauseRecord>, c: Clause, x: int, i: nat) {
    x in c || exists q: nat :: i <= q < |s.trail| && Reached(s, cs, c, q) && InReason(s, cs, q, x)
  }

  /** The false literals above the root that resolving down to the implication point comes across. */
  ghost predicate Involved(s: Stack, cs: seq<ClauseRecord>, c: Clause, uip: int, x: int) {
    -x in s.vals && LevelOf(s, x) > 0 && Occurs(s, cs, c, x, PosOf(s, uip) + 1)
  }

  ghost function InvolvedVars(s: Stack, cs: seq<ClauseRecord>, c: Clause, uip: int): set<int> {
    set y | y in s.vals && Involved(s, cs, c, uip, -y) :: Abs(y)
  }

  lemma OccursMore(s: Stack, cs: seq<ClauseRecord>, c: Clause, x: int, i: nat)
    requires i < |s.trail|
    ensures Occurs(s, cs, c, x, i) <==> Occurs(s, cs, c, x, i + 1) || (Reached(s, cs, c, i) && InReason(s, cs, i, x))
  {
  }

  lemma ReachedFromMore(s: Stack, cs: seq<ClauseRecord>, c: Clause, p: nat, i: nat)
    requires p < i < |s.trail|
    ensures ReachedFrom(s, cs, c, p, i) <==>
            ReachedFrom(s, cs, c, p, i + 1) || (Reached(s, cs, c, i) && InReason(s, cs, i, -s.trail[p]))
  {
  }

  /** A position that is skipped is not reached. */
  lemma SkipReached(s: Stack, cs: seq<ClauseRecord>, c: Clause, seen: set<int>, i: nat, j: nat)
    requires i < |s.trail| && j == i + 1 && SeenIsReached(s, cs, c, seen, j) && NoUipFrom(s, cs, c, j)
    requires Abs(s.trail[i]) !in seen || !IsCurrent(s, i)
    ensures SeenIsReached(s, cs, c, seen, i) && NoUipFrom(s, cs, c, i)
  {
    assert !Reached(s, cs, c, i);
    forall x | -x in s.vals && LevelOf(s, x) > 0 ensures Abs(x) in seen <==> Occurs(s, cs, c, x, i) {
      OccursMore(s, cs, c, x, i);
    }
    forall p: nat | p < i && IsCurrent(s, p) ensures Abs(s.trail[p]) in seen <==> ReachedFrom(s, cs, c, p, i) {
      ReachedFromMore(s, cs, c, p, i);
    }
  }

  /** If nothing else is left to be resolved, then the literal is a unique implication point; else it is not. */
  lemma TakeReached(s: Stack, cs: seq<ClauseRecord>, c: Clause, seen: set<int>, i: nat, j: nat)
    requires Placed(s) && i < |s.trail| && j == i + 1 && SeenIsReached(s, cs, c, seen, j)
    requires Abs(s.trail[i]) in seen && IsCurrent(s, i)
    ensures Reached(s, cs, c, i)
    ensures IsUip(s, cs, c, i) <==> Front(s, seen, i) == {}
  {
    hide Front;
    forall p: nat | p < i && IsCurrent(s, p) && ReachedFrom(s, cs, c, p, j) ensures s.trail[p] in Front(s, seen, i) {
      FrontMember(s, seen, i, s.trail[p]);
    }
    forall x | x in Front(s, seen, i) ensures !IsUip(s, cs, c, i) {
      FrontMember(s, seen, i, x);
      var p := PosOf(s, x);
      assert s.trail[p] == x;
      assert IsCurrent(s, p) && ReachedFrom(s, cs, c, p, j);
    }
  }

  /** Following the reason of a literal reaches exactly the literals in it. */
  lemma ResolveReached(s: Stack, cs: seq<ClauseRecord>, c: Clause, seen: set<int>, more: set<int>, i: nat)
    requires Placed(s) && i < |s.trail| && SeenIsReached(s, cs, c, seen, i + 1) && Reached(s, cs, c, i)
    requires CurrentLevel(s) > 0
    requires Justified(s, cs, s.trail[i]) && SeenMore(s, cs[ReasonOf(s, s.trail[i])].lits, s.trail[i], seen, more)
    ensures SeenIsReached(s, cs, c, more, i)
  {
    var r := cs[ReasonOf(s, s.trail[i])].lits;
    forall p: nat | p < i && IsCurrent(s, p) ensures Abs(s.trail[p]) in more <==> ReachedFrom(s, cs, c, p, i) {
      ReachedFromMore(s, cs, c, p, i);
      assert IsCurrent(s, p) ==> (Abs(s.trail[p]) in seen <==> ReachedFrom(s, cs, c, p, i + 1));
      SeenAt(s, r, s.trail[i], seen, more, p);
    }
    ResolveOccurs(s, cs, c, seen, more, i);
  }

  lemma ResolveOccurs(s: Stack, cs: seq<ClauseRecord>, c: Clause, seen: set<int>, more: set<int>, i: nat)
    requires Placed(s) && i < |s.trail| && SeenIsReached(s, cs, c, seen, i + 1) && Reached(s, cs, c, i)
    requires Justified(s, cs, s.trail[i]) && SeenMore(s, cs[ReasonOf(s, s.trail[i])].lits, s.trail[i], seen, more)
    ensures forall x :: -x in s.vals && LevelOf(s, x) > 0 ==> (Abs(x) in more <==> Occurs(s, cs, c, x, i))
  {
    hide Reached, ReachedFrom, Placed, LevelOf;
    InTrail(s, i);
    var r := cs[ReasonOf(s, s.trail[i])].lits;
    forall x | -x in s.vals && LevelOf(s, x) > 0 ensures Abs(x) in more <==> Occurs(s, cs, c, x, i) {
      OccursMore(s, cs, c, x, i);
      SeenIn(s, r, s.trail[i], seen, more, x);
    }
  }

  lemma SeenIn(s: Stack, c: Clause, lit: int, seen: set<int>, more: set<int>, x: int)
    requires Placed(s) && SeenMore(s, c, lit, seen, more) && -x in s.vals && LevelOf(s, x) > 0
    requires forall o :: o in c && o != lit ==> -o in s.vals
    requires lit != 0 ==> lit in s.vals
    ensures Abs(x) in more <==> Abs(x) in seen || x in c
  {
    PlacedIsConsistent(s);
    hide Placed, LevelOf;
    if x in c {
      assert x != lit;
    }
    if Abs(x) in more && Abs(x) !in seen {
      var o :| o in c && o != lit && Abs(o) == Abs(x);
      assert o == x || o == -x;
    }
  }

  lemma ReachedFromEnd(s: Stack, cs: seq<ClauseRecord>, c: Clause, p: nat)
    requires p < |s.trail|
    ensures ReachedFrom(s, cs, c, p, |s.trail|) <==> -s.trail[p] in c
  {
  }

  /** The conflict reaches exactly its literals. */
  lemma ConflictReached(s: Stack, cs: seq<ClauseRecord>, c: Clause, seen: set<int>)
    requires Placed(s) && SeenMore(s, c, 0, {}, seen) && CurrentLevel(s) > 0 && 0 !in c
    requires forall o :: o in c ==> -o in s.vals
    ensures SeenIsReached(s, cs, c, seen, |s.trail|)
  {
    hide ReachedFrom, SeenMore, Placed;
    forall p: nat | p < |s.trail| && IsCurrent(s, p)
      ensures Abs(s.trail[p]) in seen <==> ReachedFrom(s, cs, c, p, |s.trail|)
    {
      SeenAt(s, c, 0, {}, seen, p);
      ReachedFromEnd(s, cs, c, p);
    }
    forall x | -x in s.vals && LevelOf(s, x) > 0 ensures Abs(x) in seen <==> Occurs(s, cs, c, x, |s.trail|) {
      SeenIn(s, c, 0, {}, seen, x);
    }
  }

  /** What is known before a clause is looked at: it is the conflict or the reason of the last taken literal. */
  ghost predicate Pending(s: Stack, cs: seq<ClauseRecord>, c: Clause, seen: set<int>, uip: int, reason: int, i: nat)
    requires i <= |s.trail|
  {
    0 <= reason < |cs|
    && if uip == 0 then i == |s.trail| && seen == {} && cs[reason].lits == c
       else && i < |s.trail| && s.trail[i] == uip && Reached(s, cs, c, i) && NoUipFrom(s, cs, c, i)
            && SeenIsReached(s, cs, c, seen, i + 1) && Justified(s, cs, uip) && ReasonOf(s, uip) == reason
  }

  lemma PendingStart(s: Stack, cs: seq<ClauseRecord>, reason: nat)
    requires reason < |cs|
    ensures Pending(s, cs, cs[reason].lits, {}, 0, reason, |s.trail|)
  {
  }

  lemma PendingNext(s: Stack, cs: seq<ClauseRecord>, c: Clause, seen: set<int>, uip: int, i: nat)
    requires Placed(s) && i < |s.trail| && s.trail[i] == uip && SeenIsReached(s, cs, c, seen, i + 1)
    requires Reached(s, cs, c, i) && NoUipFrom(s, cs, c, i) && Justified(s, cs, uip)
    ensures Pending(s, cs, c, seen, uip, ReasonOf(s, uip), i)
  {
    assert s.trail[i] in s.vals;
    hide Reached, ReachedFrom, SeenIsReached, NoUipFrom, Placed;
  }

  lemma Expanded(s: Stack, cs: seq<ClauseRecord>, c: Clause, seen: set<int>, more: set<int>, uip: int, reason: nat,
                 i: nat)
    requires Placed(s) && i <= |s.trail| && Pending(s, cs, c, seen, uip, reason, i) && CurrentLevel(s) > 0
    requires SeenMore(s, cs[reason].lits, uip, seen, more)
    requires 0 !in c && forall o :: o in c ==> -o in s.vals
    ensures SeenIsReached(s, cs, c, more, i) && NoUipFrom(s, cs, c, i)
  {
    hide Reached, ReachedFrom, SeenIsReached, SeenMore, Placed, IsUip;
    if uip == 0 {
      ConflictReached(s, cs, c, more);
    } else {
      ResolveReached(s, cs, c, seen, more, i);
    }
  }

  /** The literal that was taken is the first unique implication point if nothing else is open, else none. */
  lemma Taken(s: Stack, cs: seq<ClauseRecord>, c: Clause, seen: set<int>, i: nat)
    requires Placed(s) && i < |s.trail| && SeenIsReached(s, cs, c, seen, i + 1) && NoUipFrom(s, cs, c, i + 1)
    requires Abs(s.trail[i]) in seen && LevelOf(s, s.trail[i]) == CurrentLevel(s)
    ensures Reached(s, cs, c, i)
    ensures if Front(s, seen, i) == {} then IsFirstUip(s, cs, c, s.trail[i]) else NoUipFrom(s, cs, c, i)
  {
    TakeReached(s, cs, c, seen, i, i + 1);
    hide Front, Placed, IsUip, Reached, ReachedFrom;
  }

  /** The variables of the other literals of a clause, unless they are assigned at the root, are seen in addition. */
  ghost predicate SeenMore(s: Stack, c: Clause, lit: int, seen: set<int>, more: set<int>) {
    && seen <= more
    && (forall o :: o in c && o != lit && LevelOf(s, o) > 0 ==> Abs(o) in more)
    && (forall v :: v in more && v !in seen ==> exists o :: o in c && o != lit && Abs(o) == v)
  }

  lemma SeenAt(s: Stack, c: Clause, lit: int, seen: set<int>, more: set<int>, p: nat)
    requires Placed(s) && SeenMore(s, c, lit, seen, more) && p < |s.trail| && IsCurrent(s, p) && CurrentLevel(s) > 0
    requires forall o :: o in c && o != lit ==> -o in s.vals
    requires lit != 0 ==> lit in s.vals
    ensures Abs(s.trail[p]) in more <==> Abs(s.trail[p]) in seen || (-s.trail[p] in c)
  {
    var x := s.trail[p];
    assert x in s.vals;
    SameVariable(s, x);
    PlacedIsConsistent(s);
    hide Placed, LevelOf;
    if -x in c {
      assert -x != lit;
    }
    if Abs(x) in more && Abs(x) !in seen {
      var o :| o in c && o != lit && Abs(o) == Abs(x);
      assert o == x || o == -x;
      assert -o in s.vals;
    }
  }

  /** One more literal of the clause is looked at. */
  lemma SeenMoreStep(s: Stack, c: Clause, lit: int, k: nat, seen: set<int>, more: set<int>, a: Analysis, i: nat)
    requires k < |c| && SeenMore(s, c[..k], lit, seen, more) && more <= a.seen
    requires if c[k] == lit then a.seen == more
             else a.seen <= more + {Abs(c[k])} && Split(s, a) && Handled(s, a, i, c[k])
    ensures SeenMore(s, c[..k + 1], lit, seen, a.seen)
  {
    var d := c[..k + 1];
    assert d == c[..k] + [c[k]];
    assert forall x :: x in d <==> x in c[..k] || x == c[k];
    hide LevelOf;
    if c[k] != lit && LevelOf(s, c[k]) > 0 {
      HandledIsSeen(s, a, i, c[k]);
    }
    forall v | v in a.seen && v !in seen ensures exists o :: o in d && o != lit && Abs(o) == v {
      if v in more {
        var o :| o in c[..k] && o != lit && Abs(o) == v;
        assert o in d;
      } else {
        assert c[k] in d;
      }
    }
  }

  lemma HandledIsSeen(s: Stack, a: Analysis, i: nat, x: int)
    requires Split(s, a) && Handled(s, a, i, x) && LevelOf(s, x) > 0
    ensures Abs(x) in a.seen
  {
    FrontMember(s, a.seen, i, -x);
  }

  lemma SeenNothingMore(s: Stack, c: Clause, lit: int, seen: set<int>)
    ensures SeenMore(s, c[..0], lit, seen, seen)
  {
  }

  // ---------------------------------------------------------------- what the analysis came across

  /** The learned clause consists of the negated implication point and the involved literals of lower levels. */
  ghost predicate LearnedFrom(s: Stack, cs: seq<ClauseRecord>, c: Clause, clause: Clause, uip: int) {
    forall x :: x in clause <==> x == -uip || (Involved(s, cs, c, uip, x) && LevelOf(s, x) < CurrentLevel(s))
  }

  lemma SeenIsInvolved(s: Stack, cs: seq<ClauseRecord>, c: Clause, a: Analysis, i: nat)
    requires Placed(s) && Split(s, a) && Listed(s, a) && i < |s.trail| && SeenIsReached(s, cs, c, a.seen, i + 1)
    ensures forall x :: x in a.analyzed <==> Involved(s, cs, c, s.trail[i], x)
    ensures LearnedFrom(s, cs, c, a.clause + [-s.trail[i]], s.trail[i])
  {
    var uip := s.trail[i];
    InTrail(s, i);
    assert PosOf(s, uip) == i;
    hide Placed, LevelOf, PosOf, Occurs, Reached, ReachedFrom, IsCurrent;
    forall x ensures Involved(s, cs, c, uip, x) <==> -x in s.vals && Abs(x) in a.seen {
    }
    forall x ensures x in a.analyzed <==> -x in s.vals && Abs(x) in a.seen {
      if -x in s.vals && Abs(x) in a.seen {
        OnlyOne(s, x);
        var v: int := Abs(x);
        assert v in a.analyzed || -v in a.analyzed;
        assert v == x || -v == x;
      }
    }
    var d := a.clause + [-uip];
    assert forall x :: x in d <==> x in a.clause || x == -uip;
  }

  lemma InvolvedVarsAre(s: Stack, cs: seq<ClauseRecord>, c: Clause, uip: int, analyzed: seq<int>, vs: set<int>)
    requires forall x :: x in analyzed <==> Involved(s, cs, c, uip, x)
    requires vs == set x | x in analyzed :: Abs(x)
    ensures vs == InvolvedVars(s, cs, c, uip)
  {
    hide Occurs, LevelOf, PosOf;
    forall v | v in vs ensures v in InvolvedVars(s, cs, c, uip) {
      var x :| x in analyzed && Abs(x) == v;
      assert -x in s.vals && Involved(s, cs, c, uip, -(-x)) && Abs(-x) == v;
    }
    forall v | v in InvolvedVars(s, cs, c, uip) ensures v in vs {
      var y :| y in s.vals && Involved(s, cs, c, uip, -y) && Abs(y) == v;
      assert -y in analyzed && Abs(-y) == v;
    }
  }
}
