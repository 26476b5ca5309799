/** Equivalent literals: every literal is replaced by its representative. */
module Substitution {
  import opened Cnf
  import opened Extension
  import opened Reconstruction
  import opened InternalSolver
  import opened Components
  import opened Decompose

  // ---------------------------------------------------------------- representatives

  /** The entry of the representatives table, which is zero for inactive variables. */
  function Repr(reprs: map<int, int>, lit: int): int {
    if lit in reprs then reprs[lit] else 0
  }

  ghost function ReprOf(reprs: map<int, int>, lit: int): int {
    if lit in reprs then reprs[lit] else lit
  }

  ghost function Renaming(reprs: map<int, int>): int -> int {
    lit => ReprOf(reprs, lit)
  }

  ghost predicate GoodReprs(reprs: map<int, int>, maxVar: nat) {
    && (forall x :: x in reprs ==> 1 <= Abs(x) <= maxVar && -x in reprs)
    && (forall x :: x in reprs ==> reprs[x] in reprs)
    && (forall x :: x in reprs ==> reprs[-x] == -reprs[x] && reprs[reprs[x]] == reprs[x])
  }

  /** The given formula makes every literal equivalent to its representative. */
  ghost predicate Equivalences(original: Formula, reprs: map<int, int>) {
    forall m, x :: Models(m, original) && x in reprs ==> True(m, x) == True(m, reprs[x])
  }

  lemma CompleteKeys(g: Graph, frozen: set<int>, reprs: map<int, int>, smallest: map<int, int>)
    requires Complete(g, frozen, reprs, smallest)
    ensures forall x :: x in reprs <==> Abs(x) in g.active
  {
  }

  lemma CompleteIsGood(g: Graph, maxVar: nat, frozen: set<int>, reprs: map<int, int>, smallest: map<int, int>)
    requires GoodGraph(g, maxVar) && Complete(g, frozen, reprs, smallest)
    ensures GoodReprs(reprs, maxVar)
  {
    hide SkewSymmetric, Complete, Mutual;
    CompleteKeys(g, frozen, reprs, smallest);
    forall x | x in reprs
      ensures 1 <= Abs(x) <= maxVar && -x in reprs && reprs[x] in reprs && reprs[-x] == -reprs[x]
      ensures reprs[reprs[x]] == reprs[x]
    {
      assert Abs(-x) == Abs(x);
      RepresentativeLaws(g, frozen, reprs, smallest, x);
    }
  }

  lemma CompleteIsEquivalent(original: Formula, g: Graph, maxVar: nat, frozen: set<int>, reprs: map<int, int>,
                             smallest: map<int, int>)
    requires GoodGraph(g, maxVar) && Complete(g, frozen, reprs, smallest) && EdgesImplied(original, g)
    ensures Equivalences(original, reprs)
  {
    hide EdgesImplied, SkewSymmetric, Complete, Mutual, Models, True;
    CompleteKeys(g, frozen, reprs, smallest);
    forall m, x | Models(m, original) && x in reprs ensures True(m, x) == True(m, reprs[x]) {
      RepresentativeLaws(g, frozen, reprs, smallest, x);
      MutualMeans(original, g, x, reprs[x], m);
    }
  }

  /** The variables with another representative, in increasing order. */
  ghost function Substituted(reprs: map<int, int>, n: nat): seq<int> {
    if n == 0 then [] else Substituted(reprs, n - 1) + if ReprOf(reprs, n) != n then [n] else []
  }

  lemma {:induction false} SubstitutedMeans(reprs: map<int, int>, n: nat)
    ensures forall v :: v in Substituted(reprs, n) <==> 1 <= v <= n && ReprOf(reprs, v) != v
    ensures forall i, j :: 0 <= i < j < |Substituted(reprs, n)| ==> Substituted(reprs, n)[i] != Substituted(reprs, n)[j]
  {
    if n > 0 {
      SubstitutedMeans(reprs, n - 1);
      var s := Substituted(reprs, n - 1);
      forall i | 0 <= i < |s| ensures s[i] < n {
        assert s[i] in s;
      }
    }
  }

  lemma SubstitutedAreRepresentatives(reprs: map<int, int>, maxVar: nat)
    requires GoodReprs(reprs, maxVar)
    ensures Representatives(Substituted(reprs, maxVar), Renaming(reprs))
  {
    SubstitutedMeans(reprs, maxVar);
    var xs, repr := Substituted(reprs, maxVar), Renaming(reprs);
    forall lit | lit != 0 ensures repr(lit) != 0 && repr(-lit) == -repr(lit) && repr(repr(lit)) == repr(lit) {
      if lit in reprs {
        assert reprs[lit] in reprs;
      } else {
        assert -(-lit) == lit && -lit !in reprs;
      }
    }
    forall lit | lit > 0 ensures lit in xs <==> repr(lit) != lit { }
    forall i | 0 <= i < |xs| ensures xs[i] > 0 {
      assert xs[i] in xs;
    }
  }

  lemma SubstitutedNone(reprs: map<int, int>)
    ensures Substituted(reprs, 0) == []
  {
  }

  lemma SubstitutedNext(reprs: map<int, int>, n: nat)
    requires n > 0
    ensures Substituted(reprs, n)
         == if ReprOf(reprs, n) != n then Substituted(reprs, n - 1) + [n] else Substituted(reprs, n - 1)
  {
  }

  lemma {:induction false} NothingSubstituted(reprs: map<int, int>, n: nat)
    requires Counted(reprs, 0)
    ensures Substituted(reprs, n) == []
  {
    if n > 0 {
      NothingSubstituted(reprs, n - 1);
    }
  }

  lemma GoodReprAt(reprs: map<int, int>, maxVar: nat, x: int)
    requires GoodReprs(reprs, maxVar) && x in reprs
    ensures 1 <= Abs(reprs[x]) <= maxVar
  {
    assert reprs[x] in reprs;
  }

  // ---------------------------------------------------------------- pushing the equivalences

  lemma EquivalencesNothing(repr: int -> int)
    ensures EquivalenceEntries([], [], repr)
  {
  }

  lemma EquivalencesAppend(es: seq<Entry>, xs: seq<int>, repr: int -> int, x: int, d: Entry, e: Entry)
    requires EquivalenceEntries(es, xs, repr)
    requires d.cube == [-x] && d.clause == [-x, repr(x)] && e.cube == [x] && e.clause == [x, -repr(x)]
    ensures EquivalenceEntries(es + [d, e], xs + [x], repr)
  {
    var es', xs' := es + [d, e], xs + [x];
    forall i | 0 <= i < |xs'|
      ensures es'[2 * i].cube == [-xs'[i]] && es'[2 * i].clause == [-xs'[i], repr(xs'[i])]
      ensures es'[2 * i + 1].cube == [xs'[i]] && es'[2 * i + 1].clause == [xs'[i], -repr(xs'[i])]
    {
      if i < |xs| {
        assert es'[2 * i] == es[2 * i] && es'[2 * i + 1] == es[2 * i + 1] && xs'[i] == xs[i];
      }
    }
  }

  method PushEquivalence(s: Internal, idx: int, other: int) returns (ghost d: Entry, ghost e: Entry)
    requires s.external.Valid() && 1 <= idx <= s.external.maxVar && 1 <= Abs(other) <= s.external.maxVar
    modifies s`clauseId, s.external`extension, s.external`entries
    ensures s.external.Valid() && s.external.entries == old(s.external.entries) + [d, e]
    ensures d.cube == [-idx] && d.clause == [-idx, other] && e.cube == [idx] && e.clause == [idx, -other]
    ensures d.id == old(s.clauseId) + 1 && e.id == old(s.clauseId) + 2 == s.clauseId
  {
    s.clauseId := s.clauseId + 1;
    d := Entry([-idx], s.clauseId, [-idx, other]);
    s.external.PushBinaryClause(s.clauseId, -idx, other);
    s.clauseId := s.clauseId + 1;
    e := Entry([idx], s.clauseId, [idx, -other]);
    s.external.PushBinaryClause(s.clauseId, idx, -other);
  }

  /** Pushes two binary clauses for every variable with another representative. */
  method PushEquivalences(s: Internal, reprs: map<int, int>, substituted: nat) returns (ghost es: seq<Entry>)
    requires s.external.Valid() && GoodReprs(reprs, s.external.maxVar) && Counted(reprs, substituted)
    modifies s`clauseId, s.external`extension, s.external`entries
    ensures s.external.Valid() && s.external.entries == old(s.external.entries) + es
    ensures EquivalenceEntries(es, Substituted(reprs, s.external.maxVar), Renaming(reprs))
    ensures s.clauseId == old(s.clauseId) + |es| && forall k :: 0 <= k < |es| ==> es[k].id == old(s.clauseId) + 1 + k
  {
    hide EquivalenceEntries, GoodReprs, Counted, Flatten, GoodEntry, Substituted;
    SubstitutedNone(reprs);
    es := [];
    EquivalencesNothing(Renaming(reprs));
    var idx := 1;
    while idx <= s.external.maxVar && substituted != 0
      invariant 1 <= idx <= s.external.maxVar + 1 && s.external.Valid()
      invariant substituted == 0 ==> idx == 1
      invariant s.external.entries == old(s.external.entries) + es
      invariant EquivalenceEntries(es, Substituted(reprs, idx - 1), Renaming(reprs))
      invariant s.clauseId == old(s.clauseId) + |es|
      invariant forall k :: 0 <= k < |es| ==> es[k].id == old(s.clauseId) + 1 + k
    {
      var other := Repr(reprs, idx);
      if idx in reprs && other != idx {
        GoodReprAt(reprs, s.external.maxVar, idx);
        ghost var d, e := PushEquivalence(s, idx, other);
        EquivalencesAppend(es, Substituted(reprs, idx - 1), Renaming(reprs), idx, d, e);
        es := es + [d, e];
      }
      SubstitutedNext(reprs, idx);
      idx := idx + 1;
    }
    if substituted == 0 {
      NothingSubstituted(reprs, s.external.maxVar);
    }
  }

  // ---------------------------------------------------------------- one substituted clause

  ghost function ImageOf(c: Clause, reprs: map<int, int>): set<int> {
    Image(Lits(c), Renaming(reprs))
  }

  lemma InImage(c: Clause, reprs: map<int, int>)
    ensures forall x :: x in c ==> ReprOf(reprs, x) in ImageOf(c, reprs)
  {
    forall x | x in c ensures ReprOf(reprs, x) in ImageOf(c, reprs) {
      assert x in Lits(c) && Renaming(reprs)(x) == ReprOf(reprs, x);
    }
  }

  /** Literals of clauses belong to active variables or are assigned. */
  ghost predicate Settled(c: Clause, reprs: map<int, int>, fixedLits: set<int>) {
    forall x :: x in c ==> x in reprs || x in fixedLits || -x in fixedLits
  }

  /** Assigned literals represent themselves. */
  ghost predicate FixedStay(reprs: map<int, int>, fixedLits: set<int>) {
    forall u :: u in fixedLits ==> ReprOf(reprs, u) == u && ReprOf(reprs, -u) == -u
  }

  /** A clause with these literals is true in every model of the units. */
  ghost predicate TriviallyTrue(img: set<int>, fixedLits: set<int>) {
    (exists u :: u in img && u in fixedLits) || exists y :: y in img && -y in img
  }

  lemma TrueByUnit(img: set<int>, fixedLits: set<int>, u: int)
    requires u in img && u in fixedLits
    ensures TriviallyTrue(img, fixedLits)
  {
  }

  lemma TrueByClash(img: set<int>, fixedLits: set<int>, y: int)
    requires y in img && -y in img
    ensures TriviallyTrue(img, fixedLits)
  {
  }

  /** Unassigned representatives, each at most once and not together with its negation. */
  ghost predicate NewLits(clause: Clause, reprs: map<int, int>, fixedLits: set<int>) {
    && (forall y :: y in clause ==> y in reprs && reprs[y] == y && y !in fixedLits && -y !in fixedLits && -y !in clause)
    && (forall y :: multiset(clause)[y] <= 1)
  }

  /** Up to position `k` only false literals are missing in the new clause. */
  ghost predicate OnlyFalseMissing(c: Clause, k: nat, clause: Clause, reprs: map<int, int>, fixedLits: set<int>) {
    forall j :: 0 <= j < k && j < |c| ==> ReprOf(reprs, c[j]) in clause || -ReprOf(reprs, c[j]) in fixedLits
  }

  lemma NewLitsAppend(clause: Clause, y: int, reprs: map<int, int>, fixedLits: set<int>)
    requires NewLits(clause, reprs, fixedLits) && y in reprs && reprs[y] == y && y !in fixedLits && -y !in fixedLits
    requires y !in clause && -y !in clause && y != 0
    ensures NewLits(clause + [y], reprs, fixedLits)
  {
    assert y !in multiset(clause);
  }

  /** The new clause while the first `k` literals have been copied. */
  ghost predicate Copied(c: Clause, k: nat, clause: Clause, reprs: map<int, int>, fixedLits: set<int>) {
    && |clause| <= k <= |c| && NewLits(clause, reprs, fixedLits) && Lits(clause) <= ImageOf(c, reprs)
    && OnlyFalseMissing(c, k, clause, reprs, fixedLits)
  }

  lemma CopiedNothing(c: Clause, reprs: map<int, int>, fixedLits: set<int>)
    ensures Copied(c, 0, [], reprs, fixedLits)
  {
  }

  /** The representative of the next literal is false or has been copied before. */
  lemma CopiedSkip(c: Clause, k: nat, clause: Clause, reprs: map<int, int>, fixedLits: set<int>)
    requires Copied(c, k, clause, reprs, fixedLits) && k < |c|
    requires ReprOf(reprs, c[k]) in clause || -ReprOf(reprs, c[k]) in fixedLits
    ensures Copied(c, k + 1, clause, reprs, fixedLits)
  {
    hide NewLits, ImageOf;
  }

  lemma CopiedAppend(c: Clause, k: nat, clause: Clause, reprs: map<int, int>, fixedLits: set<int>, y: int, maxVar: nat)
    requires Copied(c, k, clause, reprs, fixedLits) && k < |c| && ReprOf(reprs, c[k]) == y && GoodReprs(reprs, maxVar)
    requires y in reprs && reprs[y] == y && y !in fixedLits && -y !in fixedLits && y !in clause && -y !in clause
    ensures Copied(c, k + 1, clause + [y], reprs, fixedLits)
  {
    hide ImageOf;
    NewLitsAppend(clause, y, reprs, fixedLits);
    InImage(c, reprs);
    assert c[k] in c;
  }

  /** Copies the clause with every literal replaced, without false literals and duplicates. */
  method CopySubstituted(s: Internal, c: Clause, reprs: map<int, int>, ghost maxVar: nat)
    returns (satisfied: bool, clause: Clause)
    requires GoodReprs(reprs, maxVar) && FixedStay(reprs, s.fixedLits) && Settled(c, reprs, s.fixedLits)
    requires s.marks == {}
    modifies s`marks
    ensures s.marks == Lits(clause)
    ensures satisfied ==> TriviallyTrue(ImageOf(c, reprs), s.fixedLits)
    ensures !satisfied ==> Copied(c, |c|, clause, reprs, s.fixedLits)
  {
    hide GoodReprs, ImageOf, TriviallyTrue, Copied;
    CopiedNothing(c, reprs, s.fixedLits);
    satisfied, clause := false, [];
    var k := 0;
    while !satisfied && k < |c|
      invariant 0 <= k <= |c| && s.marks == Lits(clause)
      invariant satisfied ==> TriviallyTrue(ImageOf(c, reprs), s.fixedLits)
      invariant !satisfied ==> Copied(c, k, clause, reprs, s.fixedLits)
      decreases |c| - k, !satisfied
    {
      satisfied, clause := CopyLiteral(s, c, k, clause, reprs, maxVar);
      k := k + 1;
    }
  }

  method CopyLiteral(s: Internal, c: Clause, k: nat, clause: Clause, reprs: map<int, int>, ghost maxVar: nat)
    returns (satisfied: bool, clause': Clause)
    requires GoodReprs(reprs, maxVar) && FixedStay(reprs, s.fixedLits) && Settled(c, reprs, s.fixedLits) && k < |c|
    requires s.marks == Lits(clause) && Copied(c, k, clause, reprs, s.fixedLits)
    modifies s`marks
    ensures s.marks == Lits(clause')
    ensures satisfied ==> TriviallyTrue(ImageOf(c, reprs), s.fixedLits)
    ensures !satisfied ==> Copied(c, k + 1, clause', reprs, s.fixedLits)
  {
    hide ImageOf, TriviallyTrue, Copied;
    ghost var img := ImageOf(c, reprs);
    satisfied, clause' := false, clause;
    var lit := c[k];
    InImage(c, reprs);
    assert lit in c && ReprOf(reprs, lit) in img;
    if s.Val(lit) > 0 {
      TrueByUnit(img, s.fixedLits, lit);
      return true, clause;
    }
    if s.Val(lit) < 0 {
      assert ReprOf(reprs, -(-lit)) == -(-lit);
      CopiedSkip(c, k, clause, reprs, s.fixedLits);
      return;
    }
    var other := Repr(reprs, lit);
    assert other == ReprOf(reprs, lit) && other in reprs && reprs[other] == other;
    if s.Val(other) < 0 {
      CopiedSkip(c, k, clause, reprs, s.fixedLits);
    } else if s.Val(other) > 0 {
      TrueByUnit(img, s.fixedLits, other);
      satisfied := true;
    } else if s.Marked(other) < 0 {
      ClashWithCopied(c, k, clause, reprs, s.fixedLits, other);
      satisfied := true;
    } else if s.Marked(other) > 0 {
      CopiedSkip(c, k, clause, reprs, s.fixedLits);
    } else {
      CopiedAppend(c, k, clause, reprs, s.fixedLits, other, maxVar);
      s.marks := s.marks + {other};
      clause' := clause + [other];
    }
  }

  lemma ClashWithCopied(c: Clause, k: nat, clause: Clause, reprs: map<int, int>, fixedLits: set<int>, y: int)
    requires Copied(c, k, clause, reprs, fixedLits) && y in ImageOf(c, reprs) && -y in clause
    ensures TriviallyTrue(ImageOf(c, reprs), fixedLits)
  {
    hide ImageOf, TriviallyTrue;
    assert -y in Lits(clause);
    TrueByClash(ImageOf(c, reprs), fixedLits, y);
  }

  ghost predicate OnlyRepresentatives(c: Clause, reprs: map<int, int>) {
    forall x :: x in c ==> x in reprs && reprs[x] == x
  }

  /** Position of the first literal that has another representative. */
  method FirstSubstituted(c: Clause, reprs: map<int, int>) returns (j: nat)
    requires 0 !in c
    ensures j <= |c| && (j == |c| <==> OnlyRepresentatives(c, reprs))
  {
    j := 0;
    while j < |c|
      invariant j <= |c| && forall k :: 0 <= k < j ==> c[k] in reprs && reprs[c[k]] == c[k]
    {
      var lit := c[j];
      assert lit in c;
      if Repr(reprs, lit) != lit {
        return;
      }
      j := j + 1;
    }
  }

  method Unmark(s: Internal, clause: Clause)
    requires s.marks == Lits(clause)
    modifies s`marks
    ensures s.marks == {}
  {
    var rest := clause;
    while rest != []
      invariant s.marks <= Lits(rest)
      decreases |rest|
    {
      var lit := rest[|rest| - 1];
      assert rest == rest[..|rest| - 1] + [lit];
      rest := rest[..|rest| - 1];
      s.marks := s.marks - {lit};
    }
    assert s.marks == {};
  }

  lemma UnitIsTrue(original: Formula, u: int, m: Assignment)
    requires Implies(original, {u}) && Models(m, original)
    ensures True(m, u)
  {
    assert Holds(m, {u});
  }

  /** The part of the clause that remains is implied together with the clause. */
  lemma ReplacedIsImplied(original: Formula, c: Clause, clause: Clause, reprs: map<int, int>, fixedLits: set<int>)
    requires Equivalences(original, reprs) && Implies(original, Lits(c))
    requires OnlyFalseMissing(c, |c|, clause, reprs, fixedLits)
    requires (forall u :: u in fixedLits ==> Implies(original, {u})) && 0 !in c && 0 !in fixedLits
    ensures Implies(original, Lits(clause))
  {
    forall m | Models(m, original) ensures Holds(m, Lits(clause)) {
      assert Holds(m, Lits(c));
      var x :| x in Lits(c) && True(m, x);
      var j :| 0 <= j < |c| && c[j] == x;
      var y := ReprOf(reprs, x);
      assert True(m, y);
      if -y in fixedLits {
        UnitIsTrue(original, -y, m);
      }
      assert y in Lits(clause);
    }
  }

  // ---------------------------------------------------------------- the clause table

  /** All clauses that are not garbage, and the units, follow from the given formula. */
  ghost predicate Learned(original: Formula, cs: seq<ClauseRecord>, fixedLits: set<int>) {
    && (forall k :: 0 <= k < |cs| && !cs[k].garbage ==> Implies(original, Lits(cs[k].lits)))
    && forall u :: u in fixedLits ==> Implies(original, {u})
  }

  /** What stands at the position of a clause implies the clause after substitution. */
  ghost predicate Kept(r: ClauseRecord, redundant: bool, postponed: bool, fixedLits: set<int>, img: set<int>) {
    || (!r.garbage && r.redundant == redundant && !postponed && Lits(r.lits) <= img)
    || TriviallyTrue(img, fixedLits)
  }

  /** The first `i` clauses have been replaced. */
  ghost predicate Progress(cs0: seq<ClauseRecord>, cs: seq<ClauseRecord>, fixedLits: set<int>, postponed: seq<int>,
                           reprs: map<int, int>, i: nat) {
    && i <= |cs0| <= |cs|
    && (forall k :: 0 <= k < i && !cs0[k].garbage ==>
          Kept(cs[k], cs0[k].redundant, k in postponed, fixedLits, ImageOf(cs0[k].lits, reprs)))
    && (forall k :: 0 <= k < i && !cs[k].garbage && k !in postponed ==> OnlyRepresentatives(cs[k].lits, reprs))
    && (forall k :: i <= k < |cs0| ==> cs[k] == cs0[k])
    && (forall k :: |cs0| <= k < |cs| ==> cs[k].garbage)
    && (forall k :: k in postponed ==> 0 <= k < i)
  }

  lemma ProgressStep(cs0: seq<ClauseRecord>, cs: seq<ClauseRecord>, fixedLits: set<int>, postponed: seq<int>,
                     reprs: map<int, int>, i: nat,
                     cs': seq<ClauseRecord>, fixed': set<int>, postponed': seq<int>)
    requires Progress(cs0, cs, fixedLits, postponed, reprs, i) && i < |cs0| && |cs| <= |cs'| && fixedLits <= fixed'
    requires (forall k :: 0 <= k < |cs| && k != i ==> cs'[k] == cs[k])
    requires forall k :: |cs| <= k < |cs'| ==> cs'[k].garbage
    requires forall k :: k in postponed' <==> k in postponed || (k == i && i in postponed')
    requires !cs0[i].garbage ==>
               Kept(cs'[i], cs0[i].redundant, i in postponed', fixed', ImageOf(cs0[i].lits, reprs))
    requires !cs'[i].garbage && i !in postponed' ==> OnlyRepresentatives(cs'[i].lits, reprs)
    ensures Progress(cs0, cs', fixed', postponed', reprs, i + 1)
  {
    hide ImageOf, OnlyRepresentatives;
    forall k | 0 <= k < i && !cs0[k].garbage
      ensures Kept(cs'[k], cs0[k].redundant, k in postponed', fixed', ImageOf(cs0[k].lits, reprs))
    {
      assert Kept(cs[k], cs0[k].redundant, k in postponed, fixedLits, ImageOf(cs0[k].lits, reprs));
    }
  }

  ghost predicate Ready(s: Internal, reprs: map<int, int>)
    reads s, s.external
  {
    && s.Valid() && s.occs == map[] && s.marks == {} && GoodReprs(reprs, s.external.maxVar)
    && FixedStay(reprs, s.fixedLits) && Equivalences(s.original, reprs) && Learned(s.original, s.clauses, s.fixedLits)
    && forall k :: 0 <= k < |s.clauses| && !s.clauses[k].garbage ==> Settled(s.clauses[k].lits, reprs, s.fixedLits)
  }

  lemma ReadyClause(s: Internal, reprs: map<int, int>, i: nat)
    requires Ready(s, reprs) && i < |s.clauses|
    ensures 0 !in s.clauses[i].lits
  {
    hide GoodReprs, FixedStay, Equivalences, Learned, Settled;
    assert GoodRecord(s.clauses[i], s.external.maxVar);
  }

  lemma GoodNewRecord(clause: Clause, reprs: map<int, int>, fixedLits: set<int>, maxVar: nat, r: ClauseRecord)
    requires NewLits(clause, reprs, fixedLits) && GoodReprs(reprs, maxVar) && clause != [] && r.lits == clause
    ensures GoodRecord(r, maxVar) && OnlyRepresentatives(clause, reprs) && Settled(clause, reprs, fixedLits)
  {
  }

  // ---------------------------------------------------------------- replacing one clause

  /** The new clause is a unit. */
  method ReplaceByUnit(s: Internal, i: nat, clause: Clause, reprs: map<int, int>)
    requires Ready(s, reprs) && i < |s.clauses| && |clause| == 1 && NewLits(clause, reprs, s.fixedLits)
    requires Implies(s.original, Lits(clause))
    modifies s`clauses, s`fixedLits, s`clauseId
    ensures Ready(s, reprs) && s.fixedLits == old(s.fixedLits) + {clause[0]}
    ensures s.clauses == old(s.clauses)[i := old(s.clauses)[i].(garbage := true)]
    ensures s.clauseId == old(s.clauseId) + 1
  {
    hide Equivalences, Implies;
    assert clause[0] in clause && Lits(clause) == {clause[0]};
    s.clauseId := s.clauseId + 1;
    s.fixedLits := s.fixedLits + {clause[0]};
    s.MarkGarbage(i);
  }

  lemma GarbageIsGood(r: ClauseRecord, maxVar: nat)
    requires GoodRecord(r, maxVar)
    ensures GoodRecord(r.(garbage := true), maxVar)
  {
  }

  /** A new clause takes the place of the old one, which moves to the end. */
  method ReplaceByNew(s: Internal, i: nat, clause: Clause, reprs: map<int, int>)
    requires Ready(s, reprs) && i < |s.clauses| && |clause| >= 2 && NewLits(clause, reprs, s.fixedLits)
    requires Implies(s.original, Lits(clause))
    modifies s`clauses, s`clauseId
    ensures Ready(s, reprs) && |s.clauses| == |old(s.clauses)| + 1
    ensures forall k :: 0 <= k < |old(s.clauses)| && k != i ==> s.clauses[k] == old(s.clauses)[k]
    ensures s.clauses[i].lits == clause && !s.clauses[i].garbage
    ensures s.clauses[i].redundant == old(s.clauses)[i].redundant
    ensures s.clauses[i].id == s.clauseId == old(s.clauseId) + 1
    ensures s.clauses[|s.clauses| - 1] == old(s.clauses)[i].(garbage := true)
  {
    hide Equivalences, Implies, GoodReprs, FixedStay, NewLits, GoodRecord, Settled, Flatten, GoodEntry;
    s.clauseId := s.clauseId + 1;
    var c := s.clauses[i];
    var d := ClauseRecord(clause, c.redundant, false, false, s.clauseId);
    GoodNewRecord(clause, reprs, s.fixedLits, s.external.maxVar, d);
    GarbageIsGood(c, s.external.maxVar);
    var n := |s.clauses|;
    s.clauses := s.clauses + [d];
    s.clauses := s.clauses[n := c];
    s.clauses := s.clauses[i := d];
    s.MarkGarbage(n);
  }

  /** The clause is overwritten from its third literal on and shrunken. */
  method ShrinkInPlace(s: Internal, i: nat, clause: Clause, reprs: map<int, int>)
    requires Ready(s, reprs) && i < |s.clauses| && 2 <= |clause| <= |s.clauses[i].lits|
    requires NewLits(clause, reprs, s.fixedLits)
    requires s.clauses[i].lits[0] == clause[0] && s.clauses[i].lits[1] == clause[1] && Implies(s.original, Lits(clause))
    modifies s`clauses
    ensures Ready(s, reprs) && s.clauses == old(s.clauses)[i := old(s.clauses)[i].(lits := clause)]
  {
    hide Equivalences, Implies;
    var literals := s.clauses[i].lits;
    var l := 2;
    while l < |clause|
      invariant 2 <= l <= |clause| && |literals| == |s.clauses[i].lits| && literals[..l] == clause[..l]
    {
      literals := literals[l := clause[l]];
      l := l + 1;
    }
    var flushed := |literals| - l;
    if flushed != 0 {
      literals := literals[..l];
    }
    assert clause[..l] == clause;
    assert literals == clause;
    GoodNewRecord(clause, reprs, s.fixedLits, s.external.maxVar, s.clauses[i].(lits := clause));
    s.clauses := s.clauses[i := s.clauses[i].(lits := literals)];
  }

  // ---------------------------------------------------------------- progress by one clause

  lemma LearnedAt(original: Formula, cs: seq<ClauseRecord>, fixedLits: set<int>, i: nat)
    requires Learned(original, cs, fixedLits) && i < |cs| && !cs[i].garbage
    ensures Implies(original, Lits(cs[i].lits)) && forall u :: u in fixedLits ==> Implies(original, {u})
  {
  }

  lemma EmptyIsUnsatisfiable(original: Formula)
    requires Implies(original, Lits([]))
    ensures !Satisfiable(original)
  {
    assert forall m :: !Holds(m, Lits([]));
  }

  lemma StepSatisfied(cs0: seq<ClauseRecord>, cs: seq<ClauseRecord>, fixedLits: set<int>, postponed: seq<int>,
                      reprs: map<int, int>, i: nat)
    requires Progress(cs0, cs, fixedLits, postponed, reprs, i) && i < |cs0|
    requires TriviallyTrue(ImageOf(cs[i].lits, reprs), fixedLits)
    ensures Progress(cs0, cs, fixedLits, postponed + [i], reprs, i + 1)
  {
    hide ImageOf, TriviallyTrue, OnlyRepresentatives;
    assert Kept(cs[i], cs0[i].redundant, true, fixedLits, ImageOf(cs0[i].lits, reprs));
    ProgressStep(cs0, cs, fixedLits, postponed, reprs, i, cs, fixedLits, postponed + [i]);
  }

  lemma StepUnchanged(cs0: seq<ClauseRecord>, cs: seq<ClauseRecord>, fixedLits: set<int>, postponed: seq<int>,
                      reprs: map<int, int>, i: nat)
    requires Progress(cs0, cs, fixedLits, postponed, reprs, i) && i < |cs0|
    requires (cs[i].garbage || OnlyRepresentatives(cs[i].lits, reprs))
    ensures Progress(cs0, cs, fixedLits, postponed, reprs, i + 1)
  {
    hide ImageOf, TriviallyTrue;
    if !cs[i].garbage {
      InImage(cs[i].lits, reprs);
      forall x | x in Lits(cs[i].lits) ensures x in ImageOf(cs[i].lits, reprs) {
        assert ReprOf(reprs, x) == x;
      }
    }
    ProgressStep(cs0, cs, fixedLits, postponed, reprs, i, cs, fixedLits, postponed);
  }

  lemma StepUnit(cs0: seq<ClauseRecord>, cs: seq<ClauseRecord>, fixedLits: set<int>, postponed: seq<int>,
                 reprs: map<int, int>, i: nat, clause: Clause)
    requires Progress(cs0, cs, fixedLits, postponed, reprs, i) && i < |cs0|
    requires |clause| == 1 && Lits(clause) <= ImageOf(cs[i].lits, reprs)
    ensures Progress(cs0, cs[i := cs[i].(garbage := true)], fixedLits + {clause[0]}, postponed, reprs, i + 1)
  {
    hide ImageOf, TriviallyTrue, OnlyRepresentatives;
    assert clause[0] in Lits(clause);
    TrueByUnit(ImageOf(cs[i].lits, reprs), fixedLits + {clause[0]}, clause[0]);
    ProgressStep(cs0, cs, fixedLits, postponed, reprs, i, cs[i := cs[i].(garbage := true)], fixedLits + {clause[0]},
                 postponed);
  }

  /** A new or a shrunken clause. */
  lemma StepReplaced(cs0: seq<ClauseRecord>, cs: seq<ClauseRecord>, fixedLits: set<int>, postponed: seq<int>,
                     reprs: map<int, int>, i: nat,
                     cs': seq<ClauseRecord>)
    requires Progress(cs0, cs, fixedLits, postponed, reprs, i) && i < |cs0| && |cs| <= |cs'|
    requires (forall k :: 0 <= k < |cs| && k != i ==> cs'[k] == cs[k])
    requires forall k :: |cs| <= k < |cs'| ==> cs'[k].garbage
    requires !cs'[i].garbage && cs'[i].redundant == cs[i].redundant && Lits(cs'[i].lits) <= ImageOf(cs[i].lits, reprs)
    requires OnlyRepresentatives(cs'[i].lits, reprs)
    ensures Progress(cs0, cs', fixedLits, postponed, reprs, i + 1)
  {
    hide ImageOf, TriviallyTrue, OnlyRepresentatives;
    ProgressStep(cs0, cs, fixedLits, postponed, reprs, i, cs', fixedLits, postponed);
  }

  lemma ProgressSizes(cs0: seq<ClauseRecord>, cs: seq<ClauseRecord>, fixedLits: set<int>, postponed: seq<int>,
                      reprs: map<int, int>, i: nat)
    requires Progress(cs0, cs, fixedLits, postponed, reprs, i)
    ensures i <= |cs0| <= |cs|
  {
  }

  lemma CopiedMeans(c: Clause, clause: Clause, reprs: map<int, int>, fixedLits: set<int>)
    requires Copied(c, |c|, clause, reprs, fixedLits)
    ensures |clause| <= |c| && NewLits(clause, reprs, fixedLits) && Lits(clause) <= ImageOf(c, reprs)
    ensures OnlyFalseMissing(c, |c|, clause, reprs, fixedLits)
  {
  }

  lemma NewLitsMean(clause: Clause, reprs: map<int, int>, fixedLits: set<int>)
    requires NewLits(clause, reprs, fixedLits)
    ensures OnlyRepresentatives(clause, reprs) && forall y :: y in clause ==> y !in fixedLits
  {
  }

  /** The clause has been replaced by a binary one. */
  ghost predicate BecameBinary(before: ClauseRecord, after: ClauseRecord) {
    !after.garbage && |after.lits| == 2 && after.lits != before.lits
  }

  ghost predicate NewBinary(cs0: seq<ClauseRecord>, cs: seq<ClauseRecord>, n: nat) {
    exists k :: 0 <= k < n && k < |cs0| && k < |cs| && BecameBinary(cs0[k], cs[k])
  }

  lemma NewBinaryStep(cs0: seq<ClauseRecord>, cs: seq<ClauseRecord>, cs': seq<ClauseRecord>, i: nat, j: nat)
    requires j == i + 1 && i < |cs0| <= |cs| <= |cs'| && forall k :: 0 <= k < i ==> cs'[k] == cs[k]
    ensures NewBinary(cs0, cs', j) <==> NewBinary(cs0, cs, i) || BecameBinary(cs0[i], cs'[i])
  {
    hide BecameBinary;
    if k :| 0 <= k < i && BecameBinary(cs0[k], cs[k]) {
      assert BecameBinary(cs0[k], cs'[k]);
    }
  }

  lemma NotBinary(r: ClauseRecord)
    ensures !BecameBinary(r, r) && !BecameBinary(r, r.(garbage := true))
  {
  }

  lemma BecameBinaryIff(before: ClauseRecord, after: ClauseRecord, clause: Clause)
    requires !after.garbage && after.lits == clause && 2 <= |clause| <= |before.lits|
    ensures BecameBinary(before, after) <==>
              |clause| == 2 && (before.lits[0] != clause[0] || before.lits[1] != clause[1] || |before.lits| > 2)
  {
  }

  /** Replaces a clause with some substituted literal. */
  method ReplaceClause(s: Internal, ghost cs0: seq<ClauseRecord>, i: nat, reprs: map<int, int>, postponed: seq<int>)
    returns (postponed': seq<int>, newUnit: bool, newBinary: bool)
    requires Ready(s, reprs) && !s.unsat && Progress(cs0, s.clauses, s.fixedLits, postponed, reprs, i)
    requires i < |cs0| <= |s.clauses|
    requires !s.clauses[i].garbage
    modifies s`clauses, s`fixedLits, s`marks, s`clauseId, s`unsat
    ensures s.unsat ==> !Satisfiable(s.original)
    ensures !s.unsat ==> Ready(s, reprs) && Progress(cs0, s.clauses, s.fixedLits, postponed', reprs, i + 1)
    ensures !s.unsat ==> newUnit == (s.fixedLits != old(s.fixedLits)) && old(s.fixedLits) <= s.fixedLits
    ensures |old(s.clauses)| <= |s.clauses|
    ensures forall k :: 0 <= k < |old(s.clauses)| && k != i ==> s.clauses[k] == old(s.clauses)[k]
    ensures !s.unsat ==> (newBinary <==> BecameBinary(old(s.clauses)[i], s.clauses[i]))
    ensures s.unsat || s.clauses[i].id != old(s.clauses)[i].id ==> s.clauseId == old(s.clauseId) + 1
    ensures old(s.clauseId) <= s.clauseId && (!s.unsat && newUnit ==> s.clauseId == old(s.clauseId) + 1)
    ensures !s.unsat ==> s.clauses[i].id == old(s.clauses)[i].id || s.clauses[i].id == s.clauseId
    ensures postponed' == postponed || (postponed' == postponed + [i] && s.clauses[i] == old(s.clauses)[i])
  {
    hide ImageOf, Equivalences, Implies, TriviallyTrue, Learned, OnlyFalseMissing, Progress, Image, NewLits, GoodReprs,
         FixedStay, OnlyRepresentatives, Copied, BecameBinary;
    var c := s.clauses[i];
    ghost var table, fixedLits := s.clauses, s.fixedLits;
    var satisfied, clause := CopySubstituted(s, c.lits, reprs, s.external.maxVar);
    Unmark(s, clause);
    postponed', newUnit, newBinary := postponed, false, false;
    NotBinary(c);
    if satisfied {
      postponed' := postponed + [i];
      StepSatisfied(cs0, table, fixedLits, postponed, reprs, i);
      return;
    }
    CopiedMeans(c.lits, clause, reprs, s.fixedLits);
    LearnedAt(s.original, s.clauses, s.fixedLits, i);
    ReplacedIsImplied(s.original, c.lits, clause, reprs, s.fixedLits);
    NewLitsMean(clause, reprs, s.fixedLits);
    if clause == [] {
      EmptyIsUnsatisfiable(s.original);
      s.clauseId := s.clauseId + 1;
      s.unsat := true;
    } else if |clause| == 1 {
      var u := clause[0];
      assert u in clause && u !in fixedLits;
      ReplaceByUnit(s, i, clause, reprs);
      StepUnit(cs0, table, fixedLits, postponed, reprs, i, clause);
      newUnit := true;
    } else {
      newBinary := ReplaceByLonger(s, cs0, i, clause, reprs, postponed);
    }
  }

  /** A new clause is needed if one of the two watched literals changes; else the old one is shrunken. */
  method ReplaceByLonger(s: Internal, ghost cs0: seq<ClauseRecord>, i: nat, clause: Clause, reprs: map<int, int>,
                         ghost postponed: seq<int>) returns (newBinary: bool)
    requires Ready(s, reprs) && Progress(cs0, s.clauses, s.fixedLits, postponed, reprs, i)
    requires i < |cs0| <= |s.clauses| && !s.clauses[i].garbage && 2 <= |clause| <= |s.clauses[i].lits|
    requires NewLits(clause, reprs, s.fixedLits) && Implies(s.original, Lits(clause))
    requires Lits(clause) <= ImageOf(s.clauses[i].lits, reprs) && OnlyRepresentatives(clause, reprs)
    modifies s`clauses, s`clauseId
    ensures Ready(s, reprs) && Progress(cs0, s.clauses, s.fixedLits, postponed, reprs, i + 1)
    ensures |old(s.clauses)| <= |s.clauses|
    ensures forall k :: 0 <= k < |old(s.clauses)| && k != i ==> s.clauses[k] == old(s.clauses)[k]
    ensures newBinary <==> BecameBinary(old(s.clauses)[i], s.clauses[i])
    ensures if s.clauses[i].id == old(s.clauses)[i].id then old(s.clauseId) <= s.clauseId
            else s.clauses[i].id == s.clauseId == old(s.clauseId) + 1
  {
    hide ImageOf, Equivalences, Implies, Learned, Progress, NewLits, GoodReprs, FixedStay, OnlyRepresentatives,
         BecameBinary, Lits, Settled, GoodRecord, Flatten, GoodEntry;
    var c := s.clauses[i];
    ghost var table := s.clauses;
    if c.lits[0] != clause[0] || c.lits[1] != clause[1] {
      newBinary := |clause| == 2;
      ReplaceByNew(s, i, clause, reprs);
    } else {
      newBinary := |clause| == 2 && |c.lits| > 2;
      ShrinkInPlace(s, i, clause, reprs);
    }
    BecameBinaryIff(c, s.clauses[i], clause);
    StepReplaced(cs0, table, s.fixedLits, postponed, reprs, i, s.clauses);
  }

  lemma StartProgress(cs: seq<ClauseRecord>, fixedLits: set<int>, reprs: map<int, int>)
    ensures Progress(cs, cs, fixedLits, [], reprs, 0)
  {
  }

  lemma StepGarbage(cs0: seq<ClauseRecord>, cs: seq<ClauseRecord>, fixedLits: set<int>, postponed: seq<int>,
                    reprs: map<int, int>)
    requires Progress(cs0, cs, fixedLits, postponed, reprs, |cs0|) && postponed != []
    ensures |cs0| <= |cs| && 0 <= postponed[0] < |cs0|
    ensures Progress(cs0, cs[postponed[0] := cs[postponed[0]].(garbage := true)], fixedLits, postponed[1..], reprs,
              |cs0|)
  {
    hide ImageOf, TriviallyTrue, OnlyRepresentatives;
    var p := postponed[0];
    assert p in postponed;
    forall k ensures k in postponed <==> k == p || k in postponed[1..] {
      assert postponed == [p] + postponed[1..];
    }
    var cs' := cs[p := cs[p].(garbage := true)];
    forall k | 0 <= k < |cs0| && !cs0[k].garbage
      ensures Kept(cs'[k], cs0[k].redundant, k in postponed[1..], fixedLits, ImageOf(cs0[k].lits, reprs))
    {
      assert Kept(cs[k], cs0[k].redundant, k in postponed, fixedLits, ImageOf(cs0[k].lits, reprs));
    }
  }

  lemma ReadyGarbage(original: Formula, cs: seq<ClauseRecord>, fixedLits: set<int>, i: nat)
    requires Learned(original, cs, fixedLits) && i < |cs|
    ensures Learned(original, cs[i := cs[i].(garbage := true)], fixedLits)
  {
    hide Implies;
  }

  /** Only the given clauses became garbage. */
  ghost predicate OnlyThese(cs: seq<ClauseRecord>, ds: seq<ClauseRecord>, l: seq<int>) {
    |ds| == |cs| && forall k :: 0 <= k < |cs| ==> ds[k] == cs[k] || (k in l && ds[k] == cs[k].(garbage := true))
  }

  /** Clauses that were not replaced do not count when they become garbage. */
  lemma OnlyTheseBinary(cs0: seq<ClauseRecord>, cs: seq<ClauseRecord>, ds: seq<ClauseRecord>, l: seq<int>, n: nat)
    requires OnlyThese(cs, ds, l) && |cs0| <= |cs|
    requires forall k :: k in l ==> 0 <= k < |cs0| && cs[k].lits == cs0[k].lits
    ensures NewBinary(cs0, ds, n) <==> NewBinary(cs0, cs, n)
  {
    if k :| 0 <= k < n && k < |cs0| && BecameBinary(cs0[k], cs[k]) {
      assert BecameBinary(cs0[k], ds[k]);
    }
  }

  /** The clauses that became true are marked as garbage after all others have been replaced. */
  method MarkPostponed(s: Internal, ghost cs0: seq<ClauseRecord>, postponed: seq<int>, reprs: map<int, int>)
    requires Ready(s, reprs) && Progress(cs0, s.clauses, s.fixedLits, postponed, reprs, |cs0|)
    modifies s`clauses
    ensures Ready(s, reprs) && Progress(cs0, s.clauses, s.fixedLits, [], reprs, |cs0|)
    ensures OnlyThese(old(s.clauses), s.clauses, postponed)
  {
    hide Progress, Implies, Learned, Equivalences;
    assert postponed[0..] == postponed;
    for k := 0 to |postponed|
      invariant Ready(s, reprs) && Progress(cs0, s.clauses, s.fixedLits, postponed[k..], reprs, |cs0|)
      invariant OnlyThese(old(s.clauses), s.clauses, postponed)
    {
      assert postponed[k] in postponed;
      StepGarbage(cs0, s.clauses, s.fixedLits, postponed[k..], reprs);
      assert postponed[k..][0] == postponed[k] && postponed[k..][1..] == postponed[k + 1..];
      ReadyGarbage(s.original, s.clauses, s.fixedLits, postponed[k]);
      s.MarkGarbage(postponed[k]);
    }
    assert postponed[|postponed|..] == [];
  }

  lemma NoNewBinary(cs: seq<ClauseRecord>)
    ensures forall n :: !NewBinary(cs, cs, n)
  {
  }

  /** Goes over all clauses; those that became true are garbage in the end. */
  method SubstituteClauses(s: Internal, reprs: map<int, int>, substituted: nat) returns (newUnit: bool, newBinary: bool)
    requires Ready(s, reprs) && !s.unsat
    modifies s`clauses, s`fixedLits, s`marks, s`clauseId, s`unsat
    ensures s.unsat ==> !Satisfiable(s.original)
    ensures !s.unsat ==> Ready(s, reprs) && newUnit == (s.fixedLits != old(s.fixedLits))
    ensures !s.unsat ==> old(s.fixedLits) <= s.fixedLits
    ensures !s.unsat && substituted != 0 ==>
              Progress(old(s.clauses), s.clauses, s.fixedLits, [], reprs, |old(s.clauses)|)
    ensures substituted == 0 ==> !s.unsat && s.clauses == old(s.clauses) && s.fixedLits == old(s.fixedLits)
    ensures !s.unsat ==> (newBinary <==> NewBinary(old(s.clauses), s.clauses, |old(s.clauses)|))
    ensures old(s.clauseId) <= s.clauseId && (s.unsat ==> old(s.clauseId) < s.clauseId)
  {
    hide Ready, Progress, OnlyRepresentatives, NewBinary, BecameBinary, OnlyThese;
    NoNewBinary(s.clauses);
    newUnit, newBinary := false, false;
    ghost var cs0, fixed0 := s.clauses, s.fixedLits;
    var size := |s.clauses|;
    var postponed: seq<int> := [];
    StartProgress(cs0, s.fixedLits, reprs);
    var i := 0;
    while substituted != 0 && !s.unsat && i < size
      invariant 0 <= i <= size == |cs0| && (substituted == 0 ==> i == 0)
      invariant s.unsat ==> substituted != 0 && !Satisfiable(s.original)
      invariant !s.unsat ==> Ready(s, reprs) && Progress(cs0, s.clauses, s.fixedLits, postponed, reprs, i)
      invariant !s.unsat ==> newUnit == (s.fixedLits != fixed0) && fixed0 <= s.fixedLits
      invariant substituted == 0 ==> s.clauses == old(s.clauses) && s.fixedLits == old(s.fixedLits) && postponed == []
      invariant substituted != 0 && !s.unsat ==> (newBinary <==> NewBinary(cs0, s.clauses, i))
      invariant |cs0| <= |s.clauses| && forall k :: i <= k < |cs0| ==> s.clauses[k] == cs0[k]
      invariant forall k :: k in postponed ==> 0 <= k < i && s.clauses[k].lits == cs0[k].lits
      invariant substituted == 0 ==> !newBinary
      invariant old(s.clauseId) <= s.clauseId && (s.unsat ==> old(s.clauseId) < s.clauseId)
      decreases size - i
    {
      ProgressSizes(cs0, s.clauses, s.fixedLits, postponed, reprs, i);
      var c := s.clauses[i];
      ghost var cs := s.clauses;
      if c.garbage {
        StepUnchanged(cs0, s.clauses, s.fixedLits, postponed, reprs, i);
      } else {
        ReadyClause(s, reprs, i);
        var j := FirstSubstituted(c.lits, reprs);
        if j == |c.lits| {
          StepUnchanged(cs0, s.clauses, s.fixedLits, postponed, reprs, i);
        } else {
          var unit, binary;
          postponed, unit, binary := ReplaceClause(s, cs0, i, reprs, postponed);
          newUnit, newBinary := newUnit || unit, newBinary || binary;
        }
      }
      NotBinary(cs0[i]);
      NewBinaryStep(cs0, cs, s.clauses, i, i + 1);
      i := i + 1;
    }
    ghost var ds := s.clauses;
    if !s.unsat && postponed != [] {
      MarkPostponed(s, cs0, postponed, reprs);
      OnlyTheseBinary(cs0, ds, s.clauses, postponed, |cs0|);
    }
  }

  // ---------------------------------------------------------------- the whole round

  /** Every clause of the old formula holds after substitution in models of the new one. */
  lemma ImagesHold(cs0: seq<ClauseRecord>, cs: seq<ClauseRecord>, fixed0: set<int>, fixedLits: set<int>, reprs: map<int,
                   int>, maxVar: nat)
    requires Progress(cs0, cs, fixedLits, [], reprs, |cs0|) && fixed0 <= fixedLits && FixedStay(reprs, fixedLits)
    requires GoodReprs(reprs, maxVar) && forall k :: 0 <= k < |cs0| ==> 0 !in cs0[k].lits
    ensures forall m, s ::
      Models(m, FormulaOf(cs, fixedLits)) && s in FormulaOf(cs0, fixed0) ==> Holds(m, Image(s, Renaming(reprs)))
  {
    hide Image, OnlyRepresentatives;
    forall m, s | Models(m, FormulaOf(cs, fixedLits)) && s in FormulaOf(cs0, fixed0)
      ensures Holds(m, Image(s, Renaming(reprs)))
    {
      if k :| 0 <= k < |cs0| && cs0[k].Live() && s == Lits(cs0[k].lits) {
        KeptHolds(m, cs, fixedLits, k, cs0[k].lits, reprs, maxVar);
      } else {
        var u :| u in fixed0 && s == {u};
        UnitImageHolds(m, cs, fixedLits, u, reprs);
      }
    }
  }

  lemma UnitImageHolds(m: Assignment, cs: seq<ClauseRecord>, fixedLits: set<int>, u: int, reprs: map<int, int>)
    requires Models(m, FormulaOf(cs, fixedLits)) && u in fixedLits && FixedStay(reprs, fixedLits)
    ensures Holds(m, Image({u}, Renaming(reprs)))
  {
    assert {u} in FormulaOf(cs, fixedLits) && u in {u};
    assert Holds(m, {u});
    assert Renaming(reprs)(u) == u;
    assert u in Image({u}, Renaming(reprs));
  }

  lemma KeptHolds(m: Assignment, cs: seq<ClauseRecord>, fixedLits: set<int>, k: nat, c: Clause, reprs: map<int, int>,
                  maxVar: nat)
    requires Models(m, FormulaOf(cs, fixedLits)) && k < |cs| && Kept(cs[k], false, false, fixedLits, ImageOf(c, reprs))
    requires GoodReprs(reprs, maxVar) && 0 !in c
    ensures Holds(m, ImageOf(c, reprs))
  {
    var img := ImageOf(c, reprs);
    if u :| u in img && u in fixedLits {
      assert {u} in FormulaOf(cs, fixedLits);
      assert Holds(m, {u});
    } else if y :| y in img && -y in img {
      var x :| x in Lits(c) && Renaming(reprs)(x) == y;
      assert y != 0;
      assert True(m, y) || True(m, -y);
    } else {
      assert Lits(cs[k].lits) in FormulaOf(cs, fixedLits);
      assert Holds(m, Lits(cs[k].lits));
    }
  }

  lemma LearnedIsWeaker(original: Formula, cs: seq<ClauseRecord>, fixedLits: set<int>)
    requires Learned(original, cs, fixedLits)
    ensures Weaker(original, FormulaOf(cs, fixedLits))
  {
    forall m | Models(m, original) ensures Models(m, FormulaOf(cs, fixedLits)) {
      forall s | s in FormulaOf(cs, fixedLits) ensures Holds(m, s) {
        if k :| 0 <= k < |cs| && cs[k].Live() && s == Lits(cs[k].lits) {
          assert Implies(original, Lits(cs[k].lits));
        } else {
          var u :| u in fixedLits && s == {u};
          assert Implies(original, {u});
        }
      }
    }
  }

  /** Substitution keeps what the solver promises. */
  lemma SubstitutionKeeps(original: Formula, cs0: seq<ClauseRecord>, fixed0: set<int>, stack: seq<Entry>,
                          es: seq<Entry>,
                          cs: seq<ClauseRecord>, fixedLits: set<int>, reprs: map<int, int>, maxVar: nat)
    requires Reconstructs(original, State(FormulaOf(cs0, fixed0), stack)) && GoodReprs(reprs, maxVar)
    requires EquivalenceEntries(es, Substituted(reprs, maxVar), Renaming(reprs))
    requires Progress(cs0, cs, fixedLits, [], reprs, |cs0|) && fixed0 <= fixedLits && FixedStay(reprs, fixedLits)
    requires Learned(original, cs, fixedLits) && 0 !in fixedLits
    requires (forall k :: 0 <= k < |cs0| ==> GoodRecord(cs0[k], maxVar))
    requires forall k :: 0 <= k < |cs| ==> GoodRecord(cs[k], maxVar)
    ensures Reconstructs(original, State(FormulaOf(cs, fixedLits), stack + es))
  {
    hide Reconstructs, Progress, FixedStay, GoodReprs, Learned, Representatives, EquivalenceEntries, FormulaOf, Image,
         Substituted, Weaker, NonZeroFormula;
    var f, g := FormulaOf(cs0, fixed0), FormulaOf(cs, fixedLits);
    GoodFormulaIsNonZero(cs0, fixed0, maxVar);
    GoodFormulaIsNonZero(cs, fixedLits, maxVar);
    SubstitutedAreRepresentatives(reprs, maxVar);
    ImagesHold(cs0, cs, fixed0, fixedLits, reprs, maxVar);
    LearnedIsWeaker(original, cs, fixedLits);
    var t := Substitute(es, Substituted(reprs, maxVar), Renaming(reprs));
    NextKeeps(t, original, State(f, stack), State(g, stack + Pushed(t)));
  }

  /** Learned clauses follow from the given formula. */
  ghost predicate RedundantLearned(original: Formula, cs: seq<ClauseRecord>) {
    forall k :: 0 <= k < |cs| && !cs[k].garbage && cs[k].redundant ==> Implies(original, Lits(cs[k].lits))
  }

  lemma SoundIsLearned(original: Formula, cs: seq<ClauseRecord>, fixedLits: set<int>)
    requires Weaker(original, FormulaOf(cs, fixedLits)) && RedundantLearned(original, cs)
    ensures Learned(original, cs, fixedLits)
  {
    forall k | 0 <= k < |cs| && cs[k].Live() ensures Implies(original, Lits(cs[k].lits)) {
      InFormula(cs, fixedLits, k);
    }
    forall u | u in fixedLits ensures Implies(original, {u}) {
      assert {u} in FormulaOf(cs, fixedLits);
    }
  }

  /** The clause has no literal of a substituted variable. */
  ghost predicate NoSubstituted(c: Clause, reprs: map<int, int>) {
    forall x :: x in c && x in reprs ==> reprs[x] == x
  }

  ghost predicate AllReplaced(cs: seq<ClauseRecord>, reprs: map<int, int>) {
    forall k :: 0 <= k < |cs| && !cs[k].garbage ==> NoSubstituted(cs[k].lits, reprs)
  }

  /** The variables in clauses are active or assigned, and no active variable is assigned. */
  ghost predicate Situated(cs: seq<ClauseRecord>, fixedLits: set<int>, active: set<int>) {
    && (forall u :: u in fixedLits ==> Abs(u) !in active)
    && forall k, x ::
         0 <= k < |cs| && !cs[k].garbage && x in cs[k].lits ==> Abs(x) in active || x in fixedLits || -x in fixedLits
  }

  lemma SituatedMeans(cs: seq<ClauseRecord>, fixedLits: set<int>, g: Graph, frozen: set<int>, reprs: map<int, int>,
                      smallest: map<int, int>)
    requires Situated(cs, fixedLits, g.active) && Complete(g, frozen, reprs, smallest)
    ensures FixedStay(reprs, fixedLits)
    ensures forall k :: 0 <= k < |cs| && !cs[k].garbage ==> Settled(cs[k].lits, reprs, fixedLits)
  {
    hide SmallestOf, Conflicting;
    forall u | u in fixedLits ensures u !in reprs && -u !in reprs {
      assert Abs(-u) == Abs(u);
    }
  }

  lemma NothingLeft(cs0: seq<ClauseRecord>, cs: seq<ClauseRecord>, fixedLits: set<int>, reprs: map<int, int>)
    requires Progress(cs0, cs, fixedLits, [], reprs, |cs0|)
    ensures AllReplaced(cs, reprs)
  {
    forall k | 0 <= k < |cs| && !cs[k].garbage ensures NoSubstituted(cs[k].lits, reprs) {
      assert k < |cs0| && OnlyRepresentatives(cs[k].lits, reprs);
    }
  }

  /** With nothing to substitute nothing is pushed and nothing has to be replaced. */
  lemma NothingToDo(original: Formula, cs: seq<ClauseRecord>, fixedLits: set<int>, stack: seq<Entry>, es: seq<Entry>,
                    reprs: map<int, int>, maxVar: nat)
    requires Counted(reprs, 0) && Reconstructs(original, State(FormulaOf(cs, fixedLits), stack))
    requires EquivalenceEntries(es, Substituted(reprs, maxVar), Renaming(reprs))
    ensures Reconstructs(original, State(FormulaOf(cs, fixedLits), stack + es))
    ensures AllReplaced(cs, reprs)
  {
    hide Reconstructs, FormulaOf;
    NothingSubstituted(reprs, maxVar);
    assert es == [] && stack + es == stack;
  }

  lemma ConflictMeans(original: Formula, g: Graph, maxVar: nat, x: int)
    requires GoodGraph(g, maxVar) && EdgesImplied(original, g) && Abs(x) in g.active && Conflicting(g, x)
    ensures !Satisfiable(original)
  {
    hide Conflicting, EdgesImplied, SkewSymmetric;
    ConflictIsUnsatisfiable(original, g, x);
  }

  /** What a round may rely on. */
  ghost predicate RoundReady(s: Internal, g: Graph)
    reads s, s.external
  {
    && s.Valid() && s.Sound() && s.occs == map[] && s.marks == {} && RedundantLearned(s.original, s.clauses)
    && GoodGraph(g, s.external.maxVar) && EdgesImplied(s.original, g) && Situated(s.clauses, s.fixedLits, g.active)
  }

  lemma RoundParts(s: Internal, g: Graph)
    requires RoundReady(s, g)
    ensures GoodGraph(g, s.external.maxVar) && EdgesImplied(s.original, g) && Situated(s.clauses, s.fixedLits, g.active)
    ensures s.external.Valid() && Reconstructs(s.original, State(FormulaOf(s.clauses, s.fixedLits), s.external.entries))
    ensures Weaker(s.original, FormulaOf(s.clauses, s.fixedLits)) && RedundantLearned(s.original, s.clauses)
  {
    hide GoodGraph, EdgesImplied, Situated, RedundantLearned, FormulaOf, Weaker;
  }

  lemma RoundBecomesReady(s: Internal, g: Graph, frozen: set<int>, reprs: map<int, int>, smallest: map<int, int>)
    requires RoundReady(s, g) && Complete(g, frozen, reprs, smallest)
    ensures Ready(s, reprs)
  {
    hide GoodGraph, EdgesImplied, Situated, RedundantLearned, FormulaOf, Weaker, Complete, GoodReprs, FixedStay,
         Equivalences, Learned, Settled;
    CompleteIsGood(g, s.external.maxVar, frozen, reprs, smallest);
    CompleteIsEquivalent(s.original, g, s.external.maxVar, frozen, reprs, smallest);
    SituatedMeans(s.clauses, s.fixedLits, g, frozen, reprs, smallest);
    SoundIsLearned(s.original, s.clauses, s.fixedLits);
  }

  /** The search for components, with all its state left behind. */
  method FindTable(g: Graph, maxVar: nat, frozen: set<int>)
    returns (unsat: bool, reprs: map<int, int>, substituted: nat, ghost smallest: map<int, int>)
    requires GoodGraph(g, maxVar)
    ensures unsat ==> exists x :: Abs(x) in g.active && Conflicting(g, x)
    ensures !unsat ==> Complete(g, frozen, reprs, smallest) && Counted(reprs, substituted)
  {
    hide Complete, Counted, Conflicting, SearchOk;
    var d := new Decomposer(g, maxVar, frozen);
    d.FindComponents();
    unsat, reprs, substituted, smallest := d.unsat, d.reprs, d.substituted, d.smallest;
  }

  /** What the search means for the given formula. */
  method FindRepresentatives(s: Internal, g: Graph, frozen: set<int>)
    returns (unsat: bool, reprs: map<int, int>, substituted: nat, ghost smallest: map<int, int>)
    requires RoundReady(s, g)
    ensures unsat ==> !Satisfiable(s.original)
    ensures !unsat ==> Complete(g, frozen, reprs, smallest) && Counted(reprs, substituted) && Ready(s, reprs)
  {
    hide Complete, EdgesImplied, GoodGraph, Situated, Counted, Conflicting, RoundReady, Ready;
    RoundParts(s, g);
    unsat, reprs, substituted, smallest := FindTable(g, s.external.maxVar, frozen);
    if unsat {
      ghost var x :| Abs(x) in g.active && Conflicting(g, x);
      ConflictMeans(s.original, g, s.external.maxVar, x);
    } else {
      RoundBecomesReady(s, g, frozen, reprs, smallest);
    }
  }

  /** The equivalences are pushed, then all clauses are replaced. */
  method SubstituteAll(s: Internal, reprs: map<int, int>, substituted: nat) returns (success: bool)
    requires Ready(s, reprs) && !s.unsat && Counted(reprs, substituted) && s.Sound()
    modifies s`clauses, s`fixedLits, s`marks, s`clauseId, s`unsat, s.external`extension, s.external`entries
    ensures s.unsat ==> success && !Satisfiable(s.original)
    ensures !s.unsat ==> Ready(s, reprs) && s.Sound()
    ensures !s.unsat ==> AllReplaced(s.clauses, reprs)
    ensures !s.unsat ==> (success <==> s.fixedLits != old(s.fixedLits)
                                       || NewBinary(old(s.clauses), s.clauses, |old(s.clauses)|))
    ensures !s.unsat ==> s.clauses == old(s.clauses)
                         || Progress(old(s.clauses), s.clauses, s.fixedLits, [], reprs, |old(s.clauses)|)
    ensures old(s.clauseId) <= s.clauseId && (s.unsat ==> old(s.clauseId) < s.clauseId)
  {
    NoNewBinary(s.clauses);
    hide NewBinary, Counted, GoodReprs, Equivalences, FixedStay, Settled, Learned, Reconstructs, Progress, FormulaOf,
         EquivalenceEntries, NoSubstituted;
    ghost var cs0, fixed0, stack0 := s.clauses, s.fixedLits, s.external.entries;
    ghost var es := PushEquivalences(s, reprs, substituted);
    var newUnit, newBinary := SubstituteClauses(s, reprs, substituted);
    success := s.unsat || (substituted > 0 && (newUnit || newBinary));
    if !s.unsat {
      if substituted == 0 {
        NothingToDo(s.original, s.clauses, s.fixedLits, stack0, es, reprs, s.external.maxVar);
      } else {
        SubstitutionKeeps(s.original, cs0, fixed0, stack0, es, s.clauses, s.fixedLits, reprs, s.external.maxVar);
        NothingLeft(cs0, s.clauses, s.fixedLits, reprs);
      }
    }
  }

  lemma LearnedIsRedundantLearned(original: Formula, cs: seq<ClauseRecord>, fixedLits: set<int>)
    requires Learned(original, cs, fixedLits)
    ensures RedundantLearned(original, cs)
  {
    hide Implies;
  }

  lemma ReadyParts(s: Internal, reprs: map<int, int>)
    requires Ready(s, reprs)
    ensures s.Valid() && s.marks == {} && RedundantLearned(s.original, s.clauses)
  {
    LearnedIsRedundantLearned(s.original, s.clauses, s.fixedLits);
  }

  lemma RoundIsSound(s: Internal, g: Graph)
    requires RoundReady(s, g)
    ensures s.Sound()
  {
  }

  /** One round of equivalent literal substitution. */
  method DecomposeRound(s: Internal, g: Graph, frozen: set<int>)
    returns (success: bool, ghost reprs: map<int, int>, ghost smallest: map<int, int>)
    requires RoundReady(s, g)
    modifies s`clauses, s`fixedLits, s`marks, s`clauseId, s`unsat, s.external`extension, s.external`entries
    ensures old(s.unsat) ==> !success && s.unsat && s.clauses == old(s.clauses)
    ensures old(s.unsat) ==> s.external.entries == old(s.external.entries)
    ensures s.unsat && !old(s.unsat) ==> success && !Satisfiable(s.original)
    ensures !s.unsat ==> s.Valid() && s.Sound() && RedundantLearned(s.original, s.clauses) && s.marks == {}
    ensures !s.unsat ==> Complete(g, frozen, reprs, smallest)
    ensures !s.unsat ==> AllReplaced(s.clauses, reprs)
    ensures !s.unsat ==> (success <==> s.fixedLits != old(s.fixedLits)
                                       || NewBinary(old(s.clauses), s.clauses, |old(s.clauses)|))
    ensures !s.unsat ==> s.clauses == old(s.clauses)
                         || Progress(old(s.clauses), s.clauses, s.fixedLits, [], reprs, |old(s.clauses)|)
    ensures old(s.clauseId) <= s.clauseId && (s.unsat && !old(s.unsat) ==> old(s.clauseId) < s.clauseId)
  {
    hide *;
    reprs, smallest := map[], map[];
    if s.unsat {
      return false, reprs, smallest;
    }
    var unsat, table, substituted;
    unsat, table, substituted, smallest := FindRepresentatives(s, g, frozen);
    if unsat {
      s.clauseId := s.clauseId + 1;
      s.unsat := true;
      return true, reprs, smallest;
    }
    reprs := table;
    RoundIsSound(s, g);
    success := SubstituteAll(s, table, substituted);
    if !s.unsat {
      ReadyParts(s, table);
    }
  }
}
